/**
 * `CatalogService`: the catalog upsert. The CSV text is parsed, the ids already stored are read
 * once, the target day's collection is found or created, and each row is skipped, inserted as
 * a new book, used to refresh the stored book, or linked as it is; one save ends the run.
 */
module CatalogService {
  import opened Wrappers
  import opened Strings
  import opened Platform
  import opened Books
  import opened DailyCollections
  import opened Store
  import opened CsvParser

  /** The counters the import reports. */
  datatype ImportCounts = ImportCounts(inserted: nat, updated: nat, linked: nat)

  /**
   * The fetches of an import that can throw, each failure only logged: reading the stored ids,
   * fetching the target day's collection, and fetching the stored book for the rows at the
   * positions in `bookFetch`.
   */
  datatype ImportFaults = ImportFaults(idFetch: bool, collectionFetch: bool, bookFetch: set<nat>)

  /** The store contents, the counters and the unsaved inserts, part way through an import. */
  datatype ImportState = ImportState(snap: Snapshot, counts: ImportCounts, pending: seq<PendingInsert>)

  // ---------------------------------------------------------------------------
  // Reference definitions
  // ---------------------------------------------------------------------------

  /**
   * Finding the target day's collection, or creating and inserting an empty one when there is
   * none or its fetch fails; the insert then replaces the stored collection of that day.
   */
  function WithTarget(st: ImportState, target: Option<int>, fetchFails: bool): ImportState {
    if target.None? || (target.value in st.snap.members && !fetchFails) then st
    else
      st.(snap := st.snap.(members := st.snap.members[target.value := []]),
          pending := st.pending + [InsertedCollection(target.value)])
  }

  /** Adding `id` to the target day's members unless a member already has it. */
  function LinkTo(st: ImportState, target: Option<int>, id: string): ImportState {
    if target.None? || target.value !in st.snap.members then st
    else
      var members := st.snap.members[target.value];
      if id in members then st
      else
        st.(snap := st.snap.(members := st.snap.members[target.value := members + [id]]),
            counts := st.counts.(linked := st.counts.linked + 1))
  }

  /** A row whose id was stored before the loop: refreshed when there is no target, else linked. */
  function KnownRowStep(h: Host, target: Option<int>, st: ImportState, id: string, row: seq<string>): ImportState
    requires id in st.snap.books
  {
    if target.None? then
      match UpdatedFromRow(h, st.snap.books[id], row)
      case Failure(_) => st
      case Success(d) =>
        st.(snap := st.snap.(books := st.snap.books[id := d]),
            counts := st.counts.(updated := st.counts.updated + 1))
    else LinkTo(st, target, id)
  }

  /** A row whose id was not stored before the loop: a new book inserted and linked, if the row makes one. */
  function NewRowStep(h: Host, target: Option<int>, st: ImportState, id: string, row: seq<string>): ImportState {
    match BookFromRow(h, row)
    case Failure(_) => st
    case Success(d) => LinkTo(Added(st, id, d), target, id)
  }

  /** The book `d` inserted under `id` and counted. */
  function Added(st: ImportState, id: string, d: BookData): ImportState {
    st.(snap := st.snap.(books := st.snap.books[id := d]),
        counts := st.counts.(inserted := st.counts.inserted + 1),
        pending := st.pending + [InsertedBook(id)])
  }

  /**
   * What one row does, given the ids `known` before the loop; a stored id whose book fetch
   * fails, or finds nothing, skips the row.
   */
  function ImportStep(h: Host, known: set<string>, target: Option<int>, st: ImportState, row: seq<string>,
                      fetchFails: bool): ImportState
  {
    if row == [] then st
    else
      var id := StripQuotes(row[0]);
      if id in known then
        if fetchFails || id !in st.snap.books then st else KnownRowStep(h, target, st, id, row)
      else NewRowStep(h, target, st, id, row)
  }

  /** The rows processed in order; the book fetch fails for the rows at the positions in `failing`. */
  function ImportRows(h: Host, known: set<string>, target: Option<int>, st: ImportState, rows: seq<seq<string>>,
                      failing: set<nat>): ImportState
    decreases |rows|
  {
    if rows == [] then st
    else
      var n := |rows| - 1;
      ImportStep(h, known, target, ImportRows(h, known, target, st, rows[..n], failing), rows[n], n in failing)
  }

  /** The ids read before the loop: all stored ids, or none when that fetch fails. */
  function KnownIds(start: Snapshot, idFetchFails: bool): set<string> {
    if idFetchFails then {} else start.books.Keys
  }

  /** The whole import from the stored `start` and unsaved `pending`, before the save. */
  function ImportSpec(h: Host, start: Snapshot, pending: seq<PendingInsert>, rows: seq<seq<string>>,
                      target: Option<int>, faults: ImportFaults): ImportState
  {
    var initial := WithTarget(ImportState(start, ImportCounts(0, 0, 0), pending), target, faults.collectionFetch);
    ImportRows(h, KnownIds(start, faults.idFetch), target, initial, rows, faults.bookFetch)
  }

  /**
   * A row the loop acts on: a non-empty row whose id was stored before the loop and whose book
   * fetch succeeds, or whose id is new and that makes a book.
   */
  predicate Accepted(h: Host, known: set<string>, row: seq<string>, fetchFails: bool) {
    row != [] && (if StripQuotes(row[0]) in known then !fetchFails else BookFromRow(h, row).Success?)
  }

  // ---------------------------------------------------------------------------
  // Properties of the import
  // ---------------------------------------------------------------------------

  /** Linking a stored id keeps the store well formed and only ever extends the target's members. */
  lemma LinkToKeeps(st: ImportState, target: Option<int>, id: string)
    requires WellFormed(st.snap) && id in st.snap.books
    ensures var r := LinkTo(st, target, id);
            && WellFormed(r.snap) && r.snap.books == st.snap.books && r.pending == st.pending
            && r.snap.members.Keys == st.snap.members.Keys
            && r.counts.inserted == st.counts.inserted && r.counts.updated == st.counts.updated
            && (forall d :: d in st.snap.members && (target.None? || d != target.value) ==> r.snap.members[d] == st.snap.members[d])
            && (target.Some? && target.value in st.snap.members ==>
                  && st.snap.members[target.value] <= r.snap.members[target.value]
                  && id in r.snap.members[target.value]
                  && |r.snap.members[target.value]| - |st.snap.members[target.value]| == r.counts.linked - st.counts.linked)
            && (target.None? ==> r == st)
  {
    var r := LinkTo(st, target, id);
    if target.Some? && target.value in st.snap.members && id !in st.snap.members[target.value] {
      var t := target.value;
      AppendNewKeepsNoDuplicates(st.snap.members[t], id);
      forall d, k | d in r.snap.members && 0 <= k < |r.snap.members[d]|
        ensures r.snap.members[d][k] in r.snap.books
      {
        if d == t && k == |st.snap.members[t]| {
          assert r.snap.members[d][k] == id;
        } else if d == t {
          assert r.snap.members[d][k] == st.snap.members[t][k];
        }
      }
    }
  }

  /**
   * What the loop keeps from state `a` to state `b`: a well-formed store, every stored id and
   * every day; one pending insert per inserted book; other days untouched; the target's members
   * only extended, by exactly the linked count; and the books stored before the loop keep their
   * id and reading state (all of their fields when linking).
   */
  predicate Grows(known: set<string>, target: Option<int>, a: ImportState, b: ImportState) {
    && WellFormed(b.snap) && a.snap.books.Keys <= b.snap.books.Keys
    && b.snap.members.Keys == a.snap.members.Keys
    && b.counts.inserted >= a.counts.inserted
    && |b.pending| - |a.pending| == b.counts.inserted - a.counts.inserted
    && (target.None? ==> b.snap.members == a.snap.members && b.counts.linked == a.counts.linked)
    && (forall d :: d in a.snap.members && (target.None? || d != target.value) ==> b.snap.members[d] == a.snap.members[d])
    && (target.Some? && target.value in a.snap.members ==>
          && a.snap.members[target.value] <= b.snap.members[target.value]
          && |b.snap.members[target.value]| - |a.snap.members[target.value]| == b.counts.linked - a.counts.linked)
    && (target.Some? ==> b.counts.updated == a.counts.updated)
    && (forall id :: id in known && id in a.snap.books ==>
          && b.snap.books[id].id == id && UserFieldsOf(b.snap.books[id]) == UserFieldsOf(a.snap.books[id])
          && (target.Some? ==> b.snap.books[id] == a.snap.books[id]))
  }

  lemma GrowsTransitive(known: set<string>, target: Option<int>, a: ImportState, b: ImportState, c: ImportState)
    requires WellFormed(a.snap) && Grows(known, target, a, b) && Grows(known, target, b, c)
    ensures Grows(known, target, a, c)
  {
    if target.Some? && target.value in a.snap.members {
      var t := target.value;
      assert a.snap.members[t] <= c.snap.members[t] by {
        assert a.snap.members[t] <= b.snap.members[t] <= c.snap.members[t];
      }
    }
  }

  /** Replacing a stored book's record by one with its id and reading state keeps what the loop keeps. */
  lemma ReplaceKeeps(known: set<string>, st: ImportState, id: string, d: BookData)
    requires WellFormed(st.snap) && id in st.snap.books
    requires d.id == id && UserFieldsOf(d) == UserFieldsOf(st.snap.books[id])
    ensures Grows(known, None, st, st.(snap := st.snap.(books := st.snap.books[id := d]),
                                       counts := st.counts.(updated := st.counts.updated + 1)))
  {
    var b := st.snap.books[id := d];
    assert forall k :: k in st.snap.books ==> k in b && b[k].id == k;
  }

  /** Refreshing a stored book keeps what the loop keeps. */
  lemma RefreshStepKeeps(h: Host, known: set<string>, st: ImportState, id: string, row: seq<string>)
    requires WellFormed(st.snap) && id in st.snap.books
    ensures Grows(known, None, st, KnownRowStep(h, None, st, id, row))
  {
    var u := UpdatedFromRow(h, st.snap.books[id], row);
    if u.Success? {
      ReplaceKeeps(known, st, id, u.value);
    }
  }

  /** A row for a book stored before the loop keeps what the loop keeps, and links the book. */
  lemma KnownStepKeeps(h: Host, known: set<string>, target: Option<int>, st: ImportState, id: string, row: seq<string>)
    requires WellFormed(st.snap) && id in st.snap.books
    ensures var r := KnownRowStep(h, target, st, id, row);
            && Grows(known, target, st, r)
            && (target.Some? && target.value in st.snap.members ==> id in r.snap.members[target.value])
  {
    if target.None? {
      RefreshStepKeeps(h, known, st, id, row);
    } else {
      LinkToKeeps(st, target, id);
    }
  }

  /** A row for a new id keeps what the loop keeps, and links the book when the row makes one. */
  lemma NewStepKeeps(h: Host, known: set<string>, target: Option<int>, st: ImportState, id: string, row: seq<string>)
    requires WellFormed(st.snap) && id !in known && |row| >= 1 && id == StripQuotes(row[0])
    ensures var r := NewRowStep(h, target, st, id, row);
            && Grows(known, target, st, r)
            && (target.Some? && target.value in st.snap.members && BookFromRow(h, row).Success? ==>
                  id in r.snap.members[target.value])
  {
    match BookFromRow(h, row)
    case Failure(_) =>
    case Success(d) =>
      var added := Added(st, id, d);
      assert WellFormed(added.snap);
      LinkToKeeps(added, target, id);
  }

  /** One row keeps what the loop keeps, and links an accepted row's id to the target day. */
  lemma StepKeeps(h: Host, known: set<string>, target: Option<int>, st: ImportState, row: seq<string>, fetchFails: bool)
    requires WellFormed(st.snap)
    ensures var r := ImportStep(h, known, target, st, row, fetchFails);
            && Grows(known, target, st, r)
            && (target.Some? && target.value in st.snap.members && Accepted(h, known, row, fetchFails) && known <= st.snap.books.Keys ==>
                  StripQuotes(row[0]) in r.snap.members[target.value])
  {
    if row != [] {
      var id := StripQuotes(row[0]);
      if id in known {
        if !fetchFails && id in st.snap.books {
          KnownStepKeeps(h, known, target, st, id, row);
        }
      } else {
        NewStepKeeps(h, known, target, st, id, row);
      }
    }
  }

  /**
   * What one row counts: an empty row does nothing; a new id is inserted and counted exactly when
   * it makes a book, and a row that makes none changes nothing; without a target, a stored book
   * is counted as updated exactly when its refresh succeeds, and a failed refresh changes nothing;
   * a stored id whose book fetch fails changes nothing.
   */
  lemma RowCounts(h: Host, known: set<string>, target: Option<int>, st: ImportState, row: seq<string>, fetchFails: bool)
    ensures row == [] ==> ImportStep(h, known, target, st, row, fetchFails) == st
    ensures row != [] && StripQuotes(row[0]) in known && fetchFails ==> ImportStep(h, known, target, st, row, fetchFails) == st
    ensures row != [] && StripQuotes(row[0]) !in known ==>
              var r := ImportStep(h, known, target, st, row, fetchFails);
              && (r.counts.inserted == st.counts.inserted + 1 <==> BookFromRow(h, row).Success?)
              && (BookFromRow(h, row).Failure? ==> r == st)
    ensures row != [] && StripQuotes(row[0]) in known && StripQuotes(row[0]) in st.snap.books && target.None? && !fetchFails ==>
              var r := ImportStep(h, known, target, st, row, fetchFails);
              var u := UpdatedFromRow(h, st.snap.books[StripQuotes(row[0])], row);
              && r.counts.inserted == st.counts.inserted && r.counts.linked == st.counts.linked
              && (r.counts.updated == st.counts.updated + 1 <==> u.Success?)
              && (u.Failure? ==> r == st)
  {
  }

  /** The row loop keeps what one row keeps. */
  lemma {:induction false} RowsKeep(h: Host, known: set<string>, target: Option<int>, st: ImportState,
                                    rows: seq<seq<string>>, failing: set<nat>)
    requires WellFormed(st.snap)
    ensures Grows(known, target, st, ImportRows(h, known, target, st, rows, failing))
    decreases |rows|
  {
    if rows != [] {
      var n := |rows| - 1;
      RowsKeep(h, known, target, st, rows[..n], failing);
      var mid := ImportRows(h, known, target, st, rows[..n], failing);
      StepKeeps(h, known, target, mid, rows[n], n in failing);
      GrowsTransitive(known, target, st, mid, ImportRows(h, known, target, st, rows, failing));
    }
  }

  lemma PrefixKeepsMember(a: seq<string>, b: seq<string>, x: string)
    requires a <= b && x in a
    ensures x in b
  {
    var i :| 0 <= i < |a| && a[i] == x;
    assert b[i] == x;
  }

  /** With a target day, one row keeps the store well formed and only adds to that day's members. */
  lemma StepKeepsTarget(h: Host, known: set<string>, target: Option<int>, st: ImportState, row: seq<string>,
                        fetchFails: bool)
    requires WellFormed(st.snap) && known <= st.snap.books.Keys
    requires target.Some? && target.value in st.snap.members
    ensures var r := ImportStep(h, known, target, st, row, fetchFails);
            && WellFormed(r.snap) && known <= r.snap.books.Keys && target.value in r.snap.members
            && st.snap.members[target.value] <= r.snap.members[target.value]
  {
    StepKeeps(h, known, target, st, row, fetchFails);
  }

  /** With a target day, one accepted row's id ends up among that day's members. */
  lemma StepLinks(h: Host, known: set<string>, target: Option<int>, st: ImportState, row: seq<string>, fetchFails: bool)
    requires WellFormed(st.snap) && known <= st.snap.books.Keys
    requires target.Some? && target.value in st.snap.members
    requires Accepted(h, known, row, fetchFails)
    ensures var r := ImportStep(h, known, target, st, row, fetchFails);
            target.value in r.snap.members && StripQuotes(row[0]) in r.snap.members[target.value]
  {
    StepKeeps(h, known, target, st, row, fetchFails);
  }

  /** With a target day, the row loop keeps the store well formed and only adds to that day's members. */
  lemma {:induction false} RowsKeepTarget(h: Host, known: set<string>, target: Option<int>, st: ImportState,
                                          rows: seq<seq<string>>, failing: set<nat>)
    requires WellFormed(st.snap) && known <= st.snap.books.Keys
    requires target.Some? && target.value in st.snap.members
    ensures var r := ImportRows(h, known, target, st, rows, failing);
            && WellFormed(r.snap) && known <= r.snap.books.Keys && target.value in r.snap.members
            && st.snap.members[target.value] <= r.snap.members[target.value]
    decreases |rows|
  {
    if rows != [] {
      var n := |rows| - 1;
      RowsKeepTarget(h, known, target, st, rows[..n], failing);
      StepKeepsTarget(h, known, target, ImportRows(h, known, target, st, rows[..n], failing), rows[n], n in failing);
    }
  }

  /** With a target day, the id of an accepted last row ends up among that day's members. */
  lemma LastRowLinked(h: Host, known: set<string>, target: Option<int>, st: ImportState,
                      rows: seq<seq<string>>, failing: set<nat>)
    requires WellFormed(st.snap) && known <= st.snap.books.Keys
    requires target.Some? && target.value in st.snap.members
    requires rows != [] && Accepted(h, known, rows[|rows| - 1], |rows| - 1 in failing)
    ensures var r := ImportRows(h, known, target, st, rows, failing);
            target.value in r.snap.members && StripQuotes(rows[|rows| - 1][0]) in r.snap.members[target.value]
  {
    var n := |rows| - 1;
    RowsKeepTarget(h, known, target, st, rows[..n], failing);
    var mid := ImportRows(h, known, target, st, rows[..n], failing);
    StepLinks(h, known, target, mid, rows[n], n in failing);
    assert ImportRows(h, known, target, st, rows, failing) == ImportStep(h, known, target, mid, rows[n], n in failing);
  }

  /** With a target day, an id already among that day's members stays there when one more row is imported. */
  lemma LinkedStaysLinked(h: Host, known: set<string>, target: Option<int>, st: ImportState,
                          rows: seq<seq<string>>, failing: set<nat>, id: string)
    requires WellFormed(st.snap) && known <= st.snap.books.Keys
    requires target.Some? && target.value in st.snap.members
    requires rows != []
    requires var mid := ImportRows(h, known, target, st, rows[..|rows| - 1], failing);
             target.value in mid.snap.members && id in mid.snap.members[target.value]
    ensures var r := ImportRows(h, known, target, st, rows, failing);
            target.value in r.snap.members && id in r.snap.members[target.value]
  {
    var n := |rows| - 1;
    RowsKeepTarget(h, known, target, st, rows[..n], failing);
    var mid := ImportRows(h, known, target, st, rows[..n], failing);
    StepKeepsTarget(h, known, target, mid, rows[n], n in failing);
    var r := ImportRows(h, known, target, st, rows, failing);
    assert r == ImportStep(h, known, target, mid, rows[n], n in failing);
    PrefixKeepsMember(mid.snap.members[target.value], r.snap.members[target.value], id);
  }

  /** With a target day, the id of an accepted row ends up among that day's members. */
  lemma {:induction false} RowLinked(h: Host, known: set<string>, target: Option<int>, st: ImportState,
                                     rows: seq<seq<string>>, failing: set<nat>, k: nat)
    requires WellFormed(st.snap) && known <= st.snap.books.Keys
    requires target.Some? && target.value in st.snap.members
    requires k < |rows| && Accepted(h, known, rows[k], k in failing)
    ensures var r := ImportRows(h, known, target, st, rows, failing);
            target.value in r.snap.members && StripQuotes(rows[k][0]) in r.snap.members[target.value]
    decreases |rows|
  {
    var n := |rows| - 1;
    if k == n {
      LastRowLinked(h, known, target, st, rows, failing);
    } else {
      var front := rows[..n];
      assert front[k] == rows[k];
      RowLinked(h, known, target, st, front, failing, k);
      LinkedStaysLinked(h, known, target, st, rows, failing, StripQuotes(rows[k][0]));
    }
  }

  /** With a target day, every accepted row's id ends up among that day's members. */
  lemma RowsLinkAccepted(h: Host, known: set<string>, target: Option<int>, st: ImportState,
                         rows: seq<seq<string>>, failing: set<nat>)
    requires WellFormed(st.snap) && known <= st.snap.books.Keys
    requires target.Some? && target.value in st.snap.members
    ensures var r := ImportRows(h, known, target, st, rows, failing);
            && target.value in r.snap.members
            && forall k :: 0 <= k < |rows| && Accepted(h, known, rows[k], k in failing) ==>
                 StripQuotes(rows[k][0]) in r.snap.members[target.value]
  {
    RowsKeepTarget(h, known, target, st, rows, failing);
    forall k | 0 <= k < |rows| && Accepted(h, known, rows[k], k in failing)
      ensures StripQuotes(rows[k][0]) in ImportRows(h, known, target, st, rows, failing).snap.members[target.value]
    {
      RowLinked(h, known, target, st, rows, failing, k);
    }
  }

  /** An import keeps the store well formed: each book under its own id, members stored and distinct. */
  lemma ImportKeepsWellFormed(h: Host, start: Snapshot, pending: seq<PendingInsert>, rows: seq<seq<string>>,
                              target: Option<int>, faults: ImportFaults)
    requires WellFormed(start)
    ensures var r := ImportSpec(h, start, pending, rows, target, faults);
            && WellFormed(r.snap) && start.books.Keys <= r.snap.books.Keys
            && r.snap.members.Keys == start.members.Keys + (if target.Some? then {target.value} else {})
            && |r.pending| == |pending| + r.counts.inserted
                              + (if target.Some? && (target.value !in start.members || faults.collectionFetch) then 1 else 0)
  {
    var initial := WithTarget(ImportState(start, ImportCounts(0, 0, 0), pending), target, faults.collectionFetch);
    RowsKeep(h, KnownIds(start, faults.idFetch), target, initial, rows, faults.bookFetch);
  }

  /** A full catalog import (no target day) links nothing and leaves every day's members as they were. */
  lemma CatalogImportLinksNothing(h: Host, start: Snapshot, pending: seq<PendingInsert>, rows: seq<seq<string>>,
                                  faults: ImportFaults)
    requires WellFormed(start)
    ensures var r := ImportSpec(h, start, pending, rows, None, faults);
            r.counts.linked == 0 && r.snap.members == start.members
  {
    RowsKeep(h, KnownIds(start, faults.idFetch), None, ImportState(start, ImportCounts(0, 0, 0), pending), rows,
             faults.bookFetch);
  }

  /**
   * With the stored ids read, a catalog import refreshes existing books but keeps their ids and
   * reading state, and a daily link import leaves them exactly as they were and refreshes none.
   */
  lemma ImportKeepsExistingBooks(h: Host, start: Snapshot, pending: seq<PendingInsert>, rows: seq<seq<string>>,
                                 target: Option<int>, faults: ImportFaults)
    requires WellFormed(start) && !faults.idFetch
    ensures var r := ImportSpec(h, start, pending, rows, target, faults);
            && (forall id :: id in start.books ==>
                  && id in r.snap.books && r.snap.books[id].id == id
                  && UserFieldsOf(r.snap.books[id]) == UserFieldsOf(start.books[id])
                  && (target.Some? ==> r.snap.books[id] == start.books[id]))
            && (target.Some? ==> r.counts.updated == 0)
  {
    var initial := WithTarget(ImportState(start, ImportCounts(0, 0, 0), pending), target, faults.collectionFetch);
    RowsKeep(h, KnownIds(start, false), target, initial, rows, faults.bookFetch);
  }

  /**
   * A daily link import puts every accepted row into the day's collection, after the members
   * the day already had (none when its fetch failed and an empty collection replaced it), and
   * `linked` counts exactly the members it added.
   */
  lemma LinkImportLinksAcceptedRows(h: Host, start: Snapshot, pending: seq<PendingInsert>, rows: seq<seq<string>>,
                                    day: int, faults: ImportFaults)
    requires WellFormed(start)
    ensures var r := ImportSpec(h, start, pending, rows, Some(day), faults);
            var before := if day in start.members && !faults.collectionFetch then start.members[day] else [];
            && day in r.snap.members && before <= r.snap.members[day]
            && |r.snap.members[day]| == |before| + r.counts.linked
            && (forall d :: d in start.members && d != day ==> d in r.snap.members && r.snap.members[d] == start.members[d])
            && (forall k :: 0 <= k < |rows| && Accepted(h, KnownIds(start, faults.idFetch), rows[k], k in faults.bookFetch) ==>
                  StripQuotes(rows[k][0]) in r.snap.members[day])
  {
    var initial := WithTarget(ImportState(start, ImportCounts(0, 0, 0), pending), Some(day), faults.collectionFetch);
    RowsKeep(h, KnownIds(start, faults.idFetch), Some(day), initial, rows, faults.bookFetch);
    RowsLinkAccepted(h, KnownIds(start, faults.idFetch), Some(day), initial, rows, faults.bookFetch);
  }

  /**
   * A new id on two rows is inserted twice: both rows are counted and leave a pending insert,
   * and the second book's record replaces the first under the same id.
   */
  lemma RepeatedNewRowCountedTwice(h: Host, known: set<string>, target: Option<int>, st: ImportState,
                                   row: seq<string>)
    requires WellFormed(st.snap) && row != [] && StripQuotes(row[0]) !in known && BookFromRow(h, row).Success?
    ensures var r := ImportRows(h, known, target, st, [row, row], {});
            && r.counts.inserted == st.counts.inserted + 2
            && |r.pending| == |st.pending| + 2
            && r.snap.books == st.snap.books[StripQuotes(row[0]) := BookFromRow(h, row).value]
  {
    assert [] + [row] == [row] && [row] + [row] == [row, row];
    NewRowAddsAfter(h, known, target, st, [], row);
    NewRowAddsAfter(h, known, target, st, [row], row);
    var id := StripQuotes(row[0]);
    var d := BookFromRow(h, row).value;
    assert st.snap.books[id := d][id := d] == st.snap.books[id := d];
  }

  /** After any rows, one more row with a new id is inserted, counted and filed under its id. */
  lemma NewRowAddsAfter(h: Host, known: set<string>, target: Option<int>, st: ImportState, rows: seq<seq<string>>,
                        row: seq<string>)
    requires WellFormed(ImportRows(h, known, target, st, rows, {}).snap)
    requires row != [] && StripQuotes(row[0]) !in known && BookFromRow(h, row).Success?
    ensures var mid := ImportRows(h, known, target, st, rows, {});
            var r := ImportRows(h, known, target, st, rows + [row], {});
            && WellFormed(r.snap)
            && r.counts.inserted == mid.counts.inserted + 1
            && |r.pending| == |mid.pending| + 1
            && r.snap.books == mid.snap.books[StripQuotes(row[0]) := BookFromRow(h, row).value]
  {
    assert (rows + [row])[..|rows|] == rows;
    NewRowAdds(h, known, target, ImportRows(h, known, target, st, rows, {}), row);
  }

  /** A row with a new id that makes a book is inserted and counted, and its record is filed under the id. */
  lemma NewRowAdds(h: Host, known: set<string>, target: Option<int>, st: ImportState, row: seq<string>)
    requires WellFormed(st.snap) && row != [] && StripQuotes(row[0]) !in known && BookFromRow(h, row).Success?
    ensures var r := ImportStep(h, known, target, st, row, false);
            && WellFormed(r.snap)
            && r.counts.inserted == st.counts.inserted + 1
            && |r.pending| == |st.pending| + 1
            && r.snap.books == st.snap.books[StripQuotes(row[0]) := BookFromRow(h, row).value]
  {
    var id := StripQuotes(row[0]);
    var d := BookFromRow(h, row).value;
    assert ImportStep(h, known, target, st, row, false) == LinkTo(Added(st, id, d), target, id);
    assert WellFormed(Added(st, id, d).snap);
    LinkToKeeps(Added(st, id, d), target, id);
  }

  // ---------------------------------------------------------------------------
  // CatalogService.importCatalog and needsInitialImport
  // ---------------------------------------------------------------------------

  /** The shape the loop keeps: a valid store, and the target collection filed under its day. */
  predicate Linkable(ctx: ModelContext, target: Option<int>, collection: Option<DailyCollection>)
    reads ctx, ctx.collections.Values
  {
    && ctx.Valid()
    && (collection.Some? <==> target.Some?)
    && (collection.Some? ==> target.value in ctx.collections && ctx.collections[target.value] == collection.value)
  }

  /**
   * Finding the target day's collection, or creating and inserting an empty one when there is
   * none or the fetch fails.
   */
  method FindOrCreateCollection(ctx: ModelContext, target: Option<int>, fetchFails: bool)
    returns (collection: Option<DailyCollection>)
    requires ctx.Valid()
    modifies ctx
    ensures Linkable(ctx, target, collection)
    ensures ctx.books == old(ctx.books) && ctx.persisted == old(ctx.persisted) && ctx.saves == old(ctx.saves)
    ensures forall d :: d in old(ctx.collections) && !(fetchFails && target == Some(d)) ==>
              d in ctx.collections && ctx.collections[d] == old(ctx.collections[d])
    ensures ctx.collections.Keys == old(ctx.collections.Keys) + (if target.Some? then {target.value} else {})
    ensures forall c :: c in ctx.collections.Values ==> c in old(ctx.collections.Values) || fresh(c)
    ensures var st := WithTarget(ImportState(old(ctx.Contents()), ImportCounts(0, 0, 0), old(ctx.pending)), target, fetchFails);
            ctx.Contents() == st.snap && ctx.pending == st.pending
  {
    collection := None;
    if target.Some? {
      if target.value in ctx.collections && !fetchFails {
        collection := Some(ctx.collections[target.value]);
      } else {
        var newCollection := new DailyCollection(target.value);
        ctx.InsertCollection(newCollection);
        collection := Some(newCollection);
      }
    }
  }

  /** Linking a processed book to the target collection unless a member has its id. */
  method LinkIfAbsent(ctx: ModelContext, target: Option<int>, collection: Option<DailyCollection>,
                      book: Book, counts: ImportCounts)
    returns (counts': ImportCounts)
    requires Linkable(ctx, target, collection) && book.id in ctx.books
    modifies ctx.collections.Values
    ensures Linkable(ctx, target, collection)
    ensures ImportState(ctx.Contents(), counts', ctx.pending)
         == LinkTo(ImportState(old(ctx.Contents()), counts, ctx.pending), target, book.id)
  {
    counts' := counts;
    if collection.Some? {
      var c := collection.value;
      assert ctx.collections[target.value].date == target.value;
      if book.id !in Ids(c.books) {
        AppendMember(ctx, c, book);
        counts' := counts'.(linked := counts'.linked + 1);
      }
    }
  }

  /** `update(from:)` on a stored book, counted when it succeeds. */
  method RefreshCounted(ctx: ModelContext, h: Host, id: string, row: seq<string>, counts: ImportCounts)
    returns (counts': ImportCounts)
    requires ctx.Valid() && id in ctx.books
    modifies ctx.books[id]
    ensures ctx.Valid()
    ensures ImportState(ctx.Contents(), counts', ctx.pending)
         == KnownRowStep(h, None, ImportState(old(ctx.Contents()), counts, ctx.pending), id, row)
  {
    ghost var st := ImportState(ctx.Contents(), counts, ctx.pending);
    ghost var r := UpdatedFromRow(h, st.snap.books[id], row);
    var error := RefreshStoredBook(ctx, h, id, row);
    if error.None? {
      counts' := counts.(updated := counts.updated + 1);
      assert r.Success? && ctx.Contents() == st.snap.(books := st.snap.books[id := r.value]);
    } else {
      counts' := counts;
      assert r.Failure? && ctx.Contents() == st.snap;
    }
  }

  /** A row for a stored book: refresh it when there is no target, else link it as it is. */
  method ProcessKnownRow(ctx: ModelContext, h: Host, target: Option<int>, collection: Option<DailyCollection>,
                         id: string, row: seq<string>, counts: ImportCounts)
    returns (counts': ImportCounts)
    requires Linkable(ctx, target, collection) && id in ctx.books
    modifies ctx.books.Values, ctx.collections.Values
    ensures Linkable(ctx, target, collection)
    ensures ImportState(ctx.Contents(), counts', ctx.pending)
         == KnownRowStep(h, target, ImportState(old(ctx.Contents()), counts, ctx.pending), id, row)
  {
    if target.None? {
      counts' := RefreshCounted(ctx, h, id, row, counts);
    } else {
      counts' := LinkIfAbsent(ctx, target, collection, ctx.books[id], counts);
    }
  }

  /** A row whose id was stored before the loop: skipped when fetching its book fails or finds none, else processed. */
  method ProcessStoredRow(ctx: ModelContext, h: Host, known: set<string>, target: Option<int>,
                          collection: Option<DailyCollection>, id: string, row: seq<string>, fetchFails: bool,
                          counts: ImportCounts)
    returns (counts': ImportCounts)
    requires Linkable(ctx, target, collection) && row != [] && id == StripQuotes(row[0]) && id in known
    modifies ctx.books.Values, ctx.collections.Values
    ensures Linkable(ctx, target, collection)
    ensures ImportState(ctx.Contents(), counts', ctx.pending)
         == ImportStep(h, known, target, ImportState(old(ctx.Contents()), counts, ctx.pending), row, fetchFails)
  {
    if fetchFails || id !in ctx.books {
      return counts;
    }
    counts' := ProcessKnownRow(ctx, h, target, collection, id, row, counts);
  }

  /** `insert(newBook)`, counted. */
  method InsertCounted(ctx: ModelContext, target: Option<int>, collection: Option<DailyCollection>,
                       b: Book, counts: ImportCounts)
    returns (counts': ImportCounts)
    requires Linkable(ctx, target, collection)
    modifies ctx
    ensures Linkable(ctx, target, collection) && ctx.collections == old(ctx.collections)
    ensures ctx.persisted == old(ctx.persisted) && ctx.saves == old(ctx.saves)
    ensures forall x :: x in ctx.books.Values ==> x in old(ctx.books.Values) || x == b
    ensures b.id in ctx.books && ctx.books[b.id] == b
    ensures ImportState(ctx.Contents(), counts', ctx.pending)
         == Added(ImportState(old(ctx.Contents()), counts, old(ctx.pending)), b.id, b.Data())
  {
    ctx.InsertBook(b);
    counts' := counts.(inserted := counts.inserted + 1);
  }

  /** A row for an id not stored before the loop: insert the book it makes, then link it. */
  method ProcessNewRow(ctx: ModelContext, h: Host, target: Option<int>, collection: Option<DailyCollection>,
                       id: string, row: seq<string>, counts: ImportCounts)
    returns (counts': ImportCounts)
    requires Linkable(ctx, target, collection) && |row| >= 1 && id == StripQuotes(row[0])
    modifies ctx, ctx.collections.Values
    ensures Linkable(ctx, target, collection) && ctx.collections == old(ctx.collections)
    ensures ctx.persisted == old(ctx.persisted) && ctx.saves == old(ctx.saves)
    ensures forall b :: b in ctx.books.Values ==> b in old(ctx.books.Values) || fresh(b)
    ensures ImportState(ctx.Contents(), counts', ctx.pending)
         == NewRowStep(h, target, ImportState(old(ctx.Contents()), counts, old(ctx.pending)), id, row)
  {
    counts' := counts;
    var created := Book.FromCatalogRow(h, row);
    if created.Failure? {
      return;
    }
    var newBook := created.value;
    counts' := InsertCounted(ctx, target, collection, newBook, counts);
    counts' := LinkIfAbsent(ctx, target, collection, newBook, counts');
  }

  /** The body of the row loop of `importCatalog`. */
  method ProcessRow(ctx: ModelContext, h: Host, known: set<string>, target: Option<int>,
                    collection: Option<DailyCollection>, row: seq<string>, fetchFails: bool, counts: ImportCounts)
    returns (counts': ImportCounts)
    requires Linkable(ctx, target, collection)
    modifies ctx, ctx.books.Values, ctx.collections.Values
    ensures Linkable(ctx, target, collection) && ctx.collections == old(ctx.collections)
    ensures ctx.persisted == old(ctx.persisted) && ctx.saves == old(ctx.saves)
    ensures forall b :: b in ctx.books.Values ==> b in old(ctx.books.Values) || fresh(b)
    ensures ImportState(ctx.Contents(), counts', ctx.pending)
         == ImportStep(h, known, target, ImportState(old(ctx.Contents()), counts, old(ctx.pending)), row, fetchFails)
  {
    counts' := counts;
    if row == [] {
      return;
    }
    var rawId := StripQuotes(row[0]);
    if rawId in known {
      counts' := ProcessStoredRow(ctx, h, known, target, collection, rawId, row, fetchFails, counts');
    } else {
      counts' := ProcessNewRow(ctx, h, target, collection, rawId, row, counts');
    }
  }

  /** The row loop of `importCatalog`; the book fetch fails for the rows at the positions in `failing`. */
  method ProcessRows(ctx: ModelContext, h: Host, known: set<string>, target: Option<int>,
                     collection: Option<DailyCollection>, rows: seq<seq<string>>, failing: set<nat>)
    returns (counts: ImportCounts)
    requires Linkable(ctx, target, collection)
    modifies ctx, ctx.books.Values, ctx.collections.Values
    ensures Linkable(ctx, target, collection) && ctx.collections == old(ctx.collections)
    ensures ctx.persisted == old(ctx.persisted) && ctx.saves == old(ctx.saves)
    ensures ImportState(ctx.Contents(), counts, ctx.pending)
         == ImportRows(h, known, target, ImportState(old(ctx.Contents()), ImportCounts(0, 0, 0), old(ctx.pending)), rows,
                       failing)
  {
    ghost var initial := ImportState(ctx.Contents(), ImportCounts(0, 0, 0), ctx.pending);
    counts := ImportCounts(0, 0, 0);
    var i := 0;
    while i < |rows|
      invariant 0 <= i <= |rows|
      invariant Linkable(ctx, target, collection) && ctx.collections == old(ctx.collections)
      invariant ctx.persisted == old(ctx.persisted) && ctx.saves == old(ctx.saves)
      invariant forall b :: b in ctx.books.Values ==> b in old(ctx.books.Values) || fresh(b)
      invariant ImportState(ctx.Contents(), counts, ctx.pending) == ImportRows(h, known, target, initial, rows[..i], failing)
    {
      assert rows[..i + 1][..i] == rows[..i];
      counts := ProcessRow(ctx, h, known, target, collection, rows[i], i in failing, counts);
      i := i + 1;
    }
    assert rows[..i] == rows;
  }

  /** `importCatalog` up to the save: read the known ids, find or create the target collection, process the rows. */
  method ImportUnsaved(ctx: ModelContext, h: Host, rows: seq<seq<string>>, target: Option<int>, faults: ImportFaults)
    returns (counts: ImportCounts)
    requires ctx.Valid()
    modifies ctx, ctx.books.Values, ctx.collections.Values
    ensures ctx.Valid()
    ensures ImportState(ctx.Contents(), counts, ctx.pending)
         == ImportSpec(h, old(ctx.Contents()), old(ctx.pending), rows, target, faults)
    ensures ctx.persisted == old(ctx.persisted) && ctx.saves == old(ctx.saves)
    ensures forall d :: d in old(ctx.collections) && !(faults.collectionFetch && target == Some(d)) ==>
              d in ctx.collections && ctx.collections[d] == old(ctx.collections[d])
    ensures ctx.collections.Keys == old(ctx.collections.Keys) + (if target.Some? then {target.value} else {})
  {
    ghost var start := ctx.Contents();
    var existingIds: set<string> := {};
    if !faults.idFetch {
      existingIds := ctx.books.Keys;
    }
    assert existingIds == KnownIds(start, faults.idFetch);
    var collectionToUpdate := FindOrCreateCollection(ctx, target, faults.collectionFetch);
    counts := ProcessRows(ctx, h, existingIds, target, collectionToUpdate, rows, faults.bookFetch);
  }

  /** Importing `rows`, then one save; a failed save is only logged. */
  method ImportAndSave(ctx: ModelContext, h: Host, rows: seq<seq<string>>, target: Option<int>,
                       faults: ImportFaults, saveFails: bool)
    returns (counts: ImportCounts)
    requires ctx.Valid()
    modifies ctx, ctx.books.Values, ctx.collections.Values
    ensures ctx.Valid()
    ensures var spec := ImportSpec(h, old(ctx.Contents()), old(ctx.pending), rows, target, faults);
            && ctx.Contents() == spec.snap && counts == spec.counts
            && ctx.saves == old(ctx.saves) + 1
            && (saveFails ==> ctx.persisted == old(ctx.persisted) && ctx.pending == spec.pending)
            && (!saveFails ==> ctx.persisted == ctx.Contents() && ctx.pending == [])
    ensures forall d :: d in old(ctx.collections) && !(faults.collectionFetch && target == Some(d)) ==>
              d in ctx.collections && ctx.collections[d] == old(ctx.collections[d])
    ensures ctx.collections.Keys == old(ctx.collections.Keys) + (if target.Some? then {target.value} else {})
  {
    counts := ImportUnsaved(ctx, h, rows, target, faults);
    ghost var unsaved := ImportState(ctx.Contents(), counts, ctx.pending);
    var saved := ctx.Save(saveFails);
    assert ctx.Contents() == unsaved.snap;
  }

  /**
   * `importCatalog` from the point the catalog text is loaded: parse, import every row, save
   * once. A failed save is only logged; the counters are those of the log line.
   */
  method ImportCatalog(ctx: ModelContext, h: Host, content: string, target: Option<int>,
                       faults: ImportFaults, saveFails: bool)
    returns (counts: ImportCounts)
    requires ctx.Valid()
    modifies ctx, ctx.books.Values, ctx.collections.Values
    ensures ctx.Valid()
    ensures var spec := ImportSpec(h, old(ctx.Contents()), old(ctx.pending), ParsedRows(content), target, faults);
            && ctx.Contents() == spec.snap && counts == spec.counts
            && ctx.saves == old(ctx.saves) + 1
            && (saveFails ==> ctx.persisted == old(ctx.persisted) && ctx.pending == spec.pending)
            && (!saveFails ==> ctx.persisted == ctx.Contents() && ctx.pending == [])
    ensures forall d :: d in old(ctx.collections) && !(faults.collectionFetch && target == Some(d)) ==>
              d in ctx.collections && ctx.collections[d] == old(ctx.collections[d])
    ensures ctx.collections.Keys == old(ctx.collections.Keys) + (if target.Some? then {target.value} else {})
  {
    var allRows := Parse(content);
    counts := ImportAndSave(ctx, h, allRows, target, faults, saveFails);
  }

  /**
   * `needsInitialImport`: fewer than 1,000 saved books, a failed count reading as none. The
   * count runs in a fresh context, which sees what was saved and none of `ctx`'s unsaved inserts.
   */
  method NeedsInitialImport(ctx: ModelContext, countFails: bool) returns (r: bool)
    ensures r <==> countFails || |ctx.persisted.books| < 1000
  {
    var count := if countFails then 0 else |ctx.persisted.books|;
    return count < 1000;
  }
}
