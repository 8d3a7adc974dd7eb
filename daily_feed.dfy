/**
 * `DailyFeedViewModel`: fetching today's feed and linking its books to today's collection.
 * The download and XML parse arrive as their outcome; the store's fetches and save can fail,
 * and each such failure is a parameter carrying the error's description.
 */
module DailyFeed {
  import opened Wrappers
  import opened Platform
  import opened Books
  import opened DailyCollections
  import opened Store

  /** The store and the unsaved inserts, part way through a sync. */
  datatype SyncState = SyncState(snap: Snapshot, pending: seq<PendingInsert>)

  /**
   * The store errors a sync can meet, each as the description it would carry: the fetch of
   * today's collection, the book fetch of buffer position `k` (the first that fails), the save.
   */
  datatype SyncFaults = SyncFaults(collectionFetch: Option<string>, bookFetch: Option<(nat, string)>, save: Option<string>)

  const FeedUrl: string := "https://www.gutenberg.org/cache/epub/feeds/today.rss"
  const ErrorPrefix: string := "Error loading feed: "

  // ---------------------------------------------------------------------------
  // Reference definitions
  // ---------------------------------------------------------------------------

  /** Today's collection found, or created empty and inserted. */
  function WithDay(st: SyncState, today: int): SyncState {
    if today in st.snap.members then st
    else SyncState(st.snap.(members := st.snap.members[today := []]), st.pending + [InsertedCollection(today)])
  }

  /** One buffered book: a stored id is linked unless a member has it; an unknown book is inserted and linked. */
  function LinkBuffered(st: SyncState, today: int, d: BookData): SyncState {
    var members := if today in st.snap.members then st.snap.members[today] else [];
    if d.id in st.snap.books then
      if d.id in members then st
      else st.(snap := st.snap.(members := st.snap.members[today := members + [d.id]]))
    else
      SyncState(Snapshot(st.snap.books[d.id := d], st.snap.members[today := members + [d.id]]),
                st.pending + [InsertedBook(d.id)])
  }

  /** The buffer processed in order. */
  function LinkAll(st: SyncState, today: int, ds: seq<BookData>): SyncState
    decreases |ds|
  {
    if ds == [] then st
    else LinkBuffered(LinkAll(st, today, ds[..|ds| - 1]), today, ds[|ds| - 1])
  }

  /** How far the loop gets: up to the book whose fetch fails, else through the whole buffer. */
  function Reached(faults: SyncFaults, n: nat): nat {
    if faults.bookFetch.Some? && faults.bookFetch.value.0 < n then faults.bookFetch.value.0 else n
  }

  /** The store after a sync of `ds` whose collection fetch succeeds, before the save. */
  function SyncSpec(start: Snapshot, pending: seq<PendingInsert>, today: int, ds: seq<BookData>, faults: SyncFaults): SyncState {
    LinkAll(WithDay(SyncState(start, pending), today), today, ds[..Reached(faults, |ds|)])
  }

  // ---------------------------------------------------------------------------
  // Properties of the sync
  // ---------------------------------------------------------------------------

  /**
   * What a sync keeps from `a` to `b`: a well-formed store; every stored book as it was; every
   * day; other days' members as they were; today's members only extended; and an insert pending
   * only for a book that was not stored.
   */
  predicate Keeps(today: int, a: SyncState, b: SyncState) {
    && WellFormed(b.snap)
    && a.snap.books.Keys <= b.snap.books.Keys
    && (forall id :: id in a.snap.books ==> b.snap.books[id] == a.snap.books[id])
    && b.snap.members.Keys == a.snap.members.Keys
    && (forall d :: d in a.snap.members && d != today ==> b.snap.members[d] == a.snap.members[d])
    && (today in a.snap.members ==> a.snap.members[today] <= b.snap.members[today])
    && a.pending <= b.pending
    && (forall k :: |a.pending| <= k < |b.pending| ==> b.pending[k].InsertedBook? && b.pending[k].id !in a.snap.books)
  }

  lemma KeepsTransitive(today: int, a: SyncState, b: SyncState, c: SyncState)
    requires Keeps(today, a, b) && Keeps(today, b, c)
    ensures Keeps(today, a, c)
  {
    if today in a.snap.members {
      assert a.snap.members[today] <= b.snap.members[today] <= c.snap.members[today];
    }
  }

  /** One buffered book keeps what a sync keeps, and leaves its id among today's members. */
  lemma LinkBufferedKeeps(st: SyncState, today: int, d: BookData)
    requires WellFormed(st.snap) && today in st.snap.members
    ensures var r := LinkBuffered(st, today, d);
            && Keeps(today, st, r) && d.id in r.snap.members[today]
            && (d.id in st.snap.books ==> r.snap.books == st.snap.books)
            && (d.id !in st.snap.books ==> r.snap.books == st.snap.books[d.id := d]
                                            && r.pending == st.pending + [InsertedBook(d.id)])
  {
    var members := st.snap.members[today];
    var r := LinkBuffered(st, today, d);
    if d.id !in members {
      if d.id !in st.snap.books {
        assert forall k :: 0 <= k < |members| ==> members[k] in st.snap.books;
      }
      AppendNewKeepsNoDuplicates(members, d.id);
      forall m, k | m in r.snap.members && 0 <= k < |r.snap.members[m]|
        ensures r.snap.members[m][k] in r.snap.books
      {
        if m == today && k < |members| {
          assert r.snap.members[m][k] == members[k];
        }
      }
    }
  }

  /** Well-formedness and today's collection survive the sync; and every buffered id is linked to today. */
  lemma {:induction false} LinkAllKeeps(st: SyncState, today: int, ds: seq<BookData>)
    requires WellFormed(st.snap) && today in st.snap.members
    ensures var r := LinkAll(st, today, ds);
            && Keeps(today, st, r)
            && (forall k :: 0 <= k < |ds| ==> ds[k].id in r.snap.members[today])
    decreases |ds|
  {
    if ds != [] {
      var front := ds[..|ds| - 1];
      LinkAllKeeps(st, today, front);
      var mid := LinkAll(st, today, front);
      LinkBufferedKeeps(mid, today, ds[|ds| - 1]);
      var r := LinkAll(st, today, ds);
      KeepsTransitive(today, st, mid, r);
      forall k | 0 <= k < |ds|
        ensures ds[k].id in r.snap.members[today]
      {
        if k < |ds| - 1 {
          assert ds[k] == front[k];
          assert mid.snap.members[today] <= r.snap.members[today];
        }
      }
    }
  }

  /**
   * A sync that reaches the end of the buffer links every buffered book to today's collection,
   * whatever its language or kind; keeps every stored book as it was and the store well formed;
   * leaves other days alone; and inserts only books that were not stored.
   */
  lemma SyncLinksWholeBuffer(start: Snapshot, pending: seq<PendingInsert>, today: int, ds: seq<BookData>, faults: SyncFaults)
    requires WellFormed(start)
    ensures var r := SyncSpec(start, pending, today, ds, faults);
            var base := WithDay(SyncState(start, pending), today);
            && Keeps(today, base, r)
            && (forall id :: id in start.books ==> id in r.snap.books && r.snap.books[id] == start.books[id])
            && (forall d :: d in start.members && d != today ==> d in r.snap.members && r.snap.members[d] == start.members[d])
            && today in r.snap.members
            && (Reached(faults, |ds|) == |ds| ==> forall k :: 0 <= k < |ds| ==> ds[k].id in r.snap.members[today])
  {
    var base := WithDay(SyncState(start, pending), today);
    var n := Reached(faults, |ds|);
    LinkAllKeeps(base, today, ds[..n]);
    if n == |ds| {
      assert ds[..n] == ds;
    }
  }

  /** A day's members never list an id twice, however often the feed repeats a book. */
  lemma SyncNeverDuplicates(start: Snapshot, pending: seq<PendingInsert>, today: int, ds: seq<BookData>, faults: SyncFaults)
    requires WellFormed(start)
    ensures var r := SyncSpec(start, pending, today, ds, faults);
            today in r.snap.members && NoDuplicates(r.snap.members[today])
  {
    var base := WithDay(SyncState(start, pending), today);
    LinkAllKeeps(base, today, ds[..Reached(faults, |ds|)]);
  }

  // ---------------------------------------------------------------------------
  // The view model
  // ---------------------------------------------------------------------------

  /** One buffered book, linked through the store as the loop body does. */
  method LinkBufferedBook(ctx: ModelContext, c: DailyCollection, today: int, book: Book)
    requires ctx.Valid() && today in ctx.collections && ctx.collections[today] == c
    modifies ctx, c
    ensures ctx.Valid() && ctx.collections == old(ctx.collections)
    ensures ctx.persisted == old(ctx.persisted) && ctx.saves == old(ctx.saves)
    ensures SyncState(ctx.Contents(), ctx.pending) == LinkBuffered(SyncState(old(ctx.Contents()), old(ctx.pending)), today, book.Data())
  {
    assert c.date == today;
    if book.id in ctx.books {
      var existingBook := ctx.books[book.id];
      if existingBook.id !in Ids(c.books) {
        AppendMember(ctx, c, existingBook);
      }
    } else {
      assert book.id !in Ids(c.books);
      ctx.InsertBook(book);
      AppendMember(ctx, c, book);
    }
  }

  /** The buffered book at `i` linked after those before it. */
  method LinkNextBuffered(ctx: ModelContext, c: DailyCollection, today: int, books: seq<Book>, i: nat,
                          ghost start: SyncState, ghost data: seq<BookData>)
    requires ctx.Valid() && today in ctx.collections && ctx.collections[today] == c
    requires i < |books| == |data| && books[i].Data() == data[i]
    requires SyncState(ctx.Contents(), ctx.pending) == LinkAll(start, today, data[..i])
    modifies ctx, c
    ensures ctx.Valid() && ctx.collections == old(ctx.collections)
    ensures ctx.persisted == old(ctx.persisted) && ctx.saves == old(ctx.saves)
    ensures SyncState(ctx.Contents(), ctx.pending) == LinkAll(start, today, data[..i + 1])
  {
    assert data[..i + 1][..i] == data[..i];
    LinkBufferedBook(ctx, c, today, books[i]);
  }

  /** The loop over the buffer, stopping at the first book fetch that fails. */
  method LinkBuffer(ctx: ModelContext, c: DailyCollection, today: int, books: seq<Book>, bookFetch: Option<(nat, string)>)
    returns (error: Option<string>)
    requires ctx.Valid() && today in ctx.collections && ctx.collections[today] == c
    modifies ctx, c
    ensures ctx.Valid() && ctx.collections == old(ctx.collections)
    ensures ctx.persisted == old(ctx.persisted) && ctx.saves == old(ctx.saves)
    ensures var n := Reached(SyncFaults(None, bookFetch, None), |books|);
            && SyncState(ctx.Contents(), ctx.pending) == LinkAll(SyncState(old(ctx.Contents()), old(ctx.pending)), today, old(DataOf(books))[..n])
            && (error.Some? <==> n < |books|)
            && (error.Some? ==> error == Some(bookFetch.value.1))
  {
    ghost var start := SyncState(ctx.Contents(), ctx.pending);
    ghost var data := DataOf(books);
    var i := 0;
    while i < |books|
      invariant 0 <= i <= Reached(SyncFaults(None, bookFetch, None), |books|)
      invariant ctx.Valid() && ctx.collections == old(ctx.collections) && today in ctx.collections && ctx.collections[today] == c
      invariant ctx.persisted == old(ctx.persisted) && ctx.saves == old(ctx.saves)
      invariant SyncState(ctx.Contents(), ctx.pending) == LinkAll(start, today, data[..i])
    {
      if bookFetch.Some? && bookFetch.value.0 == i {
        return Some(bookFetch.value.1);
      }
      assert data[i] == old(books[i].Data());
      LinkNextBuffered(ctx, c, today, books, i, start, data);
      i := i + 1;
    }
    assert data[..i] == data;
    return None;
  }

  class DailyFeedViewModel {
    var isLoading: bool
    var errorMessage: Option<string>
    var modelContext: Option<ModelContext>
    var currentBooksBuffer: seq<Book>

    constructor ()
      ensures !isLoading && errorMessage == None && modelContext == None && currentBooksBuffer == []
    {
      isLoading := false;
      errorMessage := None;
      modelContext := None;
      currentBooksBuffer := [];
    }

    /** `setContext(_:)`. */
    method SetContext(context: ModelContext)
      modifies this
      ensures modelContext == Some(context)
      ensures isLoading == old(isLoading) && errorMessage == old(errorMessage) && currentBooksBuffer == old(currentBooksBuffer)
    {
      modelContext := Some(context);
    }

    /** Today's collection, found or created. */
    static method FindOrCreateDay(context: ModelContext, today: int) returns (c: DailyCollection)
      requires context.Valid()
      modifies context
      ensures context.Valid() && today in context.collections && context.collections[today] == c
      ensures context.books == old(context.books) && context.persisted == old(context.persisted) && context.saves == old(context.saves)
      ensures forall x :: x in context.collections.Values ==> x in old(context.collections.Values) || fresh(x)
      ensures SyncState(context.Contents(), context.pending) == WithDay(SyncState(old(context.Contents()), old(context.pending)), today)
    {
      if today in context.collections {
        c := context.collections[today];
      } else {
        c := new DailyCollection(today);
        context.InsertCollection(c);
      }
    }

    /**
     * `syncBufferToDatabase(context:)` for the day `today` (the start of the current day): find or
     * create today's collection, link or insert every buffered book, save once. An error thrown
     * by a fetch or by the save ends the sync; the changes made before it stay unsaved.
     */
    method SyncBufferToDatabase(context: ModelContext, today: int, faults: SyncFaults) returns (error: Option<string>)
      requires context.Valid()
      modifies context, context.collections.Values
      ensures context.Valid()
      ensures faults.collectionFetch.Some? ==>
                && error == faults.collectionFetch
                && context.Contents() == old(context.Contents()) && context.pending == old(context.pending)
                && context.saves == old(context.saves)
      ensures faults.collectionFetch.None? ==>
                var spec := SyncSpec(old(context.Contents()), old(context.pending), today, old(DataOf(currentBooksBuffer)), faults);
                var reached := Reached(faults, |currentBooksBuffer|) == |currentBooksBuffer|;
                && context.Contents() == spec.snap
                && (!reached ==> error == Some(faults.bookFetch.value.1) && context.pending == spec.pending
                                 && context.saves == old(context.saves) && context.persisted == old(context.persisted))
                && (reached ==> context.saves == old(context.saves) + 1 && error == faults.save)
                && (reached && faults.save.Some? ==> context.pending == spec.pending && context.persisted == old(context.persisted))
                && (reached && faults.save.None? ==> context.pending == [] && context.persisted == context.Contents())
    {
      if faults.collectionFetch.Some? {
        return faults.collectionFetch;
      }
      error := LinkAndSave(context, today, currentBooksBuffer, faults);
    }

    /** The sync once today's collection could be fetched: find or create it, link the books, save. */
    static method LinkAndSave(context: ModelContext, today: int, books: seq<Book>, faults: SyncFaults) returns (error: Option<string>)
      requires context.Valid() && faults.collectionFetch.None?
      modifies context, context.collections.Values
      ensures context.Valid()
      ensures var spec := SyncSpec(old(context.Contents()), old(context.pending), today, old(DataOf(books)), faults);
              var reached := Reached(faults, |books|) == |books|;
              && context.Contents() == spec.snap
              && (!reached ==> error == Some(faults.bookFetch.value.1) && context.pending == spec.pending
                               && context.saves == old(context.saves) && context.persisted == old(context.persisted))
              && (reached ==> context.saves == old(context.saves) + 1 && error == faults.save)
              && (reached && faults.save.Some? ==> context.pending == spec.pending && context.persisted == old(context.persisted))
              && (reached && faults.save.None? ==> context.pending == [] && context.persisted == context.Contents())
    {
      var dailyCollection := FindOrCreateDay(context, today);
      error := LinkBuffer(context, dailyCollection, today, books, faults.bookFetch);
      if error.Some? {
        return;
      }
      ghost var linked := context.Contents();
      var saved := context.Save(faults.save.Some?);
      assert context.Contents() == linked;
      error := faults.save;
    }

    /** The store the view model was given, as a frame. */
    function Context(): set<ModelContext>
      reads this
    {
      if modelContext.Some? then {modelContext.value} else {}
    }

    /** The collections of that store, as a frame. */
    function ContextCollections(): set<DailyCollection>
      reads this, Context()
    {
      if modelContext.Some? then modelContext.value.collections.Values else {}
    }

    /**
     * `fetchDailyFeed()` with `feed` the outcome of the download and parse (the books, or the
     * description of the error thrown). Without a store nothing happens. Otherwise the buffer and
     * message are cleared, the feed's books are buffered and synced, any error becomes the
     * message, and loading ends.
     */
    method FetchDailyFeed(h: Host, feed: Result<seq<Book>, string>, today: int, faults: SyncFaults)
      requires modelContext.Some? ==> modelContext.value.Valid()
      modifies this, Context(), ContextCollections()
      ensures modelContext == old(modelContext)
      ensures old(modelContext).None? ==>
                isLoading == old(isLoading) && errorMessage == old(errorMessage) && currentBooksBuffer == old(currentBooksBuffer)
      ensures old(modelContext).Some? ==>
                && !isLoading && modelContext.value.Valid()
                && currentBooksBuffer == (if h.isValidUrl(FeedUrl) && feed.Success? then feed.value else [])
                && (!h.isValidUrl(FeedUrl) ==> errorMessage == None)
                && (h.isValidUrl(FeedUrl) && feed.Failure? ==> errorMessage == Some(ErrorPrefix + feed.error))
                && (h.isValidUrl(FeedUrl) && feed.Success? ==>
                      var syncError := FeedSyncError(feed.value, faults);
                      errorMessage == (if syncError.Some? then Some(ErrorPrefix + syncError.value) else None))
    {
      if modelContext.None? {
        return;
      }
      var context := modelContext.value;
      isLoading := true;
      errorMessage := None;
      currentBooksBuffer := [];
      if !h.isValidUrl(FeedUrl) {
        isLoading := false;
        return;
      }
      match feed {
        case Failure(description) =>
          errorMessage := Some(ErrorPrefix + description);
        case Success(books) =>
          currentBooksBuffer := books;
          var syncError := SyncBufferToDatabase(context, today, faults);
          if syncError.Some? {
            errorMessage := Some(ErrorPrefix + syncError.value);
          }
      }
      isLoading := false;
    }
  }

  /** The error a sync of `books` throws under `faults`, if any. */
  function FeedSyncError(books: seq<Book>, faults: SyncFaults): (r: Option<string>)
    ensures r.None? <==> && faults.collectionFetch.None? && faults.save.None?
                         && (faults.bookFetch.None? || faults.bookFetch.value.0 >= |books|)
    ensures faults.collectionFetch.Some? ==> r == faults.collectionFetch
  {
    if faults.collectionFetch.Some? then faults.collectionFetch
    else if Reached(faults, |books|) < |books| then Some(faults.bookFetch.value.1)
    else faults.save
  }
}
