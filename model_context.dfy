/**
 * The SwiftData `ModelContext` the importers work through, reduced to what they use: books
 * keyed by their unique id, collections keyed by their unique day, the inserts not yet saved,
 * and `save`. A fetch sees unsaved inserts; inserting a record whose unique key is already
 * taken replaces that record.
 */
module Store {
  import Wrappers
  import Platform
  import opened Books
  import opened DailyCollections

  /** The store's contents as values: each book's fields, and each day's member ids in order. */
  datatype Snapshot = Snapshot(books: map<string, BookData>, members: map<int, seq<string>>)

  /** An insert not yet saved. */
  datatype PendingInsert = InsertedBook(id: string) | InsertedCollection(date: int)

  /** Each book is filed under its own id; every member is a stored book, listed once. */
  predicate WellFormed(s: Snapshot) {
    && (forall id :: id in s.books ==> s.books[id].id == id)
    && (forall d :: d in s.members ==> NoDuplicates(s.members[d]))
    && (forall d, k :: d in s.members && 0 <= k < |s.members[d]| ==> s.members[d][k] in s.books)
  }

  /** Each book is filed under its id and each collection under its day; members are stored and listed once. */
  predicate Consistent(books: map<string, Book>, collections: map<int, DailyCollection>)
    reads collections.Values
  {
    && (forall id :: id in books ==> books[id].id == id)
    && (forall d :: d in collections ==> collections[d].date == d)
    && (forall d :: d in collections ==> NoDuplicates(Ids(collections[d].books)))
    && (forall d, k :: d in collections && 0 <= k < |collections[d].books| ==> collections[d].books[k].id in books)
  }

  /** The contents of the stored objects as values. */
  function SnapshotOf(books: map<string, Book>, collections: map<int, DailyCollection>): Snapshot
    reads books.Values, collections.Values
  {
    Snapshot(map id | id in books :: books[id].Data(), map d | d in collections :: Ids(collections[d].books))
  }

  /** A map that differs from another at most at `id`, where it holds `v`, is that map updated at `id`. */
  lemma OneEntryChanged<K, V>(before: map<K, V>, after: map<K, V>, id: K, v: V)
    requires after.Keys == before.Keys + {id} && after[id] == v
    requires forall k :: k in before && k != id ==> after[k] == before[k]
    ensures after == before[id := v]
  {
  }

  class ModelContext {
    var books: map<string, Book>
    var collections: map<int, DailyCollection>
    var pending: seq<PendingInsert>
    /** What the last successful save wrote. */
    var persisted: Snapshot
    var saves: nat

    predicate Valid()
      reads this, collections.Values
    {
      Consistent(books, collections)
    }

    function Contents(): Snapshot
      reads this, books.Values, collections.Values
    {
      SnapshotOf(books, collections)
    }

    /** The contents of a valid context are well formed. */
    lemma ValidContents()
      requires Valid()
      ensures WellFormed(Contents())
    {
      var s := Contents();
      forall d, k | d in s.members && 0 <= k < |s.members[d]|
        ensures s.members[d][k] in s.books
      {
        assert s.members[d][k] == collections[d].books[k].id;
      }
    }

    /** An empty store. */
    constructor ()
      ensures Valid() && Contents() == Snapshot(map[], map[])
      ensures books == map[] && collections == map[] && pending == []
      ensures persisted == Snapshot(map[], map[]) && saves == 0
    {
      books := map[];
      collections := map[];
      pending := [];
      persisted := Snapshot(map[], map[]);
      saves := 0;
    }

    /** `insert(book)`: the record for the book's id becomes this book. */
    method InsertBook(b: Book)
      modifies this
      ensures books == old(books)[b.id := b] && collections == old(collections)
      ensures pending == old(pending) + [InsertedBook(b.id)]
      ensures persisted == old(persisted) && saves == old(saves)
      ensures old(Valid()) ==> Valid()
      ensures Contents() == old(Contents()).(books := old(Contents()).books[b.id := b.Data()])
    {
      ghost var before := Contents();
      books := books[b.id := b];
      pending := pending + [InsertedBook(b.id)];
      ghost var after := Contents();
      assert after.members == before.members;
      OneEntryChanged(before.books, after.books, b.id, b.Data());
    }

    /** `insert(collection)`: the record for the collection's day becomes this collection. */
    method InsertCollection(c: DailyCollection)
      modifies this
      ensures collections == old(collections)[c.date := c] && books == old(books)
      ensures pending == old(pending) + [InsertedCollection(c.date)]
      ensures persisted == old(persisted) && saves == old(saves)
      ensures old(Valid()) && c.books == [] ==> Valid()
      ensures Contents() == old(Contents()).(members := old(Contents()).members[c.date := Ids(c.books)])
    {
      ghost var before := Contents();
      collections := collections[c.date := c];
      pending := pending + [InsertedCollection(c.date)];
      ghost var after := Contents();
      assert after.books == before.books;
      OneEntryChanged(before.members, after.members, c.date, Ids(c.books));
    }

    /** `save()`: on success the contents are persisted and nothing is pending; a failure keeps both. */
    method Save(fails: bool) returns (ok: bool)
      modifies this
      ensures ok == !fails && saves == old(saves) + 1
      ensures books == old(books) && collections == old(collections)
      ensures Contents() == old(Contents()) && (old(Valid()) ==> Valid())
      ensures ok ==> persisted == Contents() && pending == []
      ensures !ok ==> persisted == old(persisted) && pending == old(pending)
    {
      saves := saves + 1;
      if fails {
        return false;
      }
      persisted := Contents();
      pending := [];
      return true;
    }
  }

  /**
   * Book `==` compares ids; among the books of a valid store that is object identity, so the
   * `contains` checks that compare books and those that compare ids agree.
   */
  lemma StoredSameBookIsSame(ctx: ModelContext, a: Book, b: Book)
    requires ctx.Valid() && a in ctx.books.Values && b in ctx.books.Values
    ensures SameBook(a, b) <==> a == b
  {
    var i :| i in ctx.books && ctx.books[i] == a;
    var j :| j in ctx.books && ctx.books[j] == b;
    assert a.id == i && b.id == j;
  }

  /** `collection.books.append(book)` for a collection of the store and a stored book. */
  method AppendMember(ctx: ModelContext, c: DailyCollection, b: Book)
    requires ctx.Valid() && c.date in ctx.collections && ctx.collections[c.date] == c
    requires b.id in ctx.books && b.id !in Ids(c.books)
    modifies c
    ensures c.books == old(c.books) + [b]
    ensures ctx.Valid()
    ensures ctx.Contents() == old(ctx.Contents()).(members := old(ctx.Contents()).members[c.date := old(ctx.Contents()).members[c.date] + [b.id]])
  {
    ghost var before := ctx.Contents();
    ghost var expected := before.members[c.date := before.members[c.date] + [b.id]];
    IdsAppend(c.books, b);
    AppendNewKeepsNoDuplicates(Ids(c.books), b.id);
    c.books := c.books + [b];
    ghost var after := ctx.Contents();
    assert after.books == before.books;
    forall d | d in ctx.collections
      ensures after.members[d] == expected[d]
    {
      if d != c.date {
        assert ctx.collections[d].date == d;
      }
    }
    assert after.members.Keys == expected.Keys;
    assert after.members == expected;
  }

  /** `update(from:)` on the stored book with id `id`. */
  method RefreshStoredBook(ctx: ModelContext, h: Platform.Host, id: string, row: seq<string>)
    returns (error: Wrappers.Option<CatalogError>)
    requires ctx.Valid() && id in ctx.books
    modifies ctx.books[id]
    ensures ctx.Valid()
    ensures var r := UpdatedFromRow(h, old(ctx.Contents()).books[id], row);
            && (r.Success? ==> error.None? && ctx.Contents() == old(ctx.Contents()).(books := old(ctx.Contents()).books[id := r.value]))
            && (r.Failure? ==> error == Wrappers.Some(r.error) && ctx.Contents() == old(ctx.Contents()))
  {
    ghost var before := ctx.Contents();
    var book := ctx.books[id];
    forall k | k in ctx.books && k != id
      ensures ctx.books[k] != book
    {
      assert ctx.books[k].id == k;
    }
    error := book.Update(h, row);
    ghost var after := ctx.Contents();
    assert after.members == before.members;
    OneEntryChanged(before.books, after.books, id, book.Data());
  }
}
