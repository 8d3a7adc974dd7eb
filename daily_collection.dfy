/** `DailyCollection`: the books featured on one day. */
module DailyCollections {
  import opened Books

  /** The ids of `books`, in order (an id never changes, so no object state is read). */
  function Ids(books: seq<Book>): seq<string> {
    seq(|books|, i requires 0 <= i < |books| => books[i].id)
  }

  predicate NoDuplicates(ids: seq<string>) {
    forall i, j :: 0 <= i < j < |ids| ==> ids[i] != ids[j]
  }

  /** The collection of one day (a day is a start-of-day instant, kept as a number). */
  class DailyCollection {
    const date: int
    var books: seq<Book>

    /** `init(date:)`: a collection that starts empty. */
    constructor (date: int)
      ensures this.date == date && books == []
    {
      this.date := date;
      books := [];
    }
  }

  /** Appending a book adds its id at the end of the ids. */
  lemma IdsAppend(books: seq<Book>, b: Book)
    ensures Ids(books + [b]) == Ids(books) + [b.id]
  {
  }

  /** Appending an id not yet listed keeps the ids distinct. */
  lemma AppendNewKeepsNoDuplicates(ids: seq<string>, id: string)
    requires NoDuplicates(ids) && id !in ids
    ensures NoDuplicates(ids + [id])
  {
  }
}
