/**
 * `RSSFeedParserDelegate`: the XMLParser callbacks that collect one book per `<item>` of the
 * daily feed and hand the list, or the parse error, to the waiting continuation.
 */
module RssFeed {
  import opened Wrappers
  import opened Strings
  import opened Platform
  import opened Books

  /** The callbacks XMLParser makes, in document order. An end tag carries the UUID that `UUID()` would draw for it. */
  datatype Event =
    | StartElement(name: string)
    | Characters(text: string)
    | EndElement(name: string, uuid: string)
    | EndDocument
    | ParseError(description: string)

  /** `FeedServiceError.parsingError`. */
  datatype FeedError = ParsingError(description: string)

  /** What the continuation is resumed with, the books given by their contents. */
  type Delivery = Result<seq<BookData>, FeedError>

  /** The delegate's fields as values; `held` is whether it still holds the continuation. */
  datatype ParserState = ParserState(
    held: bool,
    books: seq<BookData>,
    element: string,
    title: string,
    link: string,
    description: string,
    pubDate: string,
    parsingItem: bool)

  /** A delegate just created around a continuation. */
  function Initial(): ParserState {
    ParserState(true, [], "", "", "", "", "", false)
  }

  /** `trimmingCharacters(in: .whitespacesAndNewlines)`. */
  function TrimFeedText(s: string): string {
    Trim(s, IsSpaceOrNewline)
  }

  /** `Int(linkURL.lastPathComponent)?.description ?? UUID().uuidString`. */
  function DerivedId(link: string, uuid: string): string {
    match ParseInt(LastPathComponent(link))
    case Some(n) => IntToString(n)
    case None => uuid
  }

  /**
   * The book an `</item>` yields from the collected text: none when the trimmed link is not a
   * valid URL; otherwise a new book with the trimmed title and link, the trimmed description as
   * its language text, and no reading state.
   */
  function ItemBook(h: Host, title: string, link: string, description: string, uuid: string): (r: Option<BookData>)
    ensures r.Some? <==> h.isValidUrl(TrimFeedText(link))
    ensures r.Some? ==> && r.value.id == DerivedId(TrimFeedText(link), uuid)
                        && r.value.title == TrimFeedText(title) && r.value.link == TrimFeedText(link)
                        && r.value.descriptionLanguage == Some(TrimFeedText(description))
                        && r.value.explicitAuthor == None
                        && UserFieldsOf(r.value) == UserFields(0.0, None, None)
  {
    var finalLink := TrimFeedText(link);
    if !h.isValidUrl(finalLink) then None
    else Some(NewBookData(DerivedId(finalLink, uuid), TrimFeedText(title), finalLink, Some(TrimFeedText(description))))
  }

  // ---------------------------------------------------------------------------
  // The callbacks as functions of the state
  // ---------------------------------------------------------------------------

  function StartStep(s: ParserState, name: string): (r: ParserState)
    ensures r.books == s.books && r.held == s.held && r.element == name
    ensures r.parsingItem == (s.parsingItem || name == "item")
    ensures name == "item" ==> r.title == r.link == r.description == r.pubDate == ""
    ensures name != "item" ==> r == s.(element := name)
  {
    if name == "item" then s.(element := name, parsingItem := true, title := "", link := "", description := "", pubDate := "")
    else s.(element := name)
  }

  function CharactersStep(s: ParserState, text: string): (r: ParserState)
    ensures r.books == s.books && r.held == s.held && r.element == s.element && r.parsingItem == s.parsingItem
    ensures !s.parsingItem ==> r == s
    ensures s.title <= r.title && s.link <= r.link && s.description <= r.description && r.pubDate == s.pubDate
    ensures (r.title != s.title ==> s.element == "title") && (r.link != s.link ==> s.element == "link")
            && (r.description != s.description ==> s.element == "description")
    ensures s.parsingItem && s.element == "title" ==> r.title == s.title + text
    ensures s.parsingItem && s.element == "link" ==> r.link == s.link + text
    ensures s.parsingItem && s.element == "description" ==> r.description == s.description + text
  {
    if !s.parsingItem then s
    else if s.element == "title" then s.(title := s.title + text)
    else if s.element == "link" then s.(link := s.link + text)
    else if s.element == "description" then s.(description := s.description + text)
    else s
  }

  function EndStep(h: Host, s: ParserState, name: string, uuid: string): (r: ParserState)
    ensures r.held == s.held && s.books <= r.books && |r.books| <= |s.books| + 1
    ensures |r.books| == |s.books| + 1 <==> name == "item" && s.parsingItem && h.isValidUrl(TrimFeedText(s.link))
    ensures name == "item" ==> !r.parsingItem
    ensures name != "item" ==> r == s
    ensures name == "item" && s.parsingItem
            ==> r.books == s.books + (match ItemBook(h, s.title, s.link, s.description, uuid)
                                      case Some(b) => [b]
                                      case None => [])
    ensures r.element == (if |r.books| == |s.books| + 1 then "" else s.element)
  {
    if !(name == "item" && s.parsingItem) then s
    else
      match ItemBook(h, s.title, s.link, s.description, uuid)
      case None => s.(parsingItem := false)
      case Some(b) => s.(parsingItem := false, books := s.books + [b], element := "")
  }

  /** Both the end of the document and a parse error release the continuation. */
  function ReleaseStep(s: ParserState): ParserState {
    s.(held := false)
  }

  function Step(h: Host, s: ParserState, e: Event): ParserState {
    match e
    case StartElement(name) => StartStep(s, name)
    case Characters(text) => CharactersStep(s, text)
    case EndElement(name, uuid) => EndStep(h, s, name, uuid)
    case EndDocument => ReleaseStep(s)
    case ParseError(_) => ReleaseStep(s)
  }

  /** What an event resumes the continuation with, if it is still held. */
  function Delivered(s: ParserState, e: Event): Option<Delivery> {
    if !s.held then None
    else
      match e
      case EndDocument => Some(Success(s.books))
      case ParseError(d) => Some(Failure(ParsingError(d)))
      case _ => None
  }

  /** The state after a run of events. */
  function Run(h: Host, s: ParserState, events: seq<Event>): ParserState
    decreases |events|
  {
    if events == [] then s
    else Step(h, Run(h, s, events[..|events| - 1]), events[|events| - 1])
  }

  /** Every resumption a run of events makes, in order. */
  function Deliveries(h: Host, s: ParserState, events: seq<Event>): seq<Delivery>
    decreases |events|
  {
    if events == [] then []
    else
      var front := events[..|events| - 1];
      var last := Delivered(Run(h, s, front), events[|events| - 1]);
      Deliveries(h, s, front) + (if last.Some? then [last.value] else [])
  }

  // ---------------------------------------------------------------------------
  // Properties
  // ---------------------------------------------------------------------------

  /**
   * The continuation is resumed at most once: a held continuation is either still held or has
   * been resumed exactly once, and a released one is never resumed.
   */
  lemma {:induction false} ResumedAtMostOnce(h: Host, s: ParserState, events: seq<Event>)
    ensures |Deliveries(h, s, events)| + (if Run(h, s, events).held then 1 else 0) == (if s.held then 1 else 0)
    ensures |Deliveries(h, s, events)| <= 1
    decreases |events|
  {
    if events != [] {
      var front := events[..|events| - 1];
      var e := events[|events| - 1];
      ResumedAtMostOnce(h, s, front);
      var mid := Run(h, s, front);
      StepReleases(h, mid, e);
      assert Run(h, s, events) == Step(h, mid, e);
      var last := Delivered(mid, e);
      assert Deliveries(h, s, events) == Deliveries(h, s, front) + (if last.Some? then [last.value] else []);
    }
  }

  /** An event resumes the continuation exactly when it is held and the event ends the parse, and then releases it. */
  lemma StepReleases(h: Host, s: ParserState, e: Event)
    ensures Step(h, s, e).held == (s.held && !(e.EndDocument? || e.ParseError?))
    ensures Delivered(s, e).Some? <==> s.held && (e.EndDocument? || e.ParseError?)
  {
  }

  /** A run that starts outside any item and starts no item records no text and adds no book. */
  lemma {:induction false} TextOutsideItemsIgnored(h: Host, s: ParserState, events: seq<Event>)
    requires !s.parsingItem
    requires forall k :: 0 <= k < |events| ==> events[k] != StartElement("item")
    ensures var r := Run(h, s, events);
            && !r.parsingItem && r.books == s.books
            && r.title == s.title && r.link == s.link && r.description == s.description
    decreases |events|
  {
    if events != [] {
      TextOutsideItemsIgnored(h, s, events[..|events| - 1]);
    }
  }

  /** Books are only ever appended, at most one per event, in document order. */
  lemma {:induction false} BooksOnlyAppended(h: Host, s: ParserState, events: seq<Event>)
    ensures s.books <= Run(h, s, events).books
    ensures |Run(h, s, events).books| <= |s.books| + |events|
    decreases |events|
  {
    if events != [] {
      var front := events[..|events| - 1];
      BooksOnlyAppended(h, s, front);
      StepAppendsAtMostOne(h, Run(h, s, front), events[|events| - 1]);
    }
  }

  /** One event appends at most one book and keeps the others. */
  lemma StepAppendsAtMostOne(h: Host, s: ParserState, e: Event)
    ensures s.books <= Step(h, s, e).books && |Step(h, s, e).books| <= |s.books| + 1
  {
  }

  /** Running one more event is one more step. */
  lemma RunSnoc(h: Host, s: ParserState, events: seq<Event>, e: Event)
    ensures Run(h, s, events + [e]) == Step(h, Run(h, s, events), e)
  {
    assert (events + [e])[..|events|] == events;
  }

  /** The events of an item holding a title, a link and a description, up to its end tag. */
  function ItemText(title: string, link: string, description: string): seq<Event> {
    [StartElement("item"),
     StartElement("title"), Characters(title),
     StartElement("link"), Characters(link),
     StartElement("description"), Characters(description)]
  }

  /** The events of a whole item. */
  function ItemEvents(title: string, link: string, description: string, uuid: string): seq<Event> {
    ItemText(title, link, description) + [EndElement("item", uuid)]
  }

  /** The text of an item's title, link and description elements is collected afresh. */
  lemma ItemTextCollected(h: Host, s: ParserState, title: string, link: string, description: string)
    ensures var r := Run(h, s, ItemText(title, link, description));
            && r.parsingItem && r.held == s.held && r.books == s.books
            && r.title == title && r.link == link && r.description == description
  {
    var e1 := [StartElement("item")];
    var e2 := e1 + [StartElement("title")];
    var e3 := e2 + [Characters(title)];
    var e4 := e3 + [StartElement("link")];
    var e5 := e4 + [Characters(link)];
    var e6 := e5 + [StartElement("description")];
    var e7 := e6 + [Characters(description)];
    RunSnoc(h, s, [], StartElement("item"));
    assert [] + [StartElement("item")] == e1;
    RunSnoc(h, s, e1, StartElement("title"));
    RunSnoc(h, s, e2, Characters(title));
    assert Run(h, s, e3).title == "" + title;
    RunSnoc(h, s, e3, StartElement("link"));
    RunSnoc(h, s, e4, Characters(link));
    assert Run(h, s, e5).link == "" + link;
    RunSnoc(h, s, e5, StartElement("description"));
    RunSnoc(h, s, e6, Characters(description));
    assert Run(h, s, e7).description == "" + description;
    assert e7 == ItemText(title, link, description);
  }

  /**
   * One item, whatever the state before it: the text under its title, link and description is
   * collected afresh, and its end tag appends exactly one book made from the trimmed text when
   * the link is a valid URL, and none otherwise.
   */
  lemma OneItem(h: Host, s: ParserState, title: string, link: string, description: string, uuid: string)
    ensures var r := Run(h, s, ItemEvents(title, link, description, uuid));
            && !r.parsingItem && r.held == s.held
            && r.books == s.books + (match ItemBook(h, title, link, description, uuid)
                                     case Some(b) => [b]
                                     case None => [])
  {
    var text := ItemText(title, link, description);
    ItemTextCollected(h, s, title, link, description);
    RunSnoc(h, s, text, EndElement("item", uuid));
    var r7 := Run(h, s, text);
    assert r7.parsingItem && r7.title == title && r7.link == link && r7.description == description;
    assert Run(h, s, ItemEvents(title, link, description, uuid)) == EndStep(h, r7, "item", uuid);
  }

  /** A Project Gutenberg book link gives the book number as the id, not the UUID. */
  lemma GutenbergLinkId(digits: string, uuid: string)
    requires IsCanonicalDigits(digits) && DigitsValue(digits) <= Int64Max
    ensures DerivedId(GutenbergLink(digits), uuid) == digits
  {
    assert IsDigit(digits[0]);
    LastPathComponentOfSegment("https://www.gutenberg.org/ebooks/", digits);
    ParseCanonicalDigits(digits);
  }

  /** A derived id is the UUID, or a decimal that reads back as the same `Int`. */
  lemma DerivedIdReadsBack(link: string, uuid: string)
    ensures DerivedId(link, uuid) == uuid
         || ParseInt(DerivedId(link, uuid)) == ParseInt(LastPathComponent(link))
  {
    match ParseInt(LastPathComponent(link))
    case Some(n) => ParseIntRoundTrip(n);
    case None =>
  }

  // ---------------------------------------------------------------------------
  // The delegate
  // ---------------------------------------------------------------------------

  /**
   * `CheckedContinuation<[Book], Error>`. Resuming it a second time is a runtime trap, so
   * `Resume` requires that it has not been resumed yet.
   */
  class Continuation {
    var outcome: Option<Result<seq<Book>, FeedError>>

    constructor ()
      ensures outcome == None
    {
      outcome := None;
    }

    method Resume(r: Result<seq<Book>, FeedError>)
      requires outcome.None?
      modifies this
      ensures outcome == Some(r)
    {
      outcome := Some(r);
    }
  }

  class RssFeedParserDelegate {
    var continuation: Option<Continuation>
    var eBooks: seq<Book>
    var currentElement: string
    var currentTitle: string
    var currentLink: string
    var currentDescription: string
    var currentPubDate: string
    var parsingItem: bool

    /** The continuation the delegate holds, if any. */
    function Held(): set<Continuation>
      reads this
    {
      if continuation.Some? then {continuation.value} else {}
    }

    /** A continuation the delegate still holds has not been resumed. */
    predicate Valid()
      reads this, Held()
    {
      continuation.Some? ==> continuation.value.outcome.None?
    }

    function State(): ParserState
      reads this, set b | b in eBooks
    {
      ParserState(continuation.Some?, DataOf(eBooks), currentElement, currentTitle, currentLink,
                  currentDescription, currentPubDate, parsingItem)
    }

    /** `init(continuation:)`. */
    constructor (continuation: Continuation)
      requires continuation.outcome.None?
      ensures Valid() && this.continuation == Some(continuation) && State() == Initial()
    {
      this.continuation := Some(continuation);
      eBooks := [];
      currentElement := "";
      currentTitle := "";
      currentLink := "";
      currentDescription := "";
      currentPubDate := "";
      parsingItem := false;
    }

    /** `parser(_:didStartElement:...)`. */
    method StartElement(name: string)
      modifies this
      ensures continuation == old(continuation) && eBooks == old(eBooks)
      ensures State() == StartStep(old(State()), name)
    {
      currentElement := name;
      if name == "item" {
        parsingItem := true;
        currentTitle := "";
        currentLink := "";
        currentDescription := "";
        currentPubDate := "";
      }
    }

    /** `parser(_:foundCharacters:)`. */
    method FoundCharacters(text: string)
      modifies this
      ensures continuation == old(continuation) && eBooks == old(eBooks)
      ensures State() == CharactersStep(old(State()), text)
    {
      if !parsingItem {
        return;
      }
      if currentElement == "title" {
        currentTitle := currentTitle + text;
      } else if currentElement == "link" {
        currentLink := currentLink + text;
      } else if currentElement == "description" {
        currentDescription := currentDescription + text;
      }
    }

    /** Leaving an item whose link is not a URL: only `parsingItem` changes. */
    method SkipItem()
      modifies this
      ensures continuation == old(continuation) && eBooks == old(eBooks)
      ensures State() == old(State()).(parsingItem := false)
    {
      parsingItem := false;
    }

    /** Leaving an item whose book was made: `eBooks.append(book)`, then the reset of `currentElement`. */
    method AppendBook(book: Book)
      requires book !in eBooks
      modifies this
      ensures continuation == old(continuation) && eBooks == old(eBooks) + [book]
      ensures State() == old(State()).(parsingItem := false, books := old(State()).books + [book.Data()], element := "")
    {
      ghost var before := DataOf(eBooks);
      parsingItem := false;
      eBooks := eBooks + [book];
      assert DataOf(eBooks) == before + [book.Data()];
      currentElement := "";
    }

    /**
     * The end of an item: trim the text, skip an item whose link is invalid, else derive the id
     * and append the book. (The source clears `parsingItem` before the checks; nothing reads it
     * in between, so it is cleared on each path here.)
     */
    method FinishItem(h: Host, uuid: string)
      requires parsingItem
      modifies this
      ensures continuation == old(continuation)
      ensures forall b :: b in eBooks ==> b in old(eBooks) || fresh(b)
      ensures State() == EndStep(h, old(State()), "item", uuid)
    {
      ghost var item := ItemBook(h, currentTitle, currentLink, currentDescription, uuid);
      var finalTitle := TrimFeedText(currentTitle);
      var finalLink := TrimFeedText(currentLink);
      var finalDescription := TrimFeedText(currentDescription);
      if !h.isValidUrl(finalLink) {
        SkipItem();
        return;
      }
      var derivedId := DerivedId(finalLink, uuid);
      var book := new Book(derivedId, finalTitle, finalLink, Some(finalDescription));
      assert item == Some(book.Data());
      AppendBook(book);
    }

    /** `parser(_:didEndElement:...)`, with `uuid` the value `UUID()` would give. */
    method EndElement(h: Host, name: string, uuid: string)
      modifies this
      ensures continuation == old(continuation)
      ensures forall b :: b in eBooks ==> b in old(eBooks) || fresh(b)
      ensures State() == EndStep(h, old(State()), name, uuid)
    {
      if name == "item" && parsingItem {
        FinishItem(h, uuid);
      }
    }

    /** `parserDidEndDocument`: resume with the books collected, then let go of the continuation. */
    method EndDocumentReached()
      requires Valid()
      modifies this, Held()
      ensures Valid() && continuation.None? && eBooks == old(eBooks)
      ensures old(continuation).Some? ==> old(continuation).value.outcome == Some(Success(eBooks))
      ensures Delivered(old(State()), EndDocument) == (if old(continuation).Some? then Some(Success(DataOf(eBooks))) else None)
      ensures State() == ReleaseStep(old(State()))
    {
      if continuation.Some? {
        continuation.value.Resume(Success(eBooks));
      }
      continuation := None;
    }

    /** `parser(_:parseErrorOccurred:)`: resume with the error, then let go of the continuation. */
    method ParseErrorOccurred(description: string)
      requires Valid()
      modifies this, Held()
      ensures Valid() && continuation.None? && eBooks == old(eBooks)
      ensures old(continuation).Some? ==> old(continuation).value.outcome == Some(Failure(ParsingError(description)))
      ensures Delivered(old(State()), ParseError(description))
           == (if old(continuation).Some? then Some(Failure(ParsingError(description))) else None)
      ensures State() == ReleaseStep(old(State()))
    {
      if continuation.Some? {
        continuation.value.Resume(Failure(ParsingError(description)));
      }
      continuation := None;
    }
  }
}
