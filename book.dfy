/**
 * The `Book` record: its stored fields, the designated initializer, the initializer that
 * normalises a row of the Gutenberg catalog CSV, the in-place refresh from a newer row, the
 * derived views the interface shows, and the remote URL templates built around the id.
 */
module Books {
  import opened Wrappers
  import opened Strings
  import opened Platform

  /** `CatalogService.CatalogError`. */
  datatype CatalogError =
    | FileNotFound
    | DownloadFailed
    | ParsingFailed
    | BookCreationFailed(reason: string)
    | BookUpdateFailed(reason: string)

  /** The stored fields of a book, as a value (the link is kept as its URL text). */
  datatype BookData = BookData(
    id: string,
    lastReadLocation: real,
    title: string,
    link: string,
    explicitAuthor: Option<string>,
    descriptionLanguage: Option<string>,
    localFileName: Option<string>,
    localCoverFileName: Option<string>)

  /** The fields a catalog row supplies. */
  datatype CatalogFields = CatalogFields(
    title: string,
    link: string,
    descriptionLanguage: string,
    explicitAuthor: string)

  /** The fields that belong to the reader and to downloads, never to the catalog. */
  datatype UserFields = UserFields(
    lastReadLocation: real,
    localFileName: Option<string>,
    localCoverFileName: Option<string>)

  function UserFieldsOf(d: BookData): UserFields {
    UserFields(d.lastReadLocation, d.localFileName, d.localCoverFileName)
  }

  function CatalogFieldsIn(d: BookData): (Option<string>, string, string, Option<string>) {
    (d.descriptionLanguage, d.title, d.link, d.explicitAuthor)
  }

  // ---------------------------------------------------------------------------
  // Normalising a catalog row
  // ---------------------------------------------------------------------------

  /** The Gutenberg page of a book. */
  function GutenbergLink(id: string): string {
    "https://www.gutenberg.org/ebooks/" + id
  }

  /** The catalog filter: quote-stripped type exactly "Text", lower-cased language "en". */
  predicate IsEnglishText(row: seq<string>)
    requires |row| >= 6
  {
    StripQuotes(row[1]) == "Text" && Lower(StripQuotes(row[4])) == "en"
  }

  /** The stored title: "T by A", or just T when there are no known authors. */
  function CombinedTitle(title: string, authors: string): (r: string)
    ensures title <= r
    ensures r == title <==> authors == [] || Lower(authors) == "unknown"
    ensures r != title ==> r[|title|..] == " by " + authors
  {
    if authors == [] || Lower(authors) == "unknown" then title else title + " by " + authors
  }

  /** "Language: " and the capitalized localized name of `code` (the code itself when unnamed). */
  function LanguageDescription(h: Host, code: string): string {
    "Language: " + Capitalized(LocalizedLanguageName(h, code).GetOr(code))
  }

  const InitIneligible: string := "Row does not meet 'Text' and 'en' language criteria."

  function UpdateIneligible(id: string): string {
    "Updated row no longer meets 'Text' and 'en' language criteria for book ID " + id + "."
  }

  /**
   * What a row yields for the book `id`, checked in the order both initializers check it:
   * the column count, then the Text/en filter, then the link.
   */
  function CatalogFieldsOf(h: Host, row: seq<string>, id: string, ineligible: string): (r: Result<CatalogFields, CatalogError>)
    ensures |row| < 6 ==> r == Failure(ParsingFailed)
    ensures |row| >= 6 && !IsEnglishText(row) ==> r == Failure(BookCreationFailed(ineligible))
    ensures |row| >= 6 && IsEnglishText(row) && !h.isValidUrl(GutenbergLink(id)) ==> r == Failure(ParsingFailed)
    ensures r.Success? ==> |row| >= 6 && IsEnglishText(row) && h.isValidUrl(r.value.link)
    ensures r.Success? ==> '"' !in r.value.explicitAuthor && r.value.link == GutenbergLink(id)
    ensures r.Success? ==> r.value.descriptionLanguage == LanguageDescription(h, StripQuotes(row[4]))
    ensures r.Success? ==> r.value.title == CombinedTitle(StripQuotes(row[3]), StripQuotes(row[5]))
  {
    if |row| < 6 then Failure(ParsingFailed)
    else
      var kind := StripQuotes(row[1]);
      var title := StripQuotes(row[3]);
      var language := StripQuotes(row[4]);
      var authors := StripQuotes(row[5]);
      if !(kind == "Text" && Lower(language) == "en") then Failure(BookCreationFailed(ineligible))
      else
        var link := GutenbergLink(id);
        if !h.isValidUrl(link) then Failure(ParsingFailed)
        else Success(CatalogFields(CombinedTitle(title, authors), link, LanguageDescription(h, language), authors))
  }

  /** `Book(id:title:link:description:)`: nothing read, nothing downloaded. */
  function NewBookData(id: string, title: string, link: string, description: Option<string>): (d: BookData)
    ensures d.id == id && UserFieldsOf(d) == UserFields(0.0, None, None)
    ensures d.explicitAuthor == None
    ensures d.title == title && d.link == link && d.descriptionLanguage == description
  {
    BookData(id, 0.0, title, link, None, description, None, None)
  }

  /** `Book(catalogRow:)`: the new book, or the error it throws. */
  function BookFromRow(h: Host, row: seq<string>): (r: Result<BookData, CatalogError>)
    ensures |row| < 6 ==> r == Failure(ParsingFailed)
    ensures |row| >= 6 && !IsEnglishText(row) ==> r == Failure(BookCreationFailed(InitIneligible))
    ensures r.Success? ==> |row| >= 6 && r.value.id == StripQuotes(row[0]) && '"' !in r.value.id
    ensures r.Success? ==> UserFieldsOf(r.value) == UserFields(0.0, None, None)
    ensures r.Success? ==> r.value.link == GutenbergLink(r.value.id) && h.isValidUrl(r.value.link)
    ensures r.Success? ==> r.value.explicitAuthor == Some(StripQuotes(row[5]))
    ensures r.Success? ==> r.value.descriptionLanguage == Some(LanguageDescription(h, StripQuotes(row[4])))
    ensures r.Success? ==> r.value.title == CombinedTitle(StripQuotes(row[3]), StripQuotes(row[5]))
  {
    if |row| < 6 then Failure(ParsingFailed)
    else
      var id := StripQuotes(row[0]);
      match CatalogFieldsOf(h, row, id, InitIneligible)
      case Failure(e) => Failure(e)
      case Success(f) =>
        var d := NewBookData(id, f.title, f.link, Some(f.descriptionLanguage));
        Success(d.(explicitAuthor := Some(f.explicitAuthor)))
  }

  /** `update(from:)` on a book holding `d`: the refreshed book, or the error it throws. */
  function UpdatedFromRow(h: Host, d: BookData, row: seq<string>): (r: Result<BookData, CatalogError>)
    ensures |row| < 6 ==> r == Failure(ParsingFailed)
    ensures |row| >= 6 && !IsEnglishText(row) ==> r == Failure(BookCreationFailed(UpdateIneligible(d.id)))
    ensures r.Success? ==> r.value.id == d.id && UserFieldsOf(r.value) == UserFieldsOf(d)
    ensures r.Success? ==> r.value.link == GutenbergLink(d.id) && h.isValidUrl(r.value.link)
    ensures r.Success? ==> |row| >= 6 && r.value.explicitAuthor == Some(StripQuotes(row[5]))
    ensures r.Success? ==> |row| >= 6 && r.value.title == CombinedTitle(StripQuotes(row[3]), StripQuotes(row[5]))
    ensures r.Success? ==> |row| >= 6 && r.value.descriptionLanguage == Some(LanguageDescription(h, StripQuotes(row[4])))
  {
    match CatalogFieldsOf(h, row, d.id, UpdateIneligible(d.id))
    case Failure(e) => Failure(e)
    case Success(f) =>
      Success(d.(title := f.title, link := f.link,
                 descriptionLanguage := Some(f.descriptionLanguage), explicitAuthor := Some(f.explicitAuthor)))
  }

  /**
   * The update and the initializer agree: for the row of the book's own id they succeed
   * together and write the same catalog fields; they throw the same kind of error.
   */
  lemma UpdateAgreesWithInit(h: Host, d: BookData, row: seq<string>)
    requires |row| >= 1 && StripQuotes(row[0]) == d.id
    ensures BookFromRow(h, row).Success? <==> UpdatedFromRow(h, d, row).Success?
    ensures BookFromRow(h, row).Success? ==>
              CatalogFieldsIn(BookFromRow(h, row).value) == CatalogFieldsIn(UpdatedFromRow(h, d, row).value)
    ensures BookFromRow(h, row) == Failure(ParsingFailed) <==> UpdatedFromRow(h, d, row) == Failure(ParsingFailed)
  {
  }

  /** The update reads no id from the row: column 0 may say anything. */
  lemma UpdateIgnoresIdColumn(h: Host, d: BookData, row: seq<string>, other: string)
    requires |row| >= 1
    ensures UpdatedFromRow(h, d, row[0 := other]) == UpdatedFromRow(h, d, row)
  {
    var row' := row[0 := other];
    if |row| >= 6 {
      assert row'[1] == row[1] && row'[3] == row[3] && row'[4] == row[4] && row'[5] == row[5];
    }
  }

  /** Refreshing twice from the same row is refreshing once. */
  lemma UpdateIdempotent(h: Host, d: BookData, row: seq<string>)
    requires UpdatedFromRow(h, d, row).Success?
    ensures UpdatedFromRow(h, UpdatedFromRow(h, d, row).value, row) == UpdatedFromRow(h, d, row)
  {
  }

  // ---------------------------------------------------------------------------
  // The Book object
  // ---------------------------------------------------------------------------

  /** A catalog or feed book; the id never changes once the book exists. */
  class Book {
    const id: string
    var lastReadLocation: real
    var title: string
    var link: string
    var explicitAuthor: Option<string>
    var descriptionLanguage: Option<string>
    var localFileName: Option<string>
    var localCoverFileName: Option<string>

    function Data(): BookData
      reads this
    {
      BookData(id, lastReadLocation, title, link, explicitAuthor, descriptionLanguage, localFileName, localCoverFileName)
    }

    /** `init(id:title:link:description:)`. */
    constructor (id: string, title: string, link: string, description: Option<string>)
      ensures Data() == NewBookData(id, title, link, description)
    {
      this.id := id;
      this.lastReadLocation := 0.0;
      this.title := title;
      this.link := link;
      this.explicitAuthor := None;
      this.descriptionLanguage := description;
      this.localFileName := None;
      this.localCoverFileName := None;
    }

    /** `init(catalogRow:)`: a fresh book, or the error thrown. */
    static method FromCatalogRow(h: Host, row: seq<string>) returns (r: Result<Book, CatalogError>)
      ensures r.Success? ==> fresh(r.value) && BookFromRow(h, row) == Success(r.value.Data())
      ensures r.Failure? ==> BookFromRow(h, row) == Failure(r.error)
    {
      if |row| < 6 {
        return Failure(ParsingFailed);
      }
      var id := StripQuotes(row[0]);
      var kind := StripQuotes(row[1]);
      var titleFromCsv := StripQuotes(row[3]);
      var languageFromCsv := StripQuotes(row[4]);
      var authorsFromCsv := StripQuotes(row[5]);
      if !(kind == "Text" && Lower(languageFromCsv) == "en") {
        return Failure(BookCreationFailed(InitIneligible));
      }
      var combined := CombinedTitle(titleFromCsv, authorsFromCsv);
      var link := GutenbergLink(id);
      if !h.isValidUrl(link) {
        return Failure(ParsingFailed);
      }
      var description := LanguageDescription(h, languageFromCsv);
      var book := new Book(id, combined, link, Some(description));
      book.explicitAuthor := Some(authorsFromCsv);
      return Success(book);
    }

    /** `update(from:)`: refreshes the catalog fields in place, or throws and changes nothing. */
    method Update(h: Host, row: seq<string>) returns (error: Option<CatalogError>)
      modifies this
      ensures UpdatedFromRow(h, old(Data()), row).Success? ==>
                error == None && Data() == UpdatedFromRow(h, old(Data()), row).value
      ensures UpdatedFromRow(h, old(Data()), row).Failure? ==>
                error == Some(UpdatedFromRow(h, old(Data()), row).error) && Data() == old(Data())
    {
      ghost var expected := UpdatedFromRow(h, Data(), row);
      if |row| < 6 {
        return Some(ParsingFailed);
      }
      var kind := StripQuotes(row[1]);
      var titleFromCsv := StripQuotes(row[3]);
      var languageFromCsv := StripQuotes(row[4]);
      var authorsFromCsv := StripQuotes(row[5]);
      if !(kind == "Text" && Lower(languageFromCsv) == "en") {
        assert !IsEnglishText(row);
        return Some(BookCreationFailed(UpdateIneligible(id)));
      }
      assert IsEnglishText(row);
      var combined := CombinedTitle(titleFromCsv, authorsFromCsv);
      var newLink := GutenbergLink(id);
      if !h.isValidUrl(newLink) {
        return Some(ParsingFailed);
      }
      var newDescription := LanguageDescription(h, languageFromCsv);
      assert CatalogFieldsOf(h, row, id, UpdateIneligible(id))
        == Success(CatalogFields(combined, newLink, newDescription, authorsFromCsv));
      title := combined;
      link := newLink;
      descriptionLanguage := Some(newDescription);
      explicitAuthor := Some(authorsFromCsv);
      return None;
    }
  }

  /** The contents of `books`, in order. */
  function DataOf(books: seq<Book>): seq<BookData>
    reads set b | b in books
  {
    seq(|books|, i reads set b | b in books requires 0 <= i < |books| => books[i].Data())
  }

  /** Book `==`: two books are equal when their ids are. */
  predicate SameBook(a: Book, b: Book) {
    a.id == b.id
  }

  // ---------------------------------------------------------------------------
  // Derived views
  // ---------------------------------------------------------------------------

  /** `displayTitle`: the title without colons, cut before its first " by ". */
  function DisplayTitle(title: string): (r: string)
    ensures ':' !in r && |r| <= |title|
  {
    var cleaned := RemoveAll(title, ':');
    SplitFirstIsPrefix(cleaned, " by ");
    Split(cleaned, " by ")[0]
  }

  /**
   * `author`: the explicit author when there is one, else what follows the last " : by ", else
   * what follows the last " by ", else "Unknown Author".
   */
  function Author(explicitAuthor: Option<string>, title: string): string {
    if explicitAuthor.Some? then explicitAuthor.value
    else
      var parts := Split(title, " : by ");
      if |parts| > 1 then parts[|parts| - 1]
      else
        var otherParts := Split(title, " by ");
        if |otherParts| > 1 then otherParts[|otherParts| - 1] else "Unknown Author"
  }

  /** `language`: the trimmed text after the first ": " of the description, else "Unknown". */
  function Language(description: Option<string>): string {
    match description
    case None => "Unknown"
    case Some(d) =>
      var components := Split(d, ": ");
      if |components| > 1 then Trim(components[1], IsSpace) else "Unknown"
  }

  /** The flag and code `languageTag` shows for each language it knows, keyed by lower-case name. */
  const LanguageFlags: map<string, string> := map[
    "english" := "\U{1F1FA}\U{1F1F8} EN",
    "spanish" := "\U{1F1EA}\U{1F1F8} ES",
    "german" := "\U{1F1E9}\U{1F1EA} DE",
    "french" := "\U{1F1EB}\U{1F1F7} FR",
    "hungarian" := "\U{1F1ED}\U{1F1FA} HU",
    "finnish" := "\U{1F1EB}\U{1F1EE} FI",
    "italian" := "\U{1F1EE}\U{1F1F9} IT",
    "portuguese" := "\U{1F1F5}\U{1F1F9} PT",
    "dutch" := "\U{1F1F3}\U{1F1F1} NL",
    "catalan" := "\U{1F1E6}\U{1F1E9} CA"
  ]

  /** `languageTag`: a flag for a known language, else a globe before the language name. */
  function LanguageTag(language: string): string {
    var key := Lower(language);
    if key in LanguageFlags then LanguageFlags[key] else "\U{1F310} " + language
  }

  // ---------------------------------------------------------------------------
  // Remote URL templates
  // ---------------------------------------------------------------------------

  function CoverUrlText(id: string): string {
    "https://www.gutenberg.org/cache/epub/" + id + "/pg" + id + ".cover.medium.jpg"
  }

  function RemoteHtmlUrlText(id: string): string {
    "https://www.gutenberg.org/ebooks/" + id + ".html.images"
  }

  function RemoteEpubUrlText(id: string): string {
    "https://www.gutenberg.org/ebooks/" + id + ".epub3.images"
  }

  /** `coverURL`: the template, when the host accepts it as a URL. */
  function CoverUrl(h: Host, id: string): (r: Option<string>)
    ensures r.Some? <==> h.isValidUrl(CoverUrlText(id))
    ensures r.Some? ==> r.value == CoverUrlText(id)
  {
    if h.isValidUrl(CoverUrlText(id)) then Some(CoverUrlText(id)) else None
  }

  /** `remoteHTMLURL`. */
  function RemoteHtmlUrl(h: Host, id: string): (r: Option<string>)
    ensures r.Some? <==> h.isValidUrl(RemoteHtmlUrlText(id))
    ensures r.Some? ==> r.value == RemoteHtmlUrlText(id)
  {
    if h.isValidUrl(RemoteHtmlUrlText(id)) then Some(RemoteHtmlUrlText(id)) else None
  }

  /** `remoteEPUBURL`. */
  function RemoteEpubUrl(h: Host, id: string): (r: Option<string>)
    ensures r.Some? <==> h.isValidUrl(RemoteEpubUrlText(id))
    ensures r.Some? ==> r.value == RemoteEpubUrlText(id)
  {
    if h.isValidUrl(RemoteEpubUrlText(id)) then Some(RemoteEpubUrlText(id)) else None
  }

  /** Each template determines the id it was built from, and no HTML URL is an EPUB URL. */
  lemma UrlTemplatesDetermineId(a: string, b: string)
    ensures CoverUrlText(a) == CoverUrlText(b) ==> a == b
    ensures RemoteHtmlUrlText(a) == RemoteHtmlUrlText(b) ==> a == b
    ensures RemoteEpubUrlText(a) == RemoteEpubUrlText(b) ==> a == b
    ensures RemoteHtmlUrlText(a) != RemoteEpubUrlText(b)
  {
    var p := "https://www.gutenberg.org/ebooks/";
    if CoverUrlText(a) == CoverUrlText(b) {
      var c := "https://www.gutenberg.org/cache/epub/";
      assert |a| == |b|;
      assert CoverUrlText(a)[|c|..|c| + |a|] == a;
      assert CoverUrlText(b)[|c|..|c| + |b|] == b;
    }
    if RemoteHtmlUrlText(a) == RemoteHtmlUrlText(b) {
      assert RemoteHtmlUrlText(a)[|p|..|p| + |a|] == a;
      assert RemoteHtmlUrlText(b)[|p|..|p| + |b|] == b;
    }
    if RemoteEpubUrlText(a) == RemoteEpubUrlText(b) {
      assert RemoteEpubUrlText(a)[|p|..|p| + |a|] == a;
      assert RemoteEpubUrlText(b)[|p|..|p| + |b|] == b;
    }
    var x := RemoteHtmlUrlText(a);
    var y := RemoteEpubUrlText(b);
    assert x[|x| - 8] == 'l';
    assert y[|y| - 8] == '3';
  }

  // ---------------------------------------------------------------------------
  // The views on catalog books
  // ---------------------------------------------------------------------------

  /**
   * A catalog title without colons and without " by " (also not at its end, before the
   * joining " by ") is shown unchanged, whatever the authors.
   */
  lemma CatalogDisplayTitle(title: string, authors: string)
    requires ':' !in title && !Occurs(title + " by", " by ")
    ensures DisplayTitle(CombinedTitle(title, authors)) == title
  {
    if !Occurs(title, " by ") {
    } else {
      OccursAppend(title, " by", " by ");
    }
    if authors == [] || Lower(authors) == "unknown" {
      SplitWithoutSeparator(title, " by ");
    } else {
      RemoveAllAppend(title + " by ", authors, ':');
      RemoveAllAppend(title, " by ", ':');
      assert RemoveAll(" by ", ':') == " by ";
      assert (" by ")[..|" by "| - 1] == " by";
      SplitAtFirst(title, " by ", RemoveAll(authors, ':'));
    }
  }

  /** A title without " by " and without an explicit author shows "Unknown Author". */
  lemma AuthorFallsBackToUnknown(title: string)
    requires !Occurs(title, " by ")
    ensures Author(None, title) == "Unknown Author"
  {
    if Occurs(title, " : by ") {
      assert " : by " == " :" + " by ";
      OccursSuffixOfSeparator(title, " :", " by ");
    }
    SplitManyIffOccurs(title, " : by ");
    SplitManyIffOccurs(title, " by ");
  }

  /**
   * The display title is the colon-free title up to its first " by ": a prefix of it holding
   * no " by ", followed by " by " whenever it stops short of the end, and that " by " is the
   * first one (no occurrence starts inside the prefix and runs into it).
   */
  lemma DisplayTitleIsFirstPiece(title: string)
    ensures var cleaned := RemoveAll(title, ':'); var r := DisplayTitle(title);
            && |r| <= |cleaned| && r == cleaned[..|r|] && !Occurs(r, " by ")
            && (|r| < |cleaned| ==> && |r| + 4 <= |cleaned| && cleaned[|r|..|r| + 4] == " by "
                                    && !Occurs(r + " by", " by "))
  {
    var cleaned := RemoveAll(title, ':');
    SplitFirstIsPrefix(cleaned, " by ");
    SplitPiecesAvoidSeparator(cleaned, " by ");
    if |Split(cleaned, " by ")| > 1 {
      SplitFirstFollowedBySeparator(cleaned, " by ");
      SplitFirstAtFirstOccurrence(cleaned, " by ");
      assert (" by ")[..|" by "| - 1] == " by";
    } else {
      SplitJoin(cleaned, " by ");
    }
  }

  /**
   * Without an explicit author, a title holding " by " shows as author the last piece of the
   * left-to-right cut at " : by " when there is one, else at " by "; that piece ends the title
   * right after a separator and holds no such separator. Because " by " overlaps itself, the
   * last piece can start before the last occurrence (see `AuthorOfOverlappingBy`).
   */
  lemma AuthorFromTitle(title: string)
    requires Occurs(title, " by ")
    ensures var a := Author(None, title);
            var sep := if Occurs(title, " : by ") then " : by " else " by ";
            && a == Split(title, sep)[|Split(title, sep)| - 1]
            && |sep + a| <= |title| && title[|title| - |sep + a|..] == sep + a
            && !Occurs(a, sep)
  {
    SplitManyIffOccurs(title, " : by ");
    if Occurs(title, " : by ") {
      LastPieceAfterSeparator(title, " : by ");
    } else {
      SplitManyIffOccurs(title, " by ");
      LastPieceAfterSeparator(title, " by ");
    }
  }

  /**
   * " by " overlaps itself: in "X by by Y" the cut is made at the first " by ", which uses the
   * space before the second "by", so the author shown is "by Y" and not the "Y" after the last
   * " by ".
   */
  lemma AuthorOfOverlappingBy()
    ensures Author(None, "X by by Y") == "by Y"
  {
    var t := "X by by Y";
    assert !Occurs(t, " : by ") by {
      if Occurs(t, " : by ") {
        OccursHasChar(t, " : by ", 1);
      }
    }
    SplitWithoutSeparator(t, " : by ");
    SplitAtFirst("X", " by ", "by Y");
    assert t == "X" + " by " + "by Y";
    SplitWithoutSeparator("by Y", " by ");
    assert !Occurs("by Y", " by ");
  }

  /** The last piece of a split at a separator that occurs follows that separator's last occurrence. */
  lemma LastPieceAfterSeparator(s: string, sep: string)
    requires sep != [] && |Split(s, sep)| > 1
    ensures var parts := Split(s, sep);
            var a := parts[|parts| - 1];
            && |sep + a| <= |s| && s[|s| - |sep + a|..] == sep + a
            && !Occurs(a, sep)
  {
    SplitJoin(s, sep);
    JoinEndsWithLast(Split(s, sep), sep);
    SplitPiecesAvoidSeparator(s, sep);
  }

  /** A catalog book shows its quote-stripped authors column, even when empty or "unknown". */
  lemma CatalogAuthor(h: Host, row: seq<string>)
    requires BookFromRow(h, row).Success?
    ensures var d := BookFromRow(h, row).value; Author(d.explicitAuthor, d.title) == StripQuotes(row[5])
  {
  }

  /**
   * The language a catalog book shows is the capitalized localized name up to any ": " in it,
   * trimmed; a name without ": " is shown whole.
   */
  lemma CatalogLanguage(h: Host, code: string)
    ensures var name := LocalizedLanguageName(h, code).GetOr(code);
            Language(Some(LanguageDescription(h, code))) == Trim(Split(Capitalized(name), ": ")[0], IsSpace)
    ensures var name := LocalizedLanguageName(h, code).GetOr(code);
            !Occurs(name, ": ") ==> Language(Some(LanguageDescription(h, code))) == Trim(Capitalized(name), IsSpace)
  {
    var name := LocalizedLanguageName(h, code).GetOr(code);
    var c := Capitalized(name);
    LanguageAfterPrefix(c);
    if !Occurs(name, ": ") {
      OccursIgnoresLetterCase(name, c, ": ");
      SplitWithoutSeparator(c, ": ");
    }
  }

  /**
   * `language` is "Unknown" without a description or without ": " in it; otherwise it is the
   * trimmed text that follows the first ": ", up to the next ": ".
   */
  lemma LanguageCases(description: Option<string>)
    ensures description.None? ==> Language(description) == "Unknown"
    ensures description.Some? && !Occurs(description.value, ": ") ==> Language(description) == "Unknown"
    ensures description.Some? && Occurs(description.value, ": ") ==>
              var d := description.value;
              && |Split(d, ": ")| > 1
              && var p := Split(d, ": ")[0]; var q := Split(d, ": ")[1];
              && |p| + 2 <= |d| && d[..|p| + 2] == p + ": " && !Occurs(p, ": ")
              && q <= d[|p| + 2..] && !Occurs(q, ": ")
              && var rest := d[|p| + 2..];
              && (q == rest || (|q| + 2 <= |rest| && rest[|q|..|q| + 2] == ": "))
              && Language(description) == Trim(q, IsSpace)
  {
    if description.Some? {
      var d := description.value;
      SplitManyIffOccurs(d, ": ");
      if Occurs(d, ": ") {
        var parts := Split(d, ": ");
        SplitFirstFollowedBySeparator(d, ": ");
        SplitPiecesAvoidSeparator(d, ": ");
        SplitJoin(d, ": ");
        var rest := Join(parts[1..], ": ");
        assert d == parts[0] + ": " + rest;
        assert d[|parts[0]| + 2..] == rest;
        SecondPieceStartsRest(d, ": ");
        FirstPieceRunsToSeparator(d[|parts[0]| + 2..], ": ");
      }
    }
  }

  /** The first piece of a cut runs to the first separator, or is the whole text. */
  lemma FirstPieceRunsToSeparator(s: string, sep: string)
    requires sep != []
    ensures var q := Split(s, sep)[0];
            q == s || (|q| + |sep| <= |s| && s[|q|..|q| + |sep|] == sep)
  {
    if |Split(s, sep)| > 1 {
      SplitFirstFollowedBySeparator(s, sep);
    } else {
      SplitJoin(s, sep);
    }
  }

  /** The second piece of a cut is the first piece of the text after the first separator. */
  lemma SecondPieceStartsRest(d: string, sep: string)
    requires sep != [] && |Split(d, sep)| > 1
    ensures var p := Split(d, sep)[0];
            && |p| + |sep| <= |d|
            && Split(d, sep)[1] == Split(d[|p| + |sep|..], sep)[0]
  {
    var p := Split(d, sep)[0];
    SplitFirstIsPrefix(d, sep);
    SplitFirstFollowedBySeparator(d, sep);
    SplitFirstAtFirstOccurrence(d, sep);
    var rest := d[|p| + |sep|..];
    assert d == p + sep + rest;
    SplitAtFirst(p, sep, rest);
  }


  /**
   * Tags tell languages apart: two languages share a tag exactly when the first is a known
   * language and the second is the same name in any letter case, or both are the same text.
   */
  lemma LanguageTagIdentifies(a: string, b: string)
    ensures LanguageTag(a) == LanguageTag(b) <==> if Lower(a) in LanguageFlags then Lower(b) == Lower(a) else a == b
  {
    var globe := "\U{1F310} ";
    assert forall k :: k in LanguageFlags ==> LanguageFlags[k][0] != globe[0];
    if Lower(a) in LanguageFlags && Lower(b) in LanguageFlags && LanguageTag(a) == LanguageTag(b) {
      var ta, tb := LanguageFlags[Lower(a)], LanguageFlags[Lower(b)];
      assert ta[1] == tb[1] && ta[3] == tb[3] && ta[4] == tb[4];
    }
    if Lower(a) !in LanguageFlags && Lower(b) !in LanguageFlags && LanguageTag(a) == LanguageTag(b) {
      assert LanguageTag(a)[|globe|..] == a && LanguageTag(b)[|globe|..] == b;
    }
    if (Lower(a) in LanguageFlags) != (Lower(b) in LanguageFlags) {
      assert LanguageTag(a)[0] != LanguageTag(b)[0];
    }
    if a == b {
    }
  }

  /** `language` of "Language: " + c is the trimmed part of `c` before its first ": ". */
  lemma LanguageAfterPrefix(c: string)
    ensures Language(Some("Language: " + c)) == Trim(Split(c, ": ")[0], IsSpace)
  {
    LanguagePrefixSplits(c);
  }

  lemma LanguagePrefixSplits(c: string)
    ensures Split("Language: " + c, ": ") == ["Language"] + Split(c, ": ")
  {
    LanguageLabelHasNoSeparator();
    SplitAtFirst("Language", ": ", c);
    assert "Language" + ": " + c == "Language: " + c;
  }

  lemma LanguageLabelHasNoSeparator()
    ensures !Occurs("Language" + (": ")[..|": "| - 1], ": ")
  {
    assert "Language" + (": ")[..|": "| - 1] == "Language:";
    if Occurs("Language:", ": ") {
      OccursHasChar("Language:", ": ", 1);
      assert false;
    }
  }

  /** An English catalog book in an English locale is tagged with the US flag and "EN". */
  lemma EnglishCatalogBookTag(h: Host, row: seq<string>)
    requires BookFromRow(h, row).Success?
    requires StripQuotes(row[4]) in h.languageNames && h.languageNames[StripQuotes(row[4])] == "English"
    ensures var d := BookFromRow(h, row).value;
            Language(d.descriptionLanguage) == "English" && LanguageTag(Language(d.descriptionLanguage)) == "\U{1F1FA}\U{1F1F8} EN"
  {
    var d := BookFromRow(h, row).value;
    EnglishLanguage(h, StripQuotes(row[4]));
    assert Language(d.descriptionLanguage) == "English";
    EnglishTag();
  }

  lemma EnglishTag()
    ensures LanguageTag("English") == "\U{1F1FA}\U{1F1F8} EN"
  {
    EnglishLowered();
  }

  lemma EnglishLanguage(h: Host, code: string)
    requires code in h.languageNames && h.languageNames[code] == "English"
    ensures Language(Some(LanguageDescription(h, code))) == "English"
  {
    var name := LocalizedLanguageName(h, code).GetOr(code);
    assert name == "English";
    EnglishHasNoColonSpace();
    CatalogLanguage(h, code);
    EnglishIsCapitalizedAndTrimmed();
  }

  lemma EnglishHasNoColonSpace()
    ensures !Occurs("English", ": ")
  {
    if Occurs("English", ": ") {
      OccursHasChar("English", ": ", 1);
      assert false;
    }
  }

  lemma EnglishIsCapitalizedAndTrimmed()
    ensures Trim(Capitalized("English"), IsSpace) == "English"
  {
    CapitalizedWord("English");
    TrimKeepsTrimmed("English", IsSpace);
  }

  lemma EnglishLowered()
    ensures Lower("English") == "english"
  {
    var l := Lower("English");
    forall i | 0 <= i < 7 ensures l[i] == "english"[i] {
    }
  }
}
