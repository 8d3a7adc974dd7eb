# Gutenberg reader: the import pipeline, in Dafny

This project models the part of the iOS ebook reader that turns Project Gutenberg data into stored
books. That part covers:

- the quote-toggling CSV tokenizer;
- the `Book` record, with its catalog-row initializer, its in-place refresh, its derived views
  and its remote URL templates;
- the catalog upsert loop of `CatalogService.importCatalog`, and `needsInitialImport`;
- the `RSSFeedParserDelegate` state machine that collects one book per `<item>` of the daily feed;
- the daily-feed sync of `DailyFeedViewModel`, which links each buffered book to today's
  `DailyCollection`, and the status fields of `fetchDailyFeed`;
- `ReaderTheme` and `ReaderPreferences` over the `UserDefaults` key–value store.

The model follows the source's form:

- **Loops and in-place updates are imperative.** `ParseRow` and `Parse` loop over characters and
  lines. `Book.Update` assigns the object's fields. The catalog and feed loops insert into a
  `ModelContext` class and append to `DailyCollection` objects. The RSS delegate is a class whose
  callbacks update its fields.
- **Each such method is proved against a pure definition.** The definitions are `SplitRow`,
  `ParsedRows`, `UpdatedFromRow`, `ImportSpec`, `SyncSpec`, `StartStep`/`CharactersStep`/`EndStep`
  and `Run`.
- **The properties are stated about those definitions**, as lemmas.

The SwiftData store is the class `Store.ModelContext`:

- books keyed by id;
- collections keyed by day;
- the unsaved inserts;
- what the last successful save persisted;
- the number of saves.

Its meaning as a value is a `Snapshot`: each book's fields, and each day's member ids in order.

Foreign calls are parameters:

- `Platform.Host` supplies the locale's language names (`Locale.current.localizedString`) and
  whether `URL(string:)` accepts a text.
- `UUID()` is the `uuid` carried by an end-element event.
- The start of the current day is the `today` argument.
- Each fetch or save that can throw is a parameter saying whether it fails, and with what
  description where the error reaches the caller. The catalog import's fetches, whose failures are
  only logged, are `CatalogService.ImportFaults`: the read of the stored ids, the fetch of the
  target day's collection, and the set of row positions whose book fetch fails.

Three behaviours of the code worth knowing, each modelled as the code has it:

- **A refresh that loses eligibility.** `update(from:)` reports it with the same
  `bookCreationFailed` error the initializer throws, with its own message
  (`Books.UpdatedFromRow`). The catalog loop treats this error like any other refresh failure:
  the book is kept unchanged, not counted and not linked.
- **A failed save.** `importCatalog` only logs it, so `CatalogService.ImportAndSave` returns
  normally with the inserts still pending. In the daily sync the error propagates
  (`SyncBufferToDatabase`).
- **The feed id.** It is read with `Int(...)`, which accepts a sign, so the path segments "-5"
  and "+5" give the ids "-5" and "5" (`RssFeed.DerivedId`).

## Model

| member | source | states |
|---|---|---|
| CsvParser.ParseRow | ebook_reader/ebook_reader/Core/Utilities/CSVParser.swift:24-41 | the character loop returns exactly the reference split `SplitRow` of the row |
| CsvParser.Scan | ebook_reader/ebook_reader/Core/Utilities/CSVParser.swift:29-40 | a row always yields at least one field |
| CsvParser.ScanHasNoQuotes | ebook_reader/ebook_reader/Core/Utilities/CSVParser.swift:30-31 | no field ever contains a double quote |
| CsvParser.SplitRowCount | ebook_reader/ebook_reader/Core/Utilities/CSVParser.swift:29-40 | the field count is one more than the number of commas read outside quotes |
| CsvParser.SplitRowConcat | ebook_reader/ebook_reader/Core/Utilities/CSVParser.swift:29-38 | the fields concatenated are the row with every quote and every outside-quotes comma deleted, nothing else lost or reordered |
| CsvParser.SplitRowOfJoin | ebook_reader/ebook_reader/Core/Utilities/CSVParser.swift:29-40 | fields without commas or quotes, joined with commas, split back into the same fields |
| CsvParser.SplitAfterPlainField | ebook_reader/ebook_reader/Core/Utilities/CSVParser.swift:32-34 | a plain first field followed by a comma is split off whole |
| CsvParser.OddQuotesKeepComma | ebook_reader/ebook_reader/Core/Utilities/CSVParser.swift:30-36 | a comma after an odd number of quotes is kept in the current field |
| CsvParser.UnmatchedQuoteTakesRest | ebook_reader/ebook_reader/Core/Utilities/CSVParser.swift:30-36 | after an unmatched quote the rest of the row, commas included, is one field |
| CsvParser.InsideAfterParity | ebook_reader/ebook_reader/Core/Utilities/CSVParser.swift:27-31 | the inside-quotes flag after a text is its start value toggled once per quote |
| CsvParser.ScanAppend | ebook_reader/ebook_reader/Core/Utilities/CSVParser.swift:29-38 | splitting a concatenation continues the last field of the first part with the first field of the second |
| CsvParser.Parse | ebook_reader/ebook_reader/Core/Utilities/CSVParser.swift:10-22 | the line loop returns exactly the reference rows `ParsedRows` of the text |
| CsvParser.ParseDropsHeader | ebook_reader/ebook_reader/Core/Utilities/CSVParser.swift:13-21 | the first line is always discarded, and the rows are those of the following lines |
| CsvParser.LinesAfterFirst | ebook_reader/ebook_reader/Core/Utilities/CSVParser.swift:13 | splitting on newlines cuts at the first newline |
| CsvParser.RowsOfAppend | ebook_reader/ebook_reader/Core/Utilities/CSVParser.swift:18-20 | rows keep the order of their lines |
| CsvParser.RowsOfShape | ebook_reader/ebook_reader/Core/Utilities/CSVParser.swift:18-20 | every row is the split of a non-empty line, is non-empty, and holds no quote |
| CsvParser.ParsedRowsBound | ebook_reader/ebook_reader/Core/Utilities/CSVParser.swift:16-21 | there are at most as many rows as lines after the header, each non-empty |
| Strings.RemoveAll | ebook_reader/ebook_reader/Models/Book.swift:150 | `replacingOccurrences` of a character leaves none of it, and changes a text without it not at all |
| Strings.RemoveAllAppend | ebook_reader/ebook_reader/Models/Book.swift:58 | removing a character distributes over concatenation |
| Strings.Split | ebook_reader/ebook_reader/Models/Book.swift:59 | `components(separatedBy:)` always yields at least one component |
| Strings.SplitJoin | ebook_reader/ebook_reader/Models/Book.swift:59 | the components joined with the separator give back the text |
| Strings.SplitManyIffOccurs | ebook_reader/ebook_reader/Models/Book.swift:67-70 | there is more than one component exactly when the separator occurs |
| Strings.SplitWithoutSeparator | ebook_reader/ebook_reader/Models/Book.swift:77-78 | a text without the separator is its only component |
| Strings.SplitAtFirst | ebook_reader/ebook_reader/Models/Book.swift:59 | the first component ends at the first occurrence of the separator |
| Strings.SplitAtSeparator | ebook_reader/ebook_reader/Models/Book.swift:77 | a text that starts with the separator has an empty first component |
| Strings.SplitFirstIsPrefix | ebook_reader/ebook_reader/Models/Book.swift:59 | the first component is a prefix of the text |
| Strings.SplitPiecesAvoidSeparator | ebook_reader/ebook_reader/Models/Book.swift:59 | no component holds the separator: the text is cut at every occurrence, scanning left to right |
| Strings.SplitFirstFollowedBySeparator | ebook_reader/ebook_reader/Models/Book.swift:59 | when there are several components, the separator follows the first one in the text |
| Strings.SplitFirstAtFirstOccurrence | ebook_reader/ebook_reader/Models/Book.swift:59 | when there are several components, the cut after the first one is the first occurrence: no occurrence starts inside the first component, even one overlapping the separator |
| Strings.Trim | ebook_reader/ebook_reader/Models/Book.swift:78 | a trimmed text neither starts nor ends with a dropped character |
| Strings.TrimKeepsTrimmed | ebook_reader/ebook_reader/Models/Book.swift:78 | trimming a text that is already trimmed leaves it as it is |
| Strings.TrimIdempotent | ebook_reader/ebook_reader/Core/Utilities/RSSFeedParserDelegate.swift:67-69 | trimming twice is trimming once |
| Strings.TrimRemovesOnlyDropped | ebook_reader/ebook_reader/Core/Utilities/RSSFeedParserDelegate.swift:67-69 | trimming keeps one contiguous piece and removes only dropped characters around it |
| Strings.CapitalizedFrom | ebook_reader/ebook_reader/Models/Book.swift:182 | capitalizing keeps the length and every non-letter, and maps letters to letters |
| Strings.CapitalizedPointwise | ebook_reader/ebook_reader/Models/Book.swift:182 | `capitalized` character by character: whitespace is kept, a character that starts a word (first, or after whitespace) is upper-cased, every other one lower-cased |
| Strings.CapitalizedWord | ebook_reader/ebook_reader/Models/Book.swift:182 | an upper-case letter followed by lower-case letters is already capitalized |
| Strings.OccursIgnoresLetterCase | ebook_reader/ebook_reader/Models/Book.swift:77 | changing only letters does not change whether a letter-free separator occurs |
| Strings.NatToString | ebook_reader/ebook_reader/Core/Utilities/RSSFeedParserDelegate.swift:81 | `description` of a natural number is a canonical run of digits |
| Strings.ParseInt | ebook_reader/ebook_reader/Core/Utilities/RSSFeedParserDelegate.swift:81 | `Int(text)` only ever yields a 64-bit value |
| Strings.NatToStringValue | ebook_reader/ebook_reader/Core/Utilities/RSSFeedParserDelegate.swift:81 | the printed digits of a number have that number as their value |
| Strings.CanonicalDigitsPrint | ebook_reader/ebook_reader/Core/Utilities/RSSFeedParserDelegate.swift:81 | canonical digits are the printed form of their value |
| Strings.ParseIntRoundTrip | ebook_reader/ebook_reader/Core/Utilities/RSSFeedParserDelegate.swift:81 | `Int(n.description) == n` for every 64-bit `n` |
| Strings.ParseCanonicalDigits | ebook_reader/ebook_reader/Core/Utilities/RSSFeedParserDelegate.swift:81 | canonical digits in range parse to their value and print back unchanged |
| Platform.LocalizedLanguageName | ebook_reader/ebook_reader/Models/Book.swift:179 | the locale names a code exactly when it knows it |
| Platform.LastPathComponent | ebook_reader/ebook_reader/Core/Utilities/RSSFeedParserDelegate.swift:81 | the last path component holds no slash |
| Platform.LastPathComponentOfSegment | ebook_reader/ebook_reader/Core/Utilities/RSSFeedParserDelegate.swift:79-81 | a link ending in `/segment` has `segment` as its last path component |
| Books.CatalogFieldsOf | ebook_reader/ebook_reader/Models/Book.swift:146-182 | shared by both initializers. Fewer than 6 columns throws `parsingFailed`. A row that is not Text/en throws `bookCreationFailed`. A rejected link throws `parsingFailed`. On success the title is `CombinedTitle` of the quote-stripped columns 3 and 5, the link is the Gutenberg page of the id, the language text is built from column 4, and the authors hold no quote |
| Books.CombinedTitle | ebook_reader/ebook_reader/Models/Book.swift:166-171 | the stored title starts with the title column; it is the title alone exactly when the authors are empty or lower-case to "unknown", and otherwise continues with " by " and the authors |
| Books.NewBookData | ebook_reader/ebook_reader/Models/Book.swift:101-108 | the designated initializer stores the id, title, link and language text as given, starts unread with no local files, and sets no explicit author |
| Books.Book.constructor | ebook_reader/ebook_reader/Models/Book.swift:101-108 | the new object holds exactly `NewBookData` of its arguments |
| Books.BookFromRow | ebook_reader/ebook_reader/Models/Book.swift:144-186 | the catalog initializer throws as above. On success the id is column 0 without quotes, there is no reading state, the title is `CombinedTitle` of columns 3 and 5, and the link is the id's Gutenberg page. The explicit author is column 5 even when empty or "unknown", and the language text comes from column 4 |
| Books.Book.FromCatalogRow | ebook_reader/ebook_reader/Models/Book.swift:144-186 | the imperative initializer returns a fresh book holding exactly `BookFromRow`'s value, or throws its error |
| Books.UpdatedFromRow | ebook_reader/ebook_reader/Models/Book.swift:193-235 | the refresh throws as the initializer does, naming the book's id. On success it keeps the id and the reader's fields (reading position, local files), links the id's own page, takes the title from columns 3 and 5 as `CombinedTitle` does, the language text from column 4 and the author from column 5 |
| Books.Book.Update | ebook_reader/ebook_reader/Models/Book.swift:193-235 | in place: on success the object holds `UpdatedFromRow`'s value; when it throws, the object is unchanged |
| Books.UpdateAgreesWithInit | ebook_reader/ebook_reader/Models/Book.swift:193-235 | for the row of the book's own id, refresh and initializer succeed together, write the same catalog fields, and throw `parsingFailed` together |
| Books.UpdateIgnoresIdColumn | ebook_reader/ebook_reader/Models/Book.swift:199-220 | the refresh reads no id from the row: column 0 can say anything |
| Books.UpdateIdempotent | ebook_reader/ebook_reader/Models/Book.swift:193-235 | refreshing twice from the same row is refreshing once |
| Books.DisplayTitle | ebook_reader/ebook_reader/Models/Book.swift:57-60 | the shown title has no colon and is no longer than the title |
| Books.DisplayTitleIsFirstPiece | ebook_reader/ebook_reader/Models/Book.swift:57-60 | the shown title is the colon-free title up to its first " by ": a prefix holding no " by ", followed by " by " whenever it stops short, with no earlier occurrence overlapping that " by " |
| Books.CatalogDisplayTitle | ebook_reader/ebook_reader/Models/Book.swift:57-60 | a catalog title without colons or " by " is shown unchanged, whatever the authors |
| Books.AuthorFallsBackToUnknown | ebook_reader/ebook_reader/Models/Book.swift:62-71 | with no explicit author and no " by " in the title, the author is "Unknown Author" |
| Books.AuthorFromTitle | ebook_reader/ebook_reader/Models/Book.swift:66-70 | without an explicit author, a title holding " by " shows the last piece of the left-to-right cut at " : by " if that separator occurs, else at " by "; that piece ends the title right after the separator and holds no such separator |
| Books.AuthorOfOverlappingBy | ebook_reader/ebook_reader/Models/Book.swift:66-70 | the cut is left to right, so for "X by by Y" the author is "by Y", not the "Y" after the last " by " |
| Books.CatalogAuthor | ebook_reader/ebook_reader/Models/Book.swift:62-65 | a catalog book shows its quote-stripped authors column, even when empty or "unknown" |
| Books.LanguageCases | ebook_reader/ebook_reader/Models/Book.swift:73-79 | `language` is "Unknown" with no description or none holding ": "; otherwise it is the trimmed text after the first ": ", which runs to the next ": " or to the end and holds no ": " |
| Books.LanguageAfterPrefix | ebook_reader/ebook_reader/Models/Book.swift:73-79 | `language` of "Language: " + c is the trimmed part of c before its first ": " |
| Books.CatalogLanguage | ebook_reader/ebook_reader/Models/Book.swift:73-79 | a catalog book's language is the capitalized localized name (or code) up to any ": ", trimmed; a name without ": " is shown whole |
| Books.EnglishLanguage | ebook_reader/ebook_reader/Models/Book.swift:73-79 | a code the locale calls "English" shows the language "English" |
| Books.LanguageTagIdentifies | ebook_reader/ebook_reader/Models/Book.swift:82-96 | two languages share a tag exactly when the first is a known language and the second is the same name in any letter case, or both are the same text |
| Books.EnglishTag | ebook_reader/ebook_reader/Models/Book.swift:82-84 | "English" is tagged with the US flag and "EN" |
| Books.EnglishCatalogBookTag | ebook_reader/ebook_reader/Models/Book.swift:82-96 | an English catalog book in an English locale shows "English" and the US-flag "EN" tag |
| Books.CoverUrl | ebook_reader/ebook_reader/Models/Book.swift:118-120 | `coverURL` exists exactly when the host accepts the cover template, and is that template |
| Books.RemoteHtmlUrl | ebook_reader/ebook_reader/Models/Book.swift:123-125 | `remoteHTMLURL` exists exactly when the host accepts the HTML template, and is that template |
| Books.RemoteEpubUrl | ebook_reader/ebook_reader/Models/Book.swift:127-129 | `remoteEPUBURL` exists exactly when the host accepts the EPUB template, and is that template |
| Books.UrlTemplatesDetermineId | ebook_reader/ebook_reader/Models/Book.swift:118-129 | each template determines the id it was built from, and no HTML URL is an EPUB URL |
| DailyCollections.DailyCollection.constructor | ebook_reader/ebook_reader/Models/DailyCollection.swift:16-18 | a new collection has its date and no books |
| DailyCollections.IdsAppend | ebook_reader/ebook_reader/Models/DailyCollection.swift:14 | appending a book appends its id to the member ids |
| DailyCollections.AppendNewKeepsNoDuplicates | ebook_reader/ebook_reader/Services/CatalogService.swift:170-171 | appending an id not yet listed keeps the member ids distinct |
| Store.ModelContext.ValidContents | ebook_reader/ebook_reader/Models/DailyCollection.swift:13-14 | a consistent store's contents are well formed: books under their ids, members stored and listed once |
| Store.ModelContext.InsertBook | ebook_reader/ebook_reader/Services/CatalogService.swift:156 | `insert(book)` files the book under its id (replacing any record with that id), records a pending insert, and keeps the store consistent |
| Store.ModelContext.InsertCollection | ebook_reader/ebook_reader/Services/CatalogService.swift:107-108 | `insert(collection)` files an empty collection under its day and records a pending insert |
| Store.ModelContext.Save | ebook_reader/ebook_reader/Services/CatalogService.swift:178-179 | a save changes no contents; on success it persists them and clears the pending inserts, and a failure keeps both |
| Store.AppendMember | ebook_reader/ebook_reader/Services/CatalogService.swift:171 | `collection.books.append(book)` adds the id at the end of that day's members only, and keeps the store consistent |
| Store.RefreshStoredBook | ebook_reader/ebook_reader/Services/CatalogService.swift:131 | `update(from:)` on a stored book changes that book's record alone, to `UpdatedFromRow`'s value, or nothing when it throws |
| Store.StoredSameBookIsSame | ebook_reader/ebook_reader/Models/Book.swift:111-113 | Book `==` (id equality) is object identity among stored books |
| CatalogService.RowCounts | ebook_reader/ebook_reader/Services/CatalogService.swift:114-165 | an empty row does nothing. A new id is inserted and counted exactly when it makes a book; otherwise nothing changes. Without a target, a stored book counts as updated exactly when its refresh succeeds; a failed refresh changes nothing. A stored id whose book fetch fails changes nothing |
| CatalogService.LinkToKeeps | ebook_reader/ebook_reader/Services/CatalogService.swift:168-174 | linking keeps the store well formed. Only the target day's members change, and only by extension, by exactly the linked count. The id ends up a member |
| CatalogService.GrowsTransitive | ebook_reader/ebook_reader/Services/CatalogService.swift:114-175 | what the loop keeps composes over successive rows |
| CatalogService.ReplaceKeeps | ebook_reader/ebook_reader/Services/CatalogService.swift:129-132 | replacing a stored book's record by one with its id and reading state keeps what the loop keeps |
| CatalogService.RefreshStepKeeps | ebook_reader/ebook_reader/Services/CatalogService.swift:129-144 | a refresh keeps what the loop keeps |
| CatalogService.KnownStepKeeps | ebook_reader/ebook_reader/Services/CatalogService.swift:121-151 | a row for a stored book keeps what the loop keeps, and with a target its id is a member afterwards |
| CatalogService.NewStepKeeps | ebook_reader/ebook_reader/Services/CatalogService.swift:152-165 | a row for a new id keeps what the loop keeps, and links the book when the row makes one |
| CatalogService.StepKeeps | ebook_reader/ebook_reader/Services/CatalogService.swift:114-175 | one row keeps what the loop keeps, and an accepted row's id is linked to the target day |
| CatalogService.RowsKeep | ebook_reader/ebook_reader/Services/CatalogService.swift:114-175 | the whole row loop keeps what one row keeps |
| CatalogService.RowsLinkAccepted | ebook_reader/ebook_reader/Services/CatalogService.swift:114-175 | with a target day, every accepted row's id ends up among that day's members |
| CatalogService.ImportKeepsWellFormed | ebook_reader/ebook_reader/Services/CatalogService.swift:81-175 | the store stays well formed and keeps every stored id. The days grow by at most the target day. One insert is pending per inserted book, plus one for a collection created because none was found or its fetch failed |
| CatalogService.CatalogImportLinksNothing | ebook_reader/ebook_reader/Services/CatalogService.swift:129-144 | a full catalog import (no target day) links nothing and leaves every day's members as they were |
| CatalogService.ImportKeepsExistingBooks | ebook_reader/ebook_reader/Services/CatalogService.swift:121-144 | with the ids read, a catalog import keeps each stored book's id and reading state. A daily import leaves stored books exactly as they were and refreshes none |
| CatalogService.LinkImportLinksAcceptedRows | ebook_reader/ebook_reader/Services/CatalogService.swift:96-174 | a daily import extends the day's members (none when the collection fetch failed and an empty one replaced it), by exactly the linked count, with every accepted row's id; other days are untouched |
| CatalogService.RepeatedNewRowCountedTwice | ebook_reader/ebook_reader/Services/CatalogService.swift:152-158 | a new id on two rows is inserted and counted twice, with two pending inserts, the second record replacing the first |
| CatalogService.FindOrCreateCollection | ebook_reader/ebook_reader/Services/CatalogService.swift:96-111 | the target day's collection is found, or created empty and inserted when there is none or the fetch fails (replacing the stored one), and no other day changes |
| CatalogService.LinkIfAbsent | ebook_reader/ebook_reader/Services/CatalogService.swift:168-174 | the store and counters after a link are `LinkTo` of those before |
| CatalogService.RefreshCounted | ebook_reader/ebook_reader/Services/CatalogService.swift:129-144 | the store and counters after a counted refresh are `KnownRowStep` of those before |
| CatalogService.ProcessKnownRow | ebook_reader/ebook_reader/Services/CatalogService.swift:121-144 | a stored book's row moves the store and counters as `KnownRowStep` does |
| CatalogService.ProcessStoredRow | ebook_reader/ebook_reader/Services/CatalogService.swift:121-151 | a row whose id was known is skipped when its book fetch fails or finds nothing, else moves the store and counters as `ImportStep` does |
| CatalogService.InsertCounted | ebook_reader/ebook_reader/Services/CatalogService.swift:155-158 | an insert files the book under its id and counts it |
| CatalogService.ProcessNewRow | ebook_reader/ebook_reader/Services/CatalogService.swift:152-174 | a new id's row moves the store and counters as `NewRowStep` does |
| CatalogService.ProcessRow | ebook_reader/ebook_reader/Services/CatalogService.swift:114-174 | one loop iteration, given whether its book fetch fails, moves the store and counters as `ImportStep` does |
| CatalogService.ProcessRows | ebook_reader/ebook_reader/Services/CatalogService.swift:114-175 | the row loop, with the book fetch failing at the given positions, moves the store and counters as `ImportRows` does |
| CatalogService.ImportUnsaved | ebook_reader/ebook_reader/Services/CatalogService.swift:81-175 | the ids are read once (none when that fetch fails), the collection is found or created (created also when its fetch fails), and the rows are processed: the result is `ImportSpec` under the given fetch failures |
| CatalogService.ImportAndSave | ebook_reader/ebook_reader/Services/CatalogService.swift:81-188 | `ImportSpec`, then exactly one save. A failed save is only logged and leaves the inserts pending |
| CatalogService.ImportCatalog | ebook_reader/ebook_reader/Services/CatalogService.swift:71-188 | the parsed rows are imported as `ImportSpec` says, with one save; the counters are those of the log line |
| CatalogService.NeedsInitialImport | ebook_reader/ebook_reader/Services/CatalogService.swift:28-35 | true exactly when fewer than 1,000 books are saved, a failed count reading as none; the count runs in a fresh context, which sees no unsaved insert |
| RssFeed.ItemBook | ebook_reader/ebook_reader/Core/Utilities/RSSFeedParserDelegate.swift:62-91 | an item yields a book exactly when its trimmed link is a valid URL. That book has the derived id, the trimmed title and link, the trimmed description as language text, and no reading state |
| RssFeed.StartStep | ebook_reader/ebook_reader/Core/Utilities/RSSFeedParserDelegate.swift:30-41 | a start element becomes the current element and touches no book; only `<item>` starts an item, with all text fields empty; any other start element changes nothing else, so text collected so far is kept |
| RssFeed.CharactersStep | ebook_reader/ebook_reader/Core/Utilities/RSSFeedParserDelegate.swift:43-59 | text outside an item changes nothing; inside one, the text is appended exactly to the field of the current element (title, link or description) and no other field changes |
| RssFeed.EndStep | ebook_reader/ebook_reader/Core/Utilities/RSSFeedParserDelegate.swift:61-96 | only the end of an item being parsed changes the state: it ends the item and appends exactly `ItemBook` of the collected text when the trimmed link is a valid URL; the current element is cleared only when a book is appended |
| RssFeed.ResumedAtMostOnce | ebook_reader/ebook_reader/Core/Utilities/RSSFeedParserDelegate.swift:98-109 | a held continuation is resumed at most once over any run of events, and one already released never is |
| RssFeed.StepReleases | ebook_reader/ebook_reader/Core/Utilities/RSSFeedParserDelegate.swift:98-109 | an event resumes exactly when the continuation is held and the event ends the parse, and then releases it |
| RssFeed.TextOutsideItemsIgnored | ebook_reader/ebook_reader/Core/Utilities/RSSFeedParserDelegate.swift:43-44 | text outside any item records nothing and adds no book |
| RssFeed.BooksOnlyAppended | ebook_reader/ebook_reader/Core/Utilities/RSSFeedParserDelegate.swift:91 | books are only ever appended, at most one per event |
| RssFeed.StepAppendsAtMostOne | ebook_reader/ebook_reader/Core/Utilities/RSSFeedParserDelegate.swift:61-96 | one event appends at most one book and keeps the others |
| RssFeed.RunSnoc | ebook_reader/ebook_reader/Core/Utilities/RSSFeedParserDelegate.swift:30-109 | running one more event is one more step |
| RssFeed.ItemTextCollected | ebook_reader/ebook_reader/Core/Utilities/RSSFeedParserDelegate.swift:33-58 | starting an item resets the text, and the title, link and description elements' text is collected into their own fields |
| RssFeed.OneItem | ebook_reader/ebook_reader/Core/Utilities/RSSFeedParserDelegate.swift:30-96 | one whole item appends exactly the book `ItemBook` makes of its text, or nothing when the link is invalid |
| RssFeed.GutenbergLinkId | ebook_reader/ebook_reader/Core/Utilities/RSSFeedParserDelegate.swift:79-81 | a Gutenberg book link gives its book number as the id, not the UUID |
| RssFeed.DerivedIdReadsBack | ebook_reader/ebook_reader/Core/Utilities/RSSFeedParserDelegate.swift:81 | a derived id is the UUID, or a decimal that reads back as the same `Int` as the last path component |
| RssFeed.RssFeedParserDelegate.constructor | ebook_reader/ebook_reader/Core/Utilities/RSSFeedParserDelegate.swift:26-28 | a new delegate holds the continuation and the initial state |
| RssFeed.RssFeedParserDelegate.StartElement | ebook_reader/ebook_reader/Core/Utilities/RSSFeedParserDelegate.swift:30-41 | the new state is `StartStep` of the old one |
| RssFeed.RssFeedParserDelegate.FoundCharacters | ebook_reader/ebook_reader/Core/Utilities/RSSFeedParserDelegate.swift:43-59 | the new state is `CharactersStep` of the old one |
| RssFeed.RssFeedParserDelegate.FinishItem | ebook_reader/ebook_reader/Core/Utilities/RSSFeedParserDelegate.swift:62-95 | the end of an item leaves the state `EndStep` makes |
| RssFeed.RssFeedParserDelegate.EndElement | ebook_reader/ebook_reader/Core/Utilities/RSSFeedParserDelegate.swift:61-96 | the new state is `EndStep` of the old one |
| RssFeed.RssFeedParserDelegate.EndDocumentReached | ebook_reader/ebook_reader/Core/Utilities/RSSFeedParserDelegate.swift:98-102 | a held continuation is resumed with the books collected, then released |
| RssFeed.RssFeedParserDelegate.ParseErrorOccurred | ebook_reader/ebook_reader/Core/Utilities/RSSFeedParserDelegate.swift:104-109 | a held continuation is resumed with `parsingError` and the description, then released |
| DailyFeed.KeepsTransitive | ebook_reader/ebook_reader/Features/DailyFeed/DailyFeedViewModel.swift:77-92 | what the sync keeps composes over successive books |
| DailyFeed.LinkBufferedKeeps | ebook_reader/ebook_reader/Features/DailyFeed/DailyFeedViewModel.swift:79-91 | one book keeps the store well formed and the stored books as they were. Its id ends up among today's members. A stored id inserts nothing; an unknown id stores the buffered record and adds one pending insert |
| DailyFeed.LinkAllKeeps | ebook_reader/ebook_reader/Features/DailyFeed/DailyFeedViewModel.swift:77-92 | the loop keeps what one book keeps, and every buffered id is among today's members |
| DailyFeed.SyncLinksWholeBuffer | ebook_reader/ebook_reader/Features/DailyFeed/DailyFeedViewModel.swift:59-92 | no filter applies: a sync that reaches the end links every buffered book to today. It keeps stored books and other days as they were, and inserts only books that were not stored |
| DailyFeed.SyncNeverDuplicates | ebook_reader/ebook_reader/Features/DailyFeed/DailyFeedViewModel.swift:85-90 | today's members never list an id twice, however often the feed repeats a book |
| DailyFeed.LinkBufferedBook | ebook_reader/ebook_reader/Features/DailyFeed/DailyFeedViewModel.swift:78-91 | one loop iteration moves the store as `LinkBuffered` does |
| DailyFeed.LinkNextBuffered | ebook_reader/ebook_reader/Features/DailyFeed/DailyFeedViewModel.swift:78-91 | linking the next buffered book extends the loop's reference state `LinkAll` by that book |
| DailyFeed.LinkBuffer | ebook_reader/ebook_reader/Features/DailyFeed/DailyFeedViewModel.swift:77-92 | the loop moves the store as `LinkAll` of the books it reaches, and stops with the fetch's error exactly when a book fetch fails |
| DailyFeed.DailyFeedViewModel.FindOrCreateDay | ebook_reader/ebook_reader/Features/DailyFeed/DailyFeedViewModel.swift:62-74 | today's collection is reused, or created empty and inserted |
| DailyFeed.DailyFeedViewModel.SyncBufferToDatabase | ebook_reader/ebook_reader/Features/DailyFeed/DailyFeedViewModel.swift:59-96 | a failed collection fetch throws and changes nothing. Otherwise the store becomes `SyncSpec` of the buffer. A failed book fetch throws before the save. Otherwise one save follows, and its error is thrown |
| DailyFeed.DailyFeedViewModel.LinkAndSave | ebook_reader/ebook_reader/Features/DailyFeed/DailyFeedViewModel.swift:69-95 | the same as `SyncBufferToDatabase` once the collection fetch has succeeded |
| DailyFeed.FeedSyncError | ebook_reader/ebook_reader/Features/DailyFeed/DailyFeedViewModel.swift:59-96 | the sync throws nothing exactly when the collection fetch, every book fetch it reaches and the save succeed; a failed collection fetch is the error |
| DailyFeed.DailyFeedViewModel.SetContext | ebook_reader/ebook_reader/Features/DailyFeed/DailyFeedViewModel.swift:31-33 | the store is set and nothing else changes |
| DailyFeed.DailyFeedViewModel.FetchDailyFeed | ebook_reader/ebook_reader/Features/DailyFeed/DailyFeedViewModel.swift:35-57 | without a store nothing changes. Otherwise loading ends false, and the buffer holds the feed's books (or nothing). The message is "Error loading feed: " and the description of the download, parse or sync error, and nil when there is none |
| ReaderSettings.ThemeRawRoundTrip | ebook_reader/ebook_reader/Models/ReaderSettings.swift:11-14 | raw values and themes correspond one to one: `ReaderTheme(rawValue: t.rawValue) == t` |
| ReaderSettings.TextColorReadable | ebook_reader/ebook_reader/Models/ReaderSettings.swift:16-18 | the text colour is "#f5f5f5" exactly for dark and "#2c2c2c" for light and sepia, and is never its theme's background |
| ReaderSettings.FontSizeIn | ebook_reader/ebook_reader/Models/ReaderSettings.swift:24-28 | the font size is the stored integer, or 18 when that is 0 (which includes no value); it is never 0 |
| ReaderSettings.ThemeDefaultsToSepia | ebook_reader/ebook_reader/Models/ReaderSettings.swift:34-38 | no stored theme, a stored value that is not text, or a stored text that is no raw value reads as sepia; the default "sepia" is no raw value |
| ReaderSettings.ThemeReadsBack | ebook_reader/ebook_reader/Models/ReaderSettings.swift:34-41 | a theme written reads back as itself |
| ReaderSettings.FontSizeReadsBack | ebook_reader/ebook_reader/Models/ReaderSettings.swift:24-31 | a font size written reads back, except 0, which reads as 18 |
| ReaderSettings.SettingsIndependent | ebook_reader/ebook_reader/Models/ReaderSettings.swift:29-40 | writing either key leaves the other setting as it was |
| ReaderSettings.UserDefaults.Set | ebook_reader/ebook_reader/Models/ReaderSettings.swift:29 | `set(_:forKey:)` writes that key alone |
| ReaderSettings.ReaderPreferences.SetFontSize | ebook_reader/ebook_reader/Models/ReaderSettings.swift:29-30 | the setter writes only "readerFontSize"; the size reads back (18 for 0) and the theme is unchanged |
| ReaderSettings.ReaderPreferences.SetTheme | ebook_reader/ebook_reader/Models/ReaderSettings.swift:39-40 | the setter writes only "readerTheme", as the raw value; the theme reads back and the size is unchanged |

## Left out

- Loading the catalog is left out: the bundle lookup, the download, `Data(contentsOf:)` and the UTF-8
  decoding are file and network input. `ImportCatalog` starts from the decoded text.
- The feed download and the XML parse inside `fetchDailyFeed` are network and foreign parser code.
  `FetchDailyFeed` receives their outcome as the books or an error description.
- `parseXMLData` is not part of this model. It resumes the continuation a second time when
  `XMLParser.parse()` fails after the delegate has already resumed it; that is continuation bridging
  in the foreign parser. The delegate's own at-most-once resumption is modelled.
- `FeedService` is left out: it is a network client, and its own re-entrancy guard makes its upsert
  unreachable.
- The actor and main-actor isolation of `CatalogService` is concurrency. Each import and each sync
  is one sequential run.
- The `DailyFeedViewModel` fields the code never reads (`parser`, `currentElement`, `currentTitle`,
  `currentLink`) are not modelled.
- `isLoading` is true only while `fetchDailyFeed` waits on the network. `FetchDailyFeed` sets it as
  the source does, but only its final `false` is observable in the model.
- `FetchDailyFeed`: its contract states the status fields. The store's new contents are stated by
  `SyncBufferToDatabase`, which it calls, and not repeated.
- The file-system views of `Book` call `FileManager`. These are `actualLocalFileURL`, `isDownloaded`,
  `actualLocalCoverURL`, `localHTMLURL` and `localEPUBURL`.
- The `dailyFeatures` inverse relationship of `Book` is SwiftData bookkeeping. Membership is kept on
  the collection side only.
- `lastReadLocation` is a `real`. The floating-point behaviour of `Double` is not modelled; the
  catalog code only copies it.
- URLs are their text, and `URL(string:)` validity is the host's predicate. `lastPathComponent` is
  approximated as the text after the last `/`, one trailing `/` being ignored.
- `lowercased()` and `capitalized` are ASCII only. Other letters are left as they are; Unicode case
  mapping is foreign.
- `Locale.current.localizedString(forLanguageCode:)` is a map in `Platform.Host`. `UUID()` is a value
  carried by each end-element event. `Calendar.startOfDay` is the `today` argument, and days are
  numbers.
- Errors thrown by the store and by the network are their `localizedDescription` text.
- `UserDefaults.integer(forKey:)` and `string(forKey:)` are modelled only for integer and string
  values; any other stored value reads as 0 or nil. Their conversions of booleans and floating-point
  numbers are not modelled.
- Inserting a book or a collection whose unique key is already stored replaces that record, one
  record per key; SwiftData's merge of the two records' fields is not modelled. The import reaches
  this when its id fetch or its collection fetch fails, and when a new id appears on several rows:
  the ids are read once before the loop, so each such row is inserted and counted again.
- Strings are sequences of Unicode scalars. Swift iterates a `String` by grapheme cluster, so a
  quote or a comma followed by a combining mark is one character there, which neither toggles the
  quote state nor separates columns; `ParseRow` treats the quote or the comma on its own.
- `importCatalog` and `needsInitialImport` each open a fresh `ModelContext`. `ImportCatalog`
  accepts any valid context; a fresh one, with nothing pending and the saved contents, is one case.
- The print and log statements are diagnostics and are left out. The counters they report are
  returned.
- `ReaderTheme`'s `CaseIterable` conformance and the SwiftUI colour conversion are left out: they
  are interface code.
