# AcadGenie record layer in Dafny

AcadGenie is a single-page dashboard. There a signed-in student keeps a collection of
academic entries: achievements, results and records. Each entry has seven
user-editable fields: `type`, `title`, `description`, `date`, `grade`, `institution`
and `category`. The collection lives in a cloud document store.

This project models the client-side record layer of `script.js`:

- **The mirror.** `achievements` is rebuilt from every snapshot of the user's
  collection, each document carrying its id. Logout empties it.
- **The view projection.**
  - `filterAchievements` applies a type filter, then a case-insensitive substring
    search.
  - `sortAchievements` applies one of four orderings: date descending or ascending,
    title ascending or descending.
  - `renderAchievements` stores the sorted copy in `filteredAchievements`, which is
    what "export filtered" writes.
  - `updateStats` produces the total and the per-type counters.
- **The codecs.**
  - `convertToCSV` quotes every field and doubles embedded quotes.
  - The CSV importer drops the header, skips blank lines, splits on every comma,
    strips one surrounding quote and applies defaults.
  - The JSON importers (file and paste) refuse a non-array and map each element with
    the same defaults.
- **The guards.**
  - The CSV and JSON exports refuse an empty collection ("No data to export.").
  - The backup refuses an empty collection ("No data to backup.").
  - The filtered export refuses an empty stored render result, not an empty
    collection.
- **The confirmation slot.** The delete confirmation holds one pending callback.
  Opening replaces it, confirming runs it once, cancelling drops it.

The module-level state is a `Session` class (`session.dfy`) whose handlers are methods.
The document store is represented by the field `issued`, the log of `add`/`delete`
writes the client sends, oldest first.

Each stateful method is proved against a specification function:

- sorting against the stable insertion sort `SortBy`;
- rendering against `FilterView` and `SortBy`;
- importing against `CsvEntries` or `JsonEntries`.

Lemmas then state what those functions promise:

- the view is an order-keeping selection with exact membership;
- a sort is a stable permutation ordered by the comparator, newest first under
  `date-desc`;
- CSV export followed by import gives the entries back for fields that are safe to
  split;
- JSON export followed by import gives them back when type, title and date are
  non-empty;
- the counters partition the mirror.

Files:

- `text.dfy`: the string built-ins the code relies on: `split`, `join`, `trim`,
  `toLowerCase`, `includes`, and a total order standing in for `localeCompare`.
- `records.dfy`: the entry, mirror record, snapshot document and write datatypes, and
  the order-keeping selection that `Array.prototype.filter` performs.
- `projection.dfy`: the filter and search predicates and the counters.
- `ordering.dfy`: ISO dates as time values, the comparator, the stable sort
  specification, and the in-place array sort.
- `codec.dfy`: the CSV writer and row parser, and the JSON entry mapping and
  templates.
- `session.dfy`: the `Session` class with the handlers, importers, exports and backup.
- `scenarios.dfy`: short sessions driving the handlers, each stating what comes out.

## Model

| member | source | states |
|---|---|---|
| Text.Trim | script.js:462 | the result has no white space at either end; it is empty exactly when every character is white space; a string with no white space at its ends is unchanged |
| Text.Split | script.js:456 | at least one piece; no piece holds the separator; joining the pieces with the separator gives back the input |
| Text.SplitNoSeparator | script.js:456 | a string without the separator splits into itself alone |
| Text.SplitAfterPiece | script.js:456 | splitting `p + sep + rest` gives `p` followed by the pieces of `rest` |
| Text.SplitJoin | script.js:629-639 | joining pieces free of the separator and splitting again gives back the same pieces |
| Text.Join | script.js:636-639 | joining no pieces gives the empty string, and the result is never shorter than the number of joints |
| Text.JoinEnds | script.js:636-639 | the join starts with the first piece and ends with the last |
| Text.JoinAvoids | script.js:636 | a character absent from every piece and different from the separator is absent from the join |
| Text.Lower | script.js:375 | same length; each character lowered; no upper-case ASCII letter remains |
| Text.LowerIdempotent | script.js:375-384 | lowering an already lowered term changes nothing |
| Text.Contains | script.js:380 | the empty term is contained in every string, and a contained term is no longer than the string |
| Text.ContainsIff | script.js:380 | `includes` holds exactly when the term occurs at some position |
| Text.StrCmp | script.js:291-292 | the comparison is -1, 0 or 1, and 0 exactly for equal strings |
| Text.StrCmpAntisymmetric | script.js:291-292 | swapping the arguments negates the comparison |
| Text.StrCmpTransitive | script.js:291-292 | the comparison is transitive |
| Records.Select | script.js:377 | the filter result is a subsequence of the input and every kept element satisfies the predicate |
| Records.SelectCount | script.js:377 | each element is kept exactly as often as it occurs when it satisfies the predicate, and never otherwise |
| Records.SelectConcat | script.js:377 | filtering a concatenation filters each part |
| Records.SelectAll | script.js:377 | filtering with a predicate every element satisfies keeps the sequence whole |
| Records.SubseqTransitive | script.js:377-386 | a filter applied to a filtered list still keeps the original relative order |
| Records.Mirror | script.js:107-110 | one record per document, in snapshot order, with the document's id and data |
| Records.Entries | script.js:509-520 | the entries of the records, position by position |
| Projection.SearchHit | script.js:378-385 | the empty term matches every record, and a matching term is no longer than one of the five searched fields |
| Projection.Keep | script.js:377-385 | with filter `all` and no term every record is kept; a kept record has the filtered type (or the filter is `all`) and matches the term |
| Projection.FilterView | script.js:374-386 | the view is a subsequence of the mirror, and each record occurs in it exactly as often as in the mirror when it passes the type filter and the lowered search, and never otherwise |
| Projection.FilterViewMembership | script.js:374-386 | a record is in the view exactly when it is in the mirror and passes both filters |
| Projection.SearchIgnoresCase | script.js:375 | a search term and its lower-cased form give the same view |
| Projection.FilterAllShowsMirror | script.js:376-378 | with filter `all` and an empty search the view is the mirror itself |
| Projection.CountOf | script.js:396-398 | a per-type counter never exceeds the number of records |
| Projection.CountAllOfKind | script.js:396-398 | when every record has the type, its counter equals the total |
| Projection.StatsOf | script.js:390-399 | the total is the mirror's length and no per-type counter exceeds it |
| Projection.StatsPartition | script.js:395-398 | the three counters plus the records of any other type add up to the total |
| Projection.StatsMatchFilter | script.js:396-398 | each counter equals the size of the view that type's filter button shows with an empty search |
| Ordering.TimeValue | script.js:289-290 | a date has a time value exactly when it is a calendar-valid `YYYY-MM-DD` string, and that value is a whole number of days in milliseconds |
| Ordering.YearStartStep | script.js:289-290 | each year starts where the previous one ends: 366 days after it for a leap year, 365 otherwise |
| Ordering.DivisibilityChain | script.js:289-290 | a multiple of 400 is a multiple of 100, and a multiple of 100 a multiple of 4, as the leap-year rule relies on |
| Ordering.YearStartOrder | script.js:289-290 | a later year starts after an earlier one has ended |
| Ordering.MonthStep | script.js:289-290 | each month starts where the previous one ends, and December ends the year |
| Ordering.MonthOrder | script.js:289-290 | a later month of a year starts after an earlier one has ended |
| Ordering.DayInYear | script.js:289-290 | the day number of a valid date lies inside its year |
| Ordering.DayNumberOrder | script.js:289-290 | an earlier calendar day has a smaller day number |
| Ordering.TimeValueOrder | script.js:289-290 | of two valid dates, the first has the smaller time value exactly when it names an earlier calendar day |
| Ordering.DateDiff | script.js:289-290 | the difference is 0 when either date does not parse, and for equal dates |
| Ordering.Cmp | script.js:288-295 | an unknown sort value answers 0; a date order answers 0 when a date does not parse and otherwise puts the later date first (`date-desc`) or the earlier date first (`date-asc`); a title order answers 0 exactly for equal titles, and puts first the title that comes first (`title-asc`) or last (`title-desc`) in string order |
| Ordering.Insert | script.js:287 | inserting adds one record |
| Ordering.SortBy | script.js:287 | sorting keeps the length; the lemmas below give permutation, order and stability |
| Ordering.InsertPermutation | script.js:287 | inserting adds exactly the inserted record to the multiset |
| Ordering.SortByPermutation | script.js:287 | the sorted result is a permutation of the input |
| Ordering.SortByWithin | script.js:287 | sorting keeps every record inside the domain the comparator is consistent on |
| Ordering.InsertSorted | script.js:287 | inserting into a sorted list keeps it sorted under a consistent comparator |
| Ordering.SortBySorted | script.js:286-296 | under a comparator that is antisymmetric and transitive on the records, the result is sorted |
| Ordering.InsertKeepsTies | script.js:287 | inserting keeps the relative order of the records that tie with any given record |
| Ordering.SortByStable | script.js:287 | the sort is stable: records tying with a given record keep their input order |
| Ordering.SortByAllTies | script.js:294 | a comparator that always answers 0 leaves the input unchanged |
| Ordering.InsertAfterPrefix | script.js:287 | insertion passes over the leading records that compare before the inserted one |
| Ordering.InsertInPlace | script.js:287 | the array prefix is unchanged and the suffix becomes the insertion of its first element into the rest |
| Ordering.PlacedIsInsert | script.js:287 | an array laid out as smaller records, the inserted record, then the rest is that insertion |
| Ordering.SortInPlace | script.js:287 | the array's new contents are the stable sort of its old contents |
| Ordering.SortBySuffix | script.js:287 | sorting a suffix inserts its first record into the sorted rest |
| Ordering.CmpAntisymmetric | script.js:288-295 | the comparator negates when its arguments are swapped, for every sort value |
| Ordering.CmpTransitive | script.js:288-295 | the comparator is transitive on records whose dates parse (date orders) or on any records (title orders) |
| Ordering.ComparatorConsistent | script.js:288-295 | the comparator is consistent on any set of rankable records |
| Ordering.SortOrdersPermutation | script.js:286-296 | for rankable records the sorted result is a permutation and is sorted |
| Ordering.SortAchievementsSpec | script.js:286-296 | `sortAchievements` is a sorted, stable permutation of its input under each of the four orders |
| Ordering.SortUnknownOrderKeepsOrder | script.js:294 | an unknown sort value leaves the records in their input order |
| Ordering.DateDescNewestFirst | script.js:289 | under `date-desc` every date parses and dates never increase along the result |
| Ordering.DateDescSortedNewestFirst | script.js:289 | any `date-desc` sorted permutation of dated records runs newest first |
| Ordering.TitleAscAlphabetical | script.js:291 | under `title-asc` titles never decrease along the result |
| Ordering.TitleDescReverseAlphabetical | script.js:292 | under `title-desc` titles never increase along the result |
| Ordering.NewestFirstOnCalendar | script.js:289 | records whose time values never increase have calendar days that never increase |
| Ordering.NoOlderOnCalendar | script.js:289 | a record whose time value is not below another's does not name an earlier calendar day |
| Ordering.DateDescCalendarOrder | script.js:289 | under `date-desc` no record is followed by one with a later calendar day |
| Codec.Fields | script.js:628-633 | seven values, one per header column |
| Codec.DoubleQuotes | script.js:634 | a string without quotes is unchanged; other characters are kept; a string with a quote grows |
| Codec.DoubleQuotesAppend | script.js:634 | doubling quotes distributes over concatenation |
| Codec.UndoubleDoubleQuotes | script.js:634 | collapsing doubled quotes undoes the doubling |
| Codec.Quote | script.js:634 | the field is wrapped in quotes and keeps every other character |
| Codec.QuotedFields | script.js:632-635 | seven quoted fields, in header order |
| Codec.RowText | script.js:632-636 | a row starts and ends with a quote |
| Codec.CsvText | script.js:629-639 | the text starts with the header line, and is the header line alone for no records |
| Codec.HeaderOneLine | script.js:628-629 | the header line holds no line break |
| Codec.HeaderColumns | script.js:628-629 | the header line splits at commas into the seven column names |
| Codec.Rows | script.js:631-637 | one row per record |
| Codec.RowsAppend | script.js:636 | the rows of one more record end with that record's row |
| Codec.ConvertToCsv | script.js:627-640 | the loop builds the header line followed by one row per record, joined by line breaks |
| Codec.CsvLines | script.js:627-640 | without line breaks in the fields, the text splits into the header line and one row per record: `data.length + 1` lines |
| Codec.RowFields | script.js:632-636 | without commas in the fields, a row splits into the seven quoted fields, and each unquotes to its field |
| Codec.RowAvoids | script.js:632-636 | a character other than comma and quote, absent from every field, is absent from the row |
| Codec.Clean | script.js:464 | trimming and stripping never lengthens a value, and a non-empty value with no white space or quote at its ends is unchanged |
| Codec.Values | script.js:464 | one value per comma-separated piece, at least one; a line without a comma gives its cleaned self |
| Codec.At | script.js:466-472 | `values[i]` is the value at that index, or empty past the end (where the source's `undefined` is falsy) |
| Codec.Blank | script.js:462 | an empty line is blank, and a blank line holds no quote and no comma |
| Codec.StripQuotes | script.js:464 | a leading quote and a trailing quote are each removed on their own, a lone quote is removed, and a value with neither is unchanged |
| Codec.Or | script.js:466-472 | a non-empty value is kept, an empty one replaced by the default |
| Codec.EntryOfValues | script.js:465-472 | the defaults make type and title non-empty, and the date non-empty when today is |
| Codec.ParseRow | script.js:464-472 | the same, for a whole line |
| Codec.BlankIsEmptyTrim | script.js:462 | a line is skipped exactly when its trim is empty |
| Codec.LineEntries | script.js:462-480 | each line contributes at most one entry |
| Codec.ImportLines | script.js:461-481 | no more entries than lines |
| Codec.CsvEntries | script.js:456-481 | fewer entries than lines, since the first line is never imported |
| Codec.CsvEntriesNamed | script.js:466-467 | every imported entry has a non-empty type and title |
| Codec.ImportLinesSplice | script.js:461-481 | the entries of a list of lines are those before a line, that line's, then those after |
| Codec.ImportNextLine | script.js:461-481 | the entries of one more line extend the entries so far by that line's |
| Codec.ImportPrefixLines | script.js:461-481 | the loop's running result equals the import of the lines seen so far |
| Codec.SingleLineImportsNothing | script.js:456-461 | a text without a line break, the header alone, imports nothing |
| Codec.FirstLineIgnored | script.js:461 | the first line is dropped whatever it holds |
| Codec.CleanQuoted | script.js:464 | trimming and stripping a quoted field leaves the field with its quotes still doubled |
| Codec.RowValues | script.js:464 | without commas in the fields, a row yields seven values, each the field with doubled quotes |
| Codec.ParseRowText | script.js:464-472 | a row of a CSV-safe entry parses back to that entry |
| Codec.RowNotBlank | script.js:462 | an exported row is never skipped as blank |
| Codec.ImportRows | script.js:461-481 | importing the rows of CSV-safe records yields their entries in order |
| Codec.CsvRoundTrip | script.js:456-481 | importing the exported CSV of CSV-safe records yields their entries in order |
| Codec.ImportKeepsDoubledQuotes | script.js:464 | a title holding a quote comes back with its quotes doubled, different from the original |
| Codec.CleanHalfQuoted | script.js:464 | a piece with only its leading quote loses that quote |
| Codec.QuoteSplitsAtComma | script.js:634 | a quoted field with a comma has the quote-free part before the comma at its start |
| Codec.ImportSplitsQuotedCommas | script.js:464 | a title with a comma comes back cut at its first comma |
| Codec.FieldOr | script.js:511-517 | a truthy string field is taken, a missing or falsy one replaced by the default |
| Codec.EntryFromJson | script.js:510-520 | type and title are never empty, and the date is not when today is not |
| Codec.NonObjectGetsDefaults | script.js:510-520 | an element that is not an object imports as the all-defaults entry |
| Codec.FalsyFieldsGetDefaults | script.js:510-520 | an object whose seven keys are missing or falsy imports as the all-defaults entry |
| Codec.JsonEntries | script.js:509-525 | one entry per array element |
| Codec.JsonEntriesNext | script.js:509-525 | the entries of one more element extend the entries so far by that element's |
| Codec.ToJson | script.js:607 | a record serialises to an object whose `id` is the document id |
| Codec.Truthy | script.js:511-517 | `null` is falsy; a string is truthy exactly when non-empty; arrays and objects are truthy |
| Codec.Prop | script.js:511-517 | a property is present exactly on an object holding the key, and is that key's value |
| Codec.ToJsonKeys | script.js:607 | the serialised record has exactly the keys `id` and the seven columns, each holding that field as a string |
| Codec.ExportCarriesIds | script.js:607 | each element of the exported array carries its record's document id |
| Codec.ToJsonArray | script.js:607 | the mirror serialises to an array with one element per record |
| Codec.JsonRoundTrip | script.js:607 | an exported record with non-empty type, title and date imports back to its entry |
| Codec.JsonExportImport | script.js:607 | importing the exported JSON array yields the mirror's entries in order |
| Codec.IsoDay | script.js:469 | the default day holds no `T` |
| Codec.IsoDayOfTimestamp | script.js:469 | the default day of an ISO timestamp is its date part |
| Codec.JsonTemplateImports | script.js:664-674 | importing the JSON template yields its one example entry |
| Dashboard.Adds | script.js:477-478 | one `add` write per entry |
| Dashboard.LogPush | script.js:522-524 | issuing the writes of a list and then one more `add` issues the writes of the longer list |
| Dashboard.LogStep | script.js:477-480 | issuing the writes of two lists in turn issues the writes of their concatenation |
| Dashboard.Session.constructor | script.js:6-12 | the initial state: empty mirror and stored render result, filter `all`, sort `date-desc`, empty search, no pending delete, no writes |
| Dashboard.Session.Render | script.js:298-306 | empty data leaves the stored result as it was; other data stores the stable sort of a copy under the current sort |
| Dashboard.Session.FilterAchievements | script.js:374-388 | the view of the mirror is rendered |
| Dashboard.Session.SetSearch | script.js:214 | the search text is set and the new view rendered |
| Dashboard.Session.SetSort | script.js:215 | the sort value is set and the view rendered under it |
| Dashboard.Session.SetFilter | script.js:217-223 | the type filter is set and the new view rendered |
| Dashboard.Session.OnSnapshot | script.js:106-112 | the mirror becomes exactly the snapshot; the whole mirror is rendered regardless of filter and search; the counters are those of the mirror |
| Dashboard.Session.Logout | script.js:93-95 | the mirror is emptied |
| Dashboard.Session.DeleteAchievement | script.js:153-159 | the slot holds the delete of this id, replacing what was pending |
| Dashboard.Session.CloseConfirm | script.js:271 | the slot is emptied without running it |
| Dashboard.Session.ConfirmDelete | script.js:239-242 | a pending delete is issued once and the slot emptied; with nothing pending nothing is issued |
| Dashboard.Session.ImportCsv | script.js:449-492 | one `add` per imported line, in order, and the count reported is their number |
| Dashboard.Session.ImportCsvText | script.js:456-481 | the loop issues exactly the writes of the specified import and counts them |
| Dashboard.Session.ImportLine | script.js:462-480 | a blank line issues nothing and counts 0; another issues its parsed entry and counts 1 |
| Dashboard.Session.ImportJson | script.js:503-525 | a non-array is refused with no write; an array issues one `add` per element, in order, and reports the array's length |
| Dashboard.Session.ImportJsonFile | script.js:495-539 | a parse failure or a non-array issues nothing; an array imports as above |
| Dashboard.Session.ImportJsonPaste | script.js:542-585 | white-space-only text is refused before parsing; otherwise as the file importer |
| Dashboard.Session.ExportToCsv | script.js:588-598 | refused exactly when the mirror is empty; otherwise offers the CSV text of the mirror |
| Dashboard.Session.ExportToJson | script.js:601-611 | refused exactly when the mirror is empty; otherwise offers the mirror as a JSON array |
| Dashboard.Session.ExportFiltered | script.js:614-624 | refused exactly when the stored render result is empty; otherwise offers it as a JSON array |
| Dashboard.Session.CreateBackup | script.js:681-700 | refused exactly when the mirror is empty; otherwise offers the backup envelope under the backup name |
| Dashboard.BackupValue | script.js:687-694 | the backup object has exactly the keys version, timestamp, user, userId, totalEntries and data: version `1.0`, the timestamp, the display name or else the e-mail, the uid, the number of records and the records serialised |
| Dashboard.BackupName | script.js:697 | the file name starts with `backup_` and ends with `.json`, and starts with `backup_user_` when there is no display name |
| Dashboard.BackupCarriesMirror | script.js:687-694 | the backup names version `1.0`, counts the mirror's entries, and its `data` array imports back to them |
| Dashboard.BackupNameOfTimestamp | script.js:697 | the backup is named after the display name, or `user`, and the day of the timestamp |
| Scenarios.CancelledDeleteWritesNothing | script.js:270-271 | asking to delete and then cancelling issues no write and leaves the slot empty |
| Scenarios.ConfirmRunsOnce | script.js:239-242 | confirming twice issues the delete once |
| Scenarios.SecondRequestReplacesFirst | script.js:270 | of two delete requests, only the later one runs |
| Scenarios.SnapshotCounts | script.js:106-112 | a snapshot of two documents gives a mirror holding both, with their ids, and counters 2, 1, 1, 0 |
| Scenarios.HackathonDay | script.js:289-290 | `2024-01-10` parses as 10 January 2024 |
| Scenarios.FinalsDay | script.js:289-290 | `2024-06-01` parses as 1 June 2024 |
| Scenarios.FinalsIsLater | script.js:289-290 | the June date is later than the January date |
| Scenarios.SortTwoByDate | script.js:289 | `date-desc` puts the June record before the January one |
| Scenarios.NewestFirstAfterSnapshot | script.js:305-306 | after the snapshot the stored render result shows the later entry first |
| Scenarios.OnlyTheResult | script.js:377 | of a non-result and a result, the `result` filter keeps only the result |
| Scenarios.FilterByType | script.js:217-223 | after a snapshot, clicking the `result` button shows only the result record |
| Scenarios.HeaderOnlyCsv | script.js:461 | a CSV file holding only the header line imports nothing |
| Scenarios.JsonObjectRejected | script.js:503-506 | a JSON object is refused and nothing is written |
| Scenarios.BlankPasteRejected | script.js:544-547 | pasting only white space is refused |
| Scenarios.JsonDefaults | script.js:510-520 | an array of one empty object imports one all-defaults entry dated today |
| Scenarios.StaleFilteredExportAfterLogout | script.js:614-624 | after logout and an empty snapshot the full export refuses, but the filtered export still offers the previous session's records |
| Scenarios.CsvExportReimports | script.js:587-598 | exporting the mirror to CSV and importing the file issues one `add` per record, carrying its entry |

## Left out

- Firebase authentication, registration, login and logout calls, and every store
  call. The store is the `issued` write log; `createdAt` and `updatedAt` server
  timestamps are not modelled.
- `saveAchievement`, `editAchievement` and the add/edit modal. They wrap a store
  write around form fields and are not part of this model.
- Promise and `FileReader` plumbing: the completion notices, the order in which
  writes complete, and failed writes. An import is modelled as issuing its writes in
  order.
- The `onSnapshot` subscription is never unsubscribed on logout. Snapshots are
  modelled as calls to `OnSnapshot`, whatever their origin.
- DOM building in `renderAchievements` (cards), `formatDate`, the view switch, the
  theme toggle, dropdowns, modal visibility and `showNotification`.
- `downloadFile`: the Blob and object-URL handling. An export is the file it would
  offer: name, MIME type and body.
- The CSV template download. It is a fixed string and is not read back by the code.
- `JSON.parse` and `JSON.stringify`. The importers take the parsed value as input
  (`None` when parsing threw), and an export is the JSON value before stringifying.
  Numbers are whole numbers only.
- The clock. `new Date().toISOString()` is the parameter `now`, read once per import
  or backup.
  - The importers read the clock once for each line or element whose date is empty
    (script.js:469, 514 and 562). The model uses one `now` for the whole import.
  - `createBackup` reads the clock twice: once for the timestamp (script.js:689) and
    once for the file name (script.js:697). The model reads it once.
  - In both cases the source and the model differ only when the operation runs across
    midnight.
- Codec.EntryFromJson: requires each element to be a non-null value whose seven keys
  hold strings or falsy values. For a `null` element the source throws midway, after
  issuing earlier writes; a truthy non-string field would be stored unconverted.
- Ordering.DateDiff: every date that is not a calendar-valid `YYYY-MM-DD` string is
  a tie. That includes formats `new Date` parses, such as `2024-06`, `2024` or a
  date-time. It also includes strings that give `NaN`, which the sort treats in an
  implementation-defined way. Example: under `date-desc`, the source sorts
  [B `2024-01-10`, A `2024-06`] to [A, B], while the model keeps [B, A].
  - Ordering.SortAchievementsSpec, Ordering.DateDescNewestFirst and
    Ordering.CmpTransitive therefore require parseable dates for the date orders.
- Text.StrCmp: `localeCompare` is modelled as code-point lexicographic order, not the
  locale's collation.
- Text.Lower: lowers only ASCII letters. `toLowerCase` lowers all of Unicode.
- Codec.CsvRoundTrip: holds only for CSV-safe entries.
  - No field may hold a comma, a quote or a line break, because the importer splits on
    every comma and does not collapse doubled quotes.
  - Type, title and date must be non-empty, because the importer replaces empty values
    with defaults.
  - Codec.ImportKeepsDoubledQuotes and Codec.ImportSplitsQuotedCommas state what happens
    otherwise.
- Codec.JsonRoundTrip: requires non-empty type, title and date. The importer replaces
  empty values with defaults.
- Records.Mirror: the source builds `{ id: doc.id, ...doc.data() }`, so an `id` key
  inside the stored data would override the document id. The entry type has no such
  field, and no write path in the source stores one.
- A missing text field is the empty string. In the source, a missing `title` or
  `description` makes the search throw; the model has no missing fields.
