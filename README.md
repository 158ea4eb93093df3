# Margin core, modelled in Dafny

Margin is a desktop reading and annotation app (Tauri, Rust back end over
SQLite). This project models the logic behind its command handlers.

- **Search** (`search.rs`):
  - the FTS5 query sanitiser;
  - the full-text index as a map from document id to (title, content);
  - the access-count bump;
  - the bulk re-index loop, which skips, errors on or indexes each document
    with a file path.
- **Corrections** (`corrections.rs`, `migrations.rs`):
  - the filename-component filter;
  - the limit clamps;
  - the newest-first fetch and the per-document grouping;
  - the persist upsert and its per-column merge policy;
  - update and delete by highlight id;
  - the export with its hand-rolled RFC 3339 timestamp (section 5.6 of RFC
    3339), and export-and-clear;
  - the JSONL backfill, its `__backfilled__` gate and sentinel row;
  - the foreign-key-drop rebuild and the `writing_type` column migration.
- **Writing rules** (`writing_rules.rs`):
  - the two fetch orderings;
  - the Markdown generator: "general" first, the other types ascending,
    categories in first-seen order, optional rule lines;
  - the kill-word and slop-pattern lists of the guard hook;
  - the two export files.
- **Keep-local client** (`keep_local.rs`):
  - the percent-encoder (sections 2.1 and 2.3 of RFC 3986);
  - the `/api/items` query-string assembly.
- **Annotations and tabs** (`annotations.rs`, `tabs.rs`):
  - highlight and margin-note statements on in-place tables, with the
    cascade from highlights to notes;
  - the handlers that stamp the owning document's `last_opened_at`;
  - the transactional replace-all of open tabs, and their read in tab order.

## Layout

| module | file | what it holds |
|---|---|---|
| `Wrappers` | wrappers.dfy | `Option`, `Result`, `Unit` |
| `Text` | text.dfy | `trim`, `split_whitespace`, `join`, decimal formatting |
| `Sorting` | sorting.dfy | stable `SortBy` (SQL `ORDER BY`, `sort_by`), `Filter`, `LIMIT`, byte-wise string order |
| `Grouping` | grouping.dfy | first-seen grouping (the `Vec` + `HashMap` loops) |
| `Schema` | schema.dfy | row types and the `Database` class, one field per table |
| `Search`, `Calendar`, `Corrections`, `Migrations`, `WritingRules`, `KeepLocal`, `Annotations`, `Tabs` | one file each | the operations |

### How the model is built

- **Statements.** Every SQL statement that writes is a method on the
  `Database` object.
  - Its `modifies` clause names exactly the tables it writes.
  - Its `ensures` gives the new table as a function of the old one.
  - `Database.Valid()` holds the declared primary keys, the UNIQUE
    `highlight_id` of corrections, and the foreign keys. Every method that
    writes preserves it.
  - A `SELECT` is a function over the rows it reads, and its ordering and
    membership are proved as lemmas about that function.
- **Outside inputs.** Clocks, UUIDs, JSON parsing and the file system are
  not computed by the model. They come in as parameters: `now`, `rowId`,
  `parse`, `fs`.
- **Failures.** The statements and file operations below are given a
  flag or a position saying whether they fail; the database errors of the
  other statements and queries are listed under "Left out":
  - `fault` for indexing, removing from and searching the FTS index,
    `stampFails` for the indexing run, and `failAt` for persisting
    corrections;
  - `upsertFails`, `rebuildFails`, `gateFails`, `markerFails`,
    `pragmaFails` and `alterFails` for the migrations;
  - `writeOk` and `deleteFails` for export-and-clear;
  - key and foreign-key violations for the annotation and tab inserts.
- **`ORDER BY` ties.** SQLite leaves the order of equal keys unspecified.
  The model keeps table order for them (the sort is stable).

Where the code and the code's own comments differ, the model follows the code:

- `sanitize_fts_query` is documented as escaping double quotes. The code
  deletes them.
- The export timestamp is described as approximate. The code is exact for
  every day since 1970, and `Calendar` proves that.

## Model

| member | source | states |
|---|---|---|
| Text.TrimEmptyIffBlank | src-tauri/src/commands/search.rs:90-93 | `trim()` yields the empty string exactly when the input is all whitespace |
| Text.SplitWhitespace | src-tauri/src/commands/search.rs:106-107 | `split_whitespace` yields only non-empty words without whitespace |
| Text.SplitJoin | src-tauri/src/commands/search.rs:106-131 | splitting the space-joined list of whitespace-free words gives the words back |
| Text.TrimKeepsWordCount | src-tauri/src/commands/search.rs:90-107 | trimming never changes the number of whitespace-separated words |
| Text.JoinSnoc | src-tauri/src/commands/writing_rules.rs:176-177 | joining a list with one more element appends the separator and that element |
| Text.JoinChars | src-tauri/src/commands/search.rs:131 | every character of a join comes from a part or from the separator |
| Text.NatToString | src-tauri/src/commands/keep_local.rs:77 | a number prints as a non-empty run of decimal digits |
| Text.DigitsValueOfNatToString | src-tauri/src/commands/keep_local.rs:77 | reading the printed digits back gives the number |
| Text.PadDecimalRoundTrip | src-tauri/src/commands/corrections.rs:394 | zero-padded decimal (`{:02}`, `{:04}`) still reads back as the number |
| Sorting.SortBy | src-tauri/src/commands/writing_rules.rs:90-98 | sorting is a permutation of its input |
| Sorting.SortBySorted | src-tauri/src/commands/writing_rules.rs:90-98 | under a total preorder the sorted list is ordered and a permutation |
| Sorting.Take | src-tauri/src/commands/corrections.rs:71 | `LIMIT n` keeps a prefix of length min(n, rows), and everything when n is negative |
| Sorting.TopRows | src-tauri/src/commands/corrections.rs:70-71 | the rows `ORDER BY … LIMIT` returns are ordered, and no row left out ranks above a kept row |
| Sorting.FilterMembers | src-tauri/src/commands/writing_rules.rs:182-186 | a filtered list holds exactly the members that pass |
| Sorting.FilterCount | src-tauri/src/commands/writing_rules.rs:31 | filtering keeps every copy of an element that passes and none of one that does not |
| Sorting.StrLeTotalPreorder | src-tauri/src/commands/writing_rules.rs:96 | string comparison (`cmp`) is a total preorder |
| Sorting.StrLeAntisymmetric | src-tauri/src/commands/writing_rules.rs:96 | two strings each at most the other are equal |
| Grouping.GroupFirstSeen | src-tauri/src/commands/writing_rules.rs:75-87 | the index-map grouping loop yields, per key in first-seen order, that key's items in input order |
| Grouping.FirstSeenKeysDistinct | src-tauri/src/commands/writing_rules.rs:80-86 | no key opens two groups |
| Grouping.FirstSeenKeysComplete | src-tauri/src/commands/writing_rules.rs:79-87 | a key has a group exactly when some item carries it |
| Grouping.MatchingMembers | src-tauri/src/commands/writing_rules.rs:80-81 | a group holds exactly the items with its key |
| Grouping.MatchingCount | src-tauri/src/commands/writing_rules.rs:79-87 | no group is empty, and none is longer than the input |
| Grouping.ItemInOneGroup | src-tauri/src/commands/writing_rules.rs:79-87 | every item sits in exactly one group, the one for its key |
| Schema.IndexOf | src-tauri/src/commands/annotations.rs:23-30 | a key lookup finds the row with that key, or reports that there is none |
| Schema.UniqueIndex | src-tauri/src/db/migrations.rs:44-95 | under a PRIMARY KEY or UNIQUE column, two rows with the same key are the same row |
| Schema.Database.constructor | src-tauri/src/db/migrations.rs:13-109 | a freshly initialised database holds the given tables, which must meet the declared keys and foreign keys, an empty index, the current corrections schema and enforced foreign keys; it starts valid |
| Schema.DeclaredRekeyed | src-tauri/src/db/migrations.rs:13-109 | changing documents' columns other than `id` keeps every declared key and foreign key |
| Search.StripSpecial | src-tauri/src/commands/search.rs:96-104 | removing `" ' ( ) { } : ^` leaves none of them and never lengthens the text |
| Search.KeepTermChars | src-tauri/src/commands/search.rs:119-122 | the per-word filter keeps only alphanumerics, `-` and `_` |
| Search.PrefixPhrase | src-tauri/src/commands/search.rs:118-128 | a word becomes `"t"*` with t non-empty, or is dropped |
| Search.Terms | src-tauri/src/commands/search.rs:106-130 | at most one term per word, each a well-formed prefix phrase |
| Search.SanitizeBlank | src-tauri/src/commands/search.rs:90-93 | blank input sanitises to the empty string |
| Search.SanitizeFtsQuery | src-tauri/src/commands/search.rs:89-132 | blank input gives the empty query, and a non-empty result starts with `"` and ends with `*`; `SanitizeSplitsIntoTerms`, `SanitizeChars` and the three test lemmas below state the rest |
| Search.SanitizeSplitsIntoTerms | src-tauri/src/commands/search.rs:106-131 | the output is the terms joined by single spaces, and splitting it gives them back |
| Search.SanitizeChars | src-tauri/src/commands/search.rs:96-131 | the output holds only alphanumerics, `-`, `_`, `"`, `*` and space, and none of `' ( ) { } : ^` |
| Search.TermsAppend | src-tauri/src/commands/search.rs:106-130 | terms are produced word by word, keeping input order |
| Search.OperatorWordDropped | src-tauri/src/commands/search.rs:108-112 | a word equal to AND/OR/NOT/NEAR in any letter case is dropped |
| Search.TermCountBound | src-tauri/src/commands/search.rs:106-129 | the number of terms never exceeds the number of input words |
| Search.KeepsWholeTerm | src-tauri/src/commands/search.rs:119-122 | a word made only of term characters passes the filter unchanged |
| Search.NoSpecialUnchanged | src-tauri/src/commands/search.rs:96-104 | text without special characters is not changed by stripping |
| Search.PlainWordTerm | src-tauri/src/commands/search.rs:117-128 | an alphanumeric non-operator word becomes exactly `"word"*` |
| Search.LowercaseWordTerm | src-tauri/src/commands/search.rs:108-128 | a word of five or more lower-case letters is no operator word and becomes exactly `"word"*` |
| Search.SanitizeOneWord | src-tauri/src/commands/search.rs:617-620 | "hello" sanitises to `"hello"*` |
| Search.SanitizeTwoWords | src-tauri/src/commands/search.rs:622-625 | "hello world" sanitises to `"hello"* "world"*` |
| Search.SanitizeDropsOr | src-tauri/src/commands/search.rs:627-631 | "hello OR" sanitises to `"hello"*` |
| Search.SearchDocuments | src-tauri/src/commands/search.rs:154-192 | a blank query returns no hits before the database is used; otherwise a failure to ensure the FTS table is an error, a query that sanitises to nothing returns no hits without consulting the index, and a failing prepare or query is an error; on success, the first `limit` (default 20) ranked hits, or all of them when there are fewer or `limit` is negative |
| Search.WithEntry | src-tauri/src/commands/search.rs:139-149 | after delete-then-insert the id has exactly the new entry and every other entry is unchanged |
| Search.WithoutEntry | src-tauri/src/commands/search.rs:197-207 | the delete removes only that id's entry |
| Search.IndexReplaces | src-tauri/src/commands/search.rs:136-152 | a successful index is a full replacement: indexing over an entry equals indexing after removing it |
| Search.RemoveUndoesIndex | src-tauri/src/commands/search.rs:136-207 | removing after indexing, failed or not, gives the index without that id |
| Search.IndexDocumentInner | src-tauri/src/commands/search.rs:136-152 | succeeds exactly when neither statement fails; a failed delete changes nothing, a failed insert leaves the entry deleted |
| Search.RemoveDocumentIndexInner | src-tauri/src/commands/search.rs:197-207 | succeeds exactly when neither ensuring the FTS table nor the delete fails, also when no entry exists, and then removes only that id; an error leaves the index unchanged |
| Search.Bumped | src-tauri/src/commands/search.rs:209-216 | `access_count` becomes old-or-0 plus 1 for that id only, and the document set is unchanged |
| Search.BumpedTwice | src-tauri/src/commands/search.rs:209-216 | two bumps add two |
| Search.IncrementAccessCount | src-tauri/src/commands/search.rs:209-216 | the documents table after the UPDATE is the bumped one |
| Search.IndexDocument | src-tauri/src/commands/search.rs:307-313 | the handler's result is the index result; a failed bump does not fail it and leaves the counts alone |
| Search.Decide | src-tauri/src/commands/search.rs:353-400 | a document is skipped exactly when its file is missing or not newer than `indexed_at`; one never indexed is always read |
| Search.RunCounts | src-tauri/src/commands/search.rs:353-407 | each listed document moves exactly one of indexed, skipped, errors |
| Search.RunOthers | src-tauri/src/commands/search.rs:353-407 | the run does not touch the entry or row of an id it does not list, such as a document without a file path |
| Search.RunAppend | src-tauri/src/commands/search.rs:353-407 | the run is a left fold over the listing |
| Search.RunDocument | src-tauri/src/commands/search.rs:353-407 | a skipped or unreadable document keeps its entry and `indexed_at`; an indexed one gets the new entry and, unless its stamp fails, the run's single `now` |
| Search.IndexAllDocuments | src-tauri/src/commands/search.rs:331-410 | keeps the database valid; the loop's counters and tables equal the fold, whose failed stamps leave `indexed_at` alone, and the counters sum to the number of listed documents |
| Search.IndexListed | src-tauri/src/commands/search.rs:331-410 | the same as `IndexAllDocuments` for any listing of documents with file paths |
| Search.IndexListing | src-tauri/src/commands/search.rs:361-407 | the loop equals the fold and keeps every document's id |
| Search.RunKeepsIds | src-tauri/src/commands/search.rs:361-407 | the run keeps the set of documents and their ids |
| Search.StampsKeepValid | src-tauri/src/commands/search.rs:402-405 | stamping `indexed_at` keeps the database valid |
| Search.IndexOne | src-tauri/src/commands/search.rs:362-407 | one pass of the loop body moves the tables and counters exactly as one step of the fold: skip on a missing or unchanged file, count an error on a failed read or index, otherwise index under the title (or "Untitled"), stamp `indexed_at` unless that `UPDATE` fails (its error is discarded), and count it indexed; it keeps the database valid |
| Calendar.MonthLengths | src-tauri/src/commands/corrections.rs:386-387 | twelve months of 28 to 31 days each |
| Calendar.MonthsFillYear | src-tauri/src/commands/corrections.rs:381-387 | the months of a year add up to its 365 or 366 days |
| Calendar.CivilFromDays | src-tauri/src/commands/corrections.rs:378-393 | the year and month loops give a month in range and a day within that month, and the days before the year plus the days before the month plus the day equal the input |
| Calendar.EpochSecondsInjective | src-tauri/src/commands/corrections.rs:371-394 | distinct valid date-times denote distinct instants |
| Calendar.SameDayIndex | src-tauri/src/commands/corrections.rs:378-393 | a day count has only one (year, month, day) |
| Calendar.UtcFromEpochSeconds | src-tauri/src/commands/corrections.rs:371-394 | the conversion gives a valid date-time with hours < 24, minutes and seconds < 60, denoting exactly the input second |
| Calendar.FormatParsesBack | src-tauri/src/commands/corrections.rs:394 | for years up to 9999 the `YYYY-MM-DDTHH:MM:SSZ` text is 20 characters and parses back to the date-time |
| Calendar.FieldsAtFixedOffsets | src-tauri/src/commands/corrections.rs:394 | in the formatted stamp each field sits at a fixed offset between its separators |
| Calendar.ExportTimestamp | src-tauri/src/commands/corrections.rs:366-395 | the export stamp is the formatted conversion of the given second |
| Corrections.SanitizeFilenameComponent | src-tauri/src/commands/corrections.rs:43-57 | character i of the output is input character i if safe and `_` otherwise; the length is min(64, input length); empty input gives "unknown" |
| Corrections.ClampLimit | src-tauri/src/commands/corrections.rs:110 | the limit lands in [lo, hi]; in-range values pass through and out-of-range values go to the nearer bound |
| Corrections.AllCorrectionsLimit | src-tauri/src/commands/corrections.rs:110 | default 200, clamped to [1, 2000] |
| Corrections.ByDocumentLimit | src-tauri/src/commands/corrections.rs:406 | default 50, clamped to [1, 500] |
| Corrections.NewestFirstOrders | src-tauri/src/commands/corrections.rs:70 | `created_at DESC` is a total preorder |
| Corrections.FetchCorrections | src-tauri/src/commands/corrections.rs:66-101 | at most `limit` records, exactly min(limit, rows) for a non-negative limit |
| Corrections.FetchCorrectionsOrdered | src-tauri/src/commands/corrections.rs:66-101 | the records come newest first |
| Corrections.FetchCorrectionsFromRows | src-tauri/src/commands/corrections.rs:66-101 | every record comes from a table row, with no session filter |
| Corrections.FetchCorrectionsTop | src-tauri/src/commands/corrections.rs:66-101 | a row cut by the limit is no newer than any returned record |
| Corrections.GetAllCorrections | src-tauri/src/commands/corrections.rs:108-112 | the handler returns at most 2000 rows, at least one when the table is not empty, and 200 by default |
| Corrections.Merge | src-tauri/src/commands/corrections.rs:161-180 | on conflict `id`, `document_id` and `created_at` stay, the listed columns take the new values, and a null `writing_type` keeps the old one |
| Corrections.KeepsColumnsTransitive | src-tauri/src/commands/corrections.rs:161-180 | the kept columns stay kept across successive upserts |
| Corrections.Upsert | src-tauri/src/commands/corrections.rs:161-180 | one upsert adds at most one row and never removes one; `UpsertRowFor` states which row it writes and that every other id is unchanged |
| Corrections.UpsertRowFor | src-tauri/src/commands/corrections.rs:161-180 | one upsert keeps one row per highlight id: a new id gains a row, an existing one is merged, and every other id is unchanged |
| Corrections.UpsertAllUnique | src-tauri/src/commands/corrections.rs:157-201 | a batch of upserts keeps one row per highlight id |
| Corrections.UpsertAllOthers | src-tauri/src/commands/corrections.rs:157-201 | ids not in the batch keep their rows |
| Corrections.UpsertAllLastWins | src-tauri/src/commands/corrections.rs:157-201 | the last input for a highlight id decides its overwritten columns |
| Corrections.UpsertAll | src-tauri/src/commands/corrections.rs:157-201 | a batch adds at most one row per input and removes none; `UpsertAllUnique`, `UpsertAllOthers`, `UpsertAllLastWins`, `UpsertAllKeeps` and `UpsertAllFirstInsert` state its per-id effect |
| Corrections.UpsertAllAppend | src-tauri/src/commands/corrections.rs:157-201 | upserting a batch is upserting its parts in order |
| Corrections.UpsertAllKeeps | src-tauri/src/commands/corrections.rs:157-201 | an existing row keeps its `id` and `created_at` through any batch |
| Corrections.UpsertAllFirstInsert | src-tauri/src/commands/corrections.rs:157-201 | a new id's row has the `id` and `created_at` of its first input |
| Corrections.IncomingRows | src-tauri/src/commands/corrections.rs:157-200 | one row per input, with the input's highlight id |
| Corrections.PersistCorrections | src-tauri/src/commands/corrections.rs:121-235 | all inserts commit together or none do; on success the table is the batch upsert and the result is the session id |
| Corrections.UpsertInputs | src-tauri/src/commands/corrections.rs:157-228 | the insert loop succeeds exactly when no statement fails, and then yields the batch upsert of the incoming rows |
| Corrections.SetWritingType | src-tauri/src/commands/corrections.rs:299-302 | only the matching row's `writing_type` and `updated_at` change |
| Corrections.UpdateWritingType | src-tauri/src/commands/corrections.rs:294-307 | fails exactly when no row has the highlight id; otherwise only that row changes |
| Corrections.DeleteWhere | src-tauri/src/commands/corrections.rs:310-313 | the rows left are exactly those with another highlight id; the count drops exactly when one matched |
| Corrections.DeleteWhereUnique | src-tauri/src/commands/corrections.rs:310-313 | deleting keeps one row per highlight id |
| Corrections.DeleteCorrectionByHighlight | src-tauri/src/commands/corrections.rs:309-318 | fails exactly when no row matches; the table after it is the deletion |
| Corrections.DeleteRemovesOne | src-tauri/src/commands/corrections.rs:309-318 | under the UNIQUE key a successful delete removes exactly one row |
| Corrections.Details | src-tauri/src/commands/corrections.rs:252-269 | one detail per selected row |
| Corrections.FetchCorrectionsByDocument | src-tauri/src/commands/corrections.rs:237-292 | the group loop yields the first-seen grouping of the filtered, newest-first, limited stream |
| Corrections.StreamRows | src-tauri/src/commands/corrections.rs:237-249 | the stream holds no `__backfilled__` row and no more than `limit` rows, newest first |
| Corrections.ByDocumentGroups | src-tauri/src/commands/corrections.rs:271-289 | one group per document in order of first appearance, each holding that document's rows in stream order |
| Corrections.ExportedRows | src-tauri/src/commands/corrections.rs:340-364 | one exported record per non-backfilled row |
| Corrections.BuildCorrectionsExport | src-tauri/src/commands/corrections.rs:340-401 | the export holds the non-backfilled rows newest first, `total_count` is their number, and the stamp is the given second |
| Corrections.FilterPartition | src-tauri/src/commands/corrections.rs:435-438 | the backfilled and the other rows split the table |
| Corrections.FilterUnique | src-tauri/src/commands/corrections.rs:435-438 | filtering keeps one row per highlight id |
| Corrections.ExportClearPartition | src-tauri/src/commands/corrections.rs:426-444 | the exported rows and the rows kept make up the whole table, and only `__backfilled__` rows are kept |
| Corrections.KeptRowsFromTable | src-tauri/src/commands/corrections.rs:435-438 | every kept row was in the table |
| Corrections.ExportAndClearCorrections | src-tauri/src/commands/corrections.rs:426-444 | a failed write changes nothing; after a successful write the file holds the non-backfilled rows, their count and a timestamp denoting the given second; then a failed delete returns an error with every row kept, and otherwise the count is returned and only `__backfilled__` rows remain |
| Migrations.FileName | src-tauri/src/db/migrations.rs:208 | the file name is the slash-free tail of the path |
| Migrations.LastDot | src-tauri/src/db/migrations.rs:208 | finds the last `.` of a name, or reports there is none |
| Migrations.Extension | src-tauri/src/db/migrations.rs:208 | the extension is the dot-free text after the last inner dot; a leading dot alone gives none |
| Migrations.DatedLogIsJsonl | src-tauri/src/db/migrations.rs:370-398 | "2024-01-01.jsonl" has extension "jsonl" |
| Migrations.HiddenNameHasNoExtension | src-tauri/src/db/migrations.rs:208 | a name like ".jsonl" has no extension |
| Migrations.TextFileIsNotJsonl | src-tauri/src/db/migrations.rs:400-411 | "notes.txt" has extension "txt" |
| Migrations.Listed | src-tauri/src/db/migrations.rs:204-206 | unreadable directory entries are dropped, the others kept |
| Migrations.JsonlFilesInOrder | src-tauri/src/db/migrations.rs:204-210 | exactly the listed `.jsonl` files, in ascending path order |
| Migrations.Accepted | src-tauri/src/db/migrations.rs:219-231 | only a line with a string `highlight_id` yields a record |
| Migrations.AcceptedLines | src-tauri/src/db/migrations.rs:219-231 | a line yields a record exactly when it is readable, not blank after trim, parses, and has a highlight id |
| Migrations.LineRecords | src-tauri/src/db/migrations.rs:219-231 | a line yields at most one record, always with an id |
| Migrations.LinesRecords | src-tauri/src/db/migrations.rs:219-270 | a file yields at most one record per line |
| Migrations.LinesRecordsAppend | src-tauri/src/db/migrations.rs:219-270 | lines are read in order |
| Migrations.SkippedLineIgnored | src-tauri/src/db/migrations.rs:219-231 | a skipped line changes nothing and does not stop the run |
| Migrations.BackfillRow | src-tauri/src/db/migrations.rs:250-265 | the inserted row carries the line's highlight id, no category and no writing type |
| Migrations.BackfillRows | src-tauri/src/db/migrations.rs:233-265 | one row per accepted record |
| Migrations.Succeeded | src-tauri/src/db/migrations.rs:233-268 | the rows whose upserts succeed: no more than the records, none with a writing type |
| Migrations.NoFailuresAllSucceed | src-tauri/src/db/migrations.rs:266-268 | when no upsert fails, every record's row is upserted |
| Migrations.NoneSucceedIffAllFail | src-tauri/src/db/migrations.rs:266-268 | nothing is counted exactly when every upsert fails |
| Migrations.BackfillStep | src-tauri/src/db/migrations.rs:233-268 | one more record adds its row unless its upsert fails |
| Migrations.UpsertKeepsNoWritingType | src-tauri/src/db/migrations.rs:235-247 | the backfill upsert never writes `writing_type` |
| Migrations.BackfillFile | src-tauri/src/db/migrations.rs:219-270 | the per-line loop equals the fold over the file's lines |
| Migrations.BackfillFiles | src-tauri/src/db/migrations.rs:213-272 | the per-file loop equals the fold over the files |
| Migrations.RunFilesOffers | src-tauri/src/db/migrations.rs:213-272 | the fold offers exactly the accepted records in order, upserts the ones whose upserts succeed and counts only those |
| Migrations.BackfillCorrectionsFromDir | src-tauri/src/db/migrations.rs:196-273 | a missing or unlistable directory gives 0 and no change; otherwise the records are offered in file order, the successful upserts are applied and counted, and with no failure every record counts |
| Migrations.BackfillDir | src-tauri/src/db/migrations.rs:196-273 | the same result on the table's rows, with the count bounded by the number of records |
| Migrations.BackfillValid | src-tauri/src/db/migrations.rs:235-247 | after the backfill there is at most one row per highlight id |
| Migrations.BackfillLastLineWins | src-tauri/src/db/migrations.rs:235-247 | the last line for an id decides `original_text`, `notes_json`, `document_title`, `highlight_color` and `updated_at` |
| Migrations.BackfillKeepsExisting | src-tauri/src/db/migrations.rs:235-247 | an existing row keeps `id`, `document_id`, `session_id`, `created_at` and `writing_type` |
| Migrations.Marker | src-tauri/src/db/migrations.rs:176-183 | the sentinel row has session `__backfilled__` |
| Migrations.MarkerClosesGate | src-tauri/src/db/migrations.rs:164-186 | after the sentinel insert (or its ignored duplicate) the gate sees a backfilled row |
| Migrations.ClearKeepsGateClosed | src-tauri/src/commands/corrections.rs:435-438 | export-and-clear keeps the gate closed |
| Migrations.InsertMarker | src-tauri/src/db/migrations.rs:176-183 | `INSERT OR IGNORE` of the sentinel; a failing insert, whose error is discarded, leaves the rows unchanged |
| Migrations.MigrateCorrectionsDropFks | src-tauri/src/db/migrations.rs:113-191 | the rebuild runs only when the table has foreign keys and keeps every row, and its failure, also forced by an existing `writing_type` column that the 16-column rebuilt table cannot take, is returned with foreign keys off; the backfill runs only when the gate query succeeds and finds no backfilled row; the sentinel goes in only when some upsert succeeded and its own insert does not fail |
| Migrations.BackfillOnce | src-tauri/src/db/migrations.rs:162-188 | a failed gate query, an existing backfilled row or no home directory leaves the table alone; otherwise the table becomes the successful upserts, followed by the sentinel when at least one succeeded and the sentinel insert does not fail |
| Migrations.MigrateCorrectionsAddWritingType | src-tauri/src/db/migrations.rs:508-527 | a failed column query, or a failed `ALTER` when the column is absent, returns an error and changes nothing; otherwise the column is there afterwards, existing rows read NULL, and a second run changes nothing |
| Migrations.RunCorrectionsMigrations | src-tauri/src/db/migrations.rs:102-106 | succeeds exactly when neither migration fails, and then the table has no foreign keys and has the `writing_type` column |
| WritingRules.BySignalThenNewestOrders | src-tauri/src/commands/writing_rules.rs:32 | `signal_count DESC, created_at DESC` is a total preorder |
| WritingRules.ByTypeThenSignalOrders | src-tauri/src/commands/writing_rules.rs:39 | `writing_type, signal_count DESC, created_at DESC` is a total preorder |
| WritingRules.FetchWritingRules | src-tauri/src/commands/writing_rules.rs:23-66 | with a type, only rows of that type and no more rows than the table; without, every row; `FetchWritingRulesOrder` adds the order and the multiplicities |
| WritingRules.FetchWritingRulesOrder | src-tauri/src/commands/writing_rules.rs:23-66 | with a type: exactly that type's rules, each as often as stored, by signal then newest; without: all rules as a permutation, by type, then signal, then newest |
| WritingRules.TypeLabel | src-tauri/src/commands/writing_rules.rs:102-113 | the nine known types get their own labels, and any other type is printed verbatim |
| WritingRules.DashesToSpaces | src-tauri/src/commands/writing_rules.rs:134 | every `-` becomes a space, nothing else changes |
| WritingRules.Capitalize | src-tauri/src/commands/writing_rules.rs:136-142 | the first character is upper-cased and the rest kept |
| WritingRules.CapitalizeAll | src-tauri/src/commands/writing_rules.rs:136-143 | one capitalised word per word |
| WritingRules.CapitalizeKeepsWord | src-tauri/src/commands/writing_rules.rs:136-142 | capitalising a word keeps it a word |
| WritingRules.CategoryLabelWords | src-tauri/src/commands/writing_rules.rs:133-144 | the label's words are the capitalised words of the dash-free category, and it has no `-` |
| WritingRules.KillWordsLabel | src-tauri/src/commands/writing_rules.rs:133-145 | "kill-words" is headed "Kill Words" |
| WritingRules.ExamplesHeadingIffExample | src-tauri/src/commands/writing_rules.rs:160-168 | the "Before -> After" heading appears exactly when a rule has an example |
| WritingRules.GeneralFirstOrders | src-tauri/src/commands/writing_rules.rs:90-98 | the section comparator is a total preorder |
| WritingRules.PushExamples | src-tauri/src/commands/writing_rules.rs:160-168 | the pushes append the example lines |
| WritingRules.PushRule | src-tauri/src/commands/writing_rules.rs:147-171 | the pushes append the rule block |
| WritingRules.PushCategory | src-tauri/src/commands/writing_rules.rs:131-172 | the pushes append the category block |
| WritingRules.PushSection | src-tauri/src/commands/writing_rules.rs:100-173 | the pushes append the type section |
| WritingRules.GenerateWritingRulesMarkdown | src-tauri/src/commands/writing_rules.rs:68-178 | the generator equals the specified Markdown of the rules |
| WritingRules.MarkdownStart | src-tauri/src/commands/writing_rules.rs:69-72 | the text starts with the title, a blank line and the agent note |
| WritingRules.MarkdownEnd | src-tauri/src/commands/writing_rules.rs:176-177 | the text is the lines joined by newlines with a final empty line, so it ends with a newline |
| WritingRules.SectionIsGroup | src-tauri/src/commands/writing_rules.rs:79-87 | each section holds exactly its type's rules in input order |
| WritingRules.SectionKeysDistinct | src-tauri/src/commands/writing_rules.rs:79-98 | one section per type |
| WritingRules.SectionsCoverTypes | src-tauri/src/commands/writing_rules.rs:79-98 | every rule's type has a section |
| WritingRules.SectionsInOrder | src-tauri/src/commands/writing_rules.rs:90-98 | "general", if present, comes first, and the other types follow in ascending order |
| WritingRules.KillWords | src-tauri/src/commands/writing_rules.rs:182-186 | exactly the texts of must-fix rules in category kill-words |
| WritingRules.SlopPatterns | src-tauri/src/commands/writing_rules.rs:189-197 | exactly the (before, text) pairs of ai-slop rules that have a before example |
| WritingRules.WriteExportFiles | src-tauri/src/commands/writing_rules.rs:296-337 | succeeds exactly when home is known and both directories and both writes succeed; two write failures are both reported, joined by "; " |
| WritingRules.ExportWritingRules | src-tauri/src/commands/writing_rules.rs:357-375 | writes the Markdown and the hook lists of all rules, and reports both paths and the rule count |
| KeepLocal.HexDigit | src-tauri/src/commands/keep_local.rs:153 | a nibble prints as an uppercase hex digit |
| KeepLocal.HexValueOfDigit | src-tauri/src/commands/keep_local.rs:153 | the printed hex digit reads back as the nibble |
| KeepLocal.EncodeByte | src-tauri/src/commands/keep_local.rs:148-155 | an unreserved byte is one character, any other byte three (`%XX`) |
| KeepLocal.Encoded | src-tauri/src/commands/keep_local.rs:145-158 | the length is the byte count plus two per reserved byte, and only unreserved characters, `%` and hex digits occur |
| KeepLocal.EncodedAppend | src-tauri/src/commands/keep_local.rs:147-156 | the encoding works byte by byte |
| KeepLocal.UrlEncoding | src-tauri/src/commands/keep_local.rs:145-158 | the push loop yields the encoding |
| KeepLocal.DecodeEncoded | src-tauri/src/commands/keep_local.rs:145-158 | percent-decoding the output gives the input bytes |
| KeepLocal.EncodedUnreserved | src-tauri/src/commands/keep_local.rs:149-151 | on unreserved bytes the encoder is the identity |
| KeepLocal.ItemsUrl | src-tauri/src/commands/keep_local.rs:73-95 | the URL starts with the items path and is exactly that path iff there are no parameters; `QueryStringRoundTrip` and `NoParamsBarePath` state how the parameters read back |
| KeepLocal.ListItemsUrl | src-tauri/src/commands/keep_local.rs:73-95 | the push-and-join loop yields the specified URL |
| KeepLocal.SplitJoined | src-tauri/src/commands/keep_local.rs:94 | splitting an `&`-join of `&`-free parts gives the parts back |
| KeepLocal.NoAmpersandInParams | src-tauri/src/commands/keep_local.rs:74-91 | no parameter contains `&` |
| KeepLocal.QueryStringRoundTrip | src-tauri/src/commands/keep_local.rs:74-95 | the query string splits back into limit, offset, q, status, present in that order exactly as their conditions say, and q decodes to the query |
| KeepLocal.NoParamsBarePath | src-tauri/src/commands/keep_local.rs:93-95 | with no parameters the URL is the bare path |
| Annotations.Without | src-tauri/src/commands/annotations.rs:94-98 | a DELETE keeps exactly the rows whose key is not matched |
| Annotations.Only | src-tauri/src/commands/annotations.rs:66-75 | a WHERE keeps exactly the rows whose key is matched |
| Annotations.WithoutCount | src-tauri/src/commands/annotations.rs:153-159 | the deleted and the kept rows add up to the table |
| Annotations.WithoutUnique | src-tauri/src/commands/annotations.rs:94-98 | deleting keeps keys unique |
| Annotations.FetchHighlights | src-tauri/src/commands/annotations.rs:66-83 | exactly the document's highlights, never more rows than the table; `FetchHighlightsSpec` adds the `from_pos` order and the count |
| Annotations.FetchHighlightsSpec | src-tauri/src/commands/annotations.rs:66-83 | exactly the document's highlights, ordered by `from_pos` |
| Annotations.SetColor | src-tauri/src/commands/annotations.rs:85-92 | only `color` and `updated_at` of the matching row change |
| Annotations.SetColorNoMatch | src-tauri/src/commands/annotations.rs:85-92 | with no matching row the table is unchanged |
| Annotations.SetContent | src-tauri/src/commands/annotations.rs:135-142 | only `content` and `updated_at` of the matching note change |
| Annotations.HighlightIdsOf | src-tauri/src/commands/annotations.rs:153-159 | the ids of the document's highlights |
| Annotations.JoinNotes | src-tauri/src/commands/annotations.rs:119-123 | the join pairs each note with its highlight's position when that highlight is the document's |
| Annotations.NotesOf | src-tauri/src/commands/annotations.rs:127-131 | one note per joined row, in order |
| Annotations.FetchMarginNotes | src-tauri/src/commands/annotations.rs:116-133 | every returned note is stored and hangs off a highlight of the document; `FetchMarginNotesMembers`, `FetchMarginNotesOrdered` and `FetchMarginNotesCount` give the converse, the order and the multiplicities |
| Annotations.FetchMarginNotesMembers | src-tauri/src/commands/annotations.rs:116-133 | exactly the notes whose highlight belongs to the document |
| Annotations.FetchMarginNotesOrdered | src-tauri/src/commands/annotations.rs:116-133 | the notes come ordered by their highlight's `from_pos` |
| Annotations.FetchMarginNotesCount | src-tauri/src/commands/annotations.rs:116-133 | with highlight ids unique, each note on the document comes back as often as it is stored, and no other note comes back |
| Annotations.AttachedOnce | src-tauri/src/commands/annotations.rs:116-133 | with highlight ids unique, a note joins one highlight row when its highlight is on the document, else none |
| Annotations.JoinNotesCount | src-tauri/src/commands/annotations.rs:116-133 | the join yields each note on the document once per stored copy |
| Annotations.NotesOfSortBy | src-tauri/src/commands/annotations.rs:123 | ordering the join rows keeps their notes, counted with repetition |
| Annotations.TouchDocument | src-tauri/src/commands/annotations.rs:14-21 | sets only the document's `last_opened_at` |
| Annotations.DocumentIdForHighlight | src-tauri/src/commands/annotations.rs:23-30 | fails exactly for an unknown highlight, and otherwise gives its document |
| Annotations.DocumentIdForMarginNote | src-tauri/src/commands/annotations.rs:32-39 | fails exactly for an unknown note, and otherwise gives the document of its highlight |
| Annotations.InsertHighlight | src-tauri/src/commands/annotations.rs:43-64 | fails exactly on a duplicate id or a missing document; otherwise appends the row |
| Annotations.SetHighlightColor | src-tauri/src/commands/annotations.rs:85-92 | the table after it is the color update, which succeeds even when nothing matches |
| Annotations.RemoveHighlight | src-tauri/src/commands/annotations.rs:94-98 | deletes the highlight and, by cascade, its notes |
| Annotations.CascadeKeepsNotesAttached | src-tauri/src/commands/annotations.rs:94-98 | deleting highlights together with every note that points at them leaves each remaining note attached to a remaining highlight |
| Annotations.InsertMarginNote | src-tauri/src/commands/annotations.rs:100-114 | fails exactly on a duplicate id or an unknown highlight; otherwise appends |
| Annotations.SetMarginNoteContent | src-tauri/src/commands/annotations.rs:135-142 | the table after it is the content update |
| Annotations.RemoveMarginNote | src-tauri/src/commands/annotations.rs:144-151 | deletes only that note |
| Annotations.RemoveAllHighlightsForDocument | src-tauri/src/commands/annotations.rs:153-159 | deletes the document's highlights and their notes, and returns how many highlights it deleted |
| Annotations.ClearCount | src-tauri/src/commands/annotations.rs:153-159 | the number of rows the delete removes equals the number of highlights the document had |
| Annotations.ClearedHasNoHighlights | src-tauri/src/commands/annotations.rs:153-159 | afterwards the document has no highlights |
| Annotations.ClearedHasNoNotes | src-tauri/src/commands/annotations.rs:153-159 | afterwards the document has no notes |
| Annotations.ClearKeepsOtherHighlights | src-tauri/src/commands/annotations.rs:153-159 | other documents' highlights read the same |
| Annotations.ClearKeepsOtherNotes | src-tauri/src/commands/annotations.rs:153-159 | other documents' notes read the same |
| Annotations.CreateHighlight | src-tauri/src/commands/annotations.rs:163-199 | inserts and touches the document, or fails with nothing changed |
| Annotations.UpdateHighlightColor | src-tauri/src/commands/annotations.rs:207-218 | updates the color and touches the owning document; an unknown id fails after a no-op update |
| Annotations.RecoloredFrom | src-tauri/src/commands/annotations.rs:212-214 | a recoloured row with an id and document came from a stored highlight with that id and document, so the lookup after the update finds it |
| Annotations.DeleteHighlight | src-tauri/src/commands/annotations.rs:220-229 | resolves the document first, so an unknown id fails with nothing deleted; otherwise deletes with cascade and touches |
| Annotations.CreateMarginNote | src-tauri/src/commands/annotations.rs:231-253 | inserts and touches the highlight's document, or fails with nothing changed |
| Annotations.UpdateMarginNote | src-tauri/src/commands/annotations.rs:261-271 | an unknown note fails with nothing changed; otherwise the content updates and only the document of the note's highlight is touched |
| Annotations.DeleteMarginNote | src-tauri/src/commands/annotations.rs:273-282 | an unknown note fails with nothing deleted; otherwise deletes and touches only the document of the note's highlight |
| Tabs.ToRow | src-tauri/src/commands/tabs.rs:54-63 | `is_active` is stored as 1 or 0 |
| Tabs.TabRoundTrip | src-tauri/src/commands/tabs.rs:31 | the boolean survives the write and read; a row round-trips exactly when its `is_active` is 0 or 1 |
| Tabs.RowsOf | src-tauri/src/commands/tabs.rs:54-63 | one row per tab, reading back as that tab |
| Tabs.TabsOf | src-tauri/src/commands/tabs.rs:25-34 | one tab per row |
| Tabs.PersistOpenTabs | src-tauri/src/commands/tabs.rs:41-69 | succeeds exactly when the ids are distinct and every document exists; then the table holds exactly the given tabs, otherwise the old rows stay |
| Tabs.TabsOfRowsOf | src-tauri/src/commands/tabs.rs:139-157 | reading the written rows gives the tabs back with every field |
| Tabs.FetchOpenTabs | src-tauri/src/commands/tabs.rs:16-39 | one tab per row, each row's tab as often as the row occurs, ascending by `tab_order`; `TabsOfRowsOf` and `FetchAfterPersist` state that the tabs are the saved ones |
| Tabs.FetchAfterPersist | src-tauri/src/commands/tabs.rs:139-206 | fetching after a save gives exactly the saved tabs, ordered by `tab_order`; saving none leaves none |

## Left out

- Ranking in SQLite is left out: `bm25()`, `snippet()`, `julianday` and the frecency blend. `Search.SearchDocuments` takes the ranked hit list as a parameter.
- FTS5 internals are left out: the tokenizer, prefix matching and diacritic folding. The index is a map from document id to entry.
- `search_files_on_disk` is left out, because it runs the `mdfind` process.
- The `DbPool` mutex, and dropping the lock during file reads, are left out. The model is sequential.
- Clock readings, UUIDs, home directories, directory listings, file metadata and file reads are parameters.
- The JSONL append in `persist_corrections` is left out. It only writes a log and never changes the result.
- serde_json parsing is the `parse` parameter, and `notes_json` is kept as stored text.
- The Python text of the writing-guard hook is left out; only its two data lists are modelled. The hook file's permissions are left out too.
- The HTTP calls of `keep_local.rs` are left out: health, list, get item, get content, and response decoding. `item_id` is inserted into paths unencoded there.
- `watcher.rs`, `lib.rs`, `documents.rs` and `files.rs` are left out: file-system notification, app wiring, and placeholders with no behaviour.
- models.rs is not part of this model. Its row types appear as datatypes in `Schema`.
- PRAGMA settings are left out. Foreign keys are assumed enforced, except where their presence gates the corrections rebuild. A failure of the `PRAGMA foreign_key_list` query or of `PRAGMA foreign_keys = OFF/ON` in `migrate_corrections_drop_fks` is not modelled; only the rebuild batch fails (`rebuildFails`).
- Database errors (I/O, a busy database, a failing `prepare`) of the statements without a failure flag are not modelled. These are the annotation UPDATE and DELETE statements (`Annotations.SetHighlightColor`, `RemoveHighlight`, `SetMarginNoteContent`, `RemoveMarginNote`, `RemoveAllHighlightsForDocument`, `TouchDocument`), the corrections statements behind `Corrections.UpdateWritingType` and `DeleteCorrectionByHighlight`, and the lookups behind `Annotations.DocumentIdForHighlight` and `DocumentIdForMarginNote`, beyond the missing-row error they do model, and the SELECTs behind `FetchHighlights`, `FetchMarginNotes`, `FetchOpenTabs`, `FetchWritingRules` and `FetchCorrections`. In the source each returns its error through `map_err(...)?`; the model's functions and methods for them always succeed.
- Operating-system error text is left out. `WritingRules.WriteExportFiles` reports which step failed, but not the OS message.
- Text.ToUpperAscii: upper-casing (`to_uppercase`) and `is_alphanumeric` are modelled for ASCII only. Rust applies the Unicode tables.
- Calendar.FormatParsesBack: the round trip is proved for years up to 9999, where `{:04}` keeps four digits.
- KeepLocal.ItemsUrl: `limit` and `offset` are unbounded integers, not `i32`.
- Search.IndexDocumentInner: only failures of the delete or the insert statement are modelled. A failure of `ensure_fts_table` is not.
- Corrections.PersistCorrections: statement failures are modelled as one `failAt` position.
- Annotations.InsertHighlight: only key and foreign-key violations are modelled as statement errors.
- Tabs.PersistOpenTabs: only key and foreign-key violations are modelled as statement errors. A failing commit is not.
- Schema.Database.Valid: the `corrections.id` PRIMARY KEY is not part of it. Row ids come from `rowId` (fresh UUIDs), and the error an id collision would raise is not modelled.
- Schema.Database.Valid: the documents table's UNIQUE(file_path) and UNIQUE(keep_local_id) are not part of it. No modelled statement writes `file_path`, and `keep_local_id` is not a modelled column.
- Migrations.BackfillLastLineWins: stated for a backfill in which no upsert fails. `Migrations.NoFailuresAllSucceed` connects that case to the run.
- Migrations.BackfillKeepsExisting: stated for a backfill in which no upsert fails, as for `BackfillLastLineWins`.
- Migrations.BackfillFile: each line read error is one skipped line, so every file ends. In the source a read error that persists (for example a directory named `x.jsonl`, which opens on Unix but fails every read) keeps `lines()` yielding errors, and the loop never ends.
- Migrations.MigrateCorrectionsAddWritingType: a failure of the `CREATE INDEX` that follows a successful `ALTER` is not modelled, because indexes are not modelled.
- Search.IndexAllDocuments: failures of `ensure_fts_table` and of the documents query before the loop are not modelled.
- Tie order: `ORDER BY` leaves equal keys in table order. So does the row order of the notes join, which SQLite leaves unspecified.
