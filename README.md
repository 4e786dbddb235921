# Settings modal of the dropout oracle, in Dafny

This project models the settings modal (`AjustesModal`) of the dropout
oracle web application and proves properties of the model. In the modal, a
user checks and edits the table read from an uploaded CSV file, picks the
campuses to analyse and the last semester to include, and then confirms. On
confirmation the modal writes the edited table back to CSV and hands it,
together with the filters, to the analysis.

The model is organised by concern:

- `Text` covers the JavaScript string operations the component relies on:
  - `trim`, with the ECMAScript whitespace set written out
  - `split` on one character, and `join`
  - `replace(/"/g, '')`
  - `includes`
  - ASCII `toLowerCase`
- `Rows` holds the row datatype. A row identifier is a timestamp (`Stamp`) or
  a string (`Named`). It is a string when a column called `id` overwrote the
  synthetic identifier. Building a row from a header list and its values uses
  the value of the last duplicate header and `''` for a missing value.
- `Csv` is the file parser and the writer:
  - the parser runs the split / trim / unquote pipeline, fails on empty
    content, on no non-blank line, or on empty headers, and keeps only rows
    with some non-empty cell.
  - the writer is `convertTableDataToCsv`.
- `CsvRoundTrip` proves that parsing what the writer produces gives back the
  table, with new timestamps, for every table that meets these conditions:
  - no column is called `id`, and some header is non-empty
  - no header and no cell holds a comma, a double quote or a line feed, or
    starts or ends with whitespace
  - every row has a cell for exactly the table's columns
  - every row has some non-empty cell; the parser drops a row whose cells
    are all empty
- `Validation` holds the required-field check `validateRowData` and the
  semester check `validateSemester`. The regular expression `^\d{4}\.[12]$`
  is modelled by a small pattern language.
- `Sorting` is the code-point order on strings and the sort that removes
  duplicates, `[...new Set(xs)].sort()`.
- `Campus` covers:
  - the choice of the campus column
  - the facet: the sorted distinct campus values
  - the pruning of the selection when the table changes
  - the toggle of one campus
- `Editor` is the component itself. Class `AjustesModal` has one field per
  React state variable other than `isLoading`, and one method per handler. A handler calls several
  setters that React applies together, so each method makes the net change
  of all its setters. It is then followed by the effect on
  `[tableData, headers]`, which recomputes the facet and prunes the
  selection, whenever the handler set the table. `Valid()` states that:
  - there are no scratch row and no error flags without an edit under way
  - the offered campuses are the facet of the current table

Several behaviours of the source are reproduced as written:

- Trimming happens before quote removal, so `" a"` keeps its leading space.
- The writer emits the `id` header only when the table is empty.
- Cancelling a freshly added row never removes it when the table has a data
  column, because that row already has more than one key.
- The first filter in `handleAddRow` changes nothing.
- The `lines.length < 1` check is unreachable.

## Model

| member | source | states |
|---|---|---|
| Rows.BuildFields | src/components/AjustesModal.tsx:96-98 | a parsed row has exactly one cell per header other than `id` |
| Rows.BuildFieldsLast | src/components/AjustesModal.tsx:96-98 | the cell of a repeated header holds the value at its last position, and `''` when the line has no value there |
| Rows.IdOf | src/components/AjustesModal.tsx:95-98 | without an `id` column a row keeps its timestamp identifier |
| Rows.IdOfLast | src/components/AjustesModal.tsx:95-98 | an `id` column overwrites the timestamp with its last value |
| Rows.MakeRow | src/components/AjustesModal.tsx:95-98 | a row built from a line has a cell for exactly the headers other than `id`, and keeps its timestamp when there is no `id` header |
| Rows.HasData | src/components/AjustesModal.tsx:102 | the row filter: some cell other than `id` is non-empty; a predicate used by Csv.ParseRowsOne and Csv.ParseRowsShape |
| Text.TrimStart | src/components/AjustesModal.tsx:76 | the result is a suffix that does not start with whitespace, and everything dropped is whitespace |
| Text.TrimEnd | src/components/AjustesModal.tsx:76 | the result is a prefix that does not end with whitespace, and everything dropped is whitespace |
| Text.Trim | src/components/AjustesModal.tsx:76 | `s.trim()` neither starts nor ends with whitespace, is empty exactly when `s` is all whitespace, and is `s` itself when `s` has no whitespace at either end |
| Text.TrimBlankIff | src/components/AjustesModal.tsx:76 | removing whitespace from both ends leaves nothing exactly for a blank string |
| Text.TrimBothEnds | src/components/AjustesModal.tsx:76 | what trim keeps neither starts nor ends with whitespace |
| Text.TrimUnpadded | src/components/AjustesModal.tsx:155 | a string without whitespace at either end is its own trim |
| Text.TrimIdempotent | src/components/AjustesModal.tsx:47-48 | trimming twice is trimming once |
| Text.TrimPadded | src/components/AjustesModal.tsx:155 | any whitespace around a string does not change its trim |
| Text.Split | src/components/AjustesModal.tsx:76 | `split` returns at least one piece, and no piece holds the separator |
| Text.SplitJoin | src/components/AjustesModal.tsx:299 | splitting a join of separator-free pieces gives back the pieces |
| Text.JoinSplit | src/components/AjustesModal.tsx:76 | joining the pieces of a split gives back the text |
| Text.Join | src/components/AjustesModal.tsx:299 | `join`; no contract of its own, since Text.SplitJoin and Text.JoinSplit state that it inverts `split` |
| Text.WithoutRemoves | src/components/AjustesModal.tsx:86 | `replace(/"/g, '')` leaves no quote, and keeps a quote-free string unchanged |
| Text.Without | src/components/AjustesModal.tsx:86 | `replace(/"/g, '')`; no contract of its own: Text.WithoutConcat and Text.WithoutOne pin it down, every character other than `"` kept in order |
| Text.WithoutOne | src/components/AjustesModal.tsx:86 | a single character is removed exactly when it is the quote, and kept otherwise |
| Text.WithoutConcat | src/components/AjustesModal.tsx:86 | removal works character by character: removing from two joined strings is removing from each and joining the results |
| Text.Contains | src/components/AjustesModal.tsx:37-41 | `includes` holds exactly when the pattern occurs at some position |
| Text.ToLower | src/components/AjustesModal.tsx:37-41 | lower-casing maps each character separately and keeps the length |
| Sorting.SortUnique | src/components/AjustesModal.tsx:50 | `[...new Set(xs)].sort()` is strictly ascending, has no repeats and holds exactly the members of `xs` |
| Sorting.InsertUnique | src/components/AjustesModal.tsx:50 | inserting into a strictly ascending list keeps it strictly ascending and adds just that value |
| Sorting.SortedUnique | src/components/AjustesModal.tsx:50 | two strictly ascending lists with the same members are equal, so the sorted result is unique |
| Sorting.SortedIsOrdered | src/components/AjustesModal.tsx:50 | in a strictly ascending list every earlier entry is below every later one, so no entry repeats |
| Sorting.BelowTotal | src/components/AjustesModal.tsx:50 | the code-point order relates any two distinct strings |
| Sorting.BelowTransitive | src/components/AjustesModal.tsx:50 | the code-point order is transitive |
| Sorting.BelowIrreflexive | src/components/AjustesModal.tsx:50 | no string is below itself |
| Sorting.Below | src/components/AjustesModal.tsx:50 | the order `sort()` uses; no contract of its own, since Sorting.BelowIrreflexive, Sorting.BelowTransitive and Sorting.BelowTotal make it a strict total order |
| Csv.CellsUnquoted | src/components/AjustesModal.tsx:86 | no header and no cell of a parsed line contains a double quote |
| Csv.CleanToken | src/components/AjustesModal.tsx:86 | a cleaned token holds no double quote, and a token already quote-free and unpadded is unchanged |
| Csv.Cells | src/components/AjustesModal.tsx:86 | a line gives one cell per comma-separated piece |
| Csv.Lines | src/components/AjustesModal.tsx:76 | the kept lines of a text; no contract of its own, since Csv.LinesEmptyIff, Csv.NonBlankLinesConcat and Csv.NonBlankLinesFirst state what they are |
| Csv.CleanAllKeeps | src/components/AjustesModal.tsx:94 | tokens that trimming and unquoting leave as they are come out unchanged |
| Csv.NonBlankLines | src/components/AjustesModal.tsx:76 | filtering blank lines never adds a line; that it keeps exactly the non-blank lines, in order, is Csv.NonBlankLinesConcat with Csv.NonBlankLinesOne |
| Csv.NonBlankLinesConcat | src/components/AjustesModal.tsx:76 | the filter works line by line: the kept lines of two runs are the kept lines of the first run followed by those of the second |
| Csv.NonBlankLinesOne | src/components/AjustesModal.tsx:76 | a single line is kept exactly when it is not blank |
| Csv.NonBlankLinesFirst | src/components/AjustesModal.tsx:76-86 | the first kept line is the first non-blank line, and every line before it is blank |
| Csv.NonBlankLinesNonBlank | src/components/AjustesModal.tsx:76 | no kept line is blank |
| Csv.NonBlankLinesEmpty | src/components/AjustesModal.tsx:76-79 | nothing is kept exactly when every line is blank |
| Csv.NonBlankLinesKeepsAll | src/components/AjustesModal.tsx:76 | when no line is blank, every line is kept in order |
| Csv.LinesEmptyIff | src/components/AjustesModal.tsx:76-79 | a text has no non-blank line exactly when the whole text is blank |
| Csv.ParseRows | src/components/AjustesModal.tsx:93-103 | the data lines give at most one row each; which rows are kept, and in what order, is Csv.ParseRowsConcat with Csv.ParseRowsOne |
| Csv.ParseRowsConcat | src/components/AjustesModal.tsx:93-103 | rows are read line by line: the rows of two runs of data lines are those of the first run followed by those of the second, whose positions, and so timestamps, continue where the first run stopped |
| Csv.ParseRowsOne | src/components/AjustesModal.tsx:93-103 | one data line gives the row built from its cells with the parse's single clock reading `stamp` plus its position, exactly when that row has a non-empty cell, and nothing otherwise |
| Csv.ParseRowsShape | src/components/AjustesModal.tsx:93-103 | every parsed row has one cell per header other than `id` and some non-empty cell |
| Csv.ParseRowsStamped | src/components/AjustesModal.tsx:95 | without an `id` column every parsed row keeps a timestamp identifier, at least the parse's clock reading `stamp` plus the position of the first line read |
| Csv.ParseRowsIncreasing | src/components/AjustesModal.tsx:95 | without an `id` column the timestamps of the kept rows strictly increase, given one clock reading for the whole parse |
| Csv.ParseRowsDistinct | src/components/AjustesModal.tsx:95 | without an `id` column no two parsed rows share an identifier, given one clock reading for the whole parse |
| Csv.Parse | src/components/AjustesModal.tsx:69-105 | empty content fails; a parsed table has a non-empty header list with a non-empty header; no header has a quote; every row has all columns and some data; without an `id` column the identifiers are distinct |
| Csv.ParseFailures | src/components/AjustesModal.tsx:69-89 | each of the three parse errors occurs exactly under its condition, checked in order, and parsing succeeds exactly when the text is not blank and the first line has a non-empty header |
| Csv.ParseHeaders | src/components/AjustesModal.tsx:76-91 | the headers of a parsed table are the cleaned cells of piece `i` of the text split at line feeds, where piece `i` is not blank and every piece before it is |
| Csv.ParseOrExample | src/components/AjustesModal.tsx:106-115 | the loader gets the parsed table with no error, or the fixed example table with the error that parsing gave |
| Csv.TrimBeforeUnquote | src/components/AjustesModal.tsx:94 | a quoted token loses its quotes but not the spaces inside them |
| Csv.QuotedKept | src/components/AjustesModal.tsx:94 | a quote-free value read from quotes comes back exactly |
| Csv.WithoutId | src/components/AjustesModal.tsx:284 | the written columns hold no `id` and hold exactly the other headers, and they are the headers themselves when there is no `id`; their order and repeats are Csv.WithoutIdConcat |
| Csv.WithoutIdConcat | src/components/AjustesModal.tsx:284 | the header filter works header by header, so it keeps every header other than `id` in order and with its repeats |
| Csv.Values | src/components/AjustesModal.tsx:287-289 | a written record takes one value per column, in column order, and `''` for a missing cell |
| Csv.QuoteAll | src/components/AjustesModal.tsx:288-296 | each value is written through the quoting rule, position by position |
| Csv.QuoteAllBare | src/components/AjustesModal.tsx:291-295 | values without comma, quote or line feed are written as they are |
| Csv.QuoteField | src/components/AjustesModal.tsx:291-295 | one written field; no contract of its own; Csv.QuoteFieldReadsBack with Csv.UndoubleDoubled state for every value that it reads back as the value and changes exactly when quoting is needed, and Csv.QuoteAroundQuoted shows one shape |
| Csv.RecordLines | src/components/AjustesModal.tsx:287-297 | there is one written line per row, in row order |
| Csv.Serialize | src/components/AjustesModal.tsx:280-300 | `convertTableDataToCsv`; no contract of its own, since Csv.SerializeHeaderLine, CsvRoundTrip.RoundTripLines and CsvRoundTrip.RoundTrip state what it writes |
| Csv.DoubleQuotes | src/components/AjustesModal.tsx:293 | doubling quotes never shortens a value |
| Csv.DoubleQuotesNone | src/components/AjustesModal.tsx:293 | a quote-free value is unchanged by doubling |
| Csv.DoubleQuotesConcat | src/components/AjustesModal.tsx:293 | quote doubling distributes over concatenation |
| Csv.DoubleQuotesOfQuoted | src/components/AjustesModal.tsx:293 | each quote around a quote-free word is doubled and nothing else changes |
| Csv.UndoubleDoubled | src/components/AjustesModal.tsx:293 | undoing the quote doubling gives back the value |
| Csv.QuoteFieldReadsBack | src/components/AjustesModal.tsx:291-295 | a written field reads back as its value, and it changes exactly when it holds a comma, quote or line feed |
| Csv.QuoteAroundQuoted | src/components/AjustesModal.tsx:291-293 | a value `a"b"`, with `a` and `b` free of quotes, is written in quotes with both its quotes doubled |
| Csv.QuoteFieldExample | src/components/AjustesModal.tsx:291-293 | `He said, "hi"` is written as `"He said, ""hi"""` |
| Csv.SerializeHeaderLine | src/components/AjustesModal.tsx:281-285 | the written text starts with the header line and a line feed: every header when the table is empty, the headers other than `id` when it has a row |
| Csv.SerializeIdExample | src/components/AjustesModal.tsx:281-285 | with headers `id,A`, the empty table writes `id,A` and a line feed, and the one-row table `A` and a line feed followed by its cell |
| Csv.SplitBlank | src/components/AjustesModal.tsx:76 | every piece of a blank text is blank |
| Csv.JoinBlank | src/components/AjustesModal.tsx:299 | blank pieces joined by whitespace make a blank text |
| CsvRoundTrip.RoundTrip | src/components/AjustesModal.tsx:280-300 | parsing the written CSV of a table with clean cells gives back its headers and cells, with fresh timestamps in row order |
| CsvRoundTrip.RoundTripEmpty | src/components/AjustesModal.tsx:281 | the written CSV of an empty table parses to that header list with no rows |
| CsvRoundTrip.RoundTripLines | src/components/AjustesModal.tsx:285-299 | the written CSV of a non-empty table splits into the header line and one line per row |
| CsvRoundTrip.ParseRecordLines | src/components/AjustesModal.tsx:93-103 | parsing the written records gives back the rows with new stamps |
| CsvRoundTrip.ParseRecordLine | src/components/AjustesModal.tsx:93-99 | one written record of a clean row parses to that row |
| CsvRoundTrip.HeaderLine | src/components/AjustesModal.tsx:86 | the written header line is one non-blank line whose cells are the headers |
| CsvRoundTrip.CellsOfJoin | src/components/AjustesModal.tsx:94 | splitting and cleaning joined clean values gives back the values |
| CsvRoundTrip.BuildFieldsOfValues | src/components/AjustesModal.tsx:96-98 | rebuilding a row from its written values gives back its cells |
| CsvRoundTrip.Restamped | src/components/AjustesModal.tsx:95 | row `k` of the result has the cells of row `k` and the stamp `stamp + k`, for the parse's single clock reading `stamp` |
| CsvRoundTrip.ParseOfLines | src/components/AjustesModal.tsx:76-105 | a text whose lines are a valid header line and records parses to those headers and the rows of those records |
| CsvRoundTrip.CleanTokenKeeps | src/components/AjustesModal.tsx:94 | a clean value is unchanged by trimming and unquoting |
| Validation.MissingFieldsExact | src/components/AjustesModal.tsx:141-150 | the flagged columns are exactly the columns other than `id` whose value is missing or blank |
| Validation.MissingFields | src/components/AjustesModal.tsx:141-150 | `validateRowData` as the set of flagged columns; no contract of its own, since Validation.MissingFieldsExact states which columns they are |
| Validation.MissingFieldsSound | src/components/AjustesModal.tsx:143-147 | only columns other than `id` with a blank value are flagged |
| Validation.MissingFieldsComplete | src/components/AjustesModal.tsx:143-147 | every column other than `id` with a blank value is flagged |
| Validation.FlaggedIffBlank | src/components/AjustesModal.tsx:145 | a column other than `id` is flagged if and only if its value is blank |
| Validation.MissingFieldsEmpty | src/components/AjustesModal.tsx:141-150 | a row passes exactly when each of its data columns holds a non-blank value |
| Validation.MatchesPointwise | src/components/AjustesModal.tsx:154 | an anchored pattern matches exactly the strings of its length whose characters are in its classes |
| Validation.PatternIsShape | src/components/AjustesModal.tsx:154 | `^\d{4}\.[12]$` matches exactly four ASCII digits, a dot, then `1` or `2` |
| Validation.SemesterValidIff | src/components/AjustesModal.tsx:153-156 | a semester passes if and only if its trim has the `YYYY.1` / `YYYY.2` shape |
| Validation.IsValidSemester | src/components/AjustesModal.tsx:153-156 | `validateSemester`; no contract of its own, since Validation.SemesterValidIff states when it holds |
| Validation.SemesterIgnoresPadding | src/components/AjustesModal.tsx:155 | whitespace around the semester does not change the verdict |
| Validation.ShapedIsValid | src/components/AjustesModal.tsx:153-156 | a string of the semester shape passes |
| Validation.UnpaddedValidIff | src/components/AjustesModal.tsx:153-156 | without surrounding whitespace a semester passes exactly when it has the shape |
| Validation.InitialSemesterValid | src/components/AjustesModal.tsx:29 | the initial value `2019.1` passes |
| Validation.InvalidSemesters | src/components/AjustesModal.tsx:154 | `19.1`, `2019.3`, `2019-1` and the empty text fail |
| Campus.IdIsNotCampus | src/components/AjustesModal.tsx:37-41 | the `id` column is never taken for the campus column |
| Campus.FirstCampus | src/components/AjustesModal.tsx:37-41 | `find` stops at the first header naming a campus, unit or place, and finds none exactly when no header does |
| Campus.CampusColumn | src/components/AjustesModal.tsx:37-43 | the campus column is that first such header, and it is never `id` |
| Campus.TrimmedColumn | src/components/AjustesModal.tsx:46-48 | one trimmed campus value per row, in row order |
| Campus.CampusValuesMembers | src/components/AjustesModal.tsx:45-48 | a value is collected exactly when it is non-empty and some row holds it after trimming |
| Campus.CampusValues | src/components/AjustesModal.tsx:45-48 | the trimmed non-empty campus values in row order; no contract of its own, since Campus.CampusValuesMembers states which values they are |
| Campus.Facet | src/components/AjustesModal.tsx:36-51 | `extractAvailableCampuses`; no contract of its own, since Campus.FacetShape, Campus.FacetMembers and Campus.FacetIsCanonical state what it returns |
| Campus.FacetShape | src/components/AjustesModal.tsx:36-51 | the facet is strictly ascending without repeats; it is empty without a campus column and otherwise holds exactly the collected values |
| Campus.FacetMembers | src/components/AjustesModal.tsx:36-51 | the facet offers exactly the non-empty trimmed values some row holds in the campus column |
| Campus.FacetTrimmed | src/components/AjustesModal.tsx:47-48 | no offered campus is blank or padded with whitespace |
| Campus.FacetIsCanonical | src/components/AjustesModal.tsx:50 | any ascending duplicate-free listing of the collected values is the facet |
| Campus.Prune | src/components/AjustesModal.tsx:59 | pruning keeps exactly the selected campuses still offered, in their previous order |
| Campus.PruneConcat | src/components/AjustesModal.tsx:59 | pruning works campus by campus, so every still-offered campus is kept in order and with its repeats |
| Campus.PruneKeepsOffered | src/components/AjustesModal.tsx:59 | a selection whose every campus is offered survives pruning whole |
| Campus.PruneIdempotent | src/components/AjustesModal.tsx:54-60 | re-running the effect on the same facet changes nothing |
| Campus.Drop | src/components/AjustesModal.tsx:264 | removing a campus keeps every other campus in order, and changes nothing when it was not selected |
| Campus.DropConcat | src/components/AjustesModal.tsx:264 | the filter works campus by campus, so every other campus is kept in order and with its repeats |
| Campus.Toggled | src/components/AjustesModal.tsx:261-269 | the toggled campus is selected afterwards exactly when it was not before, and every other campus keeps its selection |
| Campus.ToggleFlips | src/components/AjustesModal.tsx:261-269 | toggling flips whether that campus is selected and leaves every other one as it was |
| Campus.ToggleTwice | src/components/AjustesModal.tsx:261-269 | toggling an unselected campus appends it, and toggling again restores the selection |
| Campus.ToggleNoDuplicates | src/components/AjustesModal.tsx:261-269 | toggling never creates a repeated campus |
| Editor.RowsWithout | src/components/AjustesModal.tsx:177 | removal keeps exactly the rows with another identifier, as a subsequence, and changes nothing when no row has it; every copy of a repeated row is kept, by Editor.RowsWithoutConcat |
| Editor.RowsWithoutConcat | src/components/AjustesModal.tsx:177 | the filter works row by row, so it keeps every row with another identifier, in order and with its repeats |
| Editor.ReplaceRows | src/components/AjustesModal.tsx:236 | saving replaces each row with identifier `id` by the scratch copy and keeps every other row in place |
| Editor.ReplaceRowsMembers | src/components/AjustesModal.tsx:235-237 | saving adds nothing but the replacement, keeps every other row, and brings the replacement in when a row had `id` |
| Editor.FindIndex | src/components/AjustesModal.tsx:167 | `find` returns the first row with that identifier, and nothing exactly when no row has it |
| Editor.FindRow | src/components/AjustesModal.tsx:167-168 | `find` gives nothing exactly when no row has the identifier, and otherwise a row of the table with that identifier |
| Editor.AfterCancel | src/components/AjustesModal.tsx:244-251 | the rows after a cancel are some of the rows before it, in order |
| Editor.CancelKeepsRows | src/components/AjustesModal.tsx:244-251 | cancelling only drops rows, in order, and keeps every row other than the edited one |
| Editor.HasSavedRow | src/components/AjustesModal.tsx:247 | some row with the identifier has a key besides `id`; a predicate whose effect Editor.CancelAfterAddKeepsBlank and Editor.CancelAfterAddRemovesBare state |
| Editor.BlankRowShape | src/components/AjustesModal.tsx:199-200 | a new row has an empty cell for every column; its identifier is the timestamp, or `''` if there is an `id` column |
| Editor.CancelAfterAddKeepsBlank | src/components/AjustesModal.tsx:244-250 | with a data column, cancelling a row just added leaves that blank row in the table |
| Editor.CancelAfterAddRemovesBare | src/components/AjustesModal.tsx:244-250 | with no data column, cancelling a row just added removes it |
| Editor.RowsWithoutAppend | src/components/AjustesModal.tsx:244-250 | removing the identifier of a row just appended, which no earlier row carries, restores the table before the append |
| Editor.AddIsCancelThenAppend | src/components/AjustesModal.tsx:188-206 | adding a row is cancelling the edit and appending the blank row, and the table grows by at most one |
| Editor.AddedRows | src/components/AjustesModal.tsx:188-206 | the rows after `handleAddRow`; no contract of its own, since Editor.AddIsCancelThenAppend states what they are |
| Editor.ChangeCell | src/components/AjustesModal.tsx:210 | typing into a column sets that cell, or the identifier for `id`, and leaves every other cell unchanged |
| Editor.ClearedErrors | src/components/AjustesModal.tsx:214-220 | a flag is never added; the typed column's flag disappears exactly when the typed value is non-blank |
| Editor.ExampleCampusColumn | src/components/AjustesModal.tsx:130 | the campus column of the example table is `Campus` |
| Editor.ExampleCampusValues | src/components/AjustesModal.tsx:131-135 | the example rows hold the campuses Quixadá, Russas and Itapajé, in that order |
| Editor.ExampleFacet | src/components/AjustesModal.tsx:130-135 | the example table offers Itapajé, Quixadá and Russas, in that order |
| Editor.AjustesModal.constructor | src/components/AjustesModal.tsx:24-33 | the initial state: empty table and selection, semester `2019.1`, no edit, no error |
| Editor.AjustesModal.Refresh | src/components/AjustesModal.tsx:54-60 | the effect sets the offered campuses to the facet and prunes the selection against it, and nothing else |
| Editor.AjustesModal.Commit | src/components/AjustesModal.tsx:54-60 | setting the table and the edit state, then running the effect, gives a valid state with that table |
| Editor.AjustesModal.SetEdit | src/components/AjustesModal.tsx:253-255 | setting only the edit state keeps the table, the facet and the selection |
| Editor.AjustesModal.Install | src/components/AjustesModal.tsx:110-111 | installing headers and rows, then running the effect, gives that table with a pruned selection |
| Editor.AjustesModal.LoadFile | src/components/AjustesModal.tsx:62-138 | each branch of the loader: no file installs the example table; a parsed file installs its table and clears the error; a failing parse installs the example table with its message; a read error keeps the table and sets the read message |
| Editor.AjustesModal.CancelEdit | src/components/AjustesModal.tsx:244-256 | the edit ends, and the edited row is removed only when it existed nowhere with a key besides `id` |
| Editor.AjustesModal.Edit | src/components/AjustesModal.tsx:160-172 | another edit is cancelled first; row `id` becomes the edited row, with its copy and no errors when the table has it |
| Editor.AjustesModal.Remove | src/components/AjustesModal.tsx:174-186 | once confirmed, every row with `id` is removed and an edit of that row ends; unconfirmed, nothing changes |
| Editor.AjustesModal.AddRow | src/components/AjustesModal.tsx:188-206 | any edit is cancelled, a blank row is appended, and it becomes the edited row with no errors |
| Editor.AjustesModal.CellChange | src/components/AjustesModal.tsx:208-222 | with a scratch copy, the typed cell changes and its flag may clear; without one, nothing changes |
| Editor.AjustesModal.SaveRow | src/components/AjustesModal.tsx:224-242 | with a blank column, exactly the blank columns are flagged and the table is kept; otherwise the copy replaces row `id` and the edit ends |
| Editor.AjustesModal.ToggleCampus | src/components/AjustesModal.tsx:261-269 | the selection becomes the toggled selection, and nothing else changes |
| Editor.AjustesModal.SelectAllCampuses | src/components/AjustesModal.tsx:271-273 | the selection becomes every offered campus |
| Editor.AjustesModal.DeselectAllCampuses | src/components/AjustesModal.tsx:275-277 | the selection becomes empty |
| Editor.AjustesModal.SetMaxSemester | src/components/AjustesModal.tsx:564 | the semester field takes the typed text, and nothing else changes |
| Editor.AjustesModal.Confirm | src/components/AjustesModal.tsx:303-326 | confirmation succeeds exactly with rows, a valid semester and no edit; otherwise it gives the first failed check; on success it hands over the written CSV, the selection and the semester |
| Editor.ConfirmedCsvReadsBack | src/components/AjustesModal.tsx:322-325 | the CSV handed to the analysis parses back to the confirmed table whenever its cells are clean |

## Left out

- The rendering, the `isLoading` flag and the modal's close button are not modelled. They decide what is shown and clicked, not what the state becomes.
- The UI disables some buttons, for example Confirm during an edit and the add and remove buttons while a row is edited. The model allows every handler in every state, and `Confirm` still checks its own conditions.
- The `FileReader` is asynchronous. Its outcome is the parameter `FileInput` of `LoadFile`, and an answer arriving after a newer file is out of scope.
- `alert`, `console.error` and `window.confirm` are foreign calls. The answer to the confirmation dialog is the `confirmed` parameter of `Remove`, and the refusals of `Confirm` are `ConfirmError` values.
- `Date.now()` is the `stamp` parameter of `LoadFile` and `AddRow`.
- Csv.ParseRows: the clock is read once per parse, as `stamp`, while the source calls `Date.now()` again for each data line inside the `.map`, so row `k` gets its own reading plus `k`. The model's stamps are the source's only when the clock stays in one millisecond for the whole parse. Csv.ParseRowsIncreasing and Csv.ParseRowsDistinct carry over to the source only for a clock that does not go backwards during the parse: a step back of one millisecond between two lines gives both rows the same id.
- Editor.AjustesModal.AddRow: the stamp is not required to be fresh, because `Date.now()` may repeat within one millisecond.
- `onAnalyze` is the `Submission` that `Confirm` returns.
- `onClose` is not modelled.
- Cells are strings. The example table's numeric `taxa_evasao` values 10, 12 and 15 are their decimal strings, and the falsy number `0` never occurs.
- A `FileReader` result that is not a string is not modelled.
- Rows are maps from column names to strings, so JavaScript object keys are not modelled. For example, a column called `__proto__` is silently not stored by `row[header] = ...`. In the source that row can then be dropped by the empty-row filter, pass `validateRowData`, and be written as `[object Object]`; in the model it is an ordinary column.
- The writer's `typeof value === 'string'` test is always true in the model, because every cell is a string.
- NonBlankLines: its own contract bounds only the length. That it keeps exactly the non-blank lines, in order, is stated by the lemmas NonBlankLinesConcat and NonBlankLinesOne, so that the proofs that use the function stay small.
- ParseRows: its own contract bounds only the number of rows. Which rows are kept, and in what order, is stated by the lemmas ParseRowsConcat and ParseRowsOne.
- WithoutId: its own contract gives membership only. Order and repeats are stated by the lemma WithoutIdConcat.
- RowsWithout: its own contract gives membership and the subsequence relation. Keeping every copy of a repeated row is stated by the lemma RowsWithoutConcat.
- Sorting.Below: `sort()` compares UTF-16 code units, while the model compares code points. The two orders differ only for characters above U+FFFF.
- Text.ToLower: only ASCII letters are folded.
- Text.IsWhitespace: the space separators (category Zs) are written out as a fixed list, so a character Unicode adds to Zs later is not covered.
- The other files of the repository are not part of this model: the pages that open the modal and the analysis API.
