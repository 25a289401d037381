# ExcelComparison diff pipeline, modelled in Dafny

ExcelComparison is a one-page app. It loads an "old" and a "new" spreadsheet as
tables and compares them cell by cell. It then flattens the comparison into one
frame with two columns per original column and exports that frame as a sheet
named `Differences`. In that sheet, the header of every column that holds at
least one non-null value is highlighted. This project models the three stages of
that pipeline and proves what each one promises.

- `Tables` (`tables.dfy`): a loaded table. It has ordered column labels, ordered
  row labels (the index) and rectangular rows of cells. A cell is `Null` or a
  value (`Number` over the reals, so 1 and 1.0 are one value, `Text` or
  `Boolean`).
- `Differ` (`differ.dfy`): `new.compare(old, keep_shape=True, keep_equal=False)`
  as a pure function. The result keeps every row and column. Each position holds
  a `self` half (the new cell) and an `other` half (the old cell). Both halves are
  null unless the two cells differ, and two nulls count as equal. Tables whose
  column labels or row labels differ give the error `NotIdenticallyLabeled`.
- `Flattener` (`flattener.dfy`): `flatten_diff` as a loop. Each pass assigns the
  columns `C_self` and then `C_other` to a frame that starts empty.
  `df[name] = series` is modelled by `SetColumn`: it overwrites an existing
  column of that name in place, or else appends one.
- `Exporter` (`exporter.dfy`): `create_excel_with_diff`. A `Worksheet` class is
  written as `to_excel(..., index=True)` writes it: sheet column 0 is the row
  index, so data columns start at 1. Its header row is an array that the
  highlight loop updates. The workbook bytes are left abstract. The sheet is the
  value `Sheet(name, header, body)`.
- `Pipeline` (`pipeline.dfy`): the three stages run in sequence, with end-to-end
  lemmas about which headers get highlighted.
- `Scenarios` (`scenarios.dfy`): small concrete examples.
- `Wrappers` (`wrappers.dfy`): the `Result` type.

Three behaviours of the code are worth stating:

- Tables whose column labels or row labels differ make `compare` raise pandas'
  single "identically-labeled" `ValueError`. The model has one error value,
  `NotIdenticallyLabeled`.
- Assigning a flattened name that already exists overwrites that column in
  place. The model keeps that overwrite in `SetColumn`.
  `FlattenPrefixLayout` proves that column labels with distinct text can never
  produce a repeated name, because `_self` and `_other` end in different letters.
- The flattened frame starts as `pd.DataFrame()` and takes its rows from the
  first column assigned to it. A diff with no columns therefore flattens to a
  frame with no rows (see `FlattenDiff`).

## Model

| member | source | states |
|---|---|---|
| Differ.CompareCell | ExcelComparison/app.py:68 | a position is populated exactly when the new and old cells differ; it then holds new as `self` and old as `other`, and otherwise both halves are null (two nulls are equal) |
| Differ.CompareRow | ExcelComparison/app.py:68 | one row of the result has the row's width and compares position c of the new row with position c of the old row |
| Differ.Compare | ExcelComparison/app.py:66-68 | fails exactly when column labels or row labels differ; on success keeps the column labels, the row labels, the row count and the width, and compares row i of new with row i of old column by column |
| Differ.CompareRoundTrip | ExcelComparison/app.py:68-74 | the diff loses nothing: replaying it on the old rows gives the new rows, and replaying it backwards on the new rows gives the old rows |
| Differ.CompareSelfIsEmpty | ExcelComparison/app.py:68 | a table compared with itself succeeds and every position is unchanged |
| Differ.CompareSwapped | ExcelComparison/app.py:68 | swapping the arguments fails exactly when the original fails, and otherwise gives the original diff with `self` and `other` exchanged at every position |
| Differ.CompareSwappedChangedPositions | ExcelComparison/app.py:68 | both argument orders have the same set of changed positions, with the halves swapped |
| Flattener.SetColumn | ExcelComparison/app.py:82-83 | assigning by name overwrites the first column of that name and keeps the names, or else appends the name and the column; the frame takes the series' row labels and keeps its names distinct |
| Flattener.SelfColumn | ExcelComparison/app.py:80 | `diff_df[col]['self']` is the `self` halves of that column, in row order, one per row |
| Flattener.OtherColumn | ExcelComparison/app.py:81 | `diff_df[col]['other']` is the `other` halves of that column, in row order, one per row |
| Flattener.FlattenPrefix | ExcelComparison/app.py:78-83 | after any number of passes the frame is well formed; it is empty before the first pass and has the diff's row labels after it |
| Flattener.SuffixedNamesInjective | ExcelComparison/app.py:82-83 | a generated name `C_self` or `C_other` determines both the column label and the suffix |
| Flattener.NameAt | ExcelComparison/app.py:82-83 | in a laid-out frame, position k holds the label of column k / 2 followed by `_self` for even k and `_other` for odd k |
| Flattener.FreshNames | ExcelComparison/app.py:79-83 | the names generated for a later column are never already in the frame, so its assignments append and do not overwrite |
| Flattener.LaidOutStep | ExcelComparison/app.py:79-83 | appending `C_self` and then `C_other` for the next column keeps the layout |
| Flattener.FlattenPrefixLayout | ExcelComparison/app.py:77-84 | with labels of distinct text, after n passes the frame has exactly 2n columns `C_self`, `C_other` in column order, holding the sub-columns unchanged |
| Flattener.Flatten | ExcelComparison/app.py:77-84 | the frame `flatten_diff` returns is well formed, has two columns per diff column, carries the diff's row labels when the diff has a column, and is the empty frame when it has none |
| Flattener.FlattenShape | ExcelComparison/app.py:77-84 | the flattened frame has twice as many columns as the diff, one cell per row in each, and keeps the diff's row labels whenever the diff has a column |
| Flattener.FlattenDiff | ExcelComparison/app.py:77-84 | the loop computes the flattened frame: 2 × columns names `C_self`, `C_other` in order, each holding its sub-column unchanged, and the diff's row labels |
| Exporter.AnyNotNull | ExcelComparison/app.py:107 | `notnull().any()` of a column is false exactly when every cell of the column is null |
| Exporter.WrittenHeader | ExcelComparison/app.py:95 | the header row written with the unnamed index leaves position 0 unwritten, then holds column k - 1's name at position k in the writer's header format |
| Exporter.Highlighted | ExcelComparison/app.py:105-109 | the header pass keeps the row's length and its index cell, rewrites the header of each column with a non-null value as its name in the highlight format, and keeps the header of every all-null column |
| Exporter.WrittenBody | ExcelComparison/app.py:95 | each written row starts with its index label and then holds that row's cell of every column at position k + 1 |
| Exporter.Worksheet.constructor | ExcelComparison/app.py:93-99 | the sheet is named `Differences` and holds the written header row and body |
| Exporter.Worksheet.HighlightChangedHeaders | ExcelComparison/app.py:104-109 | the loop leaves the header row equal to the highlight pass applied to the old header row, and the body unchanged |
| Exporter.CreateExcelWithDiff | ExcelComparison/app.py:89-113 | the exported sheet is named `Differences`, has one header per column plus the index header, and a header is highlighted exactly when it heads a data column with a non-null value |
| Exporter.HighlightedTouchesOnlyChangedColumns | ExcelComparison/app.py:105-109 | the pass rewrites the header of a column with a non-null value as its name in the highlight format, and leaves the index header and the headers of all-null columns as they were |
| Exporter.HighlightedIdempotent | ExcelComparison/app.py:105-109 | running the highlight pass twice gives the same header row as running it once |
| Exporter.ExportHeaderHighlightsExactly | ExcelComparison/app.py:95-109 | in the exported header row nothing is written above the index, and sheet column k keeps column k - 1's name and is highlighted exactly when that column has a non-null value |
| Exporter.AllNullFrameHasNoHighlight | ExcelComparison/app.py:105-109 | a frame whose cells are all null gets no highlighted header |
| Pipeline.Export | ExcelComparison/app.py:66-118 | the pipeline's result is an error exactly when the labels differ, and otherwise the `Differences` sheet with 2 × columns + 1 headers |
| Pipeline.CompareAndExport | ExcelComparison/app.py:66-118 | the pipeline fails exactly when the labels differ; otherwise it gives the `Differences` sheet with 2 × columns + 1 headers |
| Pipeline.SelfColumnNotNull | ExcelComparison/app.py:68-81 | the `self` sub-column has a non-null value exactly when some row changed to a non-null new value, and the `other` sub-column exactly when some changed row had a non-null old value |
| Pipeline.ExportHighlightsChangedColumns | ExcelComparison/app.py:66-118 | for each column C, header 2k+1 is `C_self` and is highlighted exactly when some row of C changed to a non-null value; header 2k+2 is `C_other` and is highlighted exactly when some changed row of C had a non-null old value |
| Pipeline.ExportIndexHeaderPlain | ExcelComparison/app.py:95-109 | nothing is written above the index in the exported sheet, so that cell is never highlighted |
| Pipeline.SelfExportHasNoHighlight | ExcelComparison/app.py:66-118 | comparing a table with itself exports a sheet with no highlighted header |
| Pipeline.AppearsSwapped | ExcelComparison/app.py:68 | a change to a non-null new value in one argument order is a change from a non-null old value in the other, and the reverse |
| Pipeline.ExportSwappedHighlights | ExcelComparison/app.py:66-118 | swapping the two files swaps the highlight of each `C_self` header with that of its `C_other` header |
| Scenarios.RenamedRowDiff | ExcelComparison/app.py:68 | when `name` changes from "A" to "B" in one row, only that position is populated, with self "B" and other "A" |
| Scenarios.RenamedRowExport | ExcelComparison/app.py:66-118 | in that example `id_self` and `id_other` stay plain, and `name_self` and `name_other` are highlighted |
| Scenarios.ScoreFilledIn | ExcelComparison/app.py:66-118 | when a score goes from empty to 5 in the only row, the position holds self 5 and other null, `score_self` is highlighted and `score_other` is not |
| Scenarios.RowCountsDiffer | ExcelComparison/app.py:68 | an old table with two rows and a new table with three cannot be compared |

## Left out

- Page setup, CSS, the sidebar, the upload widgets, the previews, the notes and the download button (ExcelComparison/app.py:7-64, 69-74, 115-124) are UI. The download's file name and MIME type are not modelled.
- `pd.read_excel` (ExcelComparison/app.py:51, 60) is a library call. Its parsing and type inference are not modelled: tables come in as `Table` values. `Table.Valid` asks for column labels with distinct text. The loader renames repeated headers, but it compares them as values, not as printed text (see the line on column labels below). Row labels are integers, the loader's default range index.
- Cell equality is plain structural equality on `Value`. NaN handling is folded into `Null`. pandas' coercions between booleans and numbers (`True == 1`), between numeric strings and numbers, and of dates are not modelled.
- The xlsxwriter workbook, the `BytesIO` buffer, `writer.close` and `seek` (ExcelComparison/app.py:90-102, 111-113) are binary I/O and are not modelled. The sheet is abstracted to its name, its header row and its body. The writer's own header format is the abstract style `WriterHeader`. The cell above the index is `Unwritten`: the loaded index has no name, so no header is written there.
- The pandas column index is not modelled. The source iterates `diff_df.columns.levels[0]`, the first level of the comparison's two-level column index. The model instead iterates the original column labels in order, taking that level to list the compared tables' columns in their original order. Which columns exist, what they hold, and which headers are highlighted would not depend on that order anyway.
- Flattener.SetColumn: covers assignment only as `flatten_diff` uses it, where the series carries the frame's own row labels or the frame is still empty. pandas' realignment of a series with different row labels is not modelled.
- Column labels are modelled by their text, as `f'{col}'` prints them. Labels that are distinct in pandas but print the same, such as the number `1` and the text `"1"`, are excluded by `Table.Valid`. In the source their flattened names collide at ExcelComparison/app.py:82-83, and the later `_self`/`_other` pair overwrites the earlier one, so the flattened frame has fewer than twice as many columns.
- Comparing tables with repeated column labels is not modelled, because `Table.Valid` excludes it. In the source such a table would make `flatten_diff` fail on a two-column selection.
