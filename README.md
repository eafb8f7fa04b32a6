# DataFrame, brushing translation and target interning — a Dafny model

This project models three sequential pieces of the Inviwo visualization framework:

1. **The DataFrame table container.** A frame is an ordered sequence of columns. Each column has a
   header, a kind (numeric, categorical or index), a buffer of values and, for categorical columns,
   a category table. The model covers the mutators that append columns, drop columns by header or
   by position, and append a row (with its three error conditions), the queries for the row count
   and for a column by name, the column set that `createDataFrame` guesses from example rows, and
   the `DataTraits<DataFrame>::info` summary. The summary covers the abbreviated column list, the
   inconsistent-row-count warning, the elided category preview and the min/max of numeric columns.
   The frame is a `class` whose `columns: seq<Column>` field its methods reassign. The loops of the
   summary are methods with loop invariants.
2. **The scatter plot's brushing translation.** The plot maps its physical rows to stable
   identities read from the index column. It publishes those identities for highlight, selection
   and filtering, and it translates incoming identity sets back to rows through a map from each
   identity to its first row. Unknown identities are skipped. The filtered set is complemented over
   `[0, numRows)` to get the rows left to draw. Identities are 32-bit, as in the source: an index
   value becomes an identity by keeping its low 32 bits (`ScatterPlotBrushing.ToId`).
3. **Interning of BrushingTarget strings.** `findOrAdd` works on a process-wide table: it returns
   the stored entry equal to its argument and appends the argument first if no entry equals it.
   The table is a class with a `seq<string>` field. The find-or-append rule is defined once, as the
   function `Interning.Intern`. A categorical column's category table uses the same rule when a row
   adds a category.

Files: `wrappers.dfy` (Option/Result/Outcome), `text.dfy` (decimal rendering and reading, UTF-8 byte length),
`interning.dfy`, `dataframe.dfy`, `dataframe_info.dfy`, `scatterplot_brushing.dfy`,
`brushing_target.dfy`.

Two operations whose bodies are not part of this model follow their documentation:

- `dropColumn(header)` drops every column carrying the header, as its doc comment at
  dataframe.h:123 says.
- `createDataFrame` makes the columns whose types it guesses from the example rows, with
  `InvalidColCount` when the given headers do not match the example rows' width (dataframe.h:209-216).
  The columns are made empty: the example rows serve for the guess only. When the first example row is not
  empty, each example row as wide as it can then be added with `addRow`, which always succeeds for it
  (`DataFrames.ExampleRowsFitCreatedColumns`). A shorter or longer one fails with `InvalidColCount`
  (`DataFrames.RaggedExampleRowRejected`).

## Model

| member | source | states |
|---|---|---|
| `DataFrames.RowCount` | modules/dataframe/include/inviwo/dataframe/datastructures/dataframe.h:183-187 | the row count is at least every column's length and equals some column's length; it is 0 when there are no columns |
| `DataFrames.RowCountAppend` | modules/dataframe/include/inviwo/dataframe/datastructures/dataframe.h:183-187 | appending a column makes the row count the larger of the old count and the new column's length |
| `DataFrames.DataFrame.constructor` | modules/dataframe/include/inviwo/dataframe/datastructures/dataframe.h:82 | a new frame starts with no columns (and so no rows) |
| `DataFrames.DataFrame.AddExistingColumn` | modules/dataframe/include/inviwo/dataframe/datastructures/dataframe.h:89-94 | the column is appended at the end, earlier columns are unchanged, and the row count grows to the new column's length if that is larger |
| `DataFrames.DataFrame.AddColumn` | modules/dataframe/include/inviwo/dataframe/datastructures/dataframe.h:222-227 | exactly one numeric column with the given header and `size` zero values is appended; earlier columns are unchanged |
| `DataFrames.DataFrame.AddColumnWithData` | modules/dataframe/include/inviwo/dataframe/datastructures/dataframe.h:229-233 | exactly one numeric column whose values equal `data` is appended; earlier columns are unchanged |
| `DataFrames.WithoutHeader` | modules/dataframe/include/inviwo/dataframe/datastructures/dataframe.h:120-128 | no kept column has the header, and no more columns are kept than there were |
| `DataFrames.WithoutHeaderMembers` | modules/dataframe/include/inviwo/dataframe/datastructures/dataframe.h:120-128 | a column is kept iff it was in the frame and its header differs; nothing changes if no column has the header |
| `DataFrames.WithoutHeaderStep` | modules/dataframe/include/inviwo/dataframe/datastructures/dataframe.h:120-128 | scanning one more column appends it to the kept columns iff its header differs |
| `DataFrames.WithoutHeaderPrefix` | modules/dataframe/include/inviwo/dataframe/datastructures/dataframe.h:120-128 | dropping by header from a prefix of the columns gives a prefix of the result for all columns |
| `DataFrames.KeptColumnPosition` | modules/dataframe/include/inviwo/dataframe/datastructures/dataframe.h:120-128 | a kept column lands right after the columns kept from before it |
| `DataFrames.KeptCountGrows` | modules/dataframe/include/inviwo/dataframe/datastructures/dataframe.h:120-128 | a longer prefix of the frame keeps at least as many columns |
| `DataFrames.WithoutHeaderKeepsOrder` | modules/dataframe/include/inviwo/dataframe/datastructures/dataframe.h:120-128 | two kept columns keep their relative order |
| `DataFrames.DataFrame.DropColumn` | modules/dataframe/include/inviwo/dataframe/datastructures/dataframe.h:120-128 | the new columns are the old ones without those carrying the header (all matches dropped, order kept) |
| `DataFrames.DataFrame.DropColumnAt` | modules/dataframe/include/inviwo/dataframe/datastructures/dataframe.h:130-137 | a position inside the frame removes exactly that column; a position past the end fails with IndexOutOfRange and changes nothing |
| `DataFrames.FirstWithHeader` | modules/dataframe/include/inviwo/dataframe/datastructures/dataframe.h:172-177 | the position found holds the header and no earlier column does; None exactly when no column has the header |
| `DataFrames.DataFrame.GetColumnByName` | modules/dataframe/include/inviwo/dataframe/datastructures/dataframe.h:172-177 | returns the first column whose header matches, or None (nullptr) exactly when none matches |
| `DataFrames.AppendCell` | modules/dataframe/include/inviwo/dataframe/datastructures/dataframe.h:148-158 | a cell fits a numeric column iff it is an integer literal, an index column iff it reads as a non-negative integer, a categorical column always; on success exactly one value is appended and header and kind are kept: the integer the cell reads as, or for a categorical column the slot Intern gives the cell in the column's category table (which becomes Intern's table); otherwise DataTypeMismatch |
| `DataFrames.AppendRow` | modules/dataframe/include/inviwo/dataframe/datastructures/dataframe.h:148-158 | the row is accepted iff every cell fits its column, and then column i becomes column i with cell i appended; otherwise DataTypeMismatch |
| `DataFrames.AddRowResult` | modules/dataframe/include/inviwo/dataframe/datastructures/dataframe.h:148-158 | NoColumns iff the frame has no columns; InvalidColCount iff it has some and the cell count differs from the column count; DataTypeMismatch iff some cell does not fit its column |
| `DataFrames.AddRowKeepsFrameConsistent` | modules/dataframe/include/inviwo/dataframe/datastructures/dataframe.h:148-158 | adding a row to a frame whose columns all hold n values leaves all of them with n + 1 values, the row count n + 1, and headers and kinds unchanged |
| `DataFrames.DataFrame.AddRow` | modules/dataframe/include/inviwo/dataframe/datastructures/dataframe.h:148-158 | fails exactly as AddRowResult says and then changes no column; otherwise the columns are the ones AddRowResult gives |
| `DataFrames.CreateColumns` | modules/dataframe/include/inviwo/dataframe/datastructures/dataframe.h:209-219 | InvalidColCount iff headers are given and their count differs from the example width (the first row's width, 0 without rows); otherwise one empty column per column of that width, named by the given header or "Column k", numeric iff every example cell of that column is an integer, else categorical |
| `DataFrames.DefaultHeaderInjective` | modules/dataframe/include/inviwo/dataframe/datastructures/dataframe.h:213 | different positions get different default headers |
| `DataFrames.DefaultHeadersFindTheirColumn` | modules/dataframe/include/inviwo/dataframe/datastructures/dataframe.h:213 | without given headers, looking up "Column k" by name finds exactly the k-th column |
| `DataFrames.ExampleRowsFitCreatedColumns` | modules/dataframe/include/inviwo/dataframe/datastructures/dataframe.h:209-216 | every full-width example row can be added as a row to the columns guessed from it |
| `DataFrames.RaggedExampleRowRejected` | modules/dataframe/include/inviwo/dataframe/datastructures/dataframe.h:153-155 | an example row whose width differs from a non-empty first row is refused by `addRow` on the guessed columns with InvalidColCount |
| `DataFrames.CreateDataFrame` | modules/dataframe/include/inviwo/dataframe/datastructures/dataframe.h:209-219 | fails with InvalidColCount exactly when CreateColumns does; otherwise returns a new frame holding those columns |
| `DataFrameInfo.ElidedIsPreview` | modules/dataframe/include/inviwo/dataframe/datastructures/dataframe.h:283-289 | when the text first exceeds 50 bytes (UTF-8) after category i, the categories up to i followed by ", ..." and the count are the preview |
| `DataFrameInfo.CompleteIsPreview` | modules/dataframe/include/inviwo/dataframe/datastructures/dataframe.h:277-289 | when no prefix of the categories exceeds 50 bytes (UTF-8), all of them joined and the count are the preview |
| `DataFrameInfo.JoinedStep` | modules/dataframe/include/inviwo/dataframe/datastructures/dataframe.h:279-282 | adding the next category to the text of the first i gives the text of the first i + 1 |
| `DataFrameInfo.AccentedCategoryIsElided` | modules/dataframe/include/inviwo/dataframe/datastructures/dataframe.h:283-287 | a single category of 30 'é' (60 bytes) is elided: its preview is the category, ", ..." and " [1]" |
| `DataFrameInfo.CategoryPreview` | modules/dataframe/include/inviwo/dataframe/datastructures/dataframe.h:277-289 | the preview is all categories joined when no prefix takes more than 50 bytes (UTF-8, as `std::string::size` counts); otherwise it is the categories up to the first one that takes it past 50 bytes, then ", ..."; either way followed by " [n]" |
| `DataFrameInfo.MinMax` | modules/dataframe/include/inviwo/dataframe/datastructures/dataframe.h:303-330 | for a non-empty column, the values returned are an element of the column that is at most / at least every value; for an empty column both are absent ("-") |
| `DataFrameInfo.DescribeColumn` | modules/dataframe/include/inviwo/dataframe/datastructures/dataframe.h:273-349 | a categorical column gets its preview; any other column gets its minimum and maximum; both carry position k + 1, size and header |
| `DataFrameInfo.AllDescribedExtend` | modules/dataframe/include/inviwo/dataframe/datastructures/dataframe.h:271-350 | appending the line for the next column keeps every listed line describing the column at its position |
| `DataFrameInfo.Info` | modules/dataframe/include/inviwo/dataframe/datastructures/dataframe.h:247-360 | reports the column and row counts; with more than 20 columns only 10 are listed and a note of n - 10 more is added, else all are listed and no note; "inconsistent row counts" iff some listed column's size differs from the row count; each listed line describes its column |
| `DataFrameInfo.UniformFrameRowCount` | modules/dataframe/include/inviwo/dataframe/datastructures/dataframe.h:270-272 | when all columns hold n values the row count is n, so no column is reported as inconsistent |
| `Text.Utf8Size` | modules/dataframe/include/inviwo/dataframe/datastructures/dataframe.h:283 | a character takes 1 to 4 bytes in UTF-8, exactly 1 iff it is ASCII |
| `Text.ByteLengthAppend` | modules/dataframe/include/inviwo/dataframe/datastructures/dataframe.h:279-283 | the byte length of a concatenation is the sum of the byte lengths |
| `Text.ByteLengthRepeat` | modules/dataframe/include/inviwo/dataframe/datastructures/dataframe.h:283 | n copies of one character take n times its byte count |
| `Text.DigitChar` | modules/dataframe/include/inviwo/dataframe/datastructures/dataframe.h:213 | a decimal digit renders as the character of that digit |
| `Text.NatToString` | modules/dataframe/include/inviwo/dataframe/datastructures/dataframe.h:213 | the `std::to_string` text of a number is a non-empty run of digits without a leading zero (unless it is 0) |
| `Text.ParseInt` | modules/dataframe/include/inviwo/dataframe/datastructures/dataframe.h:156 | a cell reads as an integer exactly when it is an optional minus sign followed by digits, and one without a sign reads as a non-negative number |
| `Text.DigitsValueOfNatToString` | modules/dataframe/include/inviwo/dataframe/datastructures/dataframe.h:213 | the digits of a rendered number read back as that number |
| `Text.ParseIntRoundTrip` | modules/dataframe/include/inviwo/dataframe/datastructures/dataframe.h:156 | reading a rendered integer gives back the integer |
| `Text.NatToStringInjective` | modules/dataframe/include/inviwo/dataframe/datastructures/dataframe.h:213 | different numbers render as different text |
| `ScatterPlotBrushing.ToId` | modules/plottinggl/src/processors/scatterplotprocessor.cpp:154 | an identity is below 2^32, and a value below 2^32 is its own identity |
| `ScatterPlotBrushing.HighlightedIds` | modules/plottinggl/src/processors/scatterplotprocessor.cpp:81-87 | the published set is exactly the identities of the highlighted rows |
| `ScatterPlotBrushing.FlaggedIds` | modules/plottinggl/src/processors/scatterplotprocessor.cpp:95-115 | the selection (and, with the same construction, the filter) set is exactly the identities of the rows i < size whose flag is set |
| `ScatterPlotBrushing.IndexToRow` | modules/plottinggl/src/processors/scatterplotprocessor.cpp:151-159 | every identity in the index column, and no other, maps to the first row where it occurs |
| `ScatterPlotBrushing.FirstRowMapStep` | modules/plottinggl/src/processors/scatterplotprocessor.cpp:155-157 | try_emplace of (identity, row) turns the first-row map of the earlier rows into the first-row map including this row |
| `ScatterPlotBrushing.FirstRowMapUnique` | modules/plottinggl/src/processors/scatterplotprocessor.cpp:151-159 | the identity-to-first-row map is determined by the index column |
| `ScatterPlotBrushing.TransformIdsToRows` | modules/plottinggl/src/processors/scatterplotprocessor.cpp:161-170 | the rows are exactly the map's images of the identities that are in the map; others are skipped |
| `ScatterPlotBrushing.TranslateBack` | modules/plottinggl/src/processors/scatterplotprocessor.cpp:161-170 | a row comes back from an identity set iff its identity is in the set and it is the first row with that identity |
| `ScatterPlotBrushing.TranslateDistinct` | modules/plottinggl/src/processors/scatterplotprocessor.cpp:161-170 | with distinct identities, a row comes back iff its identity is in the set |
| `ScatterPlotBrushing.RoundTrip` | modules/plottinggl/src/processors/scatterplotprocessor.cpp:151-170 | with distinct identities, rows translated to identities and back give the original rows |
| `ScatterPlotBrushing.SelectionAcrossViews` | modules/plottinggl/src/processors/scatterplotprocessor.cpp:95-101 | a view with identities 10, 20, 30 selecting its second row publishes {20}; a view with identities 30, 20, 10 translates {20} to its second row |
| `ScatterPlotBrushing.Flipped` | modules/plottinggl/src/processors/scatterplotprocessor.cpp:180-183 | values in [lo, hi) are in the result iff they are not in the set; values outside are in it iff they are in the set |
| `ScatterPlotBrushing.FlipRange` | modules/plottinggl/src/processors/scatterplotprocessor.cpp:180-183 | the bit set after the in-place flip is the complement over [lo, hi), untouched outside |
| `ScatterPlotBrushing.FlippedTwice` | modules/plottinggl/src/processors/scatterplotprocessor.cpp:180-183 | flipping the same range twice restores the set |
| `ScatterPlotBrushing.RemainingRows` | modules/plottinggl/src/processors/scatterplotprocessor.cpp:180-183 | a row is drawn iff it is the first row of its identity and that identity is either below the 32-bit row count and unfiltered, or at or above it and filtered |
| `ScatterPlotBrushing.RemainingRowsAreUnfiltered` | modules/plottinggl/src/processors/scatterplotprocessor.cpp:180-183 | with distinct identities all below the row count, the rows drawn are exactly those whose identity was not filtered |
| `ScatterPlotBrushing.RemainingRowsMissesHighIds` | modules/plottinggl/src/processors/scatterplotprocessor.cpp:180-183 | with identities 0, 2, 5 in a three-row table and nothing filtered, only rows 0 and 1 are drawn |
| `ScatterPlotBrushing.RemainingRowsOverIdRange` | modules/plottinggl/src/processors/scatterplotprocessor.cpp:180-183 | with the complement over the whole 32-bit identity range, a row is drawn iff it is the first row of its identity and that identity was not filtered |
| `Interning.Find` | modules/brushingandlinking/src/datastructures/brushingaction.cpp:50-52 | the slot found holds the string and no earlier slot does; None iff the string is not in the table |
| `Interning.Intern` | modules/brushingandlinking/src/datastructures/brushingaction.cpp:50-56 | the returned slot holds the string; a present string leaves the table unchanged at its first slot; an absent one is appended as the last entry |
| `Interning.InternKeepsNoDuplicates` | modules/brushingandlinking/src/datastructures/brushingaction.cpp:50-56 | a table without duplicates stays without duplicates |
| `Interning.InternIdempotent` | modules/brushingandlinking/src/datastructures/brushingaction.cpp:50-56 | interning the same string again changes nothing and returns the same slot |
| `Interning.InternPreservesSlots` | modules/brushingandlinking/src/datastructures/brushingaction.cpp:53-54 | earlier entries keep their contents and are still found at their old slots |
| `BrushingTargets.TargetTable.constructor` | modules/brushingandlinking/src/datastructures/brushingaction.cpp:48 | the table starts empty |
| `BrushingTargets.TargetTable.FindOrAdd` | modules/brushingandlinking/src/datastructures/brushingaction.cpp:46-58 | returns a stored string equal to the argument; the table becomes Intern of the old table, growing by at most one entry with the old entries unchanged, and never holds duplicates |
| `BrushingTargets.TargetTable.MakeTarget` | modules/brushingandlinking/src/datastructures/brushingaction.cpp:38-39 | a target's name is its string and refers to the table entry holding it |
| `BrushingTargets.TargetTable.Predefined` | modules/brushingandlinking/src/datastructures/brushingaction.cpp:38-39 | Row carries "row" and Column carries "column", in different table entries; the table becomes the old one with "row" and then "column" interned, so it grows by at most these two |
| `BrushingTargets.FindOrAddTwice` | modules/brushingandlinking/src/datastructures/brushingaction.cpp:50-56 | a second call with the same string returns the same entry and leaves the table as the first call left it |

The queries `getColumn(index)`, `getNumberOfColumns` and `getNumberOfRows`
(dataframe.h:170-171, 182-187) are the accessors `DataFrames.DataFrame.GetColumnAt`,
`DataFrames.DataFrame.NumberOfColumns` and `DataFrames.DataFrame.NumberOfRows`. They return the column at a
position, `|columns|` and `RowCount(columns)`. What they promise is what `RowCount` and the
mutators above state about the columns, so they have no rows of their own.

## Findings

| source | as written | input that shows it | evidently intended | confidence | as-written member | corrected member |
|---|---|---|---|---|---|---|
| modules/plottinggl/src/processors/scatterplotprocessor.cpp:180-183 | the filtered identities are complemented over [0, numRows) only, so an identity at or above the row count keeps its filtered bit: its row is drawn only if it was filtered | index column 0, 2, 5 (three rows), nothing filtered: the row with identity 5 is not drawn | every row whose identity was not filtered is drawn | low; not executed (only when identities are not 0 to n - 1, e.g. a table whose index column kept gaps) | `ScatterPlotBrushing.RemainingRowsMissesHighIds` | `ScatterPlotBrushing.RemainingRowsOverIdRange` |

## Left out

- Floating-point and vector columns: their formatting with `std::defaultfloat` and their component-wise min/max are not modelled. All column values are integers.
- Buffer data formats and the type dispatch over element types: a column's kind stands for its format.
- Column ranges (`getRange`) are not modelled.
- The HTML document and table layout of `info`: the summary keeps the counts, flags, header strings, preview strings and numeric min/max, not their rendering. `MinMax` returns the numbers rather than the `std::to_string` text.
- `DataFrames.AppendCell`, `DataFrames.AddRowResult`: an index column counts as an ordinary column in `addRow`. It takes one cell of the row, read as a non-negative integer, and it counts towards `InvalidColCount`. The header suggests instead that row indices are refreshed by `updateIndexBuffer` after rows are added (dataframe.h:150, 194-197), which would leave the index column out of the row. How `addRow` treats an index column cannot be seen from the header, and `updateIndexBuffer` is not part of this model.
- Cell parsing in `addRow` and `createDataFrame`: the bodies are not part of this model. A numeric cell is read as a decimal integer literal, an index cell as a non-negative one, and floating-point type guessing is left out.
- `DataFrames.DataFrame.AddRow`: the row is added atomically. Every cell is checked before any column changes. Whether the source leaves earlier columns extended when a later cell fails cannot be seen from its header.
- `DataFrames.CreateColumns`: with neither example rows nor headers the model gives an empty column list. The source's behaviour here is not stated in its header, and the body is not part of this model.
- `DataFrames.DataFrame.DropColumnAt`: a position past the last column is modelled as an IndexOutOfRange error. The body is not part of this model.
- `addColumnFromBuffer`, `addCategoricalColumn`, `getDataItem`, `getHeaders`/`getHeader`, `getIndexColumn`, `updateIndexBuffer`, iteration and copy/move: they are declared in the header, but their bodies are not part of this model.
- Columns are shared handles (`std::shared_ptr<Column>`) in the source. `addColumn` and `getColumn` return them, and callers may resize a column through them before calling `updateIndexBuffer` (dataframe.h:165-169). The model stores columns as values: the columns returned are copies, and changes made through them do not reach the frame. Aliasing and in-place resizing are not modelled.
- Strings are sequences of Unicode characters. Where the source measures a `std::string` in bytes, the model counts the bytes of the UTF-8 encoding (`Text.ByteLength`), on the assumption that the text is UTF-8. Other encodings are not modelled.
- `DataFrames.DataFrame.constructor`: the frame starts empty. The index column that `DataFrame(size)` sets up is not part of this model, because the constructor's body (dataframe.cpp) is not part of this model.
- `DataFrames.CreateDataFrame`: the example rows are not added to the new frame, because the function's body (dataframe.cpp) is not part of this model.
- `DataTraits<DataFrame>` identifiers and colour code: plain constants with no behaviour.
- `ScatterPlotBrushing.IndexToRow`: it requires at most 2^32 rows. The source casts larger row numbers to 32 bits silently.
- `ScatterPlotBrushing.HighlightedIds`, `ScatterPlotBrushing.FlaggedIds`: they require the rows to lie inside the index column. The source indexes it unchecked.
- BitSet iteration order: bit sets are modelled as sets of naturals.
- The GL state, plotting calls, tooltips, port connection checks, invalidation, and the axis/colour/radius handlers of the scatter plot processor.
- The mutex around the BrushingTarget table: the table is a single-threaded class. The `string_view` lifetime is modelled as the slot number of the stored entry.
- Network transport (ZMQ), Spout texture sharing, text overlay rendering and the demo controller.
