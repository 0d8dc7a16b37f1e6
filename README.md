# CSV editor core, modelled in Dafny

This project models the data core of a small browser CSV editor. The editor
has one page component. It reads a dropped file's text into a header row and
a list of data rows. The user can edit cells, add a blank row or delete a row.
A download writes the table back out as CSV text.

The CSV handling is deliberately naive, and the model keeps it that way:

- the text is split on every newline and every line on every comma;
- there is no quoting and no escaping;
- the first line is the header, even when it is blank;
- a later line is dropped when all of its cells are blank after trimming;
- the download joins cells with commas and lines with newlines.

Files:

- `text.dfy`, module `Text`: `Split` models `String.prototype.split` with a
  one-character separator. `Join` models `Array.prototype.join`. It also holds
  `Count` and `IndexOf`, and the split/join laws.
- `filter.dfy`, module `Filtering`: `Filter` models `Array.prototype.filter`.
  `Selects` is an independent description of what a filter keeps: which
  positions, in which order. `KeptIndices` names those positions.
- `csv.dfy`, module `Csv`: trimming, the blank-row test, `Parse`,
  `Serialize`, the round trips, and worked examples.
- `grid.dfy`, module `Editor`: the class `Grid`, holding the two pieces of
  component state (`headers`, `csvData`). Its methods are the file load, the
  cell edit, the two row buttons and the download text. The pure row
  operations `BlankRow` and `DropIndex` sit beside it.

Each operation has a partner that it is proved against:

- `Split` against `Join`, in both directions;
- `Parse` against `Serialize`, in both directions, under stated conditions;
- `Trim` against "every character is white space";
- the blank-row test against "some cell is not blank";
- `Filter` against `Selects`;
- `DropIndex` against the slice expression;
- each `Grid` method against the pure function that gives its new state.

## Model

| member | source | states |
|---|---|---|
| Text.Split | src/pages/Index.jsx:18 | `text.split(sep)` never yields an empty array, so `rows[0]` always exists, even for empty text |
| Text.SplitCount | src/pages/Index.jsx:18 | a split has exactly one more piece than the text has separators |
| Text.JoinSplit | src/pages/Index.jsx:18 | joining the pieces of a split with the same separator gives back the original text, for any text |
| Text.SplitPiecesAvoid | src/pages/Index.jsx:18 | no piece of a split contains the separator |
| Text.SplitFirstPiece | src/pages/Index.jsx:18-19 | the first piece of a split is the text before the first separator, or the whole text when there is none |
| Text.SplitWithoutSeparator | src/pages/Index.jsx:18 | a text without the separator splits into itself alone |
| Text.SplitConcat | src/pages/Index.jsx:18 | splitting `a + sep + b` gives the pieces of `a` followed by the pieces of `b` |
| Text.SplitJoin | src/pages/Index.jsx:18 | splitting a join of at least one piece, where no piece holds the separator, gives back exactly those pieces |
| Text.Join | src/pages/Index.jsx:44 | `xs.join(sep)`; `JoinSplit` and `SplitJoin` pin it as the inverse of `Split`, `JoinAvoids` and `JoinCount` say which characters it adds |
| Text.JoinAvoids | src/pages/Index.jsx:44 | a character other than the separator is absent from a join when it is absent from every piece |
| Text.JoinCount | src/pages/Index.jsx:44 | a join of n pieces without the separator holds the separator exactly n - 1 times |
| Csv.LeadingSpaces | src/pages/Index.jsx:20 | the leading white-space run of a cell: all of it is white space and the character after it is not |
| Csv.TrailingSpaces | src/pages/Index.jsx:20 | the trailing white-space run of a cell: all of it is white space and the character before it is not |
| Csv.IsSpace | src/pages/Index.jsx:20 | the characters `trim` removes, a fixed list (see "Left out"); `Trim`, `LeadingSpaces` and `TrailingSpaces` state what is cut in terms of it |
| Csv.Trim | src/pages/Index.jsx:20 | `cell.trim()` is the middle `s[i..j]` of the cell with only white space before `i` and after `j`; it is empty exactly when every character of the cell is white space (so `cell.trim() !== ''` fails for the empty cell too); otherwise it neither starts nor ends with white space |
| Csv.HasContent | src/pages/Index.jsx:20 | `row.some(cell => cell.trim() !== '')`; `HasContentIffSomeCell` and `NoContentIffAllSpace` pin it to "some cell is not blank" |
| Csv.HasContentIffSomeCell | src/pages/Index.jsx:20 | `row.some(cell => cell.trim() !== '')` holds exactly when some cell of the row is not blank |
| Csv.NoContentIffAllSpace | src/pages/Index.jsx:20 | a row fails the test exactly when every cell is white space only; a row that passes has at least one cell |
| Filtering.Filter | src/pages/Index.jsx:20 | `xs.filter(p)`; `FilterSelects` pins it to the independent `Selects` description, and `FilterSatisfies`, `FilterConcat`, `FilterSingle` and `FilterAll` state its laws |
| Filtering.FilterSelects | src/pages/Index.jsx:20 | the kept rows are the rows at strictly increasing positions, and a position is kept exactly when its row passes the test; the result is no longer than the input |
| Filtering.FilterSatisfies | src/pages/Index.jsx:20 | every kept row passes the test, and no more rows come out than went in |
| Filtering.FilterConcat | src/pages/Index.jsx:20 | filtering two blocks in sequence equals filtering their concatenation |
| Filtering.FilterSingle | src/pages/Index.jsx:20 | a single row is kept exactly when it passes the test |
| Filtering.FilterAll | src/pages/Index.jsx:20 | when every row passes the test, the filter returns its input unchanged |
| Csv.SplitLines | src/pages/Index.jsx:18 | `.map(row => row.split(','))`: one row per line, the same number of rows as lines |
| Csv.Parse | src/pages/Index.jsx:17-20 | the text-to-state step of a file load; the header always has a cell; `ParseHeader`, `ParseRows`, `ParseRowCount` and the round trips below pin down the rest |
| Csv.ParseEmpty | src/pages/Index.jsx:17-20 | an empty file gives the header `[""]` (one empty cell) and no data rows |
| Csv.ParseSingleLine | src/pages/Index.jsx:17-20 | a text without a newline is a header alone, the comma-split of the whole text, with no data rows |
| Csv.ParseHeader | src/pages/Index.jsx:18-19 | the header is the comma-split of the text before the first newline; it always has a cell and is never filtered out |
| Csv.ParseRows | src/pages/Index.jsx:18-20 | the data rows are the comma-split lines after the first, at strictly increasing positions; a line is kept exactly when some cell is not blank; the k-th row is the comma-split of text line `KeptIndices[k] + 1` |
| Csv.ParseRowCount | src/pages/Index.jsx:18-20 | there are never more data rows than newlines in the text |
| Csv.ParseDropsBlankLines | src/pages/Index.jsx:18-20 | `"a,b\n,\n1,2\n   ,\n"` loads as header `["a","b"]` and the single row `["1","2"]`; the empty line, the all-space line and the empty trailing line are all dropped |
| Csv.JoinRows | src/pages/Index.jsx:44 | `.map(row => row.join(','))`: one line per row, the same number of lines as rows |
| Csv.Serialize | src/pages/Index.jsx:44 | the download text; `SerializeLayout`, `SerializeAppend` and the round trips `ParseSerialize` and `SerializeParse` pin it down |
| Csv.SerializeLayout | src/pages/Index.jsx:44 | the download text is the comma-joined header followed, for each row in order, by a newline and the comma-joined row; with no rows it is the joined header alone |
| Csv.SerializeAppend | src/pages/Index.jsx:44 | appending a row appends exactly one newline and that row's joined cells to the text |
| Csv.SerializeExample | src/pages/Index.jsx:44 | header `["name","age"]` and rows `[["Al","30"],["Bo","25"]]` give `"name,age\nAl,30\nBo,25"` |
| Csv.SplitLinesJoinRows | src/pages/Index.jsx:18 | comma-splitting comma-joined rows gives the rows back, when every row has a cell and no cell holds a comma |
| Csv.ParseSerialize | src/pages/Index.jsx:18-44 | loading a downloaded table gives back the same header and rows, when the header has a cell, every row has a non-blank cell, and no value holds a comma or a newline |
| Csv.SerializeParse | src/pages/Index.jsx:18-44 | downloading a freshly loaded file gives back its exact text, when no line after the first is blank (so also no empty trailing line) |
| Csv.EmbeddedCommaSplitsCell | src/pages/Index.jsx:18-44 | a value containing a comma does not survive a download and reload: `["x,y"]` comes back as the two cells `["x","y"]` |
| Editor.BlankRow | src/pages/Index.jsx:35 | `new Array(n).fill('')`; `BlankRowIsBlank` states its length and cells |
| Editor.BlankRowIsBlank | src/pages/Index.jsx:35 | `new Array(n).fill('')` has n cells, every one empty, so the row fails the blank-row test |
| Editor.DropIndex | src/pages/Index.jsx:39 | `filter((_, i) => i !== index)`: one element fewer when the index names an element, as many otherwise; `DropIndexShifts` and `DropIndexPositions` give the contents |
| Editor.DropIndexShifts | src/pages/Index.jsx:39 | `filter((_, i) => i !== index)` is `rows[..index] + rows[index+1..]` for an index that names a row, and leaves the rows unchanged for any other integer |
| Editor.DropIndexPositions | src/pages/Index.jsx:39 | deleting an existing row leaves one row fewer; rows before it keep their positions and rows after it move up by one |
| Editor.AddedRowDroppedOnReload | src/pages/Index.jsx:18-44 | a row added with "Add New Row" and left unedited disappears when the downloaded file is loaded again |
| Editor.Grid.constructor | src/pages/Index.jsx:9-10 | the header and the data rows both start out empty |
| Editor.Grid.Load | src/pages/Index.jsx:17-20 | a file load replaces the header and the data rows wholesale with the parse of the text; the header has a cell and every row has a non-blank cell |
| Editor.Grid.EditCell | src/pages/Index.jsx:28-31 | exactly the addressed cell takes the new value; every other cell, every row length, the row count and the header stay as they were, so a rectangular table stays rectangular |
| Editor.Grid.AddRow | src/pages/Index.jsx:34-36 | one row of exactly `headers.length` empty cells is appended; the earlier rows and the header are unchanged |
| Editor.Grid.DeleteRow | src/pages/Index.jsx:38-41 | the rows become `DropIndex(rows, index)`; this is the slice form when the index names a row and leaves the rows unchanged otherwise; the header is unchanged |
| Editor.Grid.Export | src/pages/Index.jsx:43-44 | the download text is `Serialize(headers, csvData)`, laid out as the joined header followed by one newline-prefixed line per row |

## Left out

- Reading the file is left out: `FileReader`, `readAsText` and the asynchronous `onload` callback are browser I/O. `Grid.Load` takes the text that callback receives as a parameter.
- The drop zone and its `.csv` accept filter are third-party UI and are not modelled.
- Delivering the download is left out: the `Blob`, the object URL, the hidden link, the click, the `edited_data.csv` file name, the MIME type and the `link.download` feature check are browser side effects. `Grid.Export` returns only the text content.
- Rendering is not modelled. This includes the rule that the table shows only when there is at least one data row, so a header-only file displays as if nothing were loaded.
- React's state setters and re-rendering are modelled as plain field assignments on `Grid`.
- Editor.Grid.EditCell: does not model the aliasing of the shallow copy `[...csvData]`, because rows are values in the model. In the source, the edited inner row array is shared with the previous state.
- Editor.Grid.EditCell: requires the row and column indices to be in range. The view only passes indices of rendered cells. Outside the range, the source throws for a bad row index and grows the row for a bad column index; neither is modelled.
- Csv.IsSpace: is a fixed character list. The list is the ECMAScript WhiteSpace and LineTerminator productions: tab, line feed, vertical tab, form feed, carriage return, space, no-break space, the Unicode space separators (U+1680, U+2000 to U+200A, U+202F, U+205F, U+3000), line and paragraph separator, and the byte order mark. A later Unicode version's additions to category Zs are not tracked.
- Strings are sequences of Unicode scalar values. JavaScript strings are UTF-16 code units. Split, join and trim behave the same for the separators and spaces used here, because all of them are single code units.
- Rectangular rows are not enforced: nothing in the editor makes a data row as long as the header, so a loaded file may have ragged rows. `Rectangular` is a predicate that `EditCell`, `AddRow` and `DeleteRow` preserve and `Load` does not establish.
