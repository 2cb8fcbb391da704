# Table reconstruction from document-analysis blocks

This project models the core of a small upload-and-convert web service.
A user uploads an image or a PDF. The service checks the file name against
an extension allow-list and sends the bytes to a document-analysis
service. That service answers with a flat list of typed *blocks*: CELL
blocks carry a row and a column index, WORD blocks carry text, and
relationships link a cell to the ids of its words. The service then turns
those blocks into a dense table and writes it out as a spreadsheet, with
the first row as the header.

The model covers three parts of `app.py`:

- **File intake** (`FileIntake`). This is the upload filter: the name must
  have a dot, and the text after the last dot, lower-cased, must be one of
  png, jpg, jpeg and pdf.
- **Cell extraction** (`Textract`, `CellContent`, `TableExtraction`). Each
  CELL block's text is built from the WORD blocks its CHILD relationships
  point to. Each child id resolves to the first block carrying it. Each
  word's text is appended followed by one space, and the result is
  stripped of whitespace at both ends. The text is stored in a map keyed by
  (row, column), and a later cell at the same coordinate overwrites an
  earlier one. A CELL block without `RowIndex` or `ColumnIndex` raises
  `KeyError`.
- **Grid building** (`TableGrid`). An empty map means "no tables". The
  grid has as many rows as the largest row index and as many columns as
  the largest column index. A coordinate with no recorded text holds the
  empty string. The first grid row is split off as the header, and an
  empty grid raises `IndexError`.

The extraction loops are methods. Each is proved equal to a specification
function: `ExtractTableData` to `Extract`, `ComputeCellText` to
`CellText`, `FindBlock` to `Resolve`, and `Max` to `MaxOf`. The lemmas
then state what the specification functions mean:

- which keys end up in the map;
- when extraction fails, and with which key;
- last write wins at a shared coordinate;
- when a cell's text equals its words joined by single spaces, and when it
  does not;
- that every recorded cell with positive indices shows up at its place in
  the grid; cells with an index below 1 are dropped.

`Strings` models Python's `str.isspace`, `str.strip` and `str.lower` as far
as this code needs them. `Wrappers` holds the `Option` and `Result` types.

One might expect a cell's words to be joined by single spaces. The code
instead appends each word followed by a space and strips the result at the
end, and the model follows the code. The two agree when every word is
non-empty and has no whitespace at its ends (`CellContent.CellTextIsJoin`).
They can differ otherwise: an empty word (a WORD block without `Text`) at
the start or at the end adds no separator after stripping, where a join
leaves a leading or a trailing space (`CellContent.EmptyWordIsNotJoined`).

## Model

| member | source | states |
|---|---|---|
| FileIntake.IsAllowedExtension | app.py:15 | the allow-list: png, jpg, jpeg and pdf, all lower case (its use is stated by `AllowedFileMeaning`) |
| FileIntake.AllowedFile | app.py:31-32 | the upload filter; its meaning, in both directions, is the contract of `AllowedFileMeaning` |
| FileIntake.LastDot | app.py:32 | finds the dot that `rsplit('.', 1)` splits at: none exactly when the name has no dot, otherwise a dot with no dot after it |
| FileIntake.LastDotAt | app.py:32 | any dot with no later dot is the one `LastDot` returns, so the split position is unique |
| FileIntake.AllowedFileMeaning | app.py:31-32 | a name is accepted exactly when some position holds its last dot and the lower-cased text after it is png, jpg, jpeg or pdf |
| FileIntake.NoExtensionRejected | app.py:32 | a name without a dot, or ending in its last dot, is refused |
| FileIntake.TextFileRejected | app.py:32 | "report.txt" is refused because its extension is not on the allow-list |
| FileIntake.UpperCaseExtensionAccepted | app.py:32 | "Scan.PDF" is accepted because the extension is compared after lower-casing |
| FileIntake.AllowedFileIgnoresCase | app.py:32 | lower-casing the whole name never changes the verdict |
| FileIntake.LowerKeepsLastDot | app.py:32 | lower-casing keeps the last dot at the same position, and lower-casing the extension again changes nothing |
| Strings.Lower | app.py:32 | lower-casing keeps the length and maps each character through ASCII case folding |
| Strings.IsSpace | app.py:50 | the characters Python's `str.isspace()` accepts, which `strip()` removes; what stripping does with them is stated by `Strip` and `StripIsTheTrim` |
| Strings.StripLeft | app.py:50 | the result is a suffix of the input, only whitespace was removed, and it does not start with whitespace |
| Strings.StripRight | app.py:50 | the result is a prefix of the input, only whitespace was removed, and it does not end with whitespace |
| Strings.Strip | app.py:50 | the result is a slice of the input with only whitespace outside it and no whitespace at its ends |
| Strings.TrimUnique | app.py:50 | two such slices of the same string are equal, so stripping has one answer |
| Strings.StripIsTheTrim | app.py:50 | `Strip` returns exactly the slice that has only whitespace outside it and none at its ends |
| Strings.StripTrailingSpace | app.py:48-50 | a string with no whitespace at its ends, followed by one space, strips back to itself |
| Textract.FirstIndex | app.py:46 | none exactly when no block has the id; otherwise a block with the id and no earlier block with it |
| Textract.Resolve | app.py:46 | none exactly when no block carries the id; otherwise a block of the list that carries the id and has no block with that id before it |
| Textract.FindBlock | app.py:46 | the linear search returns the first block carrying the id, or none |
| CellContent.CellText | app.py:41-50 | the text of one cell; its meaning is given by `CellTextIsJoin`, `EmptyWordIsNotJoined`, `NoWordsEmptyText`, `NonChildIgnored` and `TwoWordCell` |
| CellContent.AppendChildWords | app.py:45-48 | the inner loop appends, to the text so far, each resolved WORD's text (empty if it has no `Text`) followed by one space, in id order |
| CellContent.ComputeCellText | app.py:41-50 | the per-cell loops followed by strip compute the cell text its CHILD relationships define |
| CellContent.SpacedAppend | app.py:43-48 | appending words for one relationship and then the next gives the text for both lists concatenated |
| CellContent.CellWordsAppend | app.py:43-48 | a cell's words over a concatenated relationship list are the words of each part, in order |
| CellContent.ChildWordOfFirstMatch | app.py:46-48 | a child id contributes the text of the first block carrying it when that block is a WORD ("" without `Text`), and nothing otherwise |
| CellContent.UnresolvedChildSkipped | app.py:46-47 | a child id that matches no block contributes nothing |
| CellContent.NonChildIgnored | app.py:44 | removing a relationship of any type other than CHILD leaves the cell's words unchanged |
| CellContent.NoWordsEmptyText | app.py:41-50 | a cell without `Relationships` has no words, and a cell without words has the empty text |
| CellContent.SpacedIsJoin | app.py:48 | a non-empty word list with a space after each word is the single-space join plus one trailing space |
| CellContent.JoinClean | app.py:48-50 | joining words that are non-empty and have no whitespace at their ends gives such a word |
| CellContent.CellTextIsJoin | app.py:41-50 | when every word is non-empty and has no whitespace at its ends, the cell text is the words joined by single spaces |
| CellContent.EmptyWordIsNotJoined | app.py:48-50 | a leading empty word before a clean word w adds no separator after stripping (the text is w), whereas a single-space join gives a leading space |
| CellContent.TwoChildWords | app.py:45-48 | a CHILD relationship with two ids contributes the first id's word and then the second's |
| CellContent.TwoWordCell | app.py:41-51 | a cell linking to WORD blocks with texts p and q reads p, one space, q (e.g. "Hello World") |
| TableExtraction.Record | app.py:37-51 | one block's effect: an error exactly for a CELL lacking an index, naming the missing key; otherwise a CELL's text is stored at its coordinate, every other entry keeps its text, and the keys grow by that coordinate only for a CELL |
| TableExtraction.Collect | app.py:36-51 | the map after a prefix of the blocks; its meaning is given by `CollectKeys`, `CollectError` and `CollectLastWins` |
| TableExtraction.Extract | app.py:34-53 | the result of the whole extraction; its meaning is given by `ExtractKeys`, `ExtractFails`, `ExtractLastWins` and `NoTablesIffNoCells` |
| TableExtraction.ErrorPersists | app.py:38-39 | once a prefix of the blocks raises, processing the whole list raises the same error |
| TableExtraction.CollectStep | app.py:36-51 | processing one more block applies that block's effect to the map built so far |
| TableExtraction.ExtractTableData | app.py:34-53 | the loop returns the map the block list defines, or `KeyError` at the first CELL block lacking an index |
| TableExtraction.CellCoordsSnoc | app.py:37-51 | the coordinates of a longer block list add the last block's coordinate exactly when it is an indexed CELL |
| TableExtraction.CollectKeys | app.py:36-51 | processing succeeds exactly when every CELL block has both indices, and the keys are then exactly their coordinates |
| TableExtraction.CollectError | app.py:37-39 | a failure names the key missing from the first CELL block that lacks an index |
| TableExtraction.CollectLastWins | app.py:51 | the text stored at a coordinate is that of the last CELL block with that coordinate |
| TableExtraction.ExtractFails | app.py:37-39 | extraction raises `KeyError` exactly when some CELL block lacks an index, naming the first such block's missing key |
| TableExtraction.ExtractKeys | app.py:36-51 | the keys of the extracted map are exactly the coordinates of the CELL blocks |
| TableExtraction.NoTablesIffNoCells | app.py:83-87 | the map is empty, the "no tables found" case, exactly when the response holds no CELL block |
| TableExtraction.ExtractLastWins | app.py:51 | when CELL blocks share a coordinate, the stored text is the last one's |
| TableGrid.MaxOf | app.py:90-91 | the largest element of a non-empty set of indices: a member that bounds all others |
| TableGrid.Rows | app.py:90 | the set holds exactly the row indices of the keys (both inclusions), and is empty exactly when the map is |
| TableGrid.Cols | app.py:91 | the set holds exactly the column indices of the keys (both inclusions), and is empty exactly when the map is |
| TableGrid.LargestIndicesRecorded | app.py:90-91 | the grid's height and width are attained: some recorded cell lies in the largest row and some in the largest column |
| TableGrid.WithinGrid | app.py:90-91 | every recorded coordinate is within the largest row and column indices |
| TableGrid.Max | app.py:90-91 | the loop returns an element of the set that bounds all others, i.e. `MaxOf` |
| TableGrid.BuildGrid | app.py:93-98 | the grid has max(maxRow, 0) rows of max(maxCol, 0) entries; entry (r, c) is the text at (r + 1, c + 1) or "" |
| TableGrid.SplitHeader | app.py:101-102 | the split succeeds exactly when the grid is non-empty and then the header followed by the data rows is the grid; otherwise `IndexError` |
| TableGrid.Reconstruct | app.py:83-102 | extraction errors propagate; "no tables" exactly when the map is empty; otherwise `IndexError` exactly when every row index is below 1, and in every other case a table whose header and rows lay out the grid sized by the largest indices |
| TableGrid.HeaderAndRowsShowGrid | app.py:101-102 | the first row of a filled grid as header and the rest as data rows lay the cells out as `ShowsGrid` describes |
| TableGrid.HeaderShowsRowOne | app.py:96-101 | a header built from row 1 shows every recorded row-1 cell whose column is within the width |
| TableGrid.RowsShowLaterRows | app.py:94-102 | data rows built from rows 2 onward show every recorded cell of a later row within the height and width |
| TableGrid.GridShowsCells | app.py:93-102 | a grid whose size bounds every recorded coordinate shows each recorded cell with positive indices at its place |
| TableGrid.EveryCellShown | app.py:90-98 | every recorded cell with positive indices appears at its place: in the header when its row is 1, otherwise in data row row - 2 |

## Left out

- HTTP routing, the request form, the flash messages, redirects, template
  rendering and the `/download` route are web plumbing around the core.
- `secure_filename`, saving the upload, reading its bytes, creating the
  folders and the generated `uuid` output name are file system I/O and
  randomness.
- The call to the analysis service and its credentials are a remote call.
  The model takes the block list it returns as a parameter.
- The spreadsheet writer (`pandas.DataFrame` and `to_excel`) is a foreign
  library. The model stops at the header row and the data rows handed to
  it.
- The `try`/`except` in `index` is modelled only for the exceptions the
  core itself raises: `KeyError` for a missing index and `IndexError` for an
  empty grid, both as `Failed`. Errors from the analysis call are left out
  along with the call.
- Strings.Lower: folds ASCII letters only, not the full Unicode case
  mapping of Python's `str.lower()`. For this allow-list the verdict can
  differ only through non-ASCII characters whose lower case contains ASCII
  letters: the Kelvin sign gives "k", which no accepted extension contains,
  and the dotted capital I gives "i" followed by a combining dot, which no
  accepted extension contains either.
- `int()` on `RowIndex` and `ColumnIndex` is taken as the identity: the
  analysis service sends integers.
- The `Id`, `BlockType`, `Type` and `Ids` keys are taken to be present on
  every block and relationship, as the analysis service guarantees. Only
  `RowIndex`, `ColumnIndex`, `Text` and `Relationships` are modelled as
  possibly missing.
- Python's `max` and the map are modelled on sets and a map, so the order
  in which dictionary keys are visited is not modelled. The result does
  not depend on it.
