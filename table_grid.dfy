/** What `index` does with the extracted cells: the "no tables" check, the
    dense grid of `max_row` rows by `max_col` columns, and the split into a
    header row and data rows. */
module TableGrid {
  import opened Wrappers
  import opened Textract
  import opened TableExtraction

  /** A non-empty set has an element. */
  lemma HasElement(s: set<int>)
    requires s != {}
    ensures exists x :: x in s
  {
    if forall x :: x !in s {
      assert false;
    }
  }

  /** The largest element of a non-empty set. */
  ghost function MaxOf(s: set<int>): (m: int)
    requires s != {}
    ensures m in s && forall y :: y in s ==> y <= m
  {
    HasElement(s);
    var x :| x in s;
    if s == {x} then
      x
    else
      var rest := MaxOf(s - {x});
      assert forall y :: y in s ==> y == x || y in s - {x};
      if x < rest then rest else x
  }

  /** Some recorded cell lies in row `r`. */
  predicate IsRowOf(cells: Cells, r: int)
  {
    exists k :: k in cells && k.0 == r
  }

  /** Some recorded cell lies in column `c`. */
  predicate IsColOf(cells: Cells, c: int)
  {
    exists k :: k in cells && k.1 == c
  }

  /** The row indices, and the column indices, of the recorded cells: exactly
      the rows and the columns some recorded cell lies in. */
  function Rows(cells: Cells): (rows: set<int>)
    ensures forall k :: k in cells ==> k.0 in rows
    ensures forall r {:trigger IsRowOf(cells, r)} :: r in rows ==> IsRowOf(cells, r)
    ensures rows == {} <==> cells == map[]
  {
    var rows := set k | k in cells :: k.0;
    assert cells != map[] ==> exists k :: k in cells && k.0 in rows;
    rows
  }

  function Cols(cells: Cells): (cols: set<int>)
    ensures forall k :: k in cells ==> k.1 in cols
    ensures forall c {:trigger IsColOf(cells, c)} :: c in cols ==> IsColOf(cells, c)
    ensures cols == {} <==> cells == map[]
  {
    var cols := set k | k in cells :: k.1;
    assert cells != map[] ==> exists k :: k in cells && k.1 in cols;
    cols
  }

  /** The grid's height and width are attained: some recorded cell lies in
      the largest row, and some in the largest column. */
  lemma LargestIndicesRecorded(cells: Cells)
    requires cells != map[]
    ensures IsRowOf(cells, MaxOf(Rows(cells)))
    ensures IsColOf(cells, MaxOf(Cols(cells)))
  {
  }

  /** How many numbers `range(1, n + 1)` yields. */
  function Count(n: int): nat { if n > 0 then n else 0 }

  /** The text recorded at (row, col), or the empty string when none was. */
  function GridCell(cells: Cells, row: int, col: int): string
  {
    if (row, col) in cells then cells[(row, col)] else ""
  }

  /** Python's `max` over a non-empty collection of integers. */
  method Max(s: set<int>) returns (m: int)
    requires s != {}
    ensures m in s && forall y :: y in s ==> y <= m
    ensures m == MaxOf(s)
  {
    HasElement(s);
    m :| m in s;
    var rest := s - {m};
    while rest != {}
      invariant rest <= s && m in s
      invariant forall y :: y in s && y !in rest ==> y <= m
      decreases rest
    {
      HasElement(rest);
      var x :| x in rest;
      if m < x {
        m := x;
      }
      rest := rest - {x};
    }
  }

  /** The nested loops that build `table_data`: for each row 1..maxRow, a
      list of the texts at columns 1..maxCol, `""` where nothing was recorded. */
  method BuildGrid(cells: Cells, maxRow: int, maxCol: int) returns (grid: seq<seq<string>>)
    ensures |grid| == Count(maxRow)
    ensures forall r :: 0 <= r < |grid| ==> |grid[r]| == Count(maxCol)
    ensures forall r, c :: 0 <= r < |grid| && 0 <= c < |grid[r]| ==> grid[r][c] == GridCell(cells, r + 1, c + 1)
  {
    grid := [];
    var row := 1;
    while row <= maxRow
      invariant 1 <= row <= Count(maxRow) + 1
      invariant |grid| == row - 1
      invariant forall r :: 0 <= r < |grid| ==> |grid[r]| == Count(maxCol)
      invariant forall r, c :: 0 <= r < |grid| && 0 <= c < |grid[r]| ==> grid[r][c] == GridCell(cells, r + 1, c + 1)
    {
      var rowData: seq<string> := [];
      var col := 1;
      while col <= maxCol
        invariant 1 <= col <= Count(maxCol) + 1
        invariant |rowData| == col - 1
        invariant forall c :: 0 <= c < |rowData| ==> rowData[c] == GridCell(cells, row, c + 1)
      {
        rowData := rowData + [GridCell(cells, row, col)];
        col := col + 1;
      }
      grid := grid + [rowData];
      row := row + 1;
    }
  }

  /** The first grid row becomes the header and the rest the data rows;
      taking the first row of an empty grid raises `IndexError`. */
  function SplitHeader(grid: seq<seq<string>>): (r: Result<(seq<string>, seq<seq<string>>), Error>)
    ensures r.Ok? <==> grid != []
    ensures r.Err? ==> r.error == IndexError
    ensures r.Ok? ==> [r.value.0] + r.value.1 == grid
  {
    if grid == [] then Err(IndexError) else Ok((grid[0], grid[1..]))
  }

  /** How one response ends once the analysis call has returned. */
  datatype Outcome =
    | NoTables                                            // "No tables found in the document."
    | Failed(error: Error)                                // caught by the handler's `except`
    | Table(header: seq<string>, rows: seq<seq<string>>)  // handed to the spreadsheet writer

  /** `header` and `rows` lay out `cells` as a grid of `maxRow` rows by
      `maxCol` columns: row 1 is the header, rows 2..maxRow are the data rows,
      and each entry is the recorded text or `""`. */
  ghost predicate ShowsGrid(header: seq<string>, rows: seq<seq<string>>, cells: Cells, maxRow: int, maxCol: int)
  {
    && |rows| == maxRow - 1
    && |header| == Count(maxCol)
    && (forall c :: 0 <= c < |header| ==> header[c] == GridCell(cells, 1, c + 1))
    && (forall r :: 0 <= r < |rows| ==> |rows[r]| == Count(maxCol))
    && (forall r, c :: 0 <= r < |rows| && 0 <= c < |rows[r]| ==> rows[r][c] == GridCell(cells, r + 2, c + 1))
  }

  /** The part of `index` after the analysis call: extract the cells, stop
      when there are none, size and fill the grid, split off the header. */
  method Reconstruct(blocks: seq<Block>) returns (outcome: Outcome)
    ensures Extract(blocks).Err? ==> outcome == Failed(Extract(blocks).error)
    ensures outcome == NoTables <==> Extract(blocks) == Ok(map[])
    ensures Extract(blocks).Ok? && Extract(blocks).value != map[] ==>
      var cells := Extract(blocks).value;
      && (outcome == Failed(IndexError) <==> MaxOf(Rows(cells)) < 1)
      && (outcome != Failed(IndexError) ==> outcome.Table? && ShowsGrid(outcome.header, outcome.rows, cells, MaxOf(Rows(cells)), MaxOf(Cols(cells))))
  {
    var extracted := ExtractTableData(blocks);
    if extracted.Err? {
      return Failed(extracted.error);
    }
    var cells := extracted.value;
    if cells == map[] {
      return NoTables;
    }
    var maxRow := Max(Rows(cells));
    var maxCol := Max(Cols(cells));
    var grid := BuildGrid(cells, maxRow, maxCol);
    var split := SplitHeader(grid);
    if split.Err? {
      return Failed(split.error);
    }
    var header, rows := split.value.0, split.value.1;
    HeaderAndRowsShowGrid(grid, header, rows, cells, maxRow, maxCol);
    return Table(header, rows);
  }

  /** Splitting a filled grid into its first row and the rest lays the cells
      out as `ShowsGrid` describes. */
  lemma HeaderAndRowsShowGrid(grid: seq<seq<string>>, header: seq<string>, rows: seq<seq<string>>,
                              cells: Cells, maxRow: int, maxCol: int)
    requires |grid| == Count(maxRow) && grid == [header] + rows
    requires forall r :: 0 <= r < |grid| ==> |grid[r]| == Count(maxCol)
    requires forall r, c :: 0 <= r < |grid| && 0 <= c < |grid[r]| ==> grid[r][c] == GridCell(cells, r + 1, c + 1)
    ensures ShowsGrid(header, rows, cells, maxRow, maxCol)
  {
    assert grid[0] == header;
    assert forall r :: 0 <= r < |rows| ==> rows[r] == grid[r + 1];
  }

  /** Every recorded coordinate lies within the grid's height and width. */
  lemma WithinGrid(cells: Cells)
    requires cells != map[]
    ensures forall k :: k in cells ==> k.0 <= MaxOf(Rows(cells)) && k.1 <= MaxOf(Cols(cells))
  {
    forall k | k in cells
      ensures k.0 <= MaxOf(Rows(cells)) && k.1 <= MaxOf(Cols(cells))
    {
      assert k.0 in Rows(cells) && k.1 in Cols(cells);
    }
  }

  /** A header laid out from row 1 over `maxCol` columns shows every recorded
      cell of row 1 whose column is within the width. */
  lemma {:induction false} HeaderShowsRowOne(header: seq<string>, cells: Cells, maxCol: int)
    requires |header| == Count(maxCol)
    requires forall c :: 0 <= c < |header| ==> header[c] == GridCell(cells, 1, c + 1)
    requires forall k :: k in cells ==> k.1 <= maxCol
    ensures forall k :: k in cells && k.0 == 1 && k.1 >= 1 ==> k.1 - 1 < |header| && header[k.1 - 1] == cells[k]
  {
    forall k | k in cells && k.0 == 1 && k.1 >= 1
      ensures k.1 - 1 < |header| && header[k.1 - 1] == cells[k]
    {
      assert (1, k.1) == k;
    }
  }

  /** Data rows laid out from row 2 show every recorded cell of a later row
      that lies within the grid's height and width. */
  lemma {:induction false} RowsShowLaterRows(rows: seq<seq<string>>, cells: Cells, maxRow: int, maxCol: int)
    requires |rows| == maxRow - 1
    requires forall r :: 0 <= r < |rows| ==> |rows[r]| == Count(maxCol)
    requires forall r, c :: 0 <= r < |rows| && 0 <= c < |rows[r]| ==> rows[r][c] == GridCell(cells, r + 2, c + 1)
    requires forall k :: k in cells ==> k.0 <= maxRow && k.1 <= maxCol
    ensures forall k :: k in cells && k.0 >= 2 && k.1 >= 1 ==>
      k.0 - 2 < |rows| && k.1 - 1 < |rows[k.0 - 2]| && rows[k.0 - 2][k.1 - 1] == cells[k]
  {
    forall k | k in cells && k.0 >= 2 && k.1 >= 1
      ensures k.0 - 2 < |rows| && k.1 - 1 < |rows[k.0 - 2]| && rows[k.0 - 2][k.1 - 1] == cells[k]
    {
      assert (k.0, k.1) == k;
    }
  }

  /** A grid of `maxRow` by `maxCol` that bounds every recorded coordinate
      shows every recorded cell with positive indices at its place. */
  lemma {:induction false} GridShowsCells(header: seq<string>, rows: seq<seq<string>>, cells: Cells, maxRow: int, maxCol: int)
    requires ShowsGrid(header, rows, cells, maxRow, maxCol)
    requires forall k :: k in cells ==> k.0 <= maxRow && k.1 <= maxCol
    ensures forall k :: k in cells && k.0 == 1 && k.1 >= 1 ==> k.1 - 1 < |header| && header[k.1 - 1] == cells[k]
    ensures forall k :: k in cells && k.0 >= 2 && k.1 >= 1 ==>
      k.0 - 2 < |rows| && k.1 - 1 < |rows[k.0 - 2]| && rows[k.0 - 2][k.1 - 1] == cells[k]
  {
    HeaderShowsRowOne(header, cells, maxCol);
    RowsShowLaterRows(rows, cells, maxRow, maxCol);
  }

  /** Every recorded cell with positive indices appears at its place: in the
      header when its row is 1, otherwise in data row `row - 2`. */
  lemma {:induction false} EveryCellShown(header: seq<string>, rows: seq<seq<string>>, cells: Cells)
    requires cells != map[]
    requires ShowsGrid(header, rows, cells, MaxOf(Rows(cells)), MaxOf(Cols(cells)))
    ensures forall k :: k in cells && k.0 == 1 && k.1 >= 1 ==> k.1 - 1 < |header| && header[k.1 - 1] == cells[k]
    ensures forall k :: k in cells && k.0 >= 2 && k.1 >= 1 ==>
      k.0 - 2 < |rows| && k.1 - 1 < |rows[k.0 - 2]| && rows[k.0 - 2][k.1 - 1] == cells[k]
  {
    WithinGrid(cells);
    GridShowsCells(header, rows, cells, MaxOf(Rows(cells)), MaxOf(Cols(cells)));
  }
}
