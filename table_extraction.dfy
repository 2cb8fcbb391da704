/** `extract_table_data`: the map from (row, column) to cell text built from
    the CELL blocks of one analysis response. */
module TableExtraction {
  import opened Wrappers
  import opened Textract
  import opened CellContent

  type Coord = (int, int)
  type Cells = map<Coord, string>

  /** The exceptions the reconstruction can raise: a missing dictionary key,
      and indexing an empty list. */
  datatype Error = KeyError(key: string) | IndexError

  /** Whether a block carries both `RowIndex` and `ColumnIndex`. */
  predicate HasCoord(b: Block) { b.rowIndex.Some? && b.columnIndex.Some? }

  function CoordOf(b: Block): Coord
    requires HasCoord(b)
  {
    (b.rowIndex.value, b.columnIndex.value)
  }

  /** The key whose lookup fails first on a CELL block lacking an index. */
  function MissingKey(b: Block): string
  {
    if b.rowIndex.None? then "RowIndex" else "ColumnIndex"
  }

  /** The effect of one block on the map: non-CELL blocks change nothing; a
      CELL block's text is stored at its coordinate, replacing what was there. */
  function Record(all: seq<Block>, cells: Cells, b: Block): (r: Result<Cells, Error>)
    ensures r.Err? <==> IsCell(b) && !HasCoord(b)
    ensures r.Err? ==> r.error == KeyError(MissingKey(b))
    ensures r.Ok? ==> r.value.Keys == if IsCell(b) then cells.Keys + {CoordOf(b)} else cells.Keys
    ensures r.Ok? && IsCell(b) ==> r.value[CoordOf(b)] == CellText(all, b)
    ensures r.Ok? ==> forall k :: k in cells && !(IsCell(b) && k == CoordOf(b)) ==> r.value[k] == cells[k]
  {
    if !IsCell(b) then Ok(cells)
    else if !HasCoord(b) then Err(KeyError(MissingKey(b)))
    else Ok(cells[CoordOf(b) := CellText(all, b)])
  }

  /** The map after processing `bs` in order (`all` is the whole response,
      where child ids are looked up). */
  function Collect(all: seq<Block>, bs: seq<Block>): Result<Cells, Error>
  {
    if bs == [] then Ok(map[])
    else
      match Collect(all, bs[..|bs| - 1])
      case Err(e) => Err(e)
      case Ok(cells) => Record(all, cells, bs[|bs| - 1])
  }

  /** The result of `extract_table_data(blocks)`. */
  function Extract(blocks: seq<Block>): Result<Cells, Error>
  {
    Collect(blocks, blocks)
  }

  /** Once a prefix has failed, the whole list fails with the same error. */
  lemma {:induction false} ErrorPersists(all: seq<Block>, bs: seq<Block>, n: nat)
    requires n <= |bs| && Collect(all, bs[..n]).Err?
    ensures Collect(all, bs) == Collect(all, bs[..n])
  {
    if n < |bs| {
      var init := bs[..|bs| - 1];
      assert init[..n] == bs[..n];
      ErrorPersists(all, init, n);
    } else {
      assert bs[..n] == bs;
    }
  }

  lemma CollectStep(all: seq<Block>, bs: seq<Block>, i: nat, cells: Cells)
    requires i < |bs| && Collect(all, bs[..i]) == Ok(cells)
    ensures Collect(all, bs[..i + 1]) == Record(all, cells, bs[i])
  {
    assert bs[..i + 1][..i] == bs[..i] && bs[..i + 1][i] == bs[i];
  }

  /** The loop of `extract_table_data`, storing each CELL block's text in
      the map `cells`. */
  method ExtractTableData(blocks: seq<Block>) returns (r: Result<Cells, Error>)
    ensures r == Extract(blocks)
  {
    var cells: Cells := map[];
    var i := 0;
    while i < |blocks|
      invariant 0 <= i <= |blocks|
      invariant Collect(blocks, blocks[..i]) == Ok(cells)
    {
      var block := blocks[i];
      CollectStep(blocks, blocks, i, cells);
      if IsCell(block) {
        if block.rowIndex.None? || block.columnIndex.None? {
          ErrorPersists(blocks, blocks, i + 1);
          return Err(KeyError(MissingKey(block)));
        }
        var text := ComputeCellText(blocks, block);
        assert Record(blocks, cells, block) == Ok(cells[CoordOf(block) := text]);
        cells := cells[(block.rowIndex.value, block.columnIndex.value) := text];
      }
      i := i + 1;
    }
    assert blocks[..i] == blocks;
    return Ok(cells);
  }

  /** The coordinates of the CELL blocks of `bs` that carry both indices. */
  ghost function CellCoords(bs: seq<Block>): set<Coord>
  {
    set i | 0 <= i < |bs| && IsCell(bs[i]) && HasCoord(bs[i]) :: CoordOf(bs[i])
  }

  /** Every CELL block of `bs` carries both indices. */
  ghost predicate AllCellsIndexed(bs: seq<Block>)
  {
    forall i :: 0 <= i < |bs| && IsCell(bs[i]) ==> HasCoord(bs[i])
  }

  /** `bs[i]` is the first CELL block of `bs` lacking an index. */
  ghost predicate FirstUnindexed(bs: seq<Block>, i: int)
  {
    && 0 <= i < |bs| && IsCell(bs[i]) && !HasCoord(bs[i])
    && forall j :: 0 <= j < i && IsCell(bs[j]) ==> HasCoord(bs[j])
  }

  lemma CellCoordsSnoc(bs: seq<Block>)
    requires bs != []
    ensures var last := bs[|bs| - 1];
      CellCoords(bs) == CellCoords(bs[..|bs| - 1])
        + (if IsCell(last) && HasCoord(last) then {CoordOf(last)} else {})
  {
    var init, last := bs[..|bs| - 1], bs[|bs| - 1];
    forall c | c in CellCoords(bs)
      ensures c in CellCoords(init) || (IsCell(last) && HasCoord(last) && c == CoordOf(last))
    {
      var i :| 0 <= i < |bs| && IsCell(bs[i]) && HasCoord(bs[i]) && CoordOf(bs[i]) == c;
      if i < |init| { assert init[i] == bs[i]; }
    }
    forall c | c in CellCoords(init) ensures c in CellCoords(bs) {
      var i :| 0 <= i < |init| && IsCell(init[i]) && HasCoord(init[i]) && CoordOf(init[i]) == c;
      assert bs[i] == init[i];
    }
  }

  /** Processing succeeds exactly when every CELL block carries both indices,
      and then the key set is exactly the set of their coordinates. */
  lemma {:induction false} CollectKeys(all: seq<Block>, bs: seq<Block>)
    ensures Collect(all, bs).Ok? <==> AllCellsIndexed(bs)
    ensures Collect(all, bs).Ok? ==> Collect(all, bs).value.Keys == CellCoords(bs)
  {
    if bs != [] {
      var init, last := bs[..|bs| - 1], bs[|bs| - 1];
      CollectKeys(all, init);
      CellCoordsSnoc(bs);
      assert forall i :: 0 <= i < |init| ==> init[i] == bs[i];
    }
  }

  /** A failure reports the key missing from the first CELL block that
      lacks an index. */
  lemma {:induction false} CollectError(all: seq<Block>, bs: seq<Block>)
    requires Collect(all, bs).Err?
    ensures exists i :: FirstUnindexed(bs, i) && Collect(all, bs).error == KeyError(MissingKey(bs[i]))
  {
    var init, last := bs[..|bs| - 1], bs[|bs| - 1];
    assert forall i :: 0 <= i < |init| ==> init[i] == bs[i];
    if Collect(all, init).Err? {
      CollectError(all, init);
      var i :| FirstUnindexed(init, i) && Collect(all, init).error == KeyError(MissingKey(init[i]));
      assert FirstUnindexed(bs, i);
    } else {
      CollectKeys(all, init);
      assert FirstUnindexed(bs, |bs| - 1);
    }
  }

  /** Last write wins: the text stored at a coordinate is that of the last
      CELL block carrying it. */
  lemma {:induction false} CollectLastWins(all: seq<Block>, bs: seq<Block>, i: nat)
    requires Collect(all, bs).Ok?
    requires i < |bs| && IsCell(bs[i]) && HasCoord(bs[i])
    requires forall j :: i < j < |bs| && IsCell(bs[j]) && HasCoord(bs[j]) ==> CoordOf(bs[j]) != CoordOf(bs[i])
    ensures CoordOf(bs[i]) in Collect(all, bs).value
    ensures Collect(all, bs).value[CoordOf(bs[i])] == CellText(all, bs[i])
  {
    var init, last := bs[..|bs| - 1], bs[|bs| - 1];
    if i < |init| {
      assert init[i] == bs[i];
      assert forall j :: i < j < |init| ==> init[j] == bs[j];
      CollectLastWins(all, init, i);
    }
  }

  /** `extract_table_data` raises `KeyError` exactly when some CELL block lacks
      an index, naming the key missing from the first such block. */
  lemma ExtractFails(blocks: seq<Block>)
    ensures Extract(blocks).Err? <==> !AllCellsIndexed(blocks)
    ensures Extract(blocks).Err? ==>
      exists i :: FirstUnindexed(blocks, i) && Extract(blocks).error == KeyError(MissingKey(blocks[i]))
  {
    CollectKeys(blocks, blocks);
    if Extract(blocks).Err? {
      CollectError(blocks, blocks);
    }
  }

  /** The keys of the map are exactly the coordinates of the CELL blocks. */
  lemma ExtractKeys(blocks: seq<Block>)
    requires Extract(blocks).Ok?
    ensures Extract(blocks).value.Keys == CellCoords(blocks)
  {
    CollectKeys(blocks, blocks);
  }

  /** The map is empty (the "no tables found" case) exactly when the response
      holds no CELL block. */
  lemma NoTablesIffNoCells(blocks: seq<Block>)
    requires Extract(blocks).Ok?
    ensures Extract(blocks).value == map[] <==> forall i :: 0 <= i < |blocks| ==> !IsCell(blocks[i])
  {
    CollectKeys(blocks, blocks);
    if exists i :: 0 <= i < |blocks| && IsCell(blocks[i]) {
      var i :| 0 <= i < |blocks| && IsCell(blocks[i]);
      assert CoordOf(blocks[i]) in CellCoords(blocks);
    }
  }

  /** When several CELL blocks share a coordinate, the text stored there is
      that of the last of them. */
  lemma ExtractLastWins(blocks: seq<Block>, i: nat)
    requires Extract(blocks).Ok?
    requires i < |blocks| && IsCell(blocks[i]) && HasCoord(blocks[i])
    requires forall j :: i < j < |blocks| && IsCell(blocks[j]) && HasCoord(blocks[j]) ==> CoordOf(blocks[j]) != CoordOf(blocks[i])
    ensures CoordOf(blocks[i]) in Extract(blocks).value
    ensures Extract(blocks).value[CoordOf(blocks[i])] == CellText(blocks, blocks[i])
  {
    CollectLastWins(blocks, blocks, i);
  }
}
