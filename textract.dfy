/** The records the document-analysis service returns, and the lookup of a
    block by its id. */
module Textract {
  import opened Wrappers

  /** A typed link from one block to the ids of others (`Type`, `Ids`). */
  datatype Relationship = Relationship(relType: string, ids: seq<string>)

  /** One record of the flat block list. The optional fields are the keys a
      record may lack: `RowIndex`/`ColumnIndex` (cells), `Text` (words) and
      `Relationships`. */
  datatype Block = Block(
    blockType: string,
    id: string,
    rowIndex: Option<int>,
    columnIndex: Option<int>,
    text: Option<string>,
    relationships: Option<seq<Relationship>>)

  predicate IsCell(b: Block) { b.blockType == "CELL" }

  predicate IsWord(b: Block) { b.blockType == "WORD" }

  predicate IsChild(rel: Relationship) { rel.relType == "CHILD" }

  /** The position of the first block whose id is `id`, if any. */
  function FirstIndex(blocks: seq<Block>, id: string): (r: Option<nat>)
    ensures r.None? <==> forall j :: 0 <= j < |blocks| ==> blocks[j].id != id
    ensures r.Some? ==> r.value < |blocks| && blocks[r.value].id == id
    ensures r.Some? ==> forall j :: 0 <= j < r.value ==> blocks[j].id != id
  {
    if blocks == [] then None
    else if blocks[0].id == id then Some(0)
    else
      match FirstIndex(blocks[1..], id)
      case None => None
      case Some(i) => Some(i + 1)
  }

  /** `b` is in the list, and no block before it carries `id`. */
  ghost predicate IsFirstWithId(blocks: seq<Block>, id: string, b: Block)
  {
    exists i :: 0 <= i < |blocks| && b == blocks[i] && forall j :: 0 <= j < i ==> blocks[j].id != id
  }

  /** The block an id refers to: the first one in the list carrying it. */
  function Resolve(blocks: seq<Block>, id: string): (r: Option<Block>)
    ensures r.None? <==> forall j :: 0 <= j < |blocks| ==> blocks[j].id != id
    ensures r.Some? ==> r.value.id == id
    ensures r.Some? ==> IsFirstWithId(blocks, id, r.value)
  {
    match FirstIndex(blocks, id)
    case None => None
    case Some(i) => Some(blocks[i])
  }

  /** Linear search for the first block with the given id (the generator
      expression passed to `next` with default `None`). */
  method FindBlock(blocks: seq<Block>, id: string) returns (r: Option<Block>)
    ensures r == Resolve(blocks, id)
  {
    var i := 0;
    while i < |blocks|
      invariant 0 <= i <= |blocks|
      invariant forall j :: 0 <= j < i ==> blocks[j].id != id
    {
      if blocks[i].id == id {
        return Some(blocks[i]);
      }
      i := i + 1;
    }
    return None;
  }
}
