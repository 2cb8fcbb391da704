/** The text of one table cell: the texts of the WORD blocks its CHILD
    relationships point to, each followed by a space, then stripped. */
module CellContent {
  import opened Wrappers
  import opened Strings
  import opened Textract

  /** What one child id adds to a cell: the text of the block it refers to
      when that block is a WORD (`""` when the word has no text); nothing when
      the id resolves to no block or to a block of another type. */
  function ChildWord(blocks: seq<Block>, childId: string): seq<string>
  {
    match Resolve(blocks, childId)
    case Some(b) => if IsWord(b) then [b.text.GetOr("")] else []
    case None => []
  }

  /** The words a list of child ids contributes, in list order. */
  function IdWords(blocks: seq<Block>, ids: seq<string>): seq<string>
  {
    if ids == [] then [] else IdWords(blocks, ids[..|ids| - 1]) + ChildWord(blocks, ids[|ids| - 1])
  }

  /** The words one relationship contributes: only CHILD links are followed. */
  function RelWords(blocks: seq<Block>, rel: Relationship): seq<string>
  {
    if IsChild(rel) then IdWords(blocks, rel.ids) else []
  }

  /** The words of a cell, relationship by relationship in list order. */
  function CellWords(blocks: seq<Block>, rels: seq<Relationship>): seq<string>
  {
    if rels == [] then [] else CellWords(blocks, rels[..|rels| - 1]) + RelWords(blocks, rels[|rels| - 1])
  }

  /** Each word followed by one space, all concatenated. */
  function Spaced(words: seq<string>): string
  {
    if words == [] then "" else Spaced(words[..|words| - 1]) + words[|words| - 1] + " "
  }

  /** A block without the `Relationships` key has no links to follow. */
  function RelationshipsOf(cell: Block): seq<Relationship>
  {
    cell.relationships.GetOr([])
  }

  /** The text recorded for a cell. */
  function CellText(blocks: seq<Block>, cell: Block): string
  {
    Strip(Spaced(CellWords(blocks, RelationshipsOf(cell))))
  }

  lemma SpacedSnoc(words: seq<string>, w: string)
    ensures Spaced(words + [w]) == Spaced(words) + w + " "
  {
    assert (words + [w])[..|words|] == words;
  }

  /** Spacing distributes over concatenation of word lists. */
  lemma {:induction false} SpacedAppend(a: seq<string>, b: seq<string>)
    ensures Spaced(a + b) == Spaced(a) + Spaced(b)
  {
    if b == [] {
      assert a + b == a;
    } else {
      var init, last := b[..|b| - 1], b[|b| - 1];
      assert a + b == (a + init) + [last];
      SpacedAppend(a, init);
      SpacedSnoc(a + init, last);
    }
  }

  lemma IdWordsStep(blocks: seq<Block>, ids: seq<string>, j: nat)
    requires j < |ids|
    ensures IdWords(blocks, ids[..j + 1]) == IdWords(blocks, ids[..j]) + ChildWord(blocks, ids[j])
  {
    assert ids[..j + 1][..j] == ids[..j];
  }

  lemma CellWordsStep(blocks: seq<Block>, rels: seq<Relationship>, i: nat)
    requires i < |rels|
    ensures CellWords(blocks, rels[..i + 1]) == CellWords(blocks, rels[..i]) + RelWords(blocks, rels[i])
  {
    assert rels[..i + 1][..i] == rels[..i];
  }

  /** One step of the innermost loop extends the accumulated text by exactly
      what the child id contributes. */
  lemma AccumulateStep(blocks: seq<Block>, ids: seq<string>, j: nat, acc: string, r: string, child: Option<Block>)
    requires j < |ids| && child == Resolve(blocks, ids[j])
    requires r == acc + Spaced(IdWords(blocks, ids[..j]))
    ensures (if child.Some? && IsWord(child.value) then r + child.value.text.GetOr("") + " " else r)
         == acc + Spaced(IdWords(blocks, ids[..j + 1]))
  {
    IdWordsStep(blocks, ids, j);
    var before := IdWords(blocks, ids[..j]);
    if child.Some? && IsWord(child.value) {
      var w := child.value.text.GetOr("");
      assert ChildWord(blocks, ids[j]) == [w];
      SpacedSnoc(before, w);
      SeqAssoc(acc, Spaced(before), w);
    } else {
      assert ChildWord(blocks, ids[j]) == [];
      assert before + [] == before;
    }
  }

  /** One step of the loop over relationships: a CHILD relationship appends
      its spaced words to the text so far, any other leaves it unchanged. */
  lemma RelationshipStep(blocks: seq<Block>, rels: seq<Relationship>, i: nat, acc: string)
    requires i < |rels| && acc == Spaced(CellWords(blocks, rels[..i]))
    ensures (if IsChild(rels[i]) then acc + Spaced(IdWords(blocks, rels[i].ids)) else acc)
         == Spaced(CellWords(blocks, rels[..i + 1]))
  {
    CellWordsStep(blocks, rels, i);
    var before := CellWords(blocks, rels[..i]);
    if IsChild(rels[i]) {
      SpacedAppend(before, IdWords(blocks, rels[i].ids));
    } else {
      assert before + [] == before;
    }
  }

  lemma SeqAssoc(a: string, b: string, w: string)
    ensures a + (b + w + " ") == a + b + w + " "
  {
  }

  /** The innermost loop: for each child id that resolves to a WORD block,
      the word's text and one space are appended. */
  method AppendChildWords(blocks: seq<Block>, ids: seq<string>, acc: string) returns (r: string)
    ensures r == acc + Spaced(IdWords(blocks, ids))
  {
    r := acc;
    var j := 0;
    while j < |ids|
      invariant 0 <= j <= |ids|
      invariant r == acc + Spaced(IdWords(blocks, ids[..j]))
    {
      var child := FindBlock(blocks, ids[j]);
      AccumulateStep(blocks, ids, j, acc, r, child);
      if child.Some? && IsWord(child.value) {
        r := r + child.value.text.GetOr("") + " ";
      }
      j := j + 1;
    }
    assert ids[..j] == ids;
  }

  /** The per-cell text of `extract_table_data`: the loops over the
      relationships and their ids, then `strip()`. */
  method ComputeCellText(blocks: seq<Block>, cell: Block) returns (text: string)
    ensures text == CellText(blocks, cell)
  {
    var acc := "";
    if cell.relationships.Some? {
      var rels := cell.relationships.value;
      var i := 0;
      while i < |rels|
        invariant 0 <= i <= |rels|
        invariant acc == Spaced(CellWords(blocks, rels[..i]))
      {
        var rel := rels[i];
        RelationshipStep(blocks, rels, i, acc);
        if IsChild(rel) {
          acc := AppendChildWords(blocks, rel.ids, acc);
        }
        i := i + 1;
      }
      assert rels[..i] == rels;
    }
    text := Strip(acc);
  }

  /** A child id that matches a block resolves to the FIRST block carrying
      it: that block's text if it is a WORD (`""` when it has no text),
      nothing otherwise. */
  lemma ChildWordOfFirstMatch(blocks: seq<Block>, childId: string, i: nat)
    requires i < |blocks| && blocks[i].id == childId
    requires forall j :: 0 <= j < i ==> blocks[j].id != childId
    ensures ChildWord(blocks, childId)
         == if IsWord(blocks[i]) then [if blocks[i].text.Some? then blocks[i].text.value else ""] else []
  {
    assert FirstIndex(blocks, childId) == Some(i);
  }

  /** A child id that matches no block adds nothing. */
  lemma UnresolvedChildSkipped(blocks: seq<Block>, childId: string)
    requires forall j :: 0 <= j < |blocks| ==> blocks[j].id != childId
    ensures ChildWord(blocks, childId) == []
  {
  }

  /** The words of a relationship list are the words of its parts, in order. */
  lemma {:induction false} CellWordsAppend(blocks: seq<Block>, a: seq<Relationship>, b: seq<Relationship>)
    ensures CellWords(blocks, a + b) == CellWords(blocks, a) + CellWords(blocks, b)
  {
    if b == [] {
      assert a + b == a;
    } else {
      var init, last := b[..|b| - 1], b[|b| - 1];
      assert (a + b)[..|a + b| - 1] == a + init && (a + b)[|a + b| - 1] == last;
      assert CellWords(blocks, a + b) == CellWords(blocks, a + init) + RelWords(blocks, last);
      assert CellWords(blocks, b) == CellWords(blocks, init) + RelWords(blocks, last);
      CellWordsAppend(blocks, a, init);
    }
  }

  /** Relationships of any type other than CHILD are not followed: removing
      one from anywhere in the list leaves the cell's words unchanged. */
  lemma NonChildIgnored(blocks: seq<Block>, a: seq<Relationship>, rel: Relationship, b: seq<Relationship>)
    requires !IsChild(rel)
    ensures CellWords(blocks, a + [rel] + b) == CellWords(blocks, a + b)
  {
    CellWordsAppend(blocks, a, [rel]);
    assert CellWords(blocks, [rel]) == [] by { assert [rel][..0] == []; }
    assert CellWords(blocks, a + [rel]) == CellWords(blocks, a);
    CellWordsAppend(blocks, a + [rel], b);
    CellWordsAppend(blocks, a, b);
  }

  /** A cell without a `Relationships` key has no words, and a cell without
      words has the empty text. */
  lemma NoWordsEmptyText(blocks: seq<Block>, cell: Block)
    ensures cell.relationships.None? ==> CellWords(blocks, RelationshipsOf(cell)) == []
    ensures CellWords(blocks, RelationshipsOf(cell)) == [] ==> CellText(blocks, cell) == ""
  {
    if CellWords(blocks, RelationshipsOf(cell)) == [] {
      StripIsTheTrim("", 0, 0);
    }
  }

  /** Python's `" ".join(words)`. */
  function Join(words: seq<string>): string
  {
    if words == [] then ""
    else if |words| == 1 then words[0]
    else Join(words[..|words| - 1]) + " " + words[|words| - 1]
  }

  /** A word that has text and no whitespace at either end. */
  predicate Clean(w: string)
  {
    w != [] && !IsSpace(w[0]) && !IsSpace(w[|w| - 1])
  }

  lemma {:induction false} SpacedIsJoin(words: seq<string>)
    requires words != []
    ensures Spaced(words) == Join(words) + " "
  {
    var init, last := words[..|words| - 1], words[|words| - 1];
    if init != [] {
      SpacedIsJoin(init);
    }
  }

  lemma {:induction false} JoinClean(words: seq<string>)
    requires words != [] && forall k :: 0 <= k < |words| ==> Clean(words[k])
    ensures Clean(Join(words))
  {
    if |words| > 1 {
      var init := words[..|words| - 1];
      JoinClean(init);
      var j := Join(init) + " " + words[|words| - 1];
      assert j[0] == Join(init)[0];
    }
  }

  /** When every word has text and no whitespace at its ends, the cell text is
      the words joined by single spaces; in general it is not (see
      `EmptyWordIsNotJoined`). */
  lemma CellTextIsJoin(blocks: seq<Block>, cell: Block)
    requires forall w :: w in CellWords(blocks, RelationshipsOf(cell)) ==> Clean(w)
    ensures CellText(blocks, cell) == Join(CellWords(blocks, RelationshipsOf(cell)))
  {
    var words := CellWords(blocks, RelationshipsOf(cell));
    if words == [] {
      NoWordsEmptyText(blocks, cell);
    } else {
      SpacedIsJoin(words);
      JoinClean(words);
      StripTrailingSpace(Join(words));
    }
  }

  /** An empty word still contributes its trailing space, which strip()
      removes: the words "" and `w` give `w`, where joining gives `" " + w`. */
  lemma EmptyWordIsNotJoined(w: string)
    requires Clean(w)
    ensures Strip(Spaced(["", w])) == w
    ensures Join(["", w]) == " " + w
  {
    var words := ["", w];
    SpacedSnoc([], "");
    SpacedSnoc([""], w);
    assert [] + [""] == [""] && [""] + [w] == words;
    var s := Spaced(words);
    assert s == " " + w + " ";
    assert IsTrim(s, 1, 1 + |w|) by {
      assert forall i :: 1 <= i < 1 + |w| ==> s[i] == w[i - 1];
    }
    StripIsTheTrim(s, 1, 1 + |w|);
    assert s[1..1 + |w|] == w;
  }

  lemma TwoChildWords(blocks: seq<Block>, rel: Relationship)
    requires IsChild(rel) && |rel.ids| == 2
    ensures CellWords(blocks, [rel]) == ChildWord(blocks, rel.ids[0]) + ChildWord(blocks, rel.ids[1])
  {
    assert CellWords(blocks, [rel]) == IdWords(blocks, rel.ids) by { assert [rel][..0] == []; }
    var ids := rel.ids;
    assert IdWords(blocks, ids[..1]) == ChildWord(blocks, ids[0]) by {
      assert ids[..1][..0] == [] && ids[..1][0] == ids[0];
    }
    assert ids[..|ids| - 1] == ids[..1];
  }

  /** A cell whose one CHILD relationship lists two ids, resolving to WORD
      blocks with texts `p` and `q` (say "Hello" and "World"), reads
      `p + " " + q` (say "Hello World"). */
  lemma TwoWordCell(blocks: seq<Block>, cell: Block, i: nat, k: nat, p: string, q: string)
    requires i < |blocks| && k < |blocks| && IsWord(blocks[i]) && IsWord(blocks[k])
    requires blocks[i].text == Some(p) && blocks[k].text == Some(q) && Clean(p) && Clean(q)
    requires forall j :: 0 <= j < i ==> blocks[j].id != blocks[i].id
    requires forall j :: 0 <= j < k ==> blocks[j].id != blocks[k].id
    requires cell.relationships == Some([Relationship("CHILD", [blocks[i].id, blocks[k].id])])
    ensures CellText(blocks, cell) == p + " " + q
  {
    var rel := Relationship("CHILD", [blocks[i].id, blocks[k].id]);
    ChildWordOfFirstMatch(blocks, blocks[i].id, i);
    ChildWordOfFirstMatch(blocks, blocks[k].id, k);
    TwoChildWords(blocks, rel);
    var words := CellWords(blocks, RelationshipsOf(cell));
    assert words == [p, q];
    CellTextIsJoin(blocks, cell);
    assert Join(words) == p + " " + q by { assert words[..1] == [p]; }
  }
}
