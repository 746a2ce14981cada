/** The code-block boundary rules on the flat block sequence: where the last
    pre is, inserting a block after another, the trailing-paragraph guarantee
    of an outside click, and the caret-at-end-of-pre test of the Enter rule. */
module Boundary {
  import opened Wrappers
  import opened Dom

  /** The last pre in document order (`querySelectorAll("pre")`, last item). */
  function LastPre(blocks: seq<Block>): (r: Option<nat>)
    ensures r.Some? ==> r.value < |blocks| && IsPre(blocks[r.value])
    ensures r.Some? ==> forall j :: r.value < j < |blocks| ==> !IsPre(blocks[j])
    ensures r.None? ==> forall j :: 0 <= j < |blocks| ==> !IsPre(blocks[j])
  {
    if blocks == [] then None
    else if IsPre(blocks[|blocks| - 1]) then Some(|blocks| - 1)
    else LastPre(blocks[..|blocks| - 1])
  }

  /** `insertAdjacentElement("afterend", ...)` on the block at index `i`. */
  function InsertAfter(blocks: seq<Block>, i: nat, b: Block): (r: seq<Block>)
    requires i < |blocks|
    ensures |r| == |blocks| + 1 && r[i + 1] == b
    ensures forall j :: 0 <= j <= i ==> r[j] == blocks[j]
    ensures forall j :: i < j < |blocks| ==> r[j + 1] == blocks[j]
  {
    blocks[..i + 1] + [b] + blocks[i + 1..]
  }

  /** The block after index `i` is missing or is not a paragraph
      (`nextElementSibling` absent or not a `p`). */
  predicate NeedsParagraphAfter(blocks: seq<Block>, i: nat)
    requires i < |blocks|
  {
    i + 1 == |blocks| || !IsParagraph(blocks[i + 1])
  }

  /** The outside-click rule adds a paragraph: there is a pre, and the last
      one is not already followed by a paragraph. */
  predicate AddsTrailingParagraph(blocks: seq<Block>) {
    LastPre(blocks).Some? && NeedsParagraphAfter(blocks, LastPre(blocks).value)
  }

  /** The document after the outside-click rule: an empty paragraph after the
      last pre when that pre is not already followed by a paragraph. */
  function EnsureTrailingParagraph(blocks: seq<Block>): (r: seq<Block>)
    ensures |r| == if AddsTrailingParagraph(blocks) then |blocks| + 1 else |blocks|
  {
    if AddsTrailingParagraph(blocks) then InsertAfter(blocks, LastPre(blocks).value, EmptyParagraph)
    else blocks
  }

  /** Afterwards the last pre is still the same block and a paragraph follows
      it; at most one block, an empty paragraph, is added, and a document with
      no pre is unchanged. */
  lemma {:induction false} TrailingParagraphGuaranteed(blocks: seq<Block>)
    ensures var r := EnsureTrailingParagraph(blocks);
            LastPre(r) == LastPre(blocks) &&
            (LastPre(blocks).Some? ==>
               var i := LastPre(blocks).value;
               i + 1 < |r| && IsParagraph(r[i + 1]) && r[..i + 1] == blocks[..i + 1] &&
               (r == blocks || r == InsertAfter(blocks, i, EmptyParagraph))) &&
            (LastPre(blocks).None? ==> r == blocks)
  {
    if AddsTrailingParagraph(blocks) {
      var i := LastPre(blocks).value;
      var r := InsertAfter(blocks, i, EmptyParagraph);
      EmptyParagraphIsParagraph();
      LastPreAfterInsert(blocks, i, EmptyParagraph);
      assert r[..i + 1] == blocks[..i + 1];
    }
  }

  /** Inserting a non-pre block after the last pre leaves that pre last. */
  lemma LastPreAfterInsert(blocks: seq<Block>, i: nat, b: Block)
    requires LastPre(blocks) == Some(i) && !IsPre(b)
    ensures LastPre(InsertAfter(blocks, i, b)) == Some(i)
  {
    var r := InsertAfter(blocks, i, b);
    forall j | i < j < |r|
      ensures !IsPre(r[j])
    {
      if j > i + 1 {
        assert r[j] == blocks[j - 1];
      }
    }
    LastPreIsUnique(r, i);
  }

  /** The last pre is the pre after which no pre follows. */
  lemma LastPreIsUnique(blocks: seq<Block>, i: nat)
    requires i < |blocks| && IsPre(blocks[i])
    requires forall j :: i < j < |blocks| ==> !IsPre(blocks[j])
    ensures LastPre(blocks) == Some(i)
  {
  }

  /** A second outside click changes nothing. */
  lemma TrailingParagraphIdempotent(blocks: seq<Block>)
    ensures EnsureTrailingParagraph(EnsureTrailingParagraph(blocks)) == EnsureTrailingParagraph(blocks)
  {
    TrailingParagraphGuaranteed(blocks);
  }

  /** A live-range boundary point after an element is inserted at child index
      `at` of the editor: points inside moved blocks follow them, and child
      offsets of the editor beyond `at` grow by one; points outside the
      editor stay. */
  function ShiftPosition(p: Position, at: nat): Position {
    match p
    case InBlock(b, o) => if b >= at then InBlock(b + 1, o) else p
    case InRoot(c) => if c > at then InRoot(c + 1) else p
    case Outside(_) => p
  }

  function ShiftSelection(sel: Option<Range>, at: nat): Option<Range> {
    match sel
    case None => None
    case Some(r) => Some(Range(ShiftPosition(r.start, at), ShiftPosition(r.end, at)))
  }

  /** The selection after the outside-click rule: it follows the blocks that
      move when a paragraph is added. */
  function SelectionAfterTrailingParagraph(blocks: seq<Block>, sel: Option<Range>): Option<Range> {
    if AddsTrailingParagraph(blocks) then ShiftSelection(sel, LastPre(blocks).value + 1) else sel
  }

  /** A position inside a block still points into the same block, at the same
      offset, after a block is inserted after index `i`, and a valid position
      stays valid. */
  lemma ShiftKeepsPlace(blocks: seq<Block>, i: nat, b: Block, p: Position)
    requires i < |blocks| && ValidPosition(blocks, p)
    ensures var r := InsertAfter(blocks, i, b);
            var q := ShiftPosition(p, i + 1);
            ValidPosition(r, q) &&
            (p.InBlock? ==> q.InBlock? && r[q.block] == blocks[p.block] && q.offset == p.offset)
  {
  }

  lemma ShiftSelectionValid(blocks: seq<Block>, i: nat, b: Block, sel: Option<Range>)
    requires i < |blocks| && ValidSelection(blocks, sel)
    ensures ValidSelection(InsertAfter(blocks, i, b), ShiftSelection(sel, i + 1))
  {
    if sel.Some? {
      ShiftKeepsPlace(blocks, i, b, sel.value.start);
      ShiftKeepsPlace(blocks, i, b, sel.value.end);
    }
  }

  /** The text content of a run of blocks. */
  function Texts(blocks: seq<Block>): string {
    if blocks == [] then "" else blocks[0].text + Texts(blocks[1..])
  }

  /** What `toString` gives for the range from boundary `p` in the editor to
      just after the block at index `pre`, or None where `setStart` throws
      because the offset lies beyond its container. A range whose end falls
      before its start collapses, and its text is empty. */
  function TextToEndOf(blocks: seq<Block>, p: Position, pre: nat): (r: Option<string>)
    requires pre < |blocks| && !p.Outside?
    ensures r.None? <==> !ValidPosition(blocks, p)
    ensures p.InBlock? && p.block > pre && r.Some? ==> r.value == ""
  {
    match p
    case InBlock(b, o) =>
      if b >= |blocks| || o > |blocks[b].text| then None
      else if b <= pre then Some(blocks[b].text[o..] + Texts(blocks[b + 1..pre + 1]))
      else Some("")
    case InRoot(c) =>
      if c > |blocks| then None
      else if c <= pre then Some(Texts(blocks[c..pre + 1]))
      else Some("")
  }

  /** `isCaretAtEndOfPre`: the range is collapsed and no text lies between its
      end and the end of the pre; a range that cannot be built counts as not
      at the end. */
  predicate CaretAtEndOfPre(blocks: seq<Block>, pre: nat, range: Range)
    requires pre < |blocks| && !range.end.Outside?
    ensures CaretAtEndOfPre(blocks, pre, range) ==> range.Collapsed() && ValidPosition(blocks, range.end)
  {
    range.Collapsed() && TextToEndOf(blocks, range.end, pre) == Some("")
  }

  /** For a caret inside the pre itself, being at the end means being at the
      last offset of its text. */
  lemma CaretAtEndOfPreInBlock(blocks: seq<Block>, pre: nat, o: nat)
    requires pre < |blocks| && o <= |blocks[pre].text|
    ensures CaretAtEndOfPre(blocks, pre, CaretAt(InBlock(pre, o))) <==> o == |blocks[pre].text|
  {
    assert blocks[pre + 1..pre + 1] == [];
    assert blocks[pre].text[o..] + Texts([]) == blocks[pre].text[o..];
  }
}
