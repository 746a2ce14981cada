/** The two upward walks of the editor: `getParentBlockTag`, which reports the
    first block element (p, pre or blockquote) met below the editor root, and
    `findClosestPre`, which looks only for a pre. */
module Ancestry {
  import opened Wrappers
  import opened Dom

  /** The block kind `getParentBlockTag` reports for the walk `w`. */
  function FirstBlockTag(w: seq<Elem>): (r: Option<Kind>)
    ensures r.Some? ==> exists i :: 0 <= i < |w| && w[i].Tagged? && KindOfTag(w[i].tagName) == r
  {
    if w == [] || w[0].Editor? then None
    else if KindOfTag(w[0].tagName).Some? then KindOfTag(w[0].tagName)
    else FirstBlockTag(w[1..])
  }

  /** The walk gets as far as index `i`: everything before it is an element
      other than the editor root and other than a block element. */
  ghost predicate ReachesBlock(w: seq<Elem>, i: int) {
    0 <= i <= |w| && forall j :: 0 <= j < i ==> w[j].Tagged? && KindOfTag(w[j].tagName).None?
  }

  /** The first block element the walk reaches decides the result, and when
      the walk ends (at the editor root or at a null parent) without reaching
      one the result is None. */
  lemma {:induction false} FirstBlockTagIsFirstMatch(w: seq<Elem>)
    ensures forall i :: ReachesBlock(w, i) && i < |w| && w[i].Tagged? && KindOfTag(w[i].tagName).Some?
              ==> FirstBlockTag(w) == KindOfTag(w[i].tagName)
    ensures FirstBlockTag(w).Some? ==>
              exists i :: ReachesBlock(w, i) && i < |w| && w[i].Tagged? && KindOfTag(w[i].tagName) == FirstBlockTag(w)
  {
    if w == [] || w[0].Editor? {
    } else if KindOfTag(w[0].tagName).Some? {
      assert ReachesBlock(w, 0);
    } else {
      FirstBlockTagIsFirstMatch(w[1..]);
      forall i | ReachesBlock(w, i) && i < |w| && w[i].Tagged? && KindOfTag(w[i].tagName).Some?
        ensures FirstBlockTag(w) == KindOfTag(w[i].tagName)
      {
        assert i != 0;
        assert ReachesBlock(w[1..], i - 1) && w[1..][i - 1] == w[i];
      }
      if FirstBlockTag(w).Some? {
        var i :| ReachesBlock(w[1..], i) && i < |w[1..]| && w[1..][i].Tagged?
                 && KindOfTag(w[1..][i].tagName) == FirstBlockTag(w[1..]);
        assert ReachesBlock(w, i + 1);
      }
    }
  }

  /** `getParentBlockTag`: walks up from a node, starting at the parent of a
      text node, until the editor root or a null parent, and returns the kind
      of the first p, pre or blockquote on the way. */
  method GetParentBlockTag(start: Node, ancestors: seq<Elem>) returns (tag: Option<Kind>)
    ensures tag == FirstBlockTag(Walk(start, ancestors))
  {
    var w := Walk(start, ancestors);
    var i := 0;
    while i < |w| && !w[i].Editor?
      invariant 0 <= i <= |w|
      invariant FirstBlockTag(w[i..]) == FirstBlockTag(w)
    {
      var k := KindOfTag(w[i].tagName);
      if k.Some? {
        return k;
      }
      assert w[i..][1..] == w[i + 1..];
      i := i + 1;
    }
    return None;
  }

  /** The index in the walk `w` of the pre `findClosestPre` returns. */
  function ClosestPre(w: seq<Elem>): (r: Option<nat>)
    ensures r.Some? ==> r.value < |w| && w[r.value].Tagged? && Lower(w[r.value].tagName) == "pre"
  {
    if w == [] || w[0].Editor? then None
    else if Lower(w[0].tagName) == "pre" then Some(0)
    else match ClosestPre(w[1..])
      case None => None
      case Some(i) => Some(i + 1)
  }

  /** The walk gets as far as index `i` looking for a pre: everything before
      it is an element other than the editor root and other than a pre. */
  ghost predicate ReachesPre(w: seq<Elem>, i: int) {
    0 <= i <= |w| && forall j :: 0 <= j < i ==> w[j].Tagged? && Lower(w[j].tagName) != "pre"
  }

  /** `findClosestPre` returns the first pre the walk reaches, passing over
      paragraphs and quotations, and nothing when the walk ends first. */
  lemma {:induction false} ClosestPreIsFirstPre(w: seq<Elem>)
    ensures ClosestPre(w).Some? ==>
              var i := ClosestPre(w).value;
              ReachesPre(w, i) && i < |w| && w[i].Tagged? && Lower(w[i].tagName) == "pre"
    ensures forall i :: ReachesPre(w, i) && i < |w| && w[i].Tagged? && Lower(w[i].tagName) == "pre"
              ==> ClosestPre(w) == Some(i)
  {
    if w == [] || w[0].Editor? {
    } else if Lower(w[0].tagName) == "pre" {
      assert ReachesPre(w, 0);
    } else {
      ClosestPreIsFirstPre(w[1..]);
      if ClosestPre(w).Some? {
        var i := ClosestPre(w[1..]).value;
        assert ReachesPre(w, i + 1);
      }
      forall i | ReachesPre(w, i) && i < |w| && w[i].Tagged? && Lower(w[i].tagName) == "pre"
        ensures ClosestPre(w) == Some(i)
      {
        assert i != 0;
        assert ReachesPre(w[1..], i - 1) && w[1..][i - 1] == w[i];
      }
    }
  }

  /** `findClosestPre`: walks up from a node, starting at the parent of a text
      node, until the editor root or a null parent, and returns the first pre. */
  method FindClosestPre(start: Node, ancestors: seq<Elem>) returns (pre: Option<nat>)
    ensures pre == ClosestPre(Walk(start, ancestors))
  {
    var w := Walk(start, ancestors);
    var i := 0;
    while i < |w| && !w[i].Editor?
      invariant 0 <= i <= |w|
      invariant ClosestPre(w) == match ClosestPre(w[i..]) case None => None case Some(j) => Some(i + j)
    {
      if Lower(w[i].tagName) == "pre" {
        return Some(i);
      }
      assert w[i..][1..] == w[i + 1..];
      i := i + 1;
    }
    return None;
  }

  /** Where `getParentBlockTag` reports a pre, `findClosestPre` finds that
      same element: the first block element of the walk. */
  lemma PreBlockIsClosestPre(w: seq<Elem>)
    ensures FirstBlockTag(w) == Some(Pre) ==>
              ClosestPre(w).Some? && ReachesBlock(w, ClosestPre(w).value)
  {
    if FirstBlockTag(w) == Some(Pre) {
      FirstBlockTagIsFirstMatch(w);
      ClosestPreIsFirstPre(w);
      var i :| ReachesBlock(w, i) && i < |w| && w[i].Tagged? && KindOfTag(w[i].tagName) == Some(Pre);
      forall j | 0 <= j < i
        ensures w[j].Tagged? && Lower(w[j].tagName) != "pre"
      {
        assert KindOfTag(w[j].tagName).None?;
      }
      assert ReachesPre(w, i);
      assert ClosestPre(w) == Some(i);
    }
  }

  /** The converse fails: a paragraph nested in a pre is reported as `p` by
      `getParentBlockTag`, yet `findClosestPre` walks past it to the pre. */
  lemma ClosestPreLooksPastParagraph()
    ensures var w := [Tagged("P"), Tagged("PRE"), Editor];
            FirstBlockTag(w) == Some(P) && ClosestPre(w) == Some(1)
  {
    var w := [Tagged("P"), Tagged("PRE"), Editor];
    assert Lower("P") == "p";
    assert Lower("PRE") == "pre";
    assert w[1..] == [Tagged("PRE"), Editor];
  }

  /** In a flat document both walks see only the caret's own block: the
      block kind reported is that block's, a pre is found exactly when that
      block is a pre, and a position on the editor root yields neither. From
      a point outside the editor the walks go over the page's elements. */
  lemma FlatWalks(blocks: seq<Block>, p: Position)
    requires p.InBlock? ==> p.block < |blocks|
    ensures p.InBlock? ==>
              FirstBlockTag(WalkAt(blocks, p)) == KindOfTag(blocks[p.block].tagName) &&
              ClosestPre(WalkAt(blocks, p)) == if IsPre(blocks[p.block]) then Some(0) else None
    ensures p.InRoot? ==> FirstBlockTag(WalkAt(blocks, p)) == None && ClosestPre(WalkAt(blocks, p)) == None
    ensures p.Outside? ==> WalkAt(blocks, p) == p.ancestors
  {
    if p.InBlock? {
      var w := WalkAt(blocks, p);
      assert w[1..] == [Editor];
      var t := Lower(blocks[p.block].tagName);
      assert t == "pre" <==> KindOfTag(blocks[p.block].tagName) == Some(Pre);
    }
  }

  /** A walk that meets no block element reports none: from a point on the
      page under no p, pre or blockquote, `getParentBlockTag` gives null. */
  lemma NoBlockElementNoTag(w: seq<Elem>)
    requires forall j :: 0 <= j < |w| ==> w[j].Tagged? && KindOfTag(w[j].tagName).None?
    ensures FirstBlockTag(w) == None
  {
    FirstBlockTagIsFirstMatch(w);
  }
}
