/** The editable region as the editor composable sees it: a flat sequence of
    top-level block elements, positions (live-range boundary points) inside it,
    and the chain of elements met when walking up from a node towards the
    editor root. */
module Dom {
  import opened Wrappers

  /** The block kinds the editor tells apart: paragraph, code block, quotation. */
  datatype Kind = P | Pre | Blockquote

  /** ASCII lower-casing: all that `toLowerCase` changes in an HTML tag name. */
  function LowerChar(c: char): char {
    if 'A' <= c <= 'Z' then (c as int - 'A' as int + 'a' as int) as char else c
  }

  function Lower(s: string): string {
    seq(|s|, i requires 0 <= i < |s| => LowerChar(s[i]))
  }

  /** The lower-case tag by which a block kind is recognised and reported. */
  function TagString(k: Kind): string {
    match k
    case P => "p"
    case Pre => "pre"
    case Blockquote => "blockquote"
  }

  /** The tag name the DOM reports for an HTML element of kind `k`. */
  function TagNameOf(k: Kind): string {
    match k
    case P => "P"
    case Pre => "PRE"
    case Blockquote => "BLOCKQUOTE"
  }

  /** The block kind of an element, its tag name compared case-insensitively;
      None for every other element. */
  function KindOfTag(tagName: string): Option<Kind> {
    var t := Lower(tagName);
    if t == "p" then Some(P)
    else if t == "pre" then Some(Pre)
    else if t == "blockquote" then Some(Blockquote)
    else None
  }

  /** An element has a block kind exactly when its lower-cased tag name is
      that kind's tag. */
  lemma KindOfTagMatchesTag(tagName: string, k: Kind)
    ensures KindOfTag(tagName) == Some(k) <==> Lower(tagName) == TagString(k)
  {
  }

  lemma KindOfTagNameOf(k: Kind)
    ensures KindOfTag(TagNameOf(k)) == Some(k)
  {
    assert Lower(TagNameOf(k)) == TagString(k);
  }

  /** A top-level child of the editor: an element, its tag name as the DOM
      reports it, and the text it holds. */
  datatype Block = Block(tagName: string, text: string)

  predicate IsPre(b: Block) {
    KindOfTag(b.tagName) == Some(Pre)
  }

  predicate IsParagraph(b: Block) {
    KindOfTag(b.tagName) == Some(P)
  }

  /** The paragraph the editor creates: `<p><br></p>`, which holds no text. */
  const EmptyParagraph := Block("P", "")

  /** The paragraph the editor creates is recognised as a paragraph. */
  lemma EmptyParagraphIsParagraph()
    ensures IsParagraph(EmptyParagraph) && !IsPre(EmptyParagraph)
  {
    KindOfTagNameOf(P);
  }

  /** A boundary point: an offset in the text of a top-level block, a child
      index of the editor root itself, or a text node elsewhere on the page,
      given by the page's elements above it, innermost first. */
  datatype Position = InBlock(block: nat, offset: nat) | InRoot(child: nat) | Outside(ancestors: seq<Elem>)

  datatype Range = Range(start: Position, end: Position) {
    predicate Collapsed() {
      start == end
    }
  }

  /** The collapsed range at `p`. */
  function CaretAt(p: Position): Range {
    Range(p, p)
  }

  predicate ValidPosition(blocks: seq<Block>, p: Position) {
    match p
    case InBlock(b, o) => b < |blocks| && o <= |blocks[b].text|
    case InRoot(c) => c <= |blocks|
    case Outside(a) => forall j :: 0 <= j < |a| ==> a[j].Tagged?
  }

  /** The selection, if there is one, lies inside the document or elsewhere
      on the page; a walk up from a point outside never meets the editor. */
  predicate ValidSelection(blocks: seq<Block>, sel: Option<Range>) {
    sel.Some? ==> ValidPosition(blocks, sel.value.start) && ValidPosition(blocks, sel.value.end)
  }

  /** An element on the way up: the editor root, or any other element. */
  datatype Elem = Editor | Tagged(tagName: string)

  /** The node a range boundary sits in. */
  datatype Node = TextNode | ElementNode(elem: Elem)

  /** The elements an upward walk visits from `start`, given the elements above
      it, innermost first: a text node's walk begins at its parent element, an
      element's at the element itself. The walk ends where the sequence ends
      (a null parent). */
  function Walk(start: Node, ancestors: seq<Elem>): seq<Elem> {
    if start.TextNode? then ancestors else [start.elem] + ancestors
  }

  /** The container of a valid position, and its ancestors. */
  function ContainerAt(blocks: seq<Block>, p: Position): (Node, seq<Elem>) {
    match p
    case InBlock(b, _) =>
      if b < |blocks| then (TextNode, [Tagged(blocks[b].tagName), Editor])
      else (ElementNode(Editor), [])
    case InRoot(_) => (ElementNode(Editor), [])
    case Outside(a) => (TextNode, a)
  }

  function WalkAt(blocks: seq<Block>, p: Position): seq<Elem> {
    Walk(ContainerAt(blocks, p).0, ContainerAt(blocks, p).1)
  }
}
