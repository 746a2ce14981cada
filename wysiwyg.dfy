/** The editor composable: the toolbar flags, the current block kind, the
    commands, the code-block boundary handlers and the two-way value sync,
    over a flat document. The browser's editing primitives are parameters:
    `queryCommandState` is a `query` function, `prompt` an `answer`, the
    document an inline `execCommand` leaves behind a `Snapshot`, and the
    `innerHTML` getter and setter the editor's `serialize` and `parse`. */
module Wysiwyg {
  import opened Wrappers
  import opened Dom
  import opened Ancestry
  import opened LinkUrl
  import opened Boundary

  /** The toolbar flags (`activeStates`). */
  datatype ActiveStates = ActiveStates(
    bold: bool, italic: bool, underline: bool, strikethrough: bool, link: bool,
    unorderedList: bool, orderedList: bool, blockquote: bool, code: bool)

  const AllOff := ActiveStates(false, false, false, false, false, false, false, false, false)

  /** A call the editor makes into the browser. */
  datatype HostCall = Prompt(message: string, default: string) | ExecCommand(name: string, value: Option<string>)

  const LinkPrompt := Prompt("Enter the link URL", "https://")

  datatype KeyEvent = KeyEvent(key: string, shiftKey: bool)

  /** The document and selection the browser leaves after an inline command. */
  datatype Snapshot = Snapshot(blocks: seq<Block>, selection: Option<Range>)

  /** `updateActiveStates`: the seven inline flags are what the browser
      reports, whether or not the editor is bound; the two block flags follow
      the block at the start of the selection, and keep their values when
      there is no editor or no selection. */
  function Recomputed(prev: ActiveStates, attached: bool, blocks: seq<Block>, sel: Option<Range>,
                      query: string -> bool): (r: ActiveStates)
    ensures attached && sel.Some? ==> !(r.blockquote && r.code)
    ensures !attached || sel.None? ==> r.blockquote == prev.blockquote && r.code == prev.code
  {
    var inline := prev.(bold := query("bold"), italic := query("italic"),
                        underline := query("underline"), strikethrough := query("strikeThrough"),
                        link := query("createLink"), unorderedList := query("insertUnorderedList"),
                        orderedList := query("insertOrderedList"));
    if !attached || sel.None? then inline
    else
      var tag := FirstBlockTag(WalkAt(blocks, sel.value.start));
      inline.(blockquote := tag == Some(Blockquote), code := tag == Some(Pre))
  }

  /** With a bound editor and a selection, the block flags say whether the
      caret's block is a quotation or a code block, so they are never both
      set (a caret on the editor root itself sets neither); a selection
      outside the editor takes them from the page's elements above it;
      without an editor or a selection they are left as they were. */
  lemma RecomputedBlockFlags(prev: ActiveStates, attached: bool, blocks: seq<Block>, sel: Option<Range>,
                             query: string -> bool)
    requires ValidSelection(blocks, sel)
    ensures var r := Recomputed(prev, attached, blocks, sel, query);
            (attached && sel.Some? && sel.value.start.InBlock? ==>
               var b := blocks[sel.value.start.block];
               (r.blockquote <==> KindOfTag(b.tagName) == Some(Blockquote)) && (r.code <==> IsPre(b))) &&
            (attached && sel.Some? && sel.value.start.InRoot? ==> !r.blockquote && !r.code) &&
            (attached && sel.Some? && sel.value.start.Outside? ==>
               var tag := FirstBlockTag(sel.value.start.ancestors);
               (r.blockquote <==> tag == Some(Blockquote)) && (r.code <==> tag == Some(Pre))) &&
            (attached && sel.Some? ==> !(r.blockquote && r.code)) &&
            (!attached || sel.None? ==> r.blockquote == prev.blockquote && r.code == prev.code)
  {
    if sel.Some? {
      FlatWalks(blocks, sel.value.start);
    }
  }

  /** Recomputing twice with nothing changed in between gives the same flags. */
  lemma RecomputeIdempotent(prev: ActiveStates, attached: bool, blocks: seq<Block>, sel: Option<Range>,
                            query: string -> bool)
    ensures var once := Recomputed(prev, attached, blocks, sel, query);
            Recomputed(once, attached, blocks, sel, query) == once
  {
  }

  /** The calls into the browser `exec(command)` makes, and whether it goes
      on to edit the document: a link needs a non-collapsed selection before
      the prompt is shown, and a non-empty answer before anything is edited. */
  function ExecCalls(command: string, sel: Option<Range>, answer: Option<string>): (r: (seq<HostCall>, bool))
    ensures r.1 ==> |r.0| > 0 && r.0[|r.0| - 1].ExecCommand? && r.0[|r.0| - 1].name == command
    ensures !r.1 ==> forall c :: c in r.0 ==> !c.ExecCommand?
  {
    if command == "createLink" then
      if sel.None? || sel.value.Collapsed() then ([], false)
      else if answer.None? || answer.value == "" then ([LinkPrompt], false)
      else ([LinkPrompt, ExecCommand("createLink", Some(NormalizeUrl(answer.value)))], true)
    else ([ExecCommand(command, None)], true)
  }

  /** The link command with no selection or a collapsed one makes no call at
      all; with a declined prompt it makes the prompt only; and every link it
      does create targets an http(s) URL ending with the typed answer. */
  lemma ExecCallsLink(sel: Option<Range>, answer: Option<string>)
    ensures var (calls, edits) := ExecCalls("createLink", sel, answer);
            (sel.None? || sel.value.Collapsed() ==> calls == [] && !edits) &&
            (sel.Some? && !sel.value.Collapsed() && (answer.None? || answer.value == "") ==> calls == [LinkPrompt]) &&
            (edits <==> sel.Some? && !sel.value.Collapsed() && answer.Some? && answer.value != "") &&
            (forall c :: c in calls && c.ExecCommand? ==>
               c.name == "createLink" && c.value.Some? && HasHttpScheme(c.value.value) &&
               answer.Some? && |c.value.value| >= |answer.value| &&
               c.value.value[|c.value.value| - |answer.value|..] == answer.value)
  {
  }

  /** `formatBlock`: the block holding `p` takes the tag `tagName` and keeps
      its text. A position on the editor root has no enclosing block, and the
      browser edits nothing outside the editable region: nothing changes. */
  function FormatBlock(blocks: seq<Block>, p: Position, tagName: string): (r: seq<Block>)
    ensures |r| == |blocks| && forall j :: 0 <= j < |r| ==> r[j].text == blocks[j].text
    ensures forall j :: 0 <= j < |r| && !(p.InBlock? && p.block == j) ==> r[j] == blocks[j]
  {
    if p.InBlock? && p.block < |blocks| then blocks[p.block := Block(tagName, blocks[p.block].text)]
    else blocks
  }

  /** Retagging a block keeps its text, so a selection stays in the document. */
  lemma FormatBlockKeepsSelection(blocks: seq<Block>, p: Position, tagName: string, sel: Option<Range>)
    requires ValidSelection(blocks, sel)
    ensures ValidSelection(FormatBlock(blocks, p, tagName), sel)
  {
  }

  /** The kind `toggleBlock(tag)` gives the block: a paragraph again when the
      block already is a `tag`, a `tag` otherwise. */
  function ToggledKind(current: Option<Kind>, tag: Kind): Kind {
    if current == Some(tag) then P else tag
  }

  /** The document and the current block kind after `toggleBlock(tag)` with
      the selection starting at `p`. */
  function Toggled(blocks: seq<Block>, p: Position, tag: Kind): (r: (seq<Block>, Option<Kind>))
    ensures |r.0| == |blocks| && r.1 != Some(P)
    ensures r.1 == None || r.1 == Some(tag)
  {
    var k := ToggledKind(FirstBlockTag(WalkAt(blocks, p)), tag);
    (FormatBlock(blocks, p, TagNameOf(k)), if k == P then None else Some(tag))
  }

  /** For a caret inside a block: a block that is a `tag` turns into a
      paragraph and the current block kind is cleared; any other block turns
      into a `tag`, which becomes the current block kind; only that block's
      tag changes. */
  lemma ToggledBlock(blocks: seq<Block>, p: Position, tag: Kind)
    requires tag != P && p.InBlock? && p.block < |blocks|
    ensures var (r, current) := Toggled(blocks, p, tag);
            var b := p.block;
            |r| == |blocks| && r[b].text == blocks[b].text &&
            (forall j :: 0 <= j < |r| && j != b ==> r[j] == blocks[j]) &&
            (KindOfTag(blocks[b].tagName) == Some(tag) ==> KindOfTag(r[b].tagName) == Some(P) && current == None) &&
            (KindOfTag(blocks[b].tagName) != Some(tag) ==> KindOfTag(r[b].tagName) == Some(tag) && current == Some(tag))
  {
    FlatWalks(blocks, p);
    KindOfTagNameOf(P);
    KindOfTagNameOf(tag);
  }

  /** Toggling the same kind twice from a paragraph gives the paragraph back,
      with no current block kind. */
  lemma ToggleTwiceRestores(blocks: seq<Block>, p: Position, tag: Kind)
    requires tag != P && p.InBlock? && p.block < |blocks| && blocks[p.block].tagName == "P"
    ensures var (once, current1) := Toggled(blocks, p, tag);
            var (twice, current2) := Toggled(once, p, tag);
            current1 == Some(tag) && twice == blocks && current2 == None
  {
    KindOfTagNameOf(P);
    ToggledBlock(blocks, p, tag);
    var once := Toggled(blocks, p, tag).0;
    ToggledBlock(once, p, tag);
    assert once[p.block].tagName == TagNameOf(tag);
  }

  /** A boundary point after all the editor's children are replaced
      (`innerHTML` assignment): a point inside the editor ends up on the
      editor root before its first child; a point elsewhere on the page stays. */
  function ReplacedPosition(p: Position): (q: Position)
    ensures p.Outside? ==> q == p
    ensures !p.Outside? ==> q == InRoot(0)
  {
    if p.Outside? then p else InRoot(0)
  }

  /** The selection after the editor's children are replaced: it stays in
      the new document, whatever that is. */
  function AfterReplace(sel: Option<Range>): (r: Option<Range>)
    ensures r.Some? <==> sel.Some?
    ensures forall blocks: seq<Block> :: ValidSelection(blocks, sel) ==> ValidSelection([], r) && ValidSelection(blocks, r)
  {
    match sel
    case None => None
    case Some(range) => Some(Range(ReplacedPosition(range.start), ReplacedPosition(range.end)))
  }

  /** The selection after `focus()` on the editable root (as Chromium does
      it): a selection with a point outside the editor, or no selection at
      all, becomes a caret on the editor root before its first child; a
      selection inside the editor stays. */
  function Focused(sel: Option<Range>): (r: Option<Range>)
    ensures r.Some? && !r.value.start.Outside? && !r.value.end.Outside?
    ensures sel.Some? && !sel.value.start.Outside? && !sel.value.end.Outside? ==> r == sel
    ensures forall blocks: seq<Block> :: ValidSelection(blocks, sel) ==> ValidSelection(blocks, r)
  {
    if sel.Some? && !sel.value.start.Outside? && !sel.value.end.Outside? then sel
    else Some(CaretAt(InRoot(0)))
  }

  /** A selection on the page outside the editor gets no link: `focus()`
      collapses it into the editor, and the link command then stops before
      the prompt. */
  lemma OutsideSelectionGetsNoLink(start: seq<Elem>, end: seq<Elem>, answer: Option<string>)
    ensures ExecCalls("createLink", Focused(Some(Range(Outside(start), Outside(end)))), answer) == ([], false)
  {
  }

  /** The Enter rule fires: a plain Enter with a collapsed selection at the
      very end of the text of a pre. */
  predicate EnterEscapes(attached: bool, blocks: seq<Block>, sel: Option<Range>, e: KeyEvent) {
    attached && e.key == "Enter" && !e.shiftKey && sel.Some? && sel.value.Collapsed() &&
    sel.value.start.InBlock? && sel.value.start.block < |blocks| &&
    IsPre(blocks[sel.value.start.block]) &&
    sel.value.start.offset == |blocks[sel.value.start.block].text|
  }

  /** One mounted editor (`useWysiwyg`). */
  class Editor {
    /** The editable element is bound (`editor.value` is not null). */
    const attached: bool
    /** The browser's `innerHTML` getter and setter on the editor. */
    const serialize: seq<Block> -> string
    const parse: string -> seq<Block>

    var blocks: seq<Block>
    var selection: Option<Range>
    var currentBlock: Option<Kind>
    var activeStates: ActiveStates
    /** The payloads of the `update:modelValue` events emitted so far. */
    var emitted: seq<string>
    /** The prompts and `execCommand` calls made so far. */
    var hostCalls: seq<HostCall>

    /** The selection lies in the document, the current block kind is never a
        paragraph, the quotation and code flags are never both set, and the
        empty string parses to the empty document. */
    ghost predicate Valid()
      reads this
    {
      ValidSelection(blocks, selection) && currentBlock != Some(P) &&
      !(activeStates.blockquote && activeStates.code) && parse("") == []
    }

    /** Mounting: a non-empty initial value replaces the content the
        template rendered into the editor (`rendered`). */
    constructor (attached: bool, modelValue: Option<string>, rendered: seq<Block>,
                 serialize: seq<Block> -> string, parse: string -> seq<Block>)
      requires parse("") == []
      ensures Valid()
      ensures this.attached == attached && this.serialize == serialize && this.parse == parse
      ensures blocks == if attached && modelValue.Some? && modelValue.value != "" then parse(modelValue.value) else rendered
      ensures selection == None && currentBlock == None && activeStates == AllOff
      ensures emitted == [] && hostCalls == []
    {
      this.attached := attached;
      this.serialize := serialize;
      this.parse := parse;
      blocks := if attached && modelValue.Some? && modelValue.value != "" then parse(modelValue.value) else rendered;
      selection := None;
      currentBlock := None;
      activeStates := AllOff;
      emitted := [];
      hostCalls := [];
    }

    /** `emitChange`: reports the serialised content when the editor is bound. */
    method EmitChange()
      modifies this`emitted
      ensures emitted == old(emitted) + if attached then [serialize(blocks)] else []
    {
      if attached {
        emitted := emitted + [serialize(blocks)];
      }
    }

    /** `handleInput`: every input event reports the content. */
    method HandleInput()
      modifies this`emitted
      ensures emitted == old(emitted) + if attached then [serialize(blocks)] else []
    {
      EmitChange();
    }

    /** `updateActiveStates`. */
    method UpdateActiveStates(query: string -> bool)
      requires Valid()
      modifies this`activeStates
      ensures Valid()
      ensures activeStates == Recomputed(old(activeStates), attached, blocks, selection, query)
    {
      activeStates := activeStates.(bold := query("bold"), italic := query("italic"),
                                    underline := query("underline"),
                                    strikethrough := query("strikeThrough"),
                                    link := query("createLink"),
                                    unorderedList := query("insertUnorderedList"),
                                    orderedList := query("insertOrderedList"));
      if !attached || selection.None? {
        return;
      }
      var (node, ancestors) := ContainerAt(blocks, selection.value.start);
      var tag := GetParentBlockTag(node, ancestors);
      activeStates := activeStates.(blockquote := tag == Some(Blockquote), code := tag == Some(Pre));
    }

    /** The `selectionchange` listener: the browser moves the selection and
        the flags are recomputed. */
    method SelectionChange(sel: Option<Range>, query: string -> bool)
      requires Valid() && ValidSelection(blocks, sel)
      modifies this`selection, this`activeStates
      ensures Valid()
      ensures selection == sel
      ensures activeStates == Recomputed(old(activeStates), attached, blocks, sel, query)
    {
      selection := sel;
      UpdateActiveStates(query);
    }

    /** `editor.value.focus()`: see `Focused`. */
    method Focus()
      requires Valid()
      modifies this`selection
      ensures Valid()
      ensures selection == Focused(old(selection))
    {
      selection := Focused(selection);
    }

    /** `exec(command)`: focuses the editor, runs an inline command through
        the browser, then recomputes the flags and reports the content; the
        link command may stop before that (see `ExecCalls`), with the
        selection as focusing left it. */
    method Exec(command: string, answer: Option<string>, after: Snapshot, query: string -> bool)
      requires Valid() && ValidSelection(after.blocks, after.selection)
      modifies this`blocks, this`selection, this`activeStates, this`emitted, this`hostCalls
      ensures Valid()
      ensures hostCalls == old(hostCalls) + if attached then ExecCalls(command, Focused(old(selection)), answer).0 else []
      ensures attached && ExecCalls(command, Focused(old(selection)), answer).1 ==>
                blocks == after.blocks && selection == after.selection &&
                activeStates == Recomputed(old(activeStates), true, after.blocks, after.selection, query) &&
                emitted == old(emitted) + [serialize(after.blocks)]
      ensures attached && !ExecCalls(command, Focused(old(selection)), answer).1 ==>
                blocks == old(blocks) && selection == Focused(old(selection)) &&
                activeStates == old(activeStates) && emitted == old(emitted)
      ensures !attached ==>
                blocks == old(blocks) && selection == old(selection) &&
                activeStates == old(activeStates) && emitted == old(emitted)
    {
      if !attached {
        return;
      }
      Focus();
      ghost var calls := ExecCalls(command, selection, answer);
      if command == "createLink" {
        if selection.None? || selection.value.Collapsed() {
          assert calls == ([], false);
          return;
        }
        hostCalls := hostCalls + [LinkPrompt];
        if answer.None? || answer.value == "" {
          assert calls == ([LinkPrompt], false);
          return;
        }
        var url := NormalizeUrl(answer.value);
        hostCalls := hostCalls + [ExecCommand("createLink", Some(url))];
        assert calls == ([LinkPrompt, ExecCommand("createLink", Some(url))], true);
      } else {
        hostCalls := hostCalls + [ExecCommand(command, None)];
        assert calls == ([ExecCommand(command, None)], true);
      }
      blocks, selection := after.blocks, after.selection;
      UpdateActiveStates(query);
      EmitChange();
    }

    /** `toggleBlock(tag)`: focuses the editor, which always leaves a
        selection inside it; the block at the start of that selection becomes
        a `tag`, or a paragraph again when it already is one; the current
        block kind follows. No change is reported. */
    method ToggleBlock(tag: Kind, query: string -> bool)
      requires Valid() && tag != P
      modifies this`blocks, this`selection, this`currentBlock, this`activeStates, this`hostCalls
      ensures Valid()
      ensures emitted == old(emitted)
      ensures attached ==>
                selection == Focused(old(selection)) &&
                var p := selection.value.start;
                var k := ToggledKind(FirstBlockTag(WalkAt(old(blocks), p)), tag);
                (blocks, currentBlock) == Toggled(old(blocks), p, tag) &&
                hostCalls == old(hostCalls) + [ExecCommand("formatBlock", Some(TagString(k)))] &&
                activeStates == Recomputed(old(activeStates), true, blocks, selection, query)
      ensures !attached ==>
                blocks == old(blocks) && selection == old(selection) && currentBlock == old(currentBlock) &&
                activeStates == old(activeStates) && hostCalls == old(hostCalls)
    {
      if !attached {
        return;
      }
      // After focusing there is always a range, so the source's early
      // return for a missing one is never taken.
      Focus();
      var p := selection.value.start;
      var (node, ancestors) := ContainerAt(blocks, p);
      var parentTag := GetParentBlockTag(node, ancestors);
      FormatBlockKeepsSelection(blocks, p, TagNameOf(ToggledKind(parentTag, tag)), selection);
      if parentTag == Some(tag) {
        hostCalls := hostCalls + [ExecCommand("formatBlock", Some(TagString(P)))];
        blocks := FormatBlock(blocks, p, TagNameOf(P));
        currentBlock := None;
      } else {
        hostCalls := hostCalls + [ExecCommand("formatBlock", Some(TagString(tag)))];
        blocks := FormatBlock(blocks, p, TagNameOf(tag));
        currentBlock := Some(tag);
      }
      UpdateActiveStates(query);
    }

    /** `handleEditorKeydown`: Enter at the very end of a pre adds an empty
        paragraph after it, moves the caret there and reports the content;
        `prevented` says the browser's own newline was suppressed. In every
        other case nothing changes. */
    method HandleEditorKeydown(e: KeyEvent) returns (prevented: bool)
      requires Valid()
      modifies this`blocks, this`selection, this`emitted
      ensures Valid()
      ensures prevented == EnterEscapes(attached, old(blocks), old(selection), e)
      ensures prevented ==>
                var b := old(selection).value.start.block;
                blocks == InsertAfter(old(blocks), b, EmptyParagraph) &&
                selection == Some(CaretAt(InBlock(b + 1, 0))) &&
                emitted == old(emitted) + [serialize(blocks)]
      ensures !prevented ==>
                blocks == old(blocks) && selection == old(selection) && emitted == old(emitted)
    {
      if !attached || e.key != "Enter" || e.shiftKey || selection.None? {
        return false;
      }
      var range := selection.value;
      var (node, ancestors) := ContainerAt(blocks, range.start);
      var pre := FindClosestPre(node, ancestors);
      if pre.None? || !range.Collapsed() {
        return false;
      }
      if range.start.Outside? {
        // A pre on the page outside the editor: the page is not modelled.
        return false;
      }
      // In a flat document the only element between a caret and the editor
      // root is the caret's own block, so the pre found is that block.
      assert range.start.InBlock? && pre.value == 0;
      var b := range.start.block;
      CaretAtEndOfPreInBlock(blocks, b, range.start.offset);
      if !CaretAtEndOfPre(blocks, b, range) {
        return false;
      }
      blocks := InsertAfter(blocks, b, EmptyParagraph);
      selection := Some(CaretAt(InBlock(b + 1, 0)));
      EmitChange();
      return true;
    }

    /** The outside-click rule proper: an empty paragraph after the last pre
        unless a paragraph already follows it, the selection following the
        blocks that move, and the content reported when a paragraph is added. */
    method AddTrailingParagraph()
      requires Valid() && attached
      modifies this`blocks, this`selection, this`emitted
      ensures Valid()
      ensures blocks == EnsureTrailingParagraph(old(blocks))
      ensures selection == SelectionAfterTrailingParagraph(old(blocks), old(selection))
      ensures emitted == old(emitted) + if AddsTrailingParagraph(old(blocks)) then [serialize(blocks)] else []
    {
      var last := LastPre(blocks);
      if last.Some? && NeedsParagraphAfter(blocks, last.value) {
        var i := last.value;
        ShiftSelectionValid(blocks, i, EmptyParagraph, selection);
        blocks := InsertAfter(blocks, i, EmptyParagraph);
        selection := ShiftSelection(selection, i + 1);
        EmitChange();
      }
    }

    /** `handleDocumentClick`: a click outside the editor makes sure the last
        pre is followed by a paragraph, reporting the content when one is
        added, then clears the current block kind and recomputes the flags.
        A click inside the editor changes nothing. */
    method HandleDocumentClick(targetInside: bool, query: string -> bool)
      requires Valid()
      modifies this`blocks, this`selection, this`emitted, this`currentBlock, this`activeStates
      ensures Valid()
      ensures attached && !targetInside ==>
                blocks == EnsureTrailingParagraph(old(blocks)) &&
                selection == SelectionAfterTrailingParagraph(old(blocks), old(selection)) &&
                emitted == old(emitted) + (if AddsTrailingParagraph(old(blocks)) then [serialize(blocks)] else []) &&
                currentBlock == None &&
                activeStates == Recomputed(old(activeStates), true, blocks, selection, query)
      ensures !attached || targetInside ==>
                blocks == old(blocks) && selection == old(selection) && emitted == old(emitted) &&
                currentBlock == old(currentBlock) && activeStates == old(activeStates)
    {
      if !attached || targetInside {
        return;
      }
      AddTrailingParagraph();
      currentBlock := None;
      UpdateActiveStates(query);
    }

    /** The `watch` on the inbound value: the content is overwritten only when
        it differs from the value (an undefined value always differs, and
        empties the editor); overwriting moves the selection's points inside
        the editor onto the editor root. Nothing is reported. */
    method Sync(val: Option<string>)
      requires Valid()
      modifies this`blocks, this`selection
      ensures Valid()
      ensures attached && val != Some(serialize(old(blocks))) ==>
                blocks == parse(val.GetOr("")) &&
                selection == AfterReplace(old(selection))
      ensures attached && val.None? ==> blocks == []
      ensures !(attached && val != Some(serialize(old(blocks)))) ==>
                blocks == old(blocks) && selection == old(selection)
    {
      if attached && val != Some(serialize(blocks)) {
        blocks := parse(val.GetOr(""));
        selection := AfterReplace(selection);
      }
    }
  }

  /** Toggling a kind twice from a paragraph restores the document and clears
      the current block kind, and reports nothing. */
  method ToggleTwiceFromParagraph(e: Editor, tag: Kind, query: string -> bool)
    requires e.Valid() && e.attached && tag != P
    requires e.selection.Some? && e.selection.value.start.InBlock? && !e.selection.value.end.Outside?
    requires e.blocks[e.selection.value.start.block].tagName == "P"
    modifies e
    ensures e.Valid()
    ensures e.blocks == old(e.blocks) && e.currentBlock == None && e.emitted == old(e.emitted)
  {
    ToggleTwiceRestores(e.blocks, e.selection.value.start, tag);
    e.ToggleBlock(tag, query);
    assert e.currentBlock == Some(tag);
    e.ToggleBlock(tag, query);
  }

  /** A second outside click changes neither the document nor the reports. */
  method RepeatedOutsideClick(e: Editor, query: string -> bool)
    requires e.Valid() && e.attached
    modifies e
    ensures e.Valid()
    ensures e.blocks == EnsureTrailingParagraph(old(e.blocks))
    ensures |e.emitted| <= |old(e.emitted)| + 1
  {
    e.HandleDocumentClick(false, query);
    var blocks, emitted := e.blocks, e.emitted;
    TrailingParagraphIdempotent(old(e.blocks));
    e.HandleDocumentClick(false, query);
    assert e.blocks == blocks && e.emitted == emitted;
  }

  /** Feeding the value just reported back through the sync leaves the
      document and the selection alone. */
  method EchoIsNoOp(e: Editor)
    requires e.Valid() && e.attached
    modifies e
    ensures e.Valid()
    ensures e.blocks == old(e.blocks) && e.selection == old(e.selection)
  {
    e.HandleInput();
    e.Sync(Some(e.emitted[|e.emitted| - 1]));
  }

  /** Recomputing the flags twice in a row gives what the first recompute gave. */
  method RecomputeTwice(e: Editor, query: string -> bool)
    requires e.Valid()
    modifies e
    ensures e.Valid()
    ensures e.activeStates == Recomputed(old(e.activeStates), e.attached, e.blocks, e.selection, query)
  {
    e.UpdateActiveStates(query);
    RecomputeIdempotent(old(e.activeStates), e.attached, e.blocks, e.selection, query);
    e.UpdateActiveStates(query);
  }

  /** With the selection on the page outside the editor, under no p, pre or
      blockquote, an outside click clears both block flags and the current
      block kind. */
  method ClickAwayClearsBlockFlags(e: Editor, ancestors: seq<Elem>, query: string -> bool)
    requires e.Valid() && e.attached
    requires forall j :: 0 <= j < |ancestors| ==> ancestors[j].Tagged? && KindOfTag(ancestors[j].tagName).None?
    modifies e
    ensures e.Valid()
    ensures e.selection == Some(CaretAt(Outside(ancestors)))
    ensures !e.activeStates.blockquote && !e.activeStates.code && e.currentBlock == None
  {
    e.SelectionChange(Some(CaretAt(Outside(ancestors))), query);
    e.HandleDocumentClick(false, query);
    NoBlockElementNoTag(ancestors);
  }
}
