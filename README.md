# Rich-text editor state, verified

A Dafny model of the rich-text editor composable `useWysiwyg` of a small
Nuxt note-taking application (`components/Wysiwyg/useWysiwyg.ts`). The
composable binds one `contenteditable` element and keeps three things in
step with it: the toolbar flags (`activeStates`), the current block kind
(`currentBlock`, null, `blockquote` or `pre`), and the outbound
`update:modelValue` value. It also enforces two code-block boundary rules:
Enter at the very end of a `pre` leaves the code block through a new empty
paragraph, and a click outside the editor makes sure the last `pre` is
followed by a paragraph.

The model:

- `Dom` (`dom.dfy`) describes the editable region as a flat sequence of
  top-level blocks. Each block has a tag name, as the DOM reports it, and its
  text. A boundary point is an offset in a block's text, a child index of
  the editor root, or a point elsewhere on the page, given by the page's
  elements above it. A walk is the list of elements met going up from a
  node, with the editor root marked.
- `Ancestry` (`ancestry.dfy`) holds the two upward walks. `getParentBlockTag`
  and `findClosestPre` are `while` loops in the source, so each is a method
  with a loop. Each is proved equal to a recursive specification function,
  and lemmas say what that function means.
- `LinkUrl` (`link_url.dfy`) holds the link URL scheme normalisation.
- `Boundary` (`boundary.dfy`) holds the pure parts of the two boundary rules:
  the last `pre`, inserting after a block, the trailing-paragraph
  guarantee, live-range boundary points that shift when a block is
  inserted, and `isCaretAtEndOfPre`.
- `Wysiwyg` (`wysiwyg.dfy`) holds the `Editor` class, whose fields are the
  composable's state. It also has the specification functions for the flag
  recompute and for block toggling, and client methods that chain handlers
  into the scenarios the component promises.

The browser is an input to the model throughout:

- `document.queryCommandState` is a `query: string -> bool` argument.
- `window.prompt` is the user's `answer` (None for a cancelled prompt).
- The document and selection left behind by an inline `execCommand` are a
  `Snapshot` argument.
- The editor's `innerHTML` getter and setter are the `serialize` and `parse`
  functions fixed when the editor is constructed.
- Calls into the browser (`prompt`, `execCommand`) are logged in `hostCalls`.
  That log is how "no prompt" and "no edit" are stated.
- `formatBlock` is modelled concretely: the block holding the start of the
  selection takes the new tag and keeps its text.

Behaviour of the code that the model keeps as written:

- `updateActiveStates` sets the seven inline flags even when no editor is
  bound or there is no selection. Only the `blockquote` and `code` flags are
  guarded, and they keep their old values in that case.
- `currentBlock` is written only by `toggleBlock` and by the outside-click
  handler. It is not re-derived from the caret on selection changes.
- `exec` and `toggleBlock` call `focus()` on the editor before they read
  the selection. On an editable root, focusing turns a missing selection,
  or one with a point outside the editor, into a caret on the editor root
  before its first child. So a selection on the page gets no link
  (`OutsideSelectionGetsNoLink`). `toggleBlock`'s early return for a
  missing range is never taken after focusing. `toggleBlock` never emits a
  change, unlike `exec`.
- The Enter rule finds its code block with `findClosestPre`, which passes
  over `p` and `blockquote`. That is a different walk from
  `getParentBlockTag`, which stops at the first of `p`, `pre` or
  `blockquote`. `PreBlockIsClosestPre` proves the walks agree when the block
  tag is `pre`. `ClosestPreLooksPastParagraph` shows the other direction
  fails: for a `p` nested in a `pre`, the block tag is `p`, yet
  `findClosestPre` still finds the enclosing `pre`, so Enter at the end of
  that `p` escapes the `pre` when no text follows the `p` inside it. In a
  flat document the two walks agree (`FlatWalks`).
- The inbound-value sync compares the serialised content with the incoming
  value. An undefined value never equals a string, so it always overwrites
  the content, writing `""`. The browser parses `""` to no children; the
  editor is constructed with a `parse` that does so, and `Sync` then leaves
  an empty document.
- A selection on the page outside the editor still drives the block flags:
  `getParentBlockTag` walks up the page's elements to a null parent, so an
  outside click normally clears `blockquote` and `code`
  (`ClickAwayClearsBlockFlags`).
- The link scheme test is `/^https?:\/\//i`. Without the `u` flag the
  case-insensitive match folds ASCII letters only, which is what `Lower`
  models.

## Model

| member | source | states |
|---|---|---|
| `Dom.KindOfTagMatchesTag` | components/Wysiwyg/useWysiwyg.ts:65-66 | an element is taken for a `p`, `pre` or `blockquote` exactly when its lower-cased tag name is that tag |
| `Dom.KindOfTagNameOf` | components/Wysiwyg/useWysiwyg.ts:50-56 | a block that `formatBlock` retags to a kind is then recognised as that kind by the case-insensitive tag comparison |
| `Dom.EmptyParagraphIsParagraph` | components/Wysiwyg/useWysiwyg.ts:134-136 | the `p` the editor creates counts as a paragraph and not as a `pre` |
| `Ancestry.FirstBlockTag` | components/Wysiwyg/useWysiwyg.ts:61-70 | a reported block kind is the kind of some element of the walk |
| `Ancestry.NoBlockElementNoTag` | components/Wysiwyg/useWysiwyg.ts:61-70 | a walk that meets no `p`, `pre` or `blockquote` before it ends reports null |
| `Ancestry.FirstBlockTagIsFirstMatch` | components/Wysiwyg/useWysiwyg.ts:61-70 | the result of `getParentBlockTag` is the kind of the first `p`/`pre`/`blockquote` the walk reaches before the editor root or a null parent; if the walk reaches none, the result is null |
| `Ancestry.GetParentBlockTag` | components/Wysiwyg/useWysiwyg.ts:61-70 | the loop, starting at the parent of a text node and stopping at the editor root, returns exactly that first block kind |
| `Ancestry.ClosestPre` | components/Wysiwyg/useWysiwyg.ts:94-106 | a `pre` found is an element of the walk whose lower-cased tag name is `pre` |
| `Ancestry.ClosestPreIsFirstPre` | components/Wysiwyg/useWysiwyg.ts:94-106 | `findClosestPre` returns the first `pre` the walk reaches, passing over every other element, and null when the walk ends first |
| `Ancestry.FindClosestPre` | components/Wysiwyg/useWysiwyg.ts:94-106 | the loop returns exactly that first `pre` |
| `Ancestry.PreBlockIsClosestPre` | components/Wysiwyg/useWysiwyg.ts:124-127 | when the block tag is `pre`, `findClosestPre` finds that same element, the first block element of the walk |
| `Ancestry.ClosestPreLooksPastParagraph` | components/Wysiwyg/useWysiwyg.ts:94-106 | for a `p` inside a `pre`, the block tag is `p` while `findClosestPre` still finds the `pre` |
| `Ancestry.FlatWalks` | components/Wysiwyg/useWysiwyg.ts:124-127 | for a caret in a top-level block, the block tag is that block's kind and a `pre` is found exactly when the block is a `pre`; a caret on the editor root yields neither; from a point outside the editor both walks go over the page's elements |
| `LinkUrl.HasHttpScheme` | components/Wysiwyg/useWysiwyg.ts:30 | the test `/^https?:\/\//i`: the URL begins with `http://` or `https://` in any letter case |
| `LinkUrl.NormalizeUrl` | components/Wysiwyg/useWysiwyg.ts:30 | the URL always ends up with an http(s) scheme; a URL that already has one is unchanged, and any other gets the prefix `http://`; the result ends with what was typed |
| `LinkUrl.NormalizeUrlIdempotent` | components/Wysiwyg/useWysiwyg.ts:30 | normalising twice is normalising once |
| `LinkUrl.BareHostGetsHttp` | components/Wysiwyg/useWysiwyg.ts:30 | `example.com` becomes `http://example.com` |
| `LinkUrl.SchemeIsKept` | components/Wysiwyg/useWysiwyg.ts:30 | `https://example.com` and `HTTP://example.com` are kept as they are |
| `Boundary.LastPre` | components/Wysiwyg/useWysiwyg.ts:153-155 | the index found is a `pre` with no `pre` after it; if there is no index, the document has no `pre` |
| `Boundary.InsertAfter` | components/Wysiwyg/useWysiwyg.ts:136 | `insertAdjacentElement("afterend")` puts the new block right after the given one and keeps every other block in order |
| `Boundary.EnsureTrailingParagraph` | components/Wysiwyg/useWysiwyg.ts:153-163 | the outside-click rule adds exactly one block when the last `pre` is not followed by a paragraph, and none otherwise |
| `Boundary.TrailingParagraphGuaranteed` | components/Wysiwyg/useWysiwyg.ts:153-163 | afterwards the last `pre` is the same block and a paragraph follows it; everything up to it is unchanged; at most one empty paragraph is added; a document with no `pre` is unchanged |
| `Boundary.LastPreAfterInsert` | components/Wysiwyg/useWysiwyg.ts:155-160 | adding a non-`pre` block after the last `pre` leaves that `pre` last |
| `Boundary.TrailingParagraphIdempotent` | components/Wysiwyg/useWysiwyg.ts:153-163 | a second outside click leaves the document as the first one left it |
| `Boundary.ShiftKeepsPlace` | components/Wysiwyg/useWysiwyg.ts:160 | after a block is inserted, a boundary point still points at the same block and offset, and stays inside the document |
| `Boundary.TextToEndOf` | components/Wysiwyg/useWysiwyg.ts:110-114 | building the range fails (`setStart` throws) exactly when the offset lies beyond its container; a point after the `pre` gives an empty text |
| `Boundary.CaretAtEndOfPre` | components/Wysiwyg/useWysiwyg.ts:108-118 | a caret counts as at the end of the `pre` only when the range is collapsed and can be built; the thrown case is false |
| `Boundary.CaretAtEndOfPreInBlock` | components/Wysiwyg/useWysiwyg.ts:108-118 | a caret in a `pre` is at its end exactly when it sits at the last offset of the text |
| `Wysiwyg.Recomputed` | components/Wysiwyg/useWysiwyg.ts:72-92 | with a bound editor and a selection, `blockquote` and `code` are never both set; without either they keep their values |
| `Wysiwyg.RecomputedBlockFlags` | components/Wysiwyg/useWysiwyg.ts:85-91 | with a bound editor and a selection, `blockquote` and `code` say whether the caret's block is a quotation or a code block, so they are never both true; a selection outside the editor takes them from the page's elements above it; without an editor or a selection they are left as they were |
| `Wysiwyg.RecomputeIdempotent` | components/Wysiwyg/useWysiwyg.ts:72-92 | recomputing twice with nothing changed in between gives the same flags |
| `Wysiwyg.Focused` | components/Wysiwyg/useWysiwyg.ts:22 | after `focus()` there is a selection and both its points are in the editor; a selection already inside is kept, and a valid selection stays valid |
| `Wysiwyg.OutsideSelectionGetsNoLink` | components/Wysiwyg/useWysiwyg.ts:22-26 | a selection on the page outside the editor is collapsed by `focus()`, so the link command makes no prompt and no edit |
| `Wysiwyg.ExecCalls` | components/Wysiwyg/useWysiwyg.ts:20-39 | a command edits only through a last call `execCommand(command)`; a command that stops early makes no `execCommand` call |
| `Wysiwyg.ExecCallsLink` | components/Wysiwyg/useWysiwyg.ts:24-32 | no selection or a collapsed one: no prompt and no edit; a declined or empty answer: the prompt only and no edit; the link is created exactly when the selection is not collapsed and the answer is non-empty; every created link targets an http(s) URL ending with the answer |
| `Wysiwyg.FormatBlock` | components/Wysiwyg/useWysiwyg.ts:51-54 | `formatBlock` keeps every block's text and changes no block but the one holding the position; outside the editor it changes nothing |
| `Wysiwyg.FormatBlockKeepsSelection` | components/Wysiwyg/useWysiwyg.ts:51-54 | retagging a block keeps its text, so the selection stays inside the document |
| `Wysiwyg.Toggled` | components/Wysiwyg/useWysiwyg.ts:48-56 | toggling keeps the number of blocks, and `currentBlock` becomes null or the toggled kind, never `p` |
| `Wysiwyg.ToggledBlock` | components/Wysiwyg/useWysiwyg.ts:48-56 | a block already of the toggled kind becomes a paragraph and `currentBlock` becomes null; any other block takes the kind, which becomes `currentBlock`; no other block changes |
| `Wysiwyg.ToggleTwiceRestores` | components/Wysiwyg/useWysiwyg.ts:48-56 | toggling the same kind twice from a paragraph gives back the document, with `currentBlock` null |
| `Wysiwyg.Editor.constructor` | components/Wysiwyg/useWysiwyg.ts:177-178 | mounting loads a non-empty initial value into the editor and otherwise keeps what the template rendered; all flags start false and `currentBlock` null |
| `Wysiwyg.Editor.EmitChange` | components/Wysiwyg/useWysiwyg.ts:173-175 | a bound editor reports its serialised content, once |
| `Wysiwyg.Editor.HandleInput` | components/Wysiwyg/useWysiwyg.ts:169-171 | every input event reports the content |
| `Wysiwyg.Editor.UpdateActiveStates` | components/Wysiwyg/useWysiwyg.ts:72-92 | the flags become the recompute of the current document and selection, keeping the invariant that `blockquote` and `code` are not both set |
| `Wysiwyg.Editor.SelectionChange` | components/Wysiwyg/useWysiwyg.ts:179 | a selection change recomputes the flags for the new selection |
| `Wysiwyg.Editor.Focus` | components/Wysiwyg/useWysiwyg.ts:22 | focusing leaves the selection as `Focused` of the old one, which is always inside the editor |
| `Wysiwyg.Editor.Exec` | components/Wysiwyg/useWysiwyg.ts:20-39 | the calls made into the browser are exactly those of `ExecCalls` for the selection after focusing; when the command edits, the document is the browser's result, the flags are recomputed and one change is reported; otherwise the document, flags and reports are unchanged and the selection is the focused one |
| `Wysiwyg.Editor.ToggleBlock` | components/Wysiwyg/useWysiwyg.ts:41-59 | with a bound editor, the selection becomes the focused one, the document and `currentBlock` become `Toggled` at its start, `formatBlock` is called with the resulting tag and the flags are recomputed; nothing is ever reported |
| `Wysiwyg.Editor.HandleEditorKeydown` | components/Wysiwyg/useWysiwyg.ts:120-146 | the browser's default is prevented exactly on a plain Enter with a collapsed caret at the end of a `pre`; then one empty paragraph is inserted right after the `pre`, the `pre` is unchanged, the caret moves to offset 0 of the new paragraph and one change is reported; in every other case nothing changes (for a caret outside the editor see "Left out") |
| `Wysiwyg.Editor.AddTrailingParagraph` | components/Wysiwyg/useWysiwyg.ts:153-163 | the document gets its trailing paragraph, the selection follows the blocks that move, and one change is reported exactly when a paragraph is added |
| `Wysiwyg.Editor.HandleDocumentClick` | components/Wysiwyg/useWysiwyg.ts:148-167 | a click outside applies the trailing-paragraph rule, clears `currentBlock` and recomputes the flags; a click inside, or an unbound editor, changes nothing |
| `Wysiwyg.ReplacedPosition` | components/Wysiwyg/useWysiwyg.ts:194 | replacing the editor's children moves a boundary point inside the editor to the editor root before its first child, and leaves a point outside it in place |
| `Wysiwyg.AfterReplace` | components/Wysiwyg/useWysiwyg.ts:194 | after the children are replaced a selection is still there and still inside the page, whatever the new document |
| `Wysiwyg.Editor.Sync` | components/Wysiwyg/useWysiwyg.ts:190-196 | the content is overwritten, with `""` for undefined, which empties it, only when it differs from the inbound value; overwriting moves the selection's points inside the editor onto the editor root and leaves points outside it in place; this is the callback's logic, which the source never runs (see "Left out") |
| `Wysiwyg.ToggleTwiceFromParagraph` | components/Wysiwyg/useWysiwyg.ts:41-59 | two toggles of the same kind from a selection inside the editor starting in a paragraph restore the document, leave `currentBlock` null and report nothing |
| `Wysiwyg.RepeatedOutsideClick` | components/Wysiwyg/useWysiwyg.ts:148-167 | two outside clicks leave the document of one, with at most one change reported |
| `Wysiwyg.EchoIsNoOp` | components/Wysiwyg/useWysiwyg.ts:190-196 | feeding the value just reported back into the sync leaves the document and the selection alone |
| `Wysiwyg.RecomputeTwice` | components/Wysiwyg/useWysiwyg.ts:72-92 | two recomputes in a row give the flags of one |
| `Wysiwyg.ClickAwayClearsBlockFlags` | components/Wysiwyg/useWysiwyg.ts:148-167 | with the selection on the page under no `p`, `pre` or `blockquote`, an outside click leaves `blockquote`, `code` and `currentBlock` cleared |

## Left out

- The Vue reactivity and lifecycle parts are not modelled: `ref`, the `watch` machinery, and the listener registration and removal in `onMounted`/`onBeforeUnmount`. Each handler is a method the environment calls.
- Wysiwyg.Editor.Sync: models the logic of the `watch` callback, which the source never reaches. The getter `() => modelValue` reads a plain parameter that is never reassigned, so it tracks no reactive dependency. The watch has no `immediate` option, so the callback never runs.
- `focus()` is modelled as Chromium performs it on an editable root (`Focused`). Other browsers' focus rules are not modelled.
- The effect of inline `execCommand` calls (bold, italic, lists, `createLink`) is an input, as is `queryCommandState`. Their semantics belong to the browser.
- `formatBlock` over a selection that spans several blocks is not modelled. Only the block holding the start of the selection is retagged. A caret on the editor root itself retags nothing.
- HTML serialisation and parsing are the `serialize`/`parse` parameters. So the round trip "mount with `<p>hi</p>`, then read back the same markup" is not proved: it is a property of the browser's HTML parser.
- Documents are flat: a sequence of top-level blocks with text. The outside-click rule uses `querySelectorAll("pre")`, which also finds `pre` elements nested at any depth. Nested content (lists, inline markup, nested blocks) is not represented. Only the walks in `Ancestry` work on arbitrary element chains.
- The Enter handler changes the selection, and the browser then fires `selectionchange` asynchronously. That later recompute is not part of `HandleEditorKeydown`. It is `SelectionChange`, called by the environment.
- `window.getSelection()` returning null is not modelled separately from "no range".
- Wysiwyg.Editor.HandleEditorKeydown: with the caret on the page outside the editor inside a `pre` of the page, the model changes nothing. For a caret at the end of that page `pre`, the source would insert an empty `p` after it, move the caret there, prevent the default and report a change. The page outside the editor has no blocks in the model. A keydown reaches the editor while it holds focus, when the caret is normally inside it.
- Boundary.TextToEndOf: defined only for points in the editor, since points outside it carry no document order in the model. It is only needed for a caret inside the editor (see the line above).
- Boundary.CaretAtEndOfPre: likewise defined only for a range whose end lies in the editor, for the same reason.
- `toLowerCase` is modelled on ASCII letters only, which covers HTML tag names and the link-scheme regular expression.
- The server routes (authentication, notes CRUD, reorder), the places proxy, the `useAuth` fetch wrapper and the Nuxt configuration are not part of this model. They are database, HTTP, cookie and JWT glue with no editor logic.
