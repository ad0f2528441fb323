# st-lib render: a verified model of the two back-ends

This project models the core of the `st-lib` render library in Dafny. The
library has one content protocol and two back-ends. A content function calls
builders (`element`, `text`, `comment`, `attr`, `attrs`), and each builder
hands a descriptor to the context on top of a global stack. The first
back-end reconciles a live DOM tree (`src/render.ts`); the second writes an
HTML string (`src/write.ts`).

The model is organised as follows:

- **Content functions are data.** A content function is written down as the
  sequence of context calls it makes (`Descriptors.Push`), plus the cleanup
  callback it may return. Element content is such a sequence or a markup
  string, so nested passes are nested data.
- **Callbacks are data.** A user callback is an opaque id together with what
  it returns and whether it throws (`Callback`, `Hook`, `Updater`). Running
  callbacks appends `Ran(node, phase, id)` events to a log the document
  keeps, so the order and number of callback runs is part of every state.
- **The live tree is an arena.** Class `Tree.Dom` holds nodes by id. Each
  node has a kind, tag, text, child list and attributes, and an element records
  whether it is in the HTML namespace. A ghost parent map
  and the library's three side tables (key, cleanup set, removed set) sit
  beside the nodes. Every child has a larger id than its parent. This makes
  the recursion of `removeNode` terminate and lets a nested pass promise to
  touch nothing outside its element's subtree and the nodes it creates.
- **Reconciliation is specified by functions.** Module `Reconcile` says
  exactly what each step of `render` does to a snapshot `Doc` (tree, side
  tables, callback log). The methods of module `Reconciler` (class
  `RenderContext` and the exported `Render`) make the DOM calls one by one
  and are proved to produce that snapshot.
- **What a pass achieves.** Module `Pass` folds the calls into what a pass
  gathers, and module `Ordering` proves what a whole pass leaves:
  - the target's attributes;
  - its children, in order;
  - its cleanup and removed sets.

  Module `Keeping` proves that every step keeps the tree well formed and
  confined to the target's subtree.
- **The serialiser is specified the same way.** Module `Write` gives the
  serialiser as functions (`Fold`, `ElementHTML`, `Serialize`), and classes
  `WriteContext` and `ElementWriteContext` are proved to compute them.
  Modules `Escape` and `Slots` prove what the escaping and the `sort()` of
  slot numbers do.
- **The registry is a class.** Module `Registry` models `ContextRegistry`
  (push, pop, peek) as a class over a sequence. Each back-end is modelled
  with its own registry, of its own context type.

Where the code and the library's own description differ, the model follows
the code:

- The live back-end's `pushElementAttr` does not skip `is`, does not
  normalise case, and does not remove an attribute whose value is `false`.
  It writes the string `"false"` (`src/render.ts:315-321`).
- The live back-end keys an unkeyed child by its position `order`, not by
  a count of distinct keys (`src/render.ts:283`, `297`, `342`).
- `pushElement` compares only tag names; there is no custom-element
  identity check (`src/render.ts:298-311`).
- `removeNode` runs a node's cleanup set before its removed set, then
  recurses (`src/render.ts:208-219`).
- Linking callbacks are deduplicated only within one context, that is one
  pass over one target (`src/render.ts:328-333`).
- `updateAttributes` removes stale attributes with `removeAttribute`
  (`src/render.ts:350-354`). On an element in the HTML namespace of an HTML
  document, `removeAttribute` lowers the name to ASCII lower case before the
  lookup, while `setAttributeNS` stores the name as given. So a stale
  attribute whose name has an upper-case letter (`tabIndex`) is not removed
  (`Ordering.MixedCaseAttributeSurvives`).
- After a pass the target has exactly one child per placement only when no
  two placements of the pass carry the same kind and key. With a repeated
  key the node found again is moved one place before `order`, so the target
  can end with fewer children (`ChildList.RepeatedNodeLandsBeforeOrder`).

## Model

| member | source | states |
|---|---|---|
| Common.TrimSpec | src/attr.ts:27-28 | `trim` gives a contiguous piece of the input that neither starts nor ends with whitespace, and it is empty exactly when the input is all whitespace |
| Common.TrimIdempotent | src/write.ts:132 | trimming an already trimmed name (as `attr` passed it) changes nothing |
| Common.DecimalRoundTrip | src/write.ts:102 | `String(n)` of a slot number reads back to `n`, so distinct slots have distinct sort keys |
| Common.DecimalNoLeadingZero | src/write.ts:102 | only slot 0 is written with a leading `0` |
| Builders.Attr | src/attr.ts:21-31 | a null/undefined/false value or a blank trimmed name returns undefined; with no context the result is null; otherwise exactly one descriptor is pushed, with the trimmed name, `String(value)` and the namespace |
| Builders.Attrs | src/attr.ts:67-77 | with a context, `attrs` pushes exactly what `attr` would push for each entry in order (bare value or `[value, namespace]` pair); without one it pushes nothing |
| Builders.AttrsPushesClean | src/attr.ts:69-76 | every descriptor `attrs` pushes has a non-blank, already trimmed name and a string value |
| Builders.EmptyAndZeroValuesArePushed | src/attr.ts:26-28 | the empty string and `0` are not filtered: they are pushed as `""` and `"0"` |
| Builders.Element | src/element.ts:10-24 | with a context exactly one descriptor is pushed; the key and tag name are forwarded; a string tag has no namespace and no options; a tuple's missing or false items become null; false/absent content becomes null; without a context the result is null |
| Builders.DefinedElementIgnoresIs | src/element.ts:34-41 | `defineElement(tag)(key, content, is)` is `element(key, tag, content)` whatever `is` is |
| Builders.Text | src/text.ts:20-33 | a null/undefined/false value or a missing context returns null and pushes nothing; otherwise it pushes the key and `String(value)` |
| Builders.Comment | src/comment.ts:20-33 | a filtered value returns undefined (not null); a missing context returns null; otherwise it pushes the key and `String(value)` |
| Builders.EmptyTextAndCommentArePushed | src/text.ts:24 | the builders do not filter the empty string |
| Registry.StackPop | src/context.ts:114-119 | `pop` on an empty stack leaves it empty; otherwise it removes exactly the top |
| Registry.StackPeek | src/context.ts:120-123 | `peek` is null exactly on an empty stack and otherwise the last element pushed |
| Registry.PushThenPopRestores | src/context.ts:110-119 | push then pop restores the stack and therefore what `peek` returns |
| Registry.NestedPassesRestore | src/context.ts:110-119 | a pass nested inside another pops back to the outer pass's context, and both pops restore the original stack |
| Registry.ContextRegistry.Push | src/context.ts:110-113 | `push` returns its argument and appends it as the new top |
| Registry.ContextRegistry.Pop | src/context.ts:114-119 | the stack becomes `StackPop` of the old stack |
| Registry.ContextRegistry.Peek | src/context.ts:120-123 | answers `StackPeek` of the stack |
| Registry.PeekContext | src/context.ts:90-95 | `peekContext` answers the top of the module-level array, null when it is empty |
| Registry.PeekContextIsAlwaysNull | src/context.ts:88-95 | `peekContext` returns null for the only value the module-level array ever holds, the empty array, since nothing pushes to it |
| Registry.PassRestoresStack | src/render.ts:385-386 | one pass (push, work, pop) leaves the stack and its top as they were |
| Escape.EscapeIsPerChar | src/write.ts:39-45 | the four chained global replacements (`&` first) equal escaping each character on its own |
| Escape.EscapeAppend | src/write.ts:39-45 | escaping distributes over concatenation |
| Escape.EscapeSafe | src/write.ts:39-45 | the result has no raw `<`, `>` or `"`, and every `&` in it starts one of the four entities |
| Escape.EscapeLeavesPlainText | src/write.ts:39-45 | text without `&`, `<`, `>`, `"` is left as it is |
| Escape.EscapeEachGrows | src/write.ts:39-45 | escaping never shortens a text, and a special character makes it strictly longer and introduces an `&` |
| Escape.EscapeFixedIff | src/write.ts:39-45 | escaping leaves a text unchanged exactly when it has no special character |
| Escape.EscapeIdempotentIff | src/write.ts:39-45 | there is no unescape step: escaping twice equals escaping once exactly when the text had nothing to escape |
| Slots.SlotLeTotal | src/write.ts:102 | any two slot numbers are comparable under `sort()`'s string comparison |
| Slots.SlotLeAntisymmetric | src/write.ts:102 | two slot numbers that compare both ways are equal |
| Slots.SlotLeTransitive | src/write.ts:102 | the string comparison of slot numbers is transitive |
| Slots.SortSlotsSpec | src/write.ts:102 | `sort()` of the slot numbers yields them sorted by their decimal strings, and as a permutation of the input |
| Slots.SortedUnique | src/write.ts:102 | any two sorted arrangements of the same slot numbers are equal, so the output order does not depend on the sorting algorithm |
| Slots.TenBeforeTwo | src/write.ts:102 | with eleven or more slots, slot 10 is emitted before slot 2 |
| Write.WrittenTextIsEscaped | src/write.ts:47-53 | written text is escaped, and kept verbatim exactly when it has nothing to escape; a comment is `<!-- ` + escaped content + ` -->` |
| Write.KeyOrder | src/write.ts:66-71 | a seen key keeps its unique order; an unseen key gets `keys.size` |
| Write.Claim | src/write.ts:72-96 | a text, comment or element push keeps the slot table valid: orders are exactly `0 .. n-1`, one per key, each holding markup |
| Write.ClaimNewKey | src/write.ts:66-75 | a new key adds one slot numbered by the count of keys before it |
| Write.ClaimSeenKey | src/write.ts:66-75 | a seen key adds no slot and overwrites its own |
| Write.LastWriteWins | src/write.ts:72-96 | two pushes under one key equal the second push alone |
| Write.NullKeyCanOverwrite | src/write.ts:63-71 | a missing key is numbered by the key count, so it can take over the slot of an explicit numeric key and overwrite its markup |
| Write.EmptyTextClaimsSlot | src/write.ts:91-95 | an empty text still claims a slot |
| Write.AttrKey | src/write.ts:132-135 | the stored name is the trimmed name, lower-cased for a null or XHTML namespace and kept as written otherwise; `is` in any case is dropped |
| Write.AttrStepSpec | src/write.ts:131-141 | an `is` push changes nothing; a `false` value removes the entry; any other value is stored under the key |
| Write.RecordSet | src/write.ts:139 | assignment keeps an existing name in its place and appends a new one last, leaving the other entries alone |
| Write.RecordDelete | src/write.ts:137 | `delete` removes exactly the entries with that name |
| Write.JoinWithSnoc | src/write.ts:29 | `join(' ')` puts exactly one separator between consecutive parts |
| Write.WriteElementAttrs | src/write.ts:23-30 | the loop yields `name="escaped"` for a non-empty value and the bare name for an empty one, in record order, joined by single spaces |
| Write.ElementMarkupShape | src/write.ts:142-148 | the self-closing form is used exactly for an empty element whose tag is in the void set; otherwise the inner markup sits verbatim between the tags |
| Write.VoidSetIsCaseSensitive | src/write.ts:3-21 | `br` self-closes, while `BR` receives a closing tag |
| Write.WriteContext.GetKeyOrder | src/write.ts:66-71 | returns `KeyOrder`, registers an unseen key last, and leaves the slots alone |
| Write.WriteContext.PushText | src/write.ts:91-96 | the slot table becomes the text's claim |
| Write.WriteContext.PushComment | src/write.ts:72-77 | the slot table becomes the comment's claim |
| Write.WriteContext.PushElement | src/write.ts:78-83 | the slot table becomes the claim of the element's own markup; the registry stack is restored |
| Write.WriteContext.Run | src/write.ts:98-100 | running the calls leaves the table `Fold` of the calls |
| Write.ElementWriteContext.constructor | src/write.ts:112-122 | a fresh context has empty slots, no attributes and the given tag, namespace and options |
| Write.ElementWriteContext.PushElementAttr | src/write.ts:131-141 | the attribute record becomes `AttrStep` of the old one |
| Write.ElementWriteContext.Render | src/write.ts:123-130 | a content function fills slots and attributes as the folds say and the joined slots become the inner markup; a string becomes the inner markup unescaped; no content gives `''`; in both of those cases the slots and the attribute record are unchanged |
| Write.ElementWriteContext.ToString | src/write.ts:142-148 | returns the element markup for the tag, the `is` part, the written attributes and the inner markup |
| Write.WriteElement | src/write.ts:32-37 | returns `ElementHTML` of the descriptor and restores the registry stack |
| Write.Write | src/write.ts:151-156 | returns `Serialize` of the calls and restores the registry stack |
| Callbacks.RunCleanupCallbacks | src/render.ts:31-40 | every cleanup callback runs once, in set order, even past one that throws, and the set ends empty |
| Callbacks.RunRemovedCallbacks | src/render.ts:185-193 | every removed callback runs once, in order, even past one that throws |
| Callbacks.RunCreatedCallbacks | src/render.ts:42-49 | the created callbacks run in order (wrappers run no user code) and their function results form the new removed set |
| Callbacks.CreatedRemovedSetMembers | src/render.ts:42-49 | a callback is in the resulting removed set exactly when some created entry returned it |
| Callbacks.RunUpdatedCallbacks | src/render.ts:195-206 | every updated callback runs once, in order; the results of those that did not throw form the cleanup set |
| Callbacks.UpdatedCleanupSetMembers | src/render.ts:195-206 | a callback is in that set exactly when some updated callback returned it without throwing |
| Find.RotateIndex | src/render.ts:233-234 | the visiting order is `list[(offset + i) % n]` |
| Find.RotateNoDup | src/render.ts:233-234 | the circular scan visits each child at most once |
| Find.FindNode | src/render.ts:226-245 | the loop returns what the scan specification returns, and the key map it leaves |
| Find.ScanSpec | src/render.ts:233-243 | the first exact match (kind and key) wins; otherwise the fallback; the first untagged node of the kind met before the result is tagged with the key |
| Find.FindFirstExact | src/render.ts:236-241 | the first node in visiting order of the kind recorded under the key is returned, and the first untagged node before it is still tagged |
| Find.FindFallback | src/render.ts:238-244 | with no exact match the first untagged node of the kind is returned and tagged with the key; null, with the keys unchanged, exactly when there is none (so always on an empty list) |
| Find.FindResult | src/render.ts:226-245 | a returned node is a child of the kind, recorded under the key afterwards, and was exact or untagged; at most one untagged node is tagged |
| ChildList.InsertBefore | src/render.ts:75 | `insertBefore` moves or adds the node, keeps the members otherwise and keeps the list duplicate-free |
| ChildList.InsertBeforePlaces | src/render.ts:74-76 | inserting before `childNodes[order]` a node not among the first `order` keeps those and puts the node at `order` |
| ChildList.RepeatedNodeLandsBeforeOrder | src/render.ts:179-181 | a node placed earlier in the same pass and found again lands at `order - 1`, not at `order` |
| ChildList.ReplaceChild | src/render.ts:160 | `replaceChild` keeps the length and swaps exactly the old child for the new one |
| ChildList.ReplaceChildPlaces | src/render.ts:159-160 | replacing the child at `order` keeps every other position |
| ChildList.RemoveChild | src/render.ts:162 | `removeChild` takes out exactly that child |
| ChildList.RemoveChildAt | src/render.ts:355-359 | removing the child at `order` keeps the children before it |
| Tree.Dom.EnsureCleanupSet | src/render.ts:24-29 | a missing cleanup set is created empty and an existing one kept; nothing else changes |
| Tree.Dom.Cleanup | src/render.ts:51-54 | a node with a cleanup set runs it in order and empties it; one without runs nothing |
| Tree.Dom.RemoveNode | src/render.ts:208-219 | the whole subtree's keys, cleanup sets and removed sets are forgotten, the tree is unchanged, and the log gains each node's cleanup then removed callbacks, the node before its children's subtrees in child order |
| Tree.Dom.RemoveChildNode | src/render.ts:221-224 | `removeNode` followed by `removeChild` |
| Tree.RemovalEventsCover | src/render.ts:208-219 | every cleanup and removed callback of every node of the removed subtree is run by the cascade |
| Tree.RemovalEventsQuiet | src/render.ts:208-219 | a subtree whose sets were already emptied or deleted runs nothing when removed again |
| Tree.Dom.InsertBefore | src/render.ts:75 | the child list becomes `ChildList.InsertBefore`, the node's parent is the target, and the tree stays well formed |
| Tree.Dom.SetAttributeNS | src/render.ts:319 | the attribute is stored under its name with the (normalised) namespace and value |
| Tree.Dom.RemoveAttribute | src/render.ts:352 | the attribute under the name `removeAttribute` looks up is removed: the ASCII-lower-cased name on an element in the HTML namespace, the name itself otherwise; that name is then absent and nothing else changes |
| Pass.TagsAgree | src/render.ts:298-300 | the compared tag equals the created tag except for the empty-string namespace, where they agree only on an already upper-case tag |
| Pass.EmptyNamespaceNeverMatches | src/render.ts:141 | a lower-case tag with namespace `''` is created upper-cased but compared as written, so it is replaced on every later pass |
| Pass.PlacedCount | src/render.ts:281-349 | each non-empty text or comment and each element takes the next position, under its own key or its position; nothing else takes one |
| Pass.UnkeyedIsDistinct | src/render.ts:297 | without explicit keys no two placements compete for one node |
| Pass.AttrFoldOverwrites | src/render.ts:315-321 | pushed attributes overwrite old ones and the others are kept |
| Pass.AttrFoldLastWins | src/render.ts:315-321 | the last push of a name decides its namespace and value |
| Pass.PushedNamesMembers | src/render.ts:316 | a name is kept from deletion exactly when some call pushed it |
| Pass.PassAttrs | src/render.ts:350-354 | after the names not pushed again are removed, the target has exactly the pushed attributes, whatever it had before |
| Pass.PassLinkedMembers | src/render.ts:328-333 | a linking callback is in the pass's linked set exactly when it was pushed |
| Pass.PassCleanupsMembers | src/render.ts:322-333 | a callback joins the cleanup set exactly when it was pushed as a cleanup or returned by a linking callback the pass ran |
| Pass.PassCreatedMembers | src/render.ts:325-336 | the created set holds exactly the pushed created callbacks plus one fresh wrapper per removed-callback push |
| Pass.PassRemovedMembers | src/render.ts:334-336 | on a first pass the removed set holds exactly the pushed removed callbacks and what the created callbacks returned |
| Ordering.LeafPushedPrefix | src/render.ts:340-349 | a non-empty text or comment push keeps the placed children and puts its node, showing its text and recorded under its key, at position `order` |
| Ordering.ElementPushedPrefix | src/render.ts:296-314 | an element push (update, replacement or creation) keeps the placed children and puts an element of its tag, recorded under its key, at `order` |
| Ordering.RunPrefix | src/render.ts:369-370 | the content function's calls leave the folded attributes, the gathered cleanup set, and, when no placements compete, the placements as the first children |
| Ordering.RestRemovedPrefix | src/render.ts:355-359 | `updateChildNodes` leaves at most `order` children, exactly the placements when no two compete |
| Ordering.AttrsRemovedPrefix | src/render.ts:350-354 | `updateAttributes` removes exactly the names `removeAttribute` arrives at from the names not pushed again (lower-cased on an HTML-namespace element) and touches nothing else |
| Ordering.MixedCaseAttributeSurvives | src/render.ts:350-354 | on a target in the HTML namespace, an old attribute whose name has an upper-case letter and that the pass does not push again keeps its old value after `render`, because `removeAttribute` looks up the lower-cased name |
| Ordering.RemovableAttrs | src/render.ts:350-354 | when every old name is already in the form removal folds it to, laying the pushed attributes over the old ones and removing the unpushed names leaves exactly the pushed attributes |
| Nodes.UpperCaseNeverRemoved | src/render.ts:352 | on an element in the HTML namespace, no name with an upper-case letter is among the names `removeAttribute` can remove |
| Ordering.CallbacksOutcome | src/render.ts:360-368 | on a later pass the updated callbacks' results join the cleanup set; on a first pass the created callbacks' results become the removed set; nodes and keys are unchanged |
| Ordering.RenderedOutcome | src/render.ts:377-387 | after `render` the target's attributes are the pushed ones laid over the old ones, less the names removal folds the unpushed old names to, which is exactly the pushed attributes when every old name is already in that form; no more children than placements, exactly them in order when none compete; its final cleanup set; and its new or kept removed set |
| Keeping.RunKeeps | src/render.ts:369-370 | the content function's calls keep the tree well formed and change only the target's subtree and new nodes |
| Keeping.RenderedKeeps | src/render.ts:377-387 | a whole `render` keeps the tree well formed and confined to the target's subtree and the nodes it creates |
| Reconciler.RenderContext.constructor | src/render.ts:269-280 | the context reads whether the target was rendered before and its attribute names, then runs the target's cleanup set |
| Reconciler.RenderContext.FindChild | src/render.ts:284-289 | returns a child of the kind as `findNode` specifies, storing the tag it writes |
| Reconciler.RenderContext.UpdateLeaf | src/render.ts:65-93 | the text is set only when it differs, and the node is moved to `order` unless already there |
| Reconciler.RenderContext.CreateLeaf | src/render.ts:95-119 | a new text or comment node is inserted at `order` and tagged with the key |
| Reconciler.RenderContext.PushLeaf | src/render.ts:343-346 | a found node is updated, otherwise a new one is created |
| Reconciler.RenderContext.SetAttr | src/render.ts:317-320 | `setAttributeNS` is called only when the current value differs |
| Reconciler.RenderContext.MakeElement | src/render.ts:141 | a non-empty namespace goes through `createElementNS`, anything else through `createElement` |
| Reconciler.RenderContext.UpdateElement | src/render.ts:169-183 | cleanup, nested content, then the move to `order` |
| Reconciler.RenderContext.CreateElement | src/render.ts:134-146 | a new element is made, its content rendered, inserted at `order` and tagged |
| Reconciler.RenderContext.ReplaceElement | src/render.ts:148-167 | the old element's subtree is removed (its callbacks run), a new one is made and rendered, swapped in, and tagged with the key |
| Reconciler.RenderContext.SwapIn | src/render.ts:159-164 | `replaceChild` when the old element is at `order`; otherwise `removeChild` and an insertion at `order` |
| Reconciler.RenderContext.PushText | src/render.ts:340-349 | an empty text is skipped and takes no position; otherwise the pass moves on by exactly one placement |
| Reconciler.RenderContext.PushComment | src/render.ts:281-295 | as `pushText`, for comments |
| Reconciler.RenderContext.PushElement | src/render.ts:296-314 | the element placement is made and `order` advances by one |
| Reconciler.RenderContext.PlaceElement | src/render.ts:301-311 | same tag updates in place, another tag replaces, no match creates |
| Reconciler.RenderContext.PushElementAttr | src/render.ts:315-321 | the name is kept from deletion and the attribute set unless it already has the value |
| Reconciler.RenderContext.PushElementCleanupCallback | src/render.ts:322-324 | the callback joins the target's cleanup set |
| Reconciler.RenderContext.PushElementCreatedCallback | src/render.ts:325-327 | the callback joins the created set |
| Reconciler.RenderContext.PushElementLinkingCallback | src/render.ts:328-333 | a callback already linked in this pass is ignored; otherwise it runs at once and its result joins the cleanup set |
| Reconciler.RenderContext.PushElementRemovedCallback | src/render.ts:334-336 | a fresh wrapper of the callback joins the created set |
| Reconciler.RenderContext.PushElementUpdatedCallback | src/render.ts:337-339 | the callback joins the updated set |
| Reconciler.RenderContext.UpdateAttributes | src/render.ts:350-354 | `removeAttribute` is called with every name still marked for deletion, so the attribute each one resolves to (its lower-case form on an HTML-namespace element) is gone and nothing else changes |
| Reconciler.RenderContext.UpdateChildNodes | src/render.ts:355-359 | the children from `order` on are removed one by one with `removeChildNode` |
| Reconciler.RenderContext.UpdateCallbacks | src/render.ts:360-368 | on a later pass the updated callbacks run and their results join the cleanup set; on a first pass the created callbacks' results become the removed set |
| Reconciler.RenderContext.AddCleanups | src/render.ts:362-364 | each returned cleanup joins the cleanup set, in order |
| Reconciler.RenderContext.RunCalls | src/render.ts:370 | the calls, one after the other, leave the document as `Run` says and the context holding `PassFold` of them |
| Reconciler.RenderContext.Render | src/render.ts:369-374 | the content's calls, then the returned cleanup, `updateAttributes`, `updateChildNodes` and `updateCallbacks` |
| Reconciler.RenderContent | src/render.ts:121-132 | a content function renders as a nested pass, a string replaces the markup, anything else does nothing |
| Reconciler.RenderNode | src/render.ts:382-386 | the target's cleanup set runs, a new context is pushed, renders and is popped, and the stack is restored |
| Reconciler.Render | src/render.ts:377-387 | without a target nothing happens; otherwise the document becomes `Rendered` of it |

## Left out

- Raw markup assigned with `innerHTML` is kept as an opaque string on the node and replaces its children. It is not parsed, so those children cannot be matched later.
- The `Renderer` factory and the `instanceof` kind tests are replaced by the arena's own node creation and an explicit kind tag.
- Create-element options are not passed to `createElement`, and custom-element constructors are not modelled.
- The WeakMap side tables are ordinary maps with explicit deletion; garbage collection is not modelled.
- `console.error`, `console.warn` and the NaN checks are left out. Numbers arrive as the text `String()` gives them.
- Reconciler.RenderContext.MakeElement and Reconciler.RenderContext.SetAttr: the name checks of `createElement`, `createElementNS` and `setAttributeNS` and the exceptions they raise (InvalidCharacterError for a tag such as `""` or `"1a"` or an attribute name such as `"a b"`, NamespaceError for `"xlink:href"` without a namespace) are not modelled; the model always creates or sets. In the source such an exception leaves `render` before `context.pop()` (`src/render.ts:385-386`), so the context stays pushed, while `Reconciler.RenderNode` always pops.
- A pass of one back-end nested inside a content function of the other (`write` inside `render`, or the reverse) is not modelled: the two back-ends use registries of different context types, so one registry cannot hold both kinds of context.
- Exceptions: a thrown cleanup, removed or updated callback is a flag that does not stop the loop, which is what the source does. A created or linking callback, or a content function, that throws would abort the pass; this is not modelled, and these callbacks always return.
- The lifecycle forwarders (`src/created.ts`, `src/linking.ts`, `src/removed.ts`, `src/updated.ts`, `src/cleanup.ts`) only peek the context and forward. They are not part of this model: a call to one is a `Push` in the call sequence.
- `String.prototype.toUpperCase`/`toLowerCase` are modelled on ASCII letters only. JavaScript's whitespace set for `trim` is written out.
- Attributes of the live tree are identified by their qualified name. `getAttributeNS`/`setAttributeNS` compare the namespace but store one entry per name.
- The string back-end's `attrs` record is an insertion-ordered list. JavaScript's own enumeration order, which puts integer-like property names first, is not modelled.
- `Reconciler.RenderContext.PushText`, `PushComment` and `PushElement` do not return the node. That the pushed node ends at `childNodes[order]` is stated as the position of its placement (`Ordering.LeafPushedPrefix`, `Ordering.ElementPushedPrefix`).
- Ordering.RenderedOutcome: states exactly one child per placement only when no two placements of the pass share a kind and key; with a repeated key the source leaves fewer children than `order` (see `ChildList.RepeatedNodeLandsBeforeOrder`).
- `updateText` and `updateComment` are one method, `Reconciler.RenderContext.UpdateLeaf`, and likewise `createText`/`createComment` are `CreateLeaf`, since their bodies are the same.
- That a second identical pass makes no DOM writes is not stated. The model describes the state a pass leaves, not the sequence of DOM calls it makes.
- Descriptors.KeyValue: keys are integers or strings only. The source accepts any value as a key: NaN, which never matches under `===` in `findNode` (`src/render.ts:236`) but is one key in the string back-end's `Map` (`src/write.ts:66-70`), and object, boolean and fractional keys are not modelled.
- Only an HTML document is modelled: `createElement` upper-cases the tag and places the element in the HTML namespace, and `removeAttribute` lower-cases names on such elements. An XML document, where neither happens, is not modelled.
- The log records which user callbacks ran (node, phase, id) and in what order. It does not record what they did to the outside world.
