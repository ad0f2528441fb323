/** The reconciler of src/render.ts as functions on snapshots of the
    document. Each function says what one step of `render` does to the tree,
    to the three side tables and to the record of callbacks run; the methods
    of module Reconciler are proved to do exactly this, and modules Keeping
    and Ordering prove what a pass achieves. A guard that fails (an argument
    the DOM call would reject) leaves the snapshot as it is; the methods
    never reach such a case. */
module Reconcile {
  import opened Common
  import opened Descriptors
  import opened Nodes
  import opened Callbacks
  import opened Tree
  import opened Pass
  import ChildList
  import Find

  // ---------------------------------------------------------------------
  // The document calls, as the methods of Tree.Dom make them

  ghost function Created(w: Doc, node: Node): Doc {
    Doc(w.s.(nodes := w.s.nodes[w.s.next := node], next := w.s.next + 1), w.log)
  }

  /** The element `createElement`/`createElementNS` makes for a descriptor. */
  function NewElement(d: ElementDescriptor): Node {
    Node(ElementNode, CreatedTag(d), "", [], map[], None, CreatedInHtml(d))
  }

  function NewLeaf(kind: Kind, data: string): Node {
    Node(kind, "", data, [], map[], None, false)
  }

  ghost function Inserted(w: Doc, t: NodeId, x: NodeId, ref: Option<NodeId>): Doc {
    if t in w.s.nodes && (ref.Some? ==> ref.value in w.s.nodes[t].children && ref.value != x) then
      Doc(w.s.(nodes := w.s.nodes[t := w.s.nodes[t].(children := ChildList.InsertBefore(w.s.nodes[t].children, x, ref))],
               parent := w.s.parent[x := t]), w.log)
    else w
  }

  ghost function Removed(w: Doc, t: NodeId, x: NodeId): Doc {
    if t in w.s.nodes && NoDup(w.s.nodes[t].children) && x in w.s.nodes[t].children then
      Doc(w.s.(nodes := w.s.nodes[t := w.s.nodes[t].(children := ChildList.RemoveChild(w.s.nodes[t].children, x))],
               parent := w.s.parent - {x}), w.log)
    else w
  }

  ghost function Replaced(w: Doc, t: NodeId, nw: NodeId, oc: NodeId): Doc {
    if t in w.s.nodes && NoDup(w.s.nodes[t].children) && oc in w.s.nodes[t].children && nw !in w.s.nodes[t].children then
      Doc(w.s.(nodes := w.s.nodes[t := w.s.nodes[t].(children := ChildList.ReplaceChild(w.s.nodes[t].children, nw, oc))],
               parent := (w.s.parent - {oc})[nw := t]), w.log)
    else w
  }

  ghost function WithData(w: Doc, x: NodeId, data: string): Doc {
    if x in w.s.nodes then Doc(w.s.(nodes := w.s.nodes[x := w.s.nodes[x].(data := data)]), w.log) else w
  }

  ghost function WithAttr(w: Doc, x: NodeId, ns: Option<string>, name: string, value: string): Doc {
    if x in w.s.nodes then
      Doc(w.s.(nodes := w.s.nodes[x := w.s.nodes[x].(attrs := w.s.nodes[x].attrs[name := AttrEntry(NormNs(ns), value)])]), w.log)
    else w
  }

  /** `getAttributeNS` on a node's record. */
  function AttrLookup(n: Node, ns: Option<string>, name: string): Option<string> {
    if name in n.attrs && n.attrs[name].namespaceURI == NormNs(ns) then Some(n.attrs[name].value) else None
  }

  ghost function WithMarkup(w: Doc, x: NodeId, html: string): Doc {
    if x in w.s.nodes then
      Doc(w.s.(nodes := w.s.nodes[x := w.s.nodes[x].(children := [], markup := Some(html))],
               parent := w.s.parent - (set c | c in w.s.nodes[x].children)), w.log)
    else w
  }

  ghost function Keyed(w: Doc, x: NodeId, k: KeyValue): Doc {
    Doc(w.s.(keys := w.s.keys[x := k]), w.log)
  }

  ghost function CleanupEnsured(w: Doc, x: NodeId): Doc {
    Doc(w.s.(cleanups := if x in w.s.cleanups then w.s.cleanups else w.s.cleanups[x := []]), w.log)
  }

  ghost function CleanupAdded(w: Doc, x: NodeId, c: Callback): Doc {
    if x in w.s.cleanups then Doc(w.s.(cleanups := w.s.cleanups[x := SetAdd(w.s.cleanups[x], c)]), w.log) else w
  }

  ghost function Recorded(w: Doc, events: seq<Event>): Doc {
    Doc(w.s, w.log + events)
  }

  /** `cleanup(x)`: the node's cleanup set runs and is emptied. */
  ghost function CleanedUp(w: Doc, x: NodeId): Doc {
    Doc(w.s.(cleanups := if x in w.s.cleanups then w.s.cleanups[x := []] else w.s.cleanups),
        w.log + CallbackEvents(x, CleanupPhase, if x in w.s.cleanups then w.s.cleanups[x] else []))
  }

  /** `removeNode(x)`: the subtree's tables are forgotten and its callbacks
      run, top down. */
  ghost function NodeRemoved(w: Doc, x: NodeId): Doc {
    if TreeWf(w.s.nodes, w.s.parent, w.s.next) && x in w.s.nodes then
      Doc(Forget(w.s, Sub(w.s.nodes, w.s.parent, x)), w.log + RemovalEvents(w.s, x))
    else w
  }

  /** `removeChildNode(t, x)`. */
  ghost function ChildNodeRemoved(w: Doc, t: NodeId, x: NodeId): Doc {
    Removed(NodeRemoved(w, x), t, x)
  }

  // ---------------------------------------------------------------------
  // Placing children

  /** `target.childNodes[order]`, or nothing past the end. */
  ghost function ChildAt(w: Doc, t: NodeId, order: nat): Option<NodeId> {
    if t in w.s.nodes && order < |w.s.nodes[t].children| then Some(w.s.nodes[t].children[order]) else None
  }

  /** `target.insertBefore(n, target.childNodes[order])`. */
  ghost function InsertedAt(w: Doc, t: NodeId, order: nat, n: NodeId): Doc {
    Inserted(w, t, n, ChildAt(w, t, order))
  }

  /** The same, skipped when `n` is already at `order`. */
  ghost function Placed(w: Doc, t: NodeId, order: nat, n: NodeId): Doc {
    if ChildAt(w, t, order) == Some(n) then w else InsertedAt(w, t, order, n)
  }

  /** `findNode(target.childNodes, key, kind, order)`. */
  ghost function Search(w: Doc, t: NodeId, key: KeyValue, kind: Kind, order: nat): Find.Found
    requires t in w.s.nodes
  {
    Find.FindSpec(w.s.nodes[t].children, w.s.nodes, w.s.keys, key, kind, order)
  }

  /** `updateText` and `updateComment`. */
  ghost function LeafUpdated(w: Doc, t: NodeId, order: nat, n: NodeId, data: string): Doc {
    var w1 := if n in w.s.nodes && w.s.nodes[n].data != data then WithData(w, n, data) else w;
    Placed(w1, t, order, n)
  }

  /** `createText` and `createComment`. */
  ghost function LeafCreated(w: Doc, t: NodeId, order: nat, kind: Kind, key: KeyValue, data: string): Doc {
    var n := w.s.next;
    Keyed(InsertedAt(Created(w, NewLeaf(kind, data)), t, order, n), n, key)
  }

  /** `pushText` and `pushComment` for a non-empty text. */
  ghost function LeafPushed(w: Doc, t: NodeId, order: nat, kind: Kind, key: KeyValue, data: string): Doc {
    if t !in w.s.nodes then w
    else
      var found := Search(w, t, key, kind, order);
      var w1 := Doc(w.s.(keys := found.keys), w.log);
      if found.node.Some? then LeafUpdated(w1, t, order, found.node.value, data)
      else LeafCreated(w1, t, order, kind, key, data)
  }

  /** `pushElementAttr`: the attribute is set unless it already has the
      value (a `false` value never has it). */
  ghost function AttrPushed(w: Doc, t: NodeId, a: AttrDescriptor): Doc {
    if t !in w.s.nodes then w
    else
      var value := AttrLookup(w.s.nodes[t], a.namespaceURI, a.name);
      if a.value.AttrFalse? || value != Some(a.value.s) then WithAttr(w, t, a.namespaceURI, a.name, AttrText(a.value))
      else w
  }

  // ---------------------------------------------------------------------
  // Elements and nested passes

  /** `pushElement`. */
  ghost function ElementPushed(w: Doc, t: NodeId, order: nat, d: ElementDescriptor): Doc
    decreases d, 3
  {
    if t !in w.s.nodes then w
    else
      var key := KeyOf(d.key, order);
      var found := Search(w, t, key, ElementNode, order);
      var w1 := Doc(w.s.(keys := found.keys), w.log);
      if found.node.Some? then
        var n := found.node.value;
        if n in w1.s.nodes && ComparedTag(d) == w1.s.nodes[n].tagName then ElementUpdated(w1, t, order, d, n)
        else ElementReplaced(w1, t, order, n, d, key)
      else ElementCreated(w1, t, order, d, key)
  }

  /** `updateElement`. */
  ghost function ElementUpdated(w: Doc, t: NodeId, order: nat, d: ElementDescriptor, n: NodeId): Doc
    decreases d, 2
  {
    Placed(ContentRendered(CleanedUp(w, n), n, d.content), t, order, n)
  }

  /** `createElement`. */
  ghost function ElementCreated(w: Doc, t: NodeId, order: nat, d: ElementDescriptor, key: KeyValue): Doc
    decreases d, 2
  {
    var n := w.s.next;
    Keyed(InsertedAt(ContentRendered(Created(w, NewElement(d)), n, d.content), t, order, n), n, key)
  }

  /** `replaceElement`: the old element is removed (its callbacks run)
      before the new one is made and rendered. */
  ghost function ElementReplaced(w: Doc, t: NodeId, order: nat, prev: NodeId, d: ElementDescriptor, key: KeyValue): Doc
    decreases d, 2
  {
    var w1 := NodeRemoved(w, prev);
    var n := w1.s.next;
    var w2 := ContentRendered(Created(w1, NewElement(d)), n, d.content);
    var w3 := if ChildAt(w2, t, order) == Some(prev) then Replaced(w2, t, n, prev) else InsertedAt(Removed(w2, t, prev), t, order, n);
    Keyed(w3, n, key)
  }

  /** `renderContent`. */
  ghost function ContentRendered(w: Doc, n: NodeId, content: Option<Content>): Doc
    decreases content, 1
  {
    match content
    case None => w
    case Some(Markup(html)) => WithMarkup(w, n, html)
    case Some(Body(ps, unref)) => Rendered(w, n, ps, unref)
  }

  /** One context call. */
  ghost function Stepped(w: Doc, t: NodeId, f: PassState, p: Push): Doc
    decreases p, 1
  {
    var order := |f.placed|;
    match p
    case PushText(d) => if d.content == "" then w else LeafPushed(w, t, order, TextNode, KeyOf(d.key, order), d.content)
    case PushComment(d) => if d.content == "" then w else LeafPushed(w, t, order, CommentNode, KeyOf(d.key, order), d.content)
    case PushElement(d) => ElementPushed(w, t, order, d)
    case PushAttr(a) => AttrPushed(w, t, a)
    case PushCleanup(c) => CleanupAdded(w, t, c)
    case PushLinking(h) =>
      if h in f.linked then w
      else
        var w1 := Recorded(w, [Ran(t, LinkingPhase, h.id)]);
        if h.returned.Some? then CleanupAdded(w1, t, h.returned.value) else w1
    case _ => w
  }

  /** The content function's calls, one after the other. */
  ghost function Run(w: Doc, t: NodeId, ps: seq<Push>): Doc
    decreases ps, 1
  {
    if ps == [] then w
    else
      var init := ps[..|ps| - 1];
      Stepped(Run(w, t, init), t, PassFold(init), ps[|ps| - 1])
  }

  /** `updateChildNodes`: the children from `order` on are removed, one by
      one. */
  ghost function RestRemoved(w: Doc, t: NodeId, order: nat): Doc
    decreases if t in w.s.nodes then |w.s.nodes[t].children| else 0
  {
    if t in w.s.nodes && order < |w.s.nodes[t].children| && TreeWf(w.s.nodes, w.s.parent, w.s.next) then
      var x := w.s.nodes[t].children[order];
      var w1 := NodeRemoved(w, x);
      assert w1.s.nodes == w.s.nodes && w1.s.parent == w.s.parent;
      RestRemoved(Removed(w1, t, x), t, order)
    else w
  }

  /** `updateAttributes`: `removeAttribute` is called for each name not
      pushed again. */
  ghost function AttrsRemoved(w: Doc, t: NodeId, names: set<string>): Doc {
    if t in w.s.nodes then
      Doc(w.s.(nodes := w.s.nodes[t := w.s.nodes[t].(attrs := w.s.nodes[t].attrs - RemovedNames(w.s.nodes[t], names))]), w.log)
    else w
  }

  /** The record of running an updated-callback set. */
  function UpdatedEvents(t: NodeId, ups: seq<Updater>): (r: seq<Event>)
    ensures |r| == |ups|
  {
    seq(|ups|, i requires 0 <= i < |ups| => Ran(t, UpdatedPhase, ups[i].id))
  }

  /** `updateCallbacks`: on a later pass the updated callbacks run and what
      they return joins the cleanup set; on the first, the created callbacks
      run and what they return becomes the removed set. */
  ghost function CallbacksRun(w: Doc, t: NodeId, isUpdated: bool, f: PassState): Doc {
    if isUpdated then
      var w1 := Recorded(w, UpdatedEvents(t, f.updated));
      if t in w1.s.cleanups then
        Doc(w1.s.(cleanups := w1.s.cleanups[t := SetAddAll(w1.s.cleanups[t], UpdatedCleanupSet(f.updated))]), w1.log)
      else w1
    else
      var w1 := Recorded(w, CreatedEvents(t, f.created));
      Doc(w1.s.(removeds := w1.s.removeds[t := CreatedRemovedSet(f.created)]), w1.log)
  }

  /** `render(t, content)` for a content function making the calls `ps`
      and returning `unref`: the target's cleanup set runs, then a context
      is made (running the now empty set again), the calls are made, and the
      pass ends with attributes, surplus children and callbacks. */
  ghost function Rendered(w: Doc, t: NodeId, ps: seq<Push>, unref: Option<Callback>): Doc
    decreases ps, 2
  {
    if t !in w.s.nodes then w
    else
      var w1 := CleanedUp(CleanupEnsured(w, t), t);
      var isUpdated := t in w1.s.removeds;
      var names := w1.s.nodes[t].attrs.Keys;
      var w2 := CleanedUp(CleanupEnsured(w1, t), t);
      var w3 := Run(w2, t, ps);
      var w4 := if unref.Some? then CleanupAdded(w3, t, unref.value) else w3;
      var w5 := AttrsRemoved(w4, t, names - PushedNames(ps));
      var f := PassFold(ps);
      CallbacksRun(RestRemoved(w5, t, |f.placed|), t, isUpdated, f)
  }

  /** The exported `render`: nothing for a missing target. */
  ghost function RenderedAt(w: Doc, target: Option<NodeId>, ps: seq<Push>): Doc {
    if target.None? then w else Rendered(w, target.value, ps, None)
  }
}
