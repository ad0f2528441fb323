/** Every function of module Reconcile keeps the tree well formed and
    changes only the subtree of the node it renders into, plus the nodes it
    creates: the frame a nested pass relies on, and the one that lets the
    methods of module Reconciler make their DOM calls. */
module Keeping {
  import opened Common
  import opened Descriptors
  import opened Nodes
  import opened Callbacks
  import opened Tree
  import opened Pass
  import opened Placing
  import opened Reconcile
  import ChildList
  import Find

  /** The tree and its side tables are well formed (`Tree.Wf`, taken here
      as one fact). */
  ghost predicate Sound(s: DomState) {
    Wf(s)
  }

  /** From `s` to `s'`: the tree stays well formed, only `t`'s subtree and
      nodes created from `s` on change, and `t` keeps a cleanup set. */
  ghost predicate Keeps(s: DomState, s': DomState, t: NodeId) {
    Sound(s') && Confined(s, s', t, s.next) && (t in s.cleanups ==> t in s'.cleanups)
  }

  /** One edit: the tree stays well formed, only the nodes in `d` change,
      and `t` keeps its place, its key and its cleanup set. */
  ghost predicate Edited(s: DomState, s': DomState, t: NodeId, d: set<NodeId>) {
    && Sound(s') && Changed(s, s', d)
    && Agree(s.parent, s'.parent, t) && Agree(s.keys, s'.keys, t) && (t in s.cleanups ==> t in s'.cleanups)
  }

  lemma KeepsRefl(s: DomState, t: NodeId)
    requires Sound(s)
    ensures Keeps(s, s, t)
  {
    ConfinedRefl(s, t, s.next);
  }

  lemma KeepsTrans(s0: DomState, s1: DomState, s2: DomState, t: NodeId)
    requires Keeps(s0, s1, t) && Keeps(s1, s2, t)
    ensures Keeps(s0, s2, t)
  {
    ConfinedWiden(s1, s2, t, t, s1.next, s0.next);
    ConfinedTrans(s0, s1, s2, t, s0.next);
  }

  /** An edit of nodes in `t`'s subtree or created since `s0`. */
  lemma EditKeeps(s0: DomState, s: DomState, s': DomState, t: NodeId, d: set<NodeId>)
    requires Keeps(s0, s, t) && Edited(s, s', t, d)
    requires forall y :: y in d && y < s0.next ==> Below(s.parent, y, t)
    ensures Keeps(s0, s', t)
  {
    ChangedConfined(s, s', d, t, s0.next);
    ConfinedTrans(s0, s, s', t, s0.next);
  }

  /** An edit of `t` and of `x`, one of its children or a node created
      since `s0`. */
  lemma PairEditKeeps(s0: DomState, s: DomState, s': DomState, t: NodeId, x: NodeId)
    requires Keeps(s0, s, t) && t in s.nodes && Edited(s, s', t, {t, x})
    requires x in s.nodes[t].children || s0.next <= x
    ensures Keeps(s0, s', t)
  {
    if x < s0.next {
      ChildIsBelow(s, t, x);
    }
    EditKeeps(s0, s, s', t, {t, x});
  }

  /** An edit of `x` alone, one of `t`'s children or a node created since
      `s0`. */
  lemma NodeEditKeeps(s0: DomState, s: DomState, s': DomState, t: NodeId, x: NodeId)
    requires Keeps(s0, s, t) && t in s.nodes && x != t && Sound(s') && Changed(s, s', {x})
    requires x in s.nodes[t].children || s0.next <= x
    ensures Keeps(s0, s', t)
  {
    assert Same(s, s', t);
    if x < s0.next {
      ChildIsBelow(s, t, x);
    }
    EditKeeps(s0, s, s', t, {x});
  }

  /** An edit of `t`'s own record or tables. */
  lemma SelfEditKeeps(s0: DomState, s: DomState, s': DomState, t: NodeId)
    requires Keeps(s0, s, t) && Edited(s, s', t, {t})
    ensures Keeps(s0, s', t)
  {
    EditKeeps(s0, s, s', t, {t});
  }

  // ---------------------------------------------------------------------
  // The document calls

  lemma CreatedEdit(w: Doc, node: Node)
    requires Sound(w.s) && node.children == []
    ensures var r := Created(w, node);
      && Sound(r.s) && Changed(w.s, r.s, {w.s.next})
      && w.s.next !in w.s.nodes && w.s.next !in w.s.parent
  {
    CreateWf(w.s, node);
    assert w.s.next !in w.s.nodes;
    FreshDetached(w.s, w.s.next);
  }

  lemma CreatedKeeps(s0: DomState, w: Doc, t: NodeId, node: Node)
    requires Keeps(s0, w.s, t) && t in w.s.nodes && node.children == []
    ensures var r := Created(w, node);
      && Keeps(s0, r.s, t) && r.s.nodes == w.s.nodes[w.s.next := node] && r.s.parent == w.s.parent
      && r.s.next == w.s.next + 1 && w.s.next !in w.s.parent && w.s.next !in w.s.nodes[t].children && t < w.s.next
  {
    CreatedEdit(w, node);
    DetachedNotChild(w.s, t, w.s.next);
    NodeEditKeeps(s0, w.s, Created(w, node).s, t, w.s.next);
  }

  /** `insertBefore` of a child of `t`, or of a node without a parent
      created after `t`. */
  lemma InsertedEdit(w: Doc, t: NodeId, x: NodeId, ref: Option<NodeId>)
    requires Sound(w.s) && t in w.s.nodes && x in w.s.nodes && t < x
    requires x in w.s.nodes[t].children || x !in w.s.parent
    requires ref.Some? ==> ref.value in w.s.nodes[t].children && ref.value != x
    ensures var r := Inserted(w, t, x, ref);
      Edited(w.s, r.s, t, {t, x}) && x in r.s.nodes[t].children
  {
    InsertedSound(w, t, x, ref);
    InsertedChanged(w, t, x, ref);
  }

  lemma InsertedSound(w: Doc, t: NodeId, x: NodeId, ref: Option<NodeId>)
    requires Sound(w.s) && t in w.s.nodes && x in w.s.nodes && t < x
    requires x in w.s.nodes[t].children || x !in w.s.parent
    requires ref.Some? ==> ref.value in w.s.nodes[t].children && ref.value != x
    ensures Sound(Inserted(w, t, x, ref).s)
  {
    InsertWf(w.s, t, x, ref);
  }

  lemma InsertedChanged(w: Doc, t: NodeId, x: NodeId, ref: Option<NodeId>)
    requires t in w.s.nodes && t != x
    requires ref.Some? ==> ref.value in w.s.nodes[t].children && ref.value != x
    ensures var r := Inserted(w, t, x, ref);
      && Changed(w.s, r.s, {t, x}) && Agree(w.s.parent, r.s.parent, t) && r.s.keys == w.s.keys
      && r.s.cleanups == w.s.cleanups && x in r.s.nodes[t].children
  {
    var node := w.s.nodes[t].(children := ChildList.InsertBefore(w.s.nodes[t].children, x, ref));
    NodeEditChanged(w.s, t, node, w.s.parent[x := t], {t, x});
  }

  lemma InsertedKeeps(s0: DomState, w: Doc, t: NodeId, x: NodeId, ref: Option<NodeId>)
    requires Keeps(s0, w.s, t) && t in w.s.nodes && x in w.s.nodes && t < x
    requires x in w.s.nodes[t].children || (x !in w.s.parent && s0.next <= x)
    requires ref.Some? ==> ref.value in w.s.nodes[t].children && ref.value != x
    ensures var r := Inserted(w, t, x, ref);
      Keeps(s0, r.s, t) && x in r.s.nodes[t].children
  {
    InsertedEdit(w, t, x, ref);
    PairEditKeeps(s0, w.s, Inserted(w, t, x, ref).s, t, x);
  }

  lemma RemovedEdit(w: Doc, t: NodeId, x: NodeId)
    requires Sound(w.s) && t in w.s.nodes && x in w.s.nodes[t].children
    ensures var r := Removed(w, t, x);
      Edited(w.s, r.s, t, {t, x}) && r.s.parent == w.s.parent - {x}
  {
    RemovedSound(w, t, x);
    RemovedChanged(w, t, x);
  }

  lemma RemovedSound(w: Doc, t: NodeId, x: NodeId)
    requires Sound(w.s) && t in w.s.nodes && x in w.s.nodes[t].children
    ensures NoDup(w.s.nodes[t].children) && Sound(Removed(w, t, x).s)
  {
    RemoveChildWf(w.s, t, x);
  }

  lemma RemovedChanged(w: Doc, t: NodeId, x: NodeId)
    requires t in w.s.nodes && NoDup(w.s.nodes[t].children) && x in w.s.nodes[t].children
    ensures var r := Removed(w, t, x);
      && Changed(w.s, r.s, {t, x}) && r.s.parent == w.s.parent - {x} && r.s.keys == w.s.keys
      && r.s.cleanups == w.s.cleanups
  {
    var node := w.s.nodes[t].(children := ChildList.RemoveChild(w.s.nodes[t].children, x));
    NodeEditChanged(w.s, t, node, w.s.parent - {x}, {t, x});
  }

  lemma RemovedKeeps(s0: DomState, w: Doc, t: NodeId, x: NodeId)
    requires Keeps(s0, w.s, t) && t in w.s.nodes && x in w.s.nodes[t].children
    ensures var r := Removed(w, t, x);
      Keeps(s0, r.s, t) && r.s.parent == w.s.parent - {x}
  {
    RemovedEdit(w, t, x);
    PairEditKeeps(s0, w.s, Removed(w, t, x).s, t, x);
  }

  lemma ReplacedEdit(w: Doc, t: NodeId, nw: NodeId, oc: NodeId)
    requires Sound(w.s) && t in w.s.nodes && oc in w.s.nodes[t].children
    requires nw in w.s.nodes && nw !in w.s.parent && t < nw
    ensures var r := Replaced(w, t, nw, oc);
      Edited(w.s, r.s, t, {t, nw, oc}) && nw in r.s.nodes[t].children
  {
    ReplacedSound(w, t, nw, oc);
    ChildIsBelow(w.s, t, oc);
    ReplacedChanged(w, t, nw, oc);
  }

  lemma ReplacedSound(w: Doc, t: NodeId, nw: NodeId, oc: NodeId)
    requires Sound(w.s) && t in w.s.nodes && oc in w.s.nodes[t].children
    requires nw in w.s.nodes && nw !in w.s.parent && t < nw
    ensures NoDup(w.s.nodes[t].children) && nw !in w.s.nodes[t].children && Sound(Replaced(w, t, nw, oc).s)
  {
    ReplaceWf(w.s, t, nw, oc);
  }

  lemma ReplacedChanged(w: Doc, t: NodeId, nw: NodeId, oc: NodeId)
    requires t in w.s.nodes && NoDup(w.s.nodes[t].children) && oc in w.s.nodes[t].children && nw !in w.s.nodes[t].children
    requires t != nw && t != oc
    ensures var r := Replaced(w, t, nw, oc);
      && Changed(w.s, r.s, {t, nw, oc}) && Agree(w.s.parent, r.s.parent, t) && r.s.keys == w.s.keys
      && r.s.cleanups == w.s.cleanups && nw in r.s.nodes[t].children
  {
    var node := w.s.nodes[t].(children := ChildList.ReplaceChild(w.s.nodes[t].children, nw, oc));
    NodeEditChanged(w.s, t, node, (w.s.parent - {oc})[nw := t], {t, nw, oc});
  }

  lemma ReplacedKeeps(s0: DomState, w: Doc, t: NodeId, nw: NodeId, oc: NodeId)
    requires Keeps(s0, w.s, t) && t in w.s.nodes && oc in w.s.nodes[t].children
    requires nw in w.s.nodes && nw !in w.s.parent && t < nw && s0.next <= nw
    ensures var r := Replaced(w, t, nw, oc);
      Keeps(s0, r.s, t) && nw in r.s.nodes[t].children
  {
    ReplacedEdit(w, t, nw, oc);
    TripleEditKeeps(s0, w.s, Replaced(w, t, nw, oc).s, t, nw, oc);
  }

  /** An edit of `t`, of its child `x` and of a node `y` created since
      `s0`. */
  lemma TripleEditKeeps(s0: DomState, s: DomState, s': DomState, t: NodeId, y: NodeId, x: NodeId)
    requires Keeps(s0, s, t) && t in s.nodes && Edited(s, s', t, {t, y, x})
    requires x in s.nodes[t].children && s0.next <= y
    ensures Keeps(s0, s', t)
  {
    ChildIsBelow(s, t, x);
    EditKeeps(s0, s, s', t, {t, y, x});
  }

  /** A new record for `x` with the same kind, tag and children. */
  lemma NodeEdit(w: Doc, x: NodeId, node: Node)
    requires Sound(w.s) && x in w.s.nodes && node.children == w.s.nodes[x].children
    requires node.kind == w.s.nodes[x].kind && node.tagName == w.s.nodes[x].tagName
    ensures Edited(w.s, w.s.(nodes := w.s.nodes[x := node]), x, {x})
  {
    SetNodeWf(w.s, x, node);
    NodeEditChanged(w.s, x, node, w.s.parent, {x});
  }

  lemma WithMarkupEdit(w: Doc, x: NodeId, html: string)
    requires Sound(w.s) && x in w.s.nodes
    ensures Edited(w.s, WithMarkup(w, x, html).s, x, {x} + (set c | c in w.s.nodes[x].children))
  {
    InnerHTMLWf(w.s, x, html);
    var gone := set c | c in w.s.nodes[x].children;
    NodeEditChanged(w.s, x, w.s.nodes[x].(children := [], markup := Some(html)), w.s.parent - gone, {x} + gone);
    assert x !in gone by {
      if x in gone {
        ChildrenInside(w.s, x);
      }
    }
  }

  /** An edit of the side tables at `x` alone. */
  lemma TablesEdit(w: Doc, s': DomState, x: NodeId)
    requires Sound(w.s) && x in w.s.nodes
    requires s'.nodes == w.s.nodes && s'.parent == w.s.parent && s'.next == w.s.next
    requires TablesWf(s')
    requires forall y :: y != x ==> Agree(w.s.keys, s'.keys, y) && Agree(w.s.cleanups, s'.cleanups, y) && Agree(w.s.removeds, s'.removeds, y)
    ensures Sound(s') && Changed(w.s, s', {x})
  {
  }

  /** Keying a child of `t`. */
  lemma KeyedKeeps(s0: DomState, w: Doc, t: NodeId, n: NodeId, key: KeyValue)
    requires Keeps(s0, w.s, t) && t in w.s.nodes && n in w.s.nodes[t].children
    ensures Keeps(s0, Keyed(w, n, key).s, t)
  {
    ChildIsBelow(w.s, t, n);
    TablesEdit(w, Keyed(w, n, key).s, n);
    NodeEditKeeps(s0, w.s, Keyed(w, n, key).s, t, n);
  }

  lemma NodeRemovedEdit(w: Doc, x: NodeId)
    requires Sound(w.s) && x in w.s.nodes
    ensures var r := NodeRemoved(w, x);
      && Sound(r.s) && Changed(w.s, r.s, Sub(w.s.nodes, w.s.parent, x))
      && r == Doc(Forget(w.s, Sub(w.s.nodes, w.s.parent, x)), w.log + RemovalEvents(w.s, x))
  {
    ForgetWf(w.s, Sub(w.s.nodes, w.s.parent, x));
    ForgetChanged(w.s, Sub(w.s.nodes, w.s.parent, x));
  }

  /** Forgetting the subtree of a child of `t`. */
  lemma ChildRemovalKeeps(s0: DomState, w: Doc, t: NodeId, x: NodeId)
    requires Keeps(s0, w.s, t) && t in w.s.nodes && x in w.s.nodes[t].children
    ensures var r := NodeRemoved(w, x);
      Keeps(s0, r.s, t) && r.s.nodes == w.s.nodes && r.s.parent == w.s.parent && r.s.next == w.s.next
  {
    var d := Sub(w.s.nodes, w.s.parent, x);
    ChildIsBelow(w.s, t, x);
    NodeRemovedEdit(w, x);
    assert t !in d by {
      if Below(w.s.parent, t, x) {
        BelowAtLeast(w.s.parent, t, x);
      }
    }
    forall y | y in d && y < s0.next ensures Below(w.s.parent, y, t) {
      BelowTrans(w.s.parent, y, x, t);
    }
    EditKeeps(s0, w.s, NodeRemoved(w, x).s, t, d);
  }

  // ---------------------------------------------------------------------
  // Leaves and attributes

  lemma PlacedKeeps(s0: DomState, w: Doc, t: NodeId, order: nat, n: NodeId)
    requires Keeps(s0, w.s, t) && t in w.s.nodes && n in w.s.nodes && t < n
    requires n in w.s.nodes[t].children || (n !in w.s.parent && s0.next <= n)
    ensures var r := Placed(w, t, order, n);
      Keeps(s0, r.s, t) && n in r.s.nodes[t].children
  {
    if ChildAt(w, t, order) != Some(n) {
      InsertedKeeps(s0, w, t, n, ChildAt(w, t, order));
    }
  }

  /** `findNode` only tags a child of `t`. */
  lemma SearchKeeps(w: Doc, t: NodeId, key: KeyValue, kind: Kind, order: nat)
    requires Sound(w.s) && t in w.s.nodes
    ensures var found := Search(w, t, key, kind, order);
      && Keeps(w.s, w.s.(keys := found.keys), t)
      && (found.node.Some? ==> found.node.value in w.s.nodes[t].children && found.node.value in w.s.nodes)
  {
    var s := w.s;
    var found := Search(w, t, key, kind, order);
    Find.FindResult(s.nodes[t].children, s.nodes, s.keys, key, kind, order);
    RetagKeeps(s, t, [], kind, key, found.keys, s.next);
  }

  lemma LeafUpdatedKeeps(s0: DomState, w: Doc, t: NodeId, order: nat, n: NodeId, data: string)
    requires Keeps(s0, w.s, t) && t in w.s.nodes && n in w.s.nodes[t].children
    ensures Keeps(s0, LeafUpdated(w, t, order, n, data).s, t)
  {
    ChildIsBelow(w.s, t, n);
    var w1 := if w.s.nodes[n].data != data then WithData(w, n, data) else w;
    if w.s.nodes[n].data != data {
      NodeEdit(w, n, w.s.nodes[n].(data := data));
      NodeEditKeeps(s0, w.s, w1.s, t, n);
    }
    PlacedKeeps(s0, w1, t, order, n);
  }

  lemma LeafCreatedKeeps(s0: DomState, w: Doc, t: NodeId, order: nat, kind: Kind, key: KeyValue, data: string)
    requires Keeps(s0, w.s, t) && t in w.s.nodes
    ensures Keeps(s0, LeafCreated(w, t, order, kind, key, data).s, t)
  {
    var n := w.s.next;
    var w1 := Created(w, NewLeaf(kind, data));
    CreatedKeeps(s0, w, t, NewLeaf(kind, data));
    InsertedKeeps(s0, w1, t, n, ChildAt(w1, t, order));
    KeyedKeeps(s0, InsertedAt(w1, t, order, n), t, n, key);
  }

  lemma LeafPushedKeeps(w: Doc, t: NodeId, order: nat, kind: Kind, key: KeyValue, data: string)
    requires Sound(w.s) && t in w.s.nodes
    ensures Keeps(w.s, LeafPushed(w, t, order, kind, key, data).s, t)
  {
    var found := Search(w, t, key, kind, order);
    var w1 := Doc(w.s.(keys := found.keys), w.log);
    SearchKeeps(w, t, key, kind, order);
    if found.node.Some? {
      LeafUpdatedKeeps(w.s, w1, t, order, found.node.value, data);
    } else {
      LeafCreatedKeeps(w.s, w1, t, order, kind, key, data);
    }
  }

  lemma AttrPushedKeeps(w: Doc, t: NodeId, a: AttrDescriptor)
    requires Sound(w.s) && t in w.s.nodes
    ensures Keeps(w.s, AttrPushed(w, t, a).s, t)
  {
    KeepsRefl(w.s, t);
    var value := AttrLookup(w.s.nodes[t], a.namespaceURI, a.name);
    if a.value.AttrFalse? || value != Some(a.value.s) {
      var node := w.s.nodes[t].(attrs := w.s.nodes[t].attrs[a.name := AttrEntry(NormNs(a.namespaceURI), AttrText(a.value))]);
      NodeEdit(w, t, node);
      SelfEditKeeps(w.s, w.s, AttrPushed(w, t, a).s, t);
    }
  }

  lemma CleanupAddedKeeps(s0: DomState, w: Doc, t: NodeId, c: Callback)
    requires Keeps(s0, w.s, t) && t in w.s.nodes
    ensures Keeps(s0, CleanupAdded(w, t, c).s, t)
  {
    if t in w.s.cleanups {
      TablesEdit(w, CleanupAdded(w, t, c).s, t);
      SelfEditKeeps(s0, w.s, CleanupAdded(w, t, c).s, t);
    }
  }

  // ---------------------------------------------------------------------
  // Elements and nested passes

  /** A nested pass on `n`, a child of `t` or the node created last (since
      `s0`), leaves `t`'s own record alone. */
  lemma NestedLift(s0: DomState, s: DomState, s': DomState, t: NodeId, n: NodeId)
    requires Keeps(s0, s, t) && t in s.nodes && n in s.nodes && t < n && t < s0.next
    requires Keeps(s, s', n)
    requires n in s.nodes[t].children || (n == s.next - 1 && s0.next <= n)
    ensures Keeps(s0, s', t) && t in s'.nodes && s'.nodes[t] == s.nodes[t] && n in s'.nodes && Agree(s.parent, s'.parent, n)
  {
    assert !Below(s.parent, t, n) by {
      if Below(s.parent, t, n) {
        BelowAtLeast(s.parent, t, n);
      }
    }
    assert Same(s, s', t);
    if n in s.nodes[t].children {
      ChildIsBelow(s, t, n);
      ConfinedToAncestor(s, s', n, t, s.next);
      ConfinedWiden(s, s', t, t, s.next, s0.next);
    } else {
      ConfinedFromFresh(s, s', n, t, s.next, s0.next);
    }
    ConfinedTrans(s0, s, s', t, s0.next);
  }

  lemma ElementPushedKeeps(w: Doc, t: NodeId, order: nat, d: ElementDescriptor)
    requires Sound(w.s) && t in w.s.nodes
    ensures Keeps(w.s, ElementPushed(w, t, order, d).s, t)
    decreases d, 3
  {
    var key := KeyOf(d.key, order);
    var found := Search(w, t, key, ElementNode, order);
    var w1 := Doc(w.s.(keys := found.keys), w.log);
    SearchKeeps(w, t, key, ElementNode, order);
    assert t < w.s.next;
    if found.node.Some? {
      var n := found.node.value;
      if ComparedTag(d) == w1.s.nodes[n].tagName {
        ElementUpdatedKeeps(w.s, w1, t, order, d, n);
      } else {
        ElementReplacedKeeps(w.s, w1, t, order, n, d, key);
      }
    } else {
      ElementCreatedKeeps(w.s, w1, t, order, d, key);
    }
  }

  lemma ElementUpdatedKeeps(s0: DomState, w: Doc, t: NodeId, order: nat, d: ElementDescriptor, n: NodeId)
    requires Keeps(s0, w.s, t) && t in w.s.nodes && n in w.s.nodes[t].children && t < s0.next
    ensures Keeps(s0, ElementUpdated(w, t, order, d, n).s, t)
    decreases d, 2
  {
    ChildIsBelow(w.s, t, n);
    var w1 := CleanedUp(w, n);
    TablesEdit(w, w1.s, n);
    NodeEditKeeps(s0, w.s, w1.s, t, n);
    var w2 := ContentRendered(w1, n, d.content);
    ContentKeeps(w1, n, d.content);
    NestedLift(s0, w1.s, w2.s, t, n);
    PlacedKeeps(s0, w2, t, order, n);
  }

  lemma ElementCreatedKeeps(s0: DomState, w: Doc, t: NodeId, order: nat, d: ElementDescriptor, key: KeyValue)
    requires Keeps(s0, w.s, t) && t in w.s.nodes && t < s0.next
    ensures Keeps(s0, ElementCreated(w, t, order, d, key).s, t)
    decreases d, 2
  {
    var n := w.s.next;
    var w1 := Created(w, NewElement(d));
    CreatedKeeps(s0, w, t, NewElement(d));
    var w2 := ContentRendered(w1, n, d.content);
    ContentKeeps(w1, n, d.content);
    NestedLift(s0, w1.s, w2.s, t, n);
    InsertedKeeps(s0, w2, t, n, ChildAt(w2, t, order));
    KeyedKeeps(s0, InsertedAt(w2, t, order, n), t, n, key);
  }

  lemma ElementReplacedKeeps(s0: DomState, w: Doc, t: NodeId, order: nat, prev: NodeId, d: ElementDescriptor, key: KeyValue)
    requires Keeps(s0, w.s, t) && t in w.s.nodes && prev in w.s.nodes[t].children && t < s0.next
    ensures Keeps(s0, ElementReplaced(w, t, order, prev, d, key).s, t)
    decreases d, 2
  {
    var w1 := NodeRemoved(w, prev);
    ChildRemovalKeeps(s0, w, t, prev);
    var n := w1.s.next;
    var w1' := Created(w1, NewElement(d));
    CreatedKeeps(s0, w1, t, NewElement(d));
    var w2 := ContentRendered(w1', n, d.content);
    ContentKeeps(w1', n, d.content);
    NestedLift(s0, w1'.s, w2.s, t, n);
    ReplacedPlaced(s0, w2, t, order, prev, n, key);
  }

  /** The last steps of `replaceElement`: the new element takes the old
      one's place when that is at `order`, and is inserted at `order`
      otherwise. */
  lemma ReplacedPlaced(s0: DomState, w: Doc, t: NodeId, order: nat, prev: NodeId, n: NodeId, key: KeyValue)
    requires Keeps(s0, w.s, t) && t in w.s.nodes && prev in w.s.nodes[t].children
    requires n in w.s.nodes && n !in w.s.parent && t < n && s0.next <= n
    ensures var w3 := if ChildAt(w, t, order) == Some(prev) then Replaced(w, t, n, prev) else InsertedAt(Removed(w, t, prev), t, order, n);
      Keeps(s0, Keyed(w3, n, key).s, t)
  {
    DetachedNotChild(w.s, t, n);
    var w3;
    if ChildAt(w, t, order) == Some(prev) {
      w3 := Replaced(w, t, n, prev);
      ReplacedKeeps(s0, w, t, n, prev);
    } else {
      var w2 := Removed(w, t, prev);
      RemovedKeeps(s0, w, t, prev);
      w3 := InsertedAt(w2, t, order, n);
      InsertedKeeps(s0, w2, t, n, ChildAt(w2, t, order));
    }
    KeyedKeeps(s0, w3, t, n, key);
  }

  lemma ContentKeeps(w: Doc, n: NodeId, content: Option<Content>)
    requires Sound(w.s) && n in w.s.nodes
    ensures Keeps(w.s, ContentRendered(w, n, content).s, n)
    decreases content, 1
  {
    KeepsRefl(w.s, n);
    match content
    case None =>
    case Some(Markup(html)) =>
      WithMarkupEdit(w, n, html);
      var d := {n} + (set c | c in w.s.nodes[n].children);
      forall y | y in d && y < w.s.next ensures Below(w.s.parent, y, n) {
        if y != n {
          ChildIsBelow(w.s, n, y);
        }
      }
      EditKeeps(w.s, w.s, WithMarkup(w, n, html).s, n, d);
    case Some(Body(ps, unref)) => RenderedKeeps(w, n, ps, unref);
  }

  lemma StepKeeps(w: Doc, t: NodeId, f: PassState, p: Push)
    requires Sound(w.s) && t in w.s.nodes
    ensures Keeps(w.s, Stepped(w, t, f, p).s, t)
    decreases p, 1
  {
    var order := |f.placed|;
    KeepsRefl(w.s, t);
    match p
    case PushText(d) =>
      if d.content != "" {
        LeafPushedKeeps(w, t, order, TextNode, KeyOf(d.key, order), d.content);
      }
    case PushComment(d) =>
      if d.content != "" {
        LeafPushedKeeps(w, t, order, CommentNode, KeyOf(d.key, order), d.content);
      }
    case PushElement(d) => ElementPushedKeeps(w, t, order, d);
    case PushAttr(a) => AttrPushedKeeps(w, t, a);
    case PushCleanup(c) => CleanupAddedKeeps(w.s, w, t, c);
    case PushLinking(h) =>
      if h !in f.linked && h.returned.Some? {
        CleanupAddedKeeps(w.s, Recorded(w, [Ran(t, LinkingPhase, h.id)]), t, h.returned.value);
      }
    case _ =>
  }

  lemma {:induction false} RunKeeps(w: Doc, t: NodeId, ps: seq<Push>)
    requires Sound(w.s) && t in w.s.nodes
    ensures Keeps(w.s, Run(w, t, ps).s, t)
    decreases ps, 1
  {
    if ps == [] {
      KeepsRefl(w.s, t);
    } else {
      var init := ps[..|ps| - 1];
      RunKeeps(w, t, init);
      StepKeeps(Run(w, t, init), t, PassFold(init), ps[|ps| - 1]);
      KeepsTrans(w.s, Run(w, t, init).s, Run(w, t, ps).s, t);
    }
  }

  lemma {:induction false} RestRemovedKeeps(w: Doc, t: NodeId, order: nat)
    requires Sound(w.s) && t in w.s.nodes
    ensures Keeps(w.s, RestRemoved(w, t, order).s, t)
    decreases |w.s.nodes[t].children|
  {
    KeepsRefl(w.s, t);
    if order < |w.s.nodes[t].children| {
      var x := w.s.nodes[t].children[order];
      var w1 := NodeRemoved(w, x);
      ChildRemovalKeeps(w.s, w, t, x);
      var w2 := Removed(w1, t, x);
      RemovedKeeps(w.s, w1, t, x);
      RestRemovedKeeps(w2, t, order);
      KeepsTrans(w.s, w2.s, RestRemoved(w2, t, order).s, t);
    }
  }

  lemma RenderedKeeps(w: Doc, t: NodeId, ps: seq<Push>, unref: Option<Callback>)
    requires Sound(w.s) && t in w.s.nodes
    ensures Keeps(w.s, Rendered(w, t, ps, unref).s, t)
    decreases ps, 2
  {
    var w1 := CleanedUp(CleanupEnsured(w, t), t);
    var w2 := CleanedUp(CleanupEnsured(w1, t), t);
    OpenKeeps(w, t);
    OpenKeeps(w1, t);
    KeepsTrans(w.s, w1.s, w2.s, t);
    var w3 := Run(w2, t, ps);
    RunKeeps(w2, t, ps);
    KeepsTrans(w.s, w2.s, w3.s, t);
    CloseKeeps(w.s, w3, t, ps, unref, w1.s.nodes[t].attrs.Keys - PushedNames(ps), t in w1.s.removeds);
  }

  /** What `render` does after the content function: the unref callback,
      the attributes not set again, the children not placed, then the
      created or updated callbacks. */
  lemma CloseKeeps(s0: DomState, w: Doc, t: NodeId, ps: seq<Push>, unref: Option<Callback>, names: set<string>, isUpdated: bool)
    requires Keeps(s0, w.s, t) && t in w.s.nodes
    ensures var w4 := if unref.Some? then CleanupAdded(w, t, unref.value) else w;
      var w5 := AttrsRemoved(w4, t, names);
      Keeps(s0, CallbacksRun(RestRemoved(w5, t, |PassFold(ps).placed|), t, isUpdated, PassFold(ps)).s, t)
  {
    var w4 := if unref.Some? then CleanupAdded(w, t, unref.value) else w;
    if unref.Some? {
      CleanupAddedKeeps(s0, w, t, unref.value);
    }
    var w5 := AttrsRemoved(w4, t, names);
    NodeEdit(w4, t, w4.s.nodes[t].(attrs := w4.s.nodes[t].attrs - RemovedNames(w4.s.nodes[t], names)));
    SelfEditKeeps(s0, w4.s, w5.s, t);
    var f := PassFold(ps);
    var w6 := RestRemoved(w5, t, |f.placed|);
    RestRemovedKeeps(w5, t, |f.placed|);
    KeepsTrans(s0, w5.s, w6.s, t);
    CallbacksKeeps(s0, w6, t, isUpdated, f);
  }

  /** The target's cleanup set is made and run, from `render` and again
      from the context's constructor. */
  lemma OpenKeeps(w: Doc, t: NodeId)
    requires Sound(w.s) && t in w.s.nodes
    ensures var r := CleanedUp(CleanupEnsured(w, t), t);
      Keeps(w.s, r.s, t) && r.s.nodes == w.s.nodes && t in r.s.cleanups && r.s.cleanups[t] == []
  {
    KeepsRefl(w.s, t);
    CleanupEnsuredKeeps(w.s, w, t);
    CleanedUpKeeps(w.s, CleanupEnsured(w, t), t);
  }

  lemma CleanupEnsuredKeeps(s0: DomState, w: Doc, t: NodeId)
    requires Keeps(s0, w.s, t) && t in w.s.nodes
    ensures var r := CleanupEnsured(w, t);
      Keeps(s0, r.s, t) && r.s.nodes == w.s.nodes && t in r.s.cleanups
  {
    TablesEdit(w, CleanupEnsured(w, t).s, t);
    SelfEditKeeps(s0, w.s, CleanupEnsured(w, t).s, t);
  }

  lemma CleanedUpKeeps(s0: DomState, w: Doc, t: NodeId)
    requires Keeps(s0, w.s, t) && t in w.s.nodes && t in w.s.cleanups
    ensures var r := CleanedUp(w, t);
      Keeps(s0, r.s, t) && r.s.nodes == w.s.nodes && t in r.s.cleanups && r.s.cleanups[t] == []
  {
    TablesEdit(w, CleanedUp(w, t).s, t);
    SelfEditKeeps(s0, w.s, CleanedUp(w, t).s, t);
  }

  lemma CallbacksKeeps(s0: DomState, w: Doc, t: NodeId, isUpdated: bool, f: PassState)
    requires Keeps(s0, w.s, t) && t in w.s.nodes
    ensures Keeps(s0, CallbacksRun(w, t, isUpdated, f).s, t)
  {
    if isUpdated {
      if t in w.s.cleanups {
        var cs := w.s.cleanups[t];
        assert NoDup(cs);
        CleanupSetKeeps(s0, w, t, SetAddAll(cs, UpdatedCleanupSet(f.updated)));
      }
    } else {
      RemovedSetKeeps(s0, w, t, CreatedRemovedSet(f.created));
    }
  }

  /** The target's cleanup set replaced by another set. */
  lemma CleanupSetKeeps(s0: DomState, w: Doc, t: NodeId, cs: seq<Callback>)
    requires Keeps(s0, w.s, t) && t in w.s.nodes && t in w.s.cleanups && NoDup(cs)
    ensures Keeps(s0, w.s.(cleanups := w.s.cleanups[t := cs]), t)
  {
    OwnTablesKeeps(s0, w, t, w.s.(cleanups := w.s.cleanups[t := cs]));
  }

  /** The target's removed set replaced by another set. */
  lemma RemovedSetKeeps(s0: DomState, w: Doc, t: NodeId, rs: seq<Callback>)
    requires Keeps(s0, w.s, t) && t in w.s.nodes && NoDup(rs)
    ensures Keeps(s0, w.s.(removeds := w.s.removeds[t := rs]), t)
  {
    OwnTablesKeeps(s0, w, t, w.s.(removeds := w.s.removeds[t := rs]));
  }

  /** An edit of the target's own tables only. */
  lemma OwnTablesKeeps(s0: DomState, w: Doc, t: NodeId, s': DomState)
    requires Keeps(s0, w.s, t) && t in w.s.nodes
    requires s'.nodes == w.s.nodes && s'.parent == w.s.parent && s'.next == w.s.next && s'.keys == w.s.keys
    requires TablesWf(s') && (t in w.s.cleanups ==> t in s'.cleanups)
    requires forall y :: y != t ==> Agree(w.s.cleanups, s'.cleanups, y) && Agree(w.s.removeds, s'.removeds, y)
    ensures Keeps(s0, s', t)
  {
    TablesEdit(w, s', t);
    SelfEditKeeps(s0, w.s, s', t);
  }
}
