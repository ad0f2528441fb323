/** Where a pass puts the target's children. Each context call that places
    a node leaves the positions already placed alone and puts its node at
    position `order`; the target's own record (apart from its children) and
    its callback sets stay as they were. Stated for the case the pass never
    places two nodes of the same kind under the same key (`Distinct`). */
module Ordering {
  import opened Common
  import opened Descriptors
  import opened Nodes
  import opened Callbacks
  import opened Tree
  import opened Pass
  import opened Placing
  import opened Reconcile
  import opened Keeping
  import ChildList
  import Find

  // ---------------------------------------------------------------------
  // Moving a node to `order`

  /** `insertBefore(n, childNodes[order])` for a node not yet placed. */
  lemma InsertedAtPrefix(w: Doc, t: NodeId, order: nat, n: NodeId, placed: seq<Placement>, D: bool)
    requires Sound(w.s) && t in w.s.nodes && n in w.s.nodes && t < n && order == |placed|
    requires n in w.s.nodes[t].children || n !in w.s.parent
    requires ChildAt(w, t, order) != Some(n)
    requires D ==> Prefix(w.s, t, placed) && n !in w.s.nodes[t].children[..order]
    ensures var r := InsertedAt(w, t, order, n);
      && Sound(r.s) && TargetKept(w.s, r.s, t) && n in r.s.nodes[t].children
      && r.s.nodes[n] == w.s.nodes[n] && r.s.keys == w.s.keys
      && (D ==> Prefix(r.s, t, placed) && order < |r.s.nodes[t].children| && r.s.nodes[t].children[order] == n)
  {
    var ch := w.s.nodes[t].children;
    var ref := ChildAt(w, t, order);
    InsertedEdit(w, t, n, ref);
    var s' := w.s.(nodes := w.s.nodes[t := w.s.nodes[t].(children := ChildList.InsertBefore(ch, n, ref))], parent := w.s.parent[n := t]);
    assert InsertedAt(w, t, order, n).s == s';
    if D {
      InsertKeeps(w.s, t, placed, n, s');
    }
  }

  /** The same, skipped when `n` is at `order` already. */
  lemma PlacedPrefix(w: Doc, t: NodeId, order: nat, n: NodeId, placed: seq<Placement>, D: bool)
    requires Sound(w.s) && t in w.s.nodes && n in w.s.nodes && t < n && order == |placed|
    requires n in w.s.nodes[t].children || n !in w.s.parent
    requires D ==> Prefix(w.s, t, placed) && n !in w.s.nodes[t].children[..order]
    ensures var r := Placed(w, t, order, n);
      && Sound(r.s) && TargetKept(w.s, r.s, t) && r.s.nodes[n] == w.s.nodes[n] && r.s.keys == w.s.keys
      && (D ==> Prefix(r.s, t, placed) && order < |r.s.nodes[t].children| && r.s.nodes[t].children[order] == n)
  {
    if ChildAt(w, t, order) != Some(n) {
      InsertedAtPrefix(w, t, order, n, placed, D);
    }
  }

  /** An edit of the record or tables of `n` alone, a node that is neither
      the target nor placed. */
  lemma OtherPrefix(s: DomState, s': DomState, t: NodeId, placed: seq<Placement>, n: NodeId, D: bool)
    requires t in s.nodes && Changed(s, s', {n}) && n != t
    requires D ==> Prefix(s, t, placed) && n !in s.nodes[t].children[..|placed|]
    ensures TargetKept(s, s', t) && s'.nodes[t] == s.nodes[t]
    ensures D ==> Prefix(s', t, placed)
  {
    OtherKeeps(s, s', t, if D then placed else [], n);
  }

  // ---------------------------------------------------------------------
  // Texts and comments

  lemma LeafUpdatedPrefix(w: Doc, t: NodeId, order: nat, n: NodeId, data: string, placed: seq<Placement>, pl: Placement, D: bool)
    requires Sound(w.s) && t in w.s.nodes && n in w.s.nodes[t].children && order == |placed|
    requires pl.Leaf? && pl.data == data && n in w.s.nodes && w.s.nodes[n].kind == pl.NodeKind() && n in w.s.keys && w.s.keys[n] == pl.key
    requires D ==> Prefix(w.s, t, placed) && n !in w.s.nodes[t].children[..order]
    ensures var r := LeafUpdated(w, t, order, n, data);
      TargetKept(w.s, r.s, t) && (D ==> Prefix(r.s, t, placed + [pl]))
  {
    ChildIsBelow(w.s, t, n);
    var w1 := if w.s.nodes[n].data != data then WithData(w, n, data) else w;
    if w.s.nodes[n].data != data {
      NodeEdit(w, n, w.s.nodes[n].(data := data));
      OtherPrefix(w.s, w1.s, t, placed, n, D);
    }
    PlacedPrefix(w1, t, order, n, placed, D);
    var r := LeafUpdated(w, t, order, n, data);
    KeptTrans(w.s, w1.s, r.s, t);
    if D {
      PrefixExtend(r.s, t, placed, pl);
    }
  }

  /** A new node: not a child of anything yet. */
  lemma CreatedPrefix(w: Doc, t: NodeId, node: Node, placed: seq<Placement>, D: bool)
    requires Sound(w.s) && t in w.s.nodes && node.children == []
    requires D ==> Prefix(w.s, t, placed)
    ensures var r := Created(w, node);
      && Sound(r.s) && TargetKept(w.s, r.s, t) && t < w.s.next && w.s.next !in w.s.parent && w.s.next !in w.s.nodes[t].children
      && r.s.nodes == w.s.nodes[w.s.next := node] && r.s.parent == w.s.parent && r.s.keys == w.s.keys
      && (D ==> Prefix(r.s, t, placed))
  {
    CreatedEdit(w, node);
    DetachedNotChild(w.s, t, w.s.next);
    OtherPrefix(w.s, Created(w, node).s, t, placed, w.s.next, D);
  }

  /** Recording the key of the node placed at `order`. */
  lemma KeyedPrefix(w: Doc, t: NodeId, order: nat, n: NodeId, key: KeyValue, placed: seq<Placement>, D: bool)
    requires Sound(w.s) && t in w.s.nodes && n in w.s.nodes[t].children && order == |placed|
    requires D ==> Prefix(w.s, t, placed) && order < |w.s.nodes[t].children| && w.s.nodes[t].children[order] == n
    ensures var r := Keyed(w, n, key);
      && TargetKept(w.s, r.s, t) && r.s.nodes == w.s.nodes && n in r.s.keys && r.s.keys[n] == key
      && (D ==> Prefix(r.s, t, placed))
  {
    ChildIsBelow(w.s, t, n);
    var r := Keyed(w, n, key);
    assert Changed(w.s, r.s, {n});
    if D {
      AtNotBefore(w.s.nodes[t].children, order);
    }
    OtherPrefix(w.s, r.s, t, placed, n, D);
  }

  lemma LeafCreatedPrefix(w: Doc, t: NodeId, order: nat, kind: Kind, key: KeyValue, data: string, placed: seq<Placement>, D: bool)
    requires Sound(w.s) && t in w.s.nodes && order == |placed|
    requires D ==> Prefix(w.s, t, placed)
    ensures var r := LeafCreated(w, t, order, kind, key, data);
      TargetKept(w.s, r.s, t) && (D ==> Prefix(r.s, t, placed + [Leaf(kind, key, data)]))
  {
    var n := w.s.next;
    var w1 := Created(w, NewLeaf(kind, data));
    CreatedPrefix(w, t, NewLeaf(kind, data), placed, D);
    InsertedAtPrefix(w1, t, order, n, placed, D);
    var w2 := InsertedAt(w1, t, order, n);
    KeyedPrefix(w2, t, order, n, key, placed, D);
    var r := Keyed(w2, n, key);
    KeptTrans(w.s, w1.s, w2.s, t);
    KeptTrans(w.s, w2.s, r.s, t);
    if D {
      PrefixExtend(r.s, t, placed, Leaf(kind, key, data));
    }
  }

  /** `pushText` and `pushComment` for a non-empty text. */
  lemma LeafPushedPrefix(w: Doc, t: NodeId, order: nat, kind: Kind, key: KeyValue, data: string, placed: seq<Placement>, D: bool)
    requires Sound(w.s) && t in w.s.nodes && order == |placed|
    requires D ==> Prefix(w.s, t, placed) && Distinct(placed + [Leaf(kind, key, data)])
    ensures var r := LeafPushed(w, t, order, kind, key, data);
      TargetKept(w.s, r.s, t) && (D ==> Prefix(r.s, t, placed + [Leaf(kind, key, data)]))
  {
    var s := w.s;
    var pl := Leaf(kind, key, data);
    var found := Search(w, t, key, kind, order);
    var w1 := Doc(s.(keys := found.keys), w.log);
    Find.FindResult(s.nodes[t].children, s.nodes, s.keys, key, kind, order);
    RetagKeeps(s, t, if D then placed else [], kind, key, found.keys, s.next);
    SearchKeeps(w, t, key, kind, order);
    var r := LeafPushed(w, t, order, kind, key, data);
    if found.node.Some? {
      if D {
        FoundNotPlaced(w1.s, t, placed, pl, found.node.value);
      }
      LeafUpdatedPrefix(w1, t, order, found.node.value, data, placed, pl, D);
    } else {
      LeafCreatedPrefix(w1, t, order, kind, key, data, placed, D);
    }
    KeptTrans(s, w1.s, r.s, t);
  }

  // ---------------------------------------------------------------------
  // Elements

  /** A nested pass on `n`, a child not placed or the node created last,
      leaves the target and the placed children alone, and `n` keeps its
      kind, tag, key and place. */
  lemma NestedPrefix(w: Doc, t: NodeId, n: NodeId, content: Option<Content>, placed: seq<Placement>, D: bool)
    requires Sound(w.s) && t in w.s.nodes && n in w.s.nodes && t < n
    requires n in w.s.nodes[t].children || n == w.s.next - 1
    requires D ==> Prefix(w.s, t, placed) && n !in w.s.nodes[t].children[..|placed|]
    ensures var r := ContentRendered(w, n, content);
      && Sound(r.s) && TargetKept(w.s, r.s, t) && r.s.nodes[t] == w.s.nodes[t]
      && n in r.s.nodes && r.s.nodes[n].kind == w.s.nodes[n].kind && r.s.nodes[n].tagName == w.s.nodes[n].tagName
      && Agree(w.s.keys, r.s.keys, n) && Agree(w.s.parent, r.s.parent, n)
      && (D ==> Prefix(r.s, t, placed))
  {
    var r := ContentRendered(w, n, content);
    ContentKeeps(w, n, content);
    var lim := if n in w.s.nodes[t].children then w.s.next else n;
    ConfinedRefl(w.s, t, lim);
    NestedKeeps(w.s, w.s, r.s, t, placed, n, lim, D);
  }

  /** `updateElement`: cleanup, nested pass, then the move to `order`. */
  lemma ElementUpdatedPrefix(w: Doc, t: NodeId, order: nat, d: ElementDescriptor, n: NodeId, key: KeyValue, placed: seq<Placement>, D: bool)
    requires Sound(w.s) && t in w.s.nodes && n in w.s.nodes[t].children && order == |placed|
    requires n in w.s.nodes && w.s.nodes[n].kind == ElementNode && w.s.nodes[n].tagName == ComparedTag(d)
    requires n in w.s.keys && w.s.keys[n] == key
    requires D ==> Prefix(w.s, t, placed) && n !in w.s.nodes[t].children[..order]
    ensures var r := ElementUpdated(w, t, order, d, n);
      TargetKept(w.s, r.s, t) && (D ==> Prefix(r.s, t, placed + [Elem(key, d)]))
  {
    ChildIsBelow(w.s, t, n);
    var w1 := CleanedUp(w, n);
    TablesEdit(w, w1.s, n);
    OtherPrefix(w.s, w1.s, t, placed, n, D);
    var w2 := ContentRendered(w1, n, d.content);
    NestedPrefix(w1, t, n, d.content, placed, D);
    PlacedPrefix(w2, t, order, n, placed, D);
    var r := ElementUpdated(w, t, order, d, n);
    KeptTrans(w.s, w1.s, w2.s, t);
    KeptTrans(w.s, w2.s, r.s, t);
    if D {
      PrefixExtend(r.s, t, placed, Elem(key, d));
    }
  }

  /** `createElement`: the new element is rendered before it is inserted. */
  lemma ElementCreatedPrefix(w: Doc, t: NodeId, order: nat, d: ElementDescriptor, key: KeyValue, placed: seq<Placement>, D: bool)
    requires Sound(w.s) && t in w.s.nodes && order == |placed|
    requires D ==> Prefix(w.s, t, placed)
    ensures var r := ElementCreated(w, t, order, d, key);
      TargetKept(w.s, r.s, t) && (D ==> Prefix(r.s, t, placed + [Elem(key, d)]))
  {
    var n := w.s.next;
    var w1 := Created(w, NewElement(d));
    CreatedPrefix(w, t, NewElement(d), placed, D);
    var w2 := ContentRendered(w1, n, d.content);
    NestedPrefix(w1, t, n, d.content, placed, D);
    InsertedAtPrefix(w2, t, order, n, placed, D);
    var w3 := InsertedAt(w2, t, order, n);
    KeyedPrefix(w3, t, order, n, key, placed, D);
    var r := Keyed(w3, n, key);
    KeptTrans(w.s, w1.s, w2.s, t);
    KeptTrans(w.s, w2.s, w3.s, t);
    KeptTrans(w.s, w3.s, r.s, t);
    if D {
      PrefixExtend(r.s, t, placed, Elem(key, d));
    }
  }

  /** `replaceElement`: the old element's subtree is removed, the new one
      created and rendered, then put in the old one's place. */
  lemma ElementReplacedPrefix(w: Doc, t: NodeId, order: nat, prev: NodeId, d: ElementDescriptor, key: KeyValue, placed: seq<Placement>, D: bool)
    requires Sound(w.s) && t in w.s.nodes && prev in w.s.nodes[t].children && order == |placed|
    requires D ==> Prefix(w.s, t, placed) && prev !in w.s.nodes[t].children[..order]
    ensures var r := ElementReplaced(w, t, order, prev, d, key);
      TargetKept(w.s, r.s, t) && (D ==> Prefix(r.s, t, placed + [Elem(key, d)]))
  {
    var w1 := NodeRemoved(w, prev);
    NodeRemovedEdit(w, prev);
    ConfinedRefl(w.s, t, w.s.next);
    ForgetKeeps(w.s, w.s, t, placed, prev, w.s.next, D);
    var n := w1.s.next;
    var w1' := Created(w1, NewElement(d));
    CreatedPrefix(w1, t, NewElement(d), placed, D);
    var w2 := ContentRendered(w1', n, d.content);
    NestedPrefix(w1', t, n, d.content, placed, D);
    ReplacedTailPrefix(w2, t, order, prev, n, key, d, placed, D);
    KeptTrans(w.s, w1.s, w1'.s, t);
    KeptTrans(w.s, w1'.s, w2.s, t);
    var w3 := if ChildAt(w2, t, order) == Some(prev) then Replaced(w2, t, n, prev) else InsertedAt(Removed(w2, t, prev), t, order, n);
    assert ElementReplaced(w, t, order, prev, d, key) == Keyed(w3, n, key);
    KeptTrans(w.s, w2.s, Keyed(w3, n, key).s, t);
  }

  /** The end of `replaceElement`: `replaceChild` when the old element is
      at `order`, otherwise `removeChild` and `insertBefore`; then the key. */
  lemma ReplacedTailPrefix(w: Doc, t: NodeId, order: nat, prev: NodeId, n: NodeId, key: KeyValue, d: ElementDescriptor, placed: seq<Placement>, D: bool)
    requires Sound(w.s) && t in w.s.nodes && prev in w.s.nodes[t].children && order == |placed|
    requires n in w.s.nodes && n !in w.s.parent && t < n
    requires w.s.nodes[n].kind == ElementNode && w.s.nodes[n].tagName == CreatedTag(d)
    requires D ==> Prefix(w.s, t, placed) && prev !in w.s.nodes[t].children[..order]
    ensures var w3 := if ChildAt(w, t, order) == Some(prev) then Replaced(w, t, n, prev) else InsertedAt(Removed(w, t, prev), t, order, n);
      var r := Keyed(w3, n, key);
      TargetKept(w.s, r.s, t) && (D ==> Prefix(r.s, t, placed + [Elem(key, d)]))
  {
    var w3;
    if ChildAt(w, t, order) == Some(prev) {
      w3 := Replaced(w, t, n, prev);
      SwappedPrefix(w, t, order, prev, n, placed, D);
    } else {
      w3 := InsertedAt(Removed(w, t, prev), t, order, n);
      ReinsertedPrefix(w, t, order, prev, n, placed, D);
    }
    KeyedPrefix(w3, t, order, n, key, placed, D);
    var r := Keyed(w3, n, key);
    KeptTrans(w.s, w3.s, r.s, t);
    if D {
      PrefixExtend(r.s, t, placed, Elem(key, d));
    }
  }

  /** `replaceChild` of the old element at `order` by the detached `n`. */
  lemma SwappedPrefix(w: Doc, t: NodeId, order: nat, prev: NodeId, n: NodeId, placed: seq<Placement>, D: bool)
    requires Sound(w.s) && t in w.s.nodes && prev in w.s.nodes[t].children && order == |placed|
    requires n in w.s.nodes && n !in w.s.parent && t < n
    requires ChildAt(w, t, order) == Some(prev)
    requires D ==> Prefix(w.s, t, placed)
    ensures var r := Replaced(w, t, n, prev);
      && Sound(r.s) && TargetKept(w.s, r.s, t) && n in r.s.nodes[t].children
      && n in r.s.nodes && r.s.nodes[n] == w.s.nodes[n] && r.s.keys == w.s.keys
      && (D ==> Prefix(r.s, t, placed) && order < |r.s.nodes[t].children| && r.s.nodes[t].children[order] == n)
  {
    DetachedNotChild(w.s, t, n);
    var ch := w.s.nodes[t].children;
    var r := Replaced(w, t, n, prev);
    ReplacedEdit(w, t, n, prev);
    var s' := w.s.(nodes := w.s.nodes[t := w.s.nodes[t].(children := ChildList.ReplaceChild(ch, n, prev))], parent := (w.s.parent - {prev})[n := t]);
    assert r.s == s';
    ReplaceKeeps(w.s, t, placed, n, s');
  }

  /** `removeChild` of the old element, then `insertBefore` of `n` at `order`. */
  lemma ReinsertedPrefix(w: Doc, t: NodeId, order: nat, prev: NodeId, n: NodeId, placed: seq<Placement>, D: bool)
    requires Sound(w.s) && t in w.s.nodes && prev in w.s.nodes[t].children && order == |placed|
    requires n in w.s.nodes && n !in w.s.parent && t < n
    requires D ==> Prefix(w.s, t, placed) && prev !in w.s.nodes[t].children[..order]
    ensures var r := InsertedAt(Removed(w, t, prev), t, order, n);
      && Sound(r.s) && TargetKept(w.s, r.s, t) && n in r.s.nodes[t].children
      && n in r.s.nodes && r.s.nodes[n] == w.s.nodes[n] && r.s.keys == w.s.keys
      && (D ==> Prefix(r.s, t, placed) && order < |r.s.nodes[t].children| && r.s.nodes[t].children[order] == n)
  {
    DetachedNotChild(w.s, t, n);
    var ch := w.s.nodes[t].children;
    var w2 := Removed(w, t, prev);
    RemovedEdit(w, t, prev);
    var s' := w.s.(nodes := w.s.nodes[t := w.s.nodes[t].(children := ChildList.RemoveChild(ch, prev))], parent := w.s.parent - {prev});
    assert w2.s == s';
    RemoveKeeps(w.s, t, if D then placed else [], prev, s');
    InsertedAtPrefix(w2, t, order, n, placed, D);
    var r := InsertedAt(w2, t, order, n);
    KeptTrans(w.s, w2.s, r.s, t);
  }

  /** `pushElement`. */
  lemma ElementPushedPrefix(w: Doc, t: NodeId, order: nat, d: ElementDescriptor, placed: seq<Placement>, D: bool)
    requires Sound(w.s) && t in w.s.nodes && order == |placed|
    requires D ==> Prefix(w.s, t, placed) && Distinct(placed + [Elem(KeyOf(d.key, order), d)])
    ensures var r := ElementPushed(w, t, order, d);
      TargetKept(w.s, r.s, t) && (D ==> Prefix(r.s, t, placed + [Elem(KeyOf(d.key, order), d)]))
  {
    var s := w.s;
    var key := KeyOf(d.key, order);
    var pl := Elem(key, d);
    var found := Search(w, t, key, ElementNode, order);
    var w1 := Doc(s.(keys := found.keys), w.log);
    Find.FindResult(s.nodes[t].children, s.nodes, s.keys, key, ElementNode, order);
    RetagKeeps(s, t, if D then placed else [], ElementNode, key, found.keys, s.next);
    SearchKeeps(w, t, key, ElementNode, order);
    var r := ElementPushed(w, t, order, d);
    if found.node.Some? {
      var n := found.node.value;
      if D {
        FoundNotPlaced(w1.s, t, placed, pl, n);
      }
      if ComparedTag(d) == w1.s.nodes[n].tagName {
        ElementUpdatedPrefix(w1, t, order, d, n, key, placed, D);
      } else {
        ElementReplacedPrefix(w1, t, order, n, d, key, placed, D);
      }
    } else {
      ElementCreatedPrefix(w1, t, order, d, key, placed, D);
    }
    KeptTrans(s, w1.s, r.s, t);
  }

  // ---------------------------------------------------------------------
  // Calls that touch only the target

  /** An edit of the target's own record or tables leaves its placed
      children as they were. */
  lemma SelfPrefix(s: DomState, s': DomState, t: NodeId, placed: seq<Placement>)
    requires Wf(s) && t in s.nodes && Changed(s, s', {t}) && Prefix(s, t, placed)
    requires t in s'.nodes && s'.nodes[t].children == s.nodes[t].children
    ensures Prefix(s', t, placed)
  {
    forall c | c in s.nodes[t].children[..|placed|] ensures Agree(s.nodes, s'.nodes, c) && Agree(s.keys, s'.keys, c) {
      ChildIsBelow(s, t, c);
      assert c !in {t};
      assert Same(s, s', c);
    }
    PrefixByList(s, s', t, placed);
  }

  /** Changing the target's own record keeps its placed prefix. */
  lemma NodeEditPrefix(w: Doc, t: NodeId, node: Node, placed: seq<Placement>, D: bool)
    requires Sound(w.s) && t in w.s.nodes && node.children == w.s.nodes[t].children
    requires node.kind == w.s.nodes[t].kind && node.tagName == w.s.nodes[t].tagName
    requires D ==> Prefix(w.s, t, placed)
    ensures var s' := w.s.(nodes := w.s.nodes[t := node]);
      Sound(s') && s'.cleanups == w.s.cleanups && s'.removeds == w.s.removeds && (D ==> Prefix(s', t, placed))
  {
    NodeEdit(w, t, node);
    if D {
      SelfPrefix(w.s, w.s.(nodes := w.s.nodes[t := node]), t, placed);
    }
  }

  /** `pushAttribute` sets the attribute unless it already holds the value. */
  lemma AttrPushedPrefix(w: Doc, t: NodeId, a: AttrDescriptor, placed: seq<Placement>, D: bool)
    requires Sound(w.s) && t in w.s.nodes
    requires D ==> Prefix(w.s, t, placed)
    ensures var r := AttrPushed(w, t, a);
      && Sound(r.s) && t in r.s.nodes && r.s.nodes[t].kind == w.s.nodes[t].kind && r.s.nodes[t].inHtmlNamespace == w.s.nodes[t].inHtmlNamespace
      && r.s.nodes[t].attrs == w.s.nodes[t].attrs[a.name := AttrEntry(NormNs(a.namespaceURI), AttrText(a.value))]
      && r.s.cleanups == w.s.cleanups && r.s.removeds == w.s.removeds
      && (D ==> Prefix(r.s, t, placed))
  {
    var attrs := w.s.nodes[t].attrs;
    var entry := AttrEntry(NormNs(a.namespaceURI), AttrText(a.value));
    var value := AttrLookup(w.s.nodes[t], a.namespaceURI, a.name);
    if a.value.AttrFalse? || value != Some(a.value.s) {
      var node := w.s.nodes[t].(attrs := attrs[a.name := entry]);
      assert AttrPushed(w, t, a) == Doc(w.s.(nodes := w.s.nodes[t := node]), w.log);
      NodeEditPrefix(w, t, node, placed, D);
    } else {
      assert attrs[a.name] == entry;
      assert attrs[a.name := entry] == attrs;
    }
  }

  /** `pushCleanup` adds to the target's cleanup set. */
  lemma CleanupAddedPrefix(w: Doc, t: NodeId, c: Callback)
    requires Sound(w.s) && t in w.s.nodes
    ensures var r := CleanupAdded(w, t, c);
      && Sound(r.s) && r.s.nodes == w.s.nodes && r.s.keys == w.s.keys && r.s.removeds == w.s.removeds
      && (t in w.s.cleanups ==> t in r.s.cleanups && r.s.cleanups[t] == SetAdd(w.s.cleanups[t], c))
  {
    if t in w.s.cleanups {
      TablesEdit(w, CleanupAdded(w, t, c).s, t);
    }
  }

  // ---------------------------------------------------------------------
  // The pass

  /** What one context call `p` does to the target, as the pass's state `f`
      moves on: the attribute it sets, the cleanup it adds, the child it
      places. */
  ghost predicate StepOutcome(w: Doc, r: Doc, t: NodeId, f: PassState, p: Push, D: bool)
    requires t in w.s.nodes && t in w.s.cleanups
  {
    var g := PassStep(f, p);
    && Sound(r.s) && t in r.s.nodes && r.s.nodes[t].kind == w.s.nodes[t].kind && r.s.nodes[t].inHtmlNamespace == w.s.nodes[t].inHtmlNamespace
    && r.s.nodes[t].attrs == (if p.PushAttr? then w.s.nodes[t].attrs[p.attr.name := AttrEntry(NormNs(p.attr.namespaceURI), AttrText(p.attr.value))] else w.s.nodes[t].attrs)
    && t in r.s.cleanups && (w.s.cleanups[t] == f.cleanups ==> r.s.cleanups[t] == g.cleanups)
    && Agree(w.s.removeds, r.s.removeds, t)
    && (D ==> Prefix(r.s, t, g.placed))
  }

  /** One context call. */
  lemma StepPrefix(w: Doc, t: NodeId, f: PassState, p: Push, D: bool)
    requires Sound(w.s) && t in w.s.nodes && t in w.s.cleanups
    requires D ==> Prefix(w.s, t, f.placed) && Distinct(PassStep(f, p).placed)
    ensures StepOutcome(w, Stepped(w, t, f, p), t, f, p, D)
  {
    if p.PushText? || p.PushComment? || p.PushElement? {
      PlacingStepPrefix(w, t, f, p, D);
    } else {
      OtherStepPrefix(w, t, f, p, D);
    }
  }

  /** A call that places a child. */
  lemma PlacingStepPrefix(w: Doc, t: NodeId, f: PassState, p: Push, D: bool)
    requires Sound(w.s) && t in w.s.nodes && t in w.s.cleanups
    requires p.PushText? || p.PushComment? || p.PushElement?
    requires D ==> Prefix(w.s, t, f.placed) && Distinct(PassStep(f, p).placed)
    ensures StepOutcome(w, Stepped(w, t, f, p), t, f, p, D)
  {
    var order := |f.placed|;
    assert Sound(Stepped(w, t, f, p).s) by {
      StepKeeps(w, t, f, p);
    }
    match p
    case PushText(d) =>
      if d.content != "" {
        LeafPushedPrefix(w, t, order, TextNode, KeyOf(d.key, order), d.content, f.placed, D);
      }
    case PushComment(d) =>
      if d.content != "" {
        LeafPushedPrefix(w, t, order, CommentNode, KeyOf(d.key, order), d.content, f.placed, D);
      }
    case PushElement(d) =>
      ElementPushedPrefix(w, t, order, d, f.placed, D);
  }

  /** A call that places nothing. */
  lemma OtherStepPrefix(w: Doc, t: NodeId, f: PassState, p: Push, D: bool)
    requires Sound(w.s) && t in w.s.nodes && t in w.s.cleanups
    requires !(p.PushText? || p.PushComment? || p.PushElement?)
    requires D ==> Prefix(w.s, t, f.placed)
    ensures StepOutcome(w, Stepped(w, t, f, p), t, f, p, D)
  {
    match p
    case PushAttr(a) =>
      AttrStepPrefix(w, t, f, a, D);
    case PushCleanup(c) =>
      CleanupStepPrefix(w, t, f, c, D);
    case PushLinking(h) =>
      LinkingStepPrefix(w, t, f, h, D);
    case PushCreated(_) => StepIs(w, t, f, p);
    case PushRemoved(_) => StepIs(w, t, f, p);
    case PushUpdated(_) => StepIs(w, t, f, p);
  }

  lemma AttrStepPrefix(w: Doc, t: NodeId, f: PassState, a: AttrDescriptor, D: bool)
    requires Sound(w.s) && t in w.s.nodes && t in w.s.cleanups
    requires D ==> Prefix(w.s, t, f.placed)
    ensures StepOutcome(w, Stepped(w, t, f, PushAttr(a)), t, f, PushAttr(a), D)
  {
    StepIs(w, t, f, PushAttr(a));
    AttrPushedPrefix(w, t, a, f.placed, D);
  }

  lemma CleanupStepPrefix(w: Doc, t: NodeId, f: PassState, c: Callback, D: bool)
    requires Sound(w.s) && t in w.s.nodes && t in w.s.cleanups
    requires D ==> Prefix(w.s, t, f.placed)
    ensures StepOutcome(w, Stepped(w, t, f, PushCleanup(c)), t, f, PushCleanup(c), D)
  {
    StepIs(w, t, f, PushCleanup(c));
    CleanupAddedPrefix(w, t, c);
  }

  /** A linking callback runs once per pass, and what it returns joins the
      cleanup set. */
  lemma LinkingStepPrefix(w: Doc, t: NodeId, f: PassState, h: Hook, D: bool)
    requires Sound(w.s) && t in w.s.nodes && t in w.s.cleanups
    requires D ==> Prefix(w.s, t, f.placed)
    ensures StepOutcome(w, Stepped(w, t, f, PushLinking(h)), t, f, PushLinking(h), D)
  {
    StepIs(w, t, f, PushLinking(h));
    if h !in f.linked && h.returned.Some? {
      CleanupAddedPrefix(Recorded(w, [Ran(t, LinkingPhase, h.id)]), t, h.returned.value);
    }
  }

  /** The calls that place nothing, one by one, apart from any document. */
  lemma StepIs(w: Doc, t: NodeId, f: PassState, p: Push)
    requires !(p.PushText? || p.PushComment? || p.PushElement?)
    ensures p.PushAttr? ==> Stepped(w, t, f, p) == AttrPushed(w, t, p.attr) && PassStep(f, p) == f
    ensures p.PushCleanup? ==>
      && Stepped(w, t, f, p) == CleanupAdded(w, t, p.cleanup) && PassStep(f, p).placed == f.placed
      && PassStep(f, p).cleanups == SetAdd(f.cleanups, p.cleanup)
    ensures p.PushLinking? ==>
      && Stepped(w, t, f, p) == (if p.linking in f.linked then w
                                 else var w1 := Recorded(w, [Ran(t, LinkingPhase, p.linking.id)]);
                                   if p.linking.returned.Some? then CleanupAdded(w1, t, p.linking.returned.value) else w1)
      && PassStep(f, p).placed == f.placed
      && PassStep(f, p).cleanups == (if p.linking !in f.linked && p.linking.returned.Some? then SetAdd(f.cleanups, p.linking.returned.value) else f.cleanups)
    ensures (p.PushCreated? || p.PushRemoved? || p.PushUpdated?) ==> Stepped(w, t, f, p) == w && PassStep(f, p).placed == f.placed && PassStep(f, p).cleanups == f.cleanups
  {
  }

  /** A pass's placements are distinct only if those before the last call
      are. */
  lemma DistinctStep(f: PassState, p: Push)
    requires Distinct(PassStep(f, p).placed)
    ensures Distinct(f.placed)
  {
    var g := PassStep(f, p);
    if g.placed != f.placed {
      assert g.placed == f.placed + [g.placed[|f.placed|]];
      DistinctInit(f.placed, g.placed[|f.placed|]);
    }
  }

  /** The content function's calls, made on a context whose target's
      cleanup set is empty: the target ends with the attributes the calls
      folded over its old ones, the cleanup set the pass gathered, and, when
      no two placements compete, the placements as its first children. */
  lemma {:induction false} RunPrefix(w: Doc, t: NodeId, ps: seq<Push>, D: bool)
    requires Sound(w.s) && t in w.s.nodes && t in w.s.cleanups && w.s.cleanups[t] == []
    requires D ==> Distinct(PassFold(ps).placed)
    ensures var r := Run(w, t, ps);
      && Sound(r.s) && t in r.s.nodes && r.s.nodes[t].kind == w.s.nodes[t].kind && r.s.nodes[t].inHtmlNamespace == w.s.nodes[t].inHtmlNamespace
      && r.s.nodes[t].attrs == AttrFold(w.s.nodes[t].attrs, ps)
      && t in r.s.cleanups && r.s.cleanups[t] == PassFold(ps).cleanups
      && Agree(w.s.removeds, r.s.removeds, t)
      && (D ==> Prefix(r.s, t, PassFold(ps).placed))
    decreases ps, 2
  {
    if ps != [] {
      var init := ps[..|ps| - 1];
      var last := ps[|ps| - 1];
      if D {
        DistinctStep(PassFold(init), last);
      }
      RunPrefix(w, t, init, D);
      StepPrefix(Run(w, t, init), t, PassFold(init), last, D);
    }
  }

  /** `updateChildNodes` removes the children past the placed ones, so the
      target is left with exactly its placements. */
  lemma {:induction false} RestRemovedPrefix(w: Doc, t: NodeId, placed: seq<Placement>, D: bool)
    requires Sound(w.s) && t in w.s.nodes
    requires D ==> Prefix(w.s, t, placed)
    ensures var r := RestRemoved(w, t, |placed|);
      && Sound(r.s) && TargetKept(w.s, r.s, t) && |r.s.nodes[t].children| <= |placed|
      && (D ==> Exactly(r.s, t, placed))
    decreases |w.s.nodes[t].children|
  {
    var ch := w.s.nodes[t].children;
    var order := |placed|;
    if order < |ch| {
      var x := ch[order];
      AtNotBefore(ch, order);
      var w1 := NodeRemoved(w, x);
      NodeRemovedEdit(w, x);
      ConfinedRefl(w.s, t, w.s.next);
      ForgetKeeps(w.s, w.s, t, placed, x, w.s.next, D);
      var w2 := Removed(w1, t, x);
      RemovedEdit(w1, t, x);
      var s' := w1.s.(nodes := w1.s.nodes[t := w1.s.nodes[t].(children := ChildList.RemoveChild(ch, x))], parent := w1.s.parent - {x});
      assert w2.s == s';
      RemoveKeeps(w1.s, t, if D then placed else [], x, s');
      RestRemovedPrefix(w2, t, placed, D);
      KeptTrans(w.s, w1.s, w2.s, t);
      KeptTrans(w.s, w2.s, RestRemoved(w2, t, order).s, t);
    }
  }

  // ---------------------------------------------------------------------
  // A whole pass

  /** What `render` promises about its target, when the content function
      makes the calls `ps` and returns `unref`:
      - its attributes are the old ones with the calls folded over them,
        less those `removeAttribute` finds for the old names not set again;
        when it finds every old name as written, exactly the ones the calls
        set, the last call for a name deciding;
      - it has no more children than the pass placed, and, when no two
        placements compete for one node, exactly those children in order;
      - its cleanup set is what the pass gathered, with the returned cleanup
        and, on a later pass, what its updated callbacks returned;
      - on its first pass its removed set becomes the one the pass gathered,
        and on a later one it is kept. */
  lemma RenderedOutcome(w: Doc, t: NodeId, ps: seq<Push>, unref: Option<Callback>)
    requires Sound(w.s) && t in w.s.nodes
    ensures var r := Rendered(w, t, ps, unref);
      var f := PassFold(ps);
      && Sound(r.s) && t in r.s.nodes && r.s.nodes[t].kind == w.s.nodes[t].kind && r.s.nodes[t].inHtmlNamespace == w.s.nodes[t].inHtmlNamespace
      && r.s.nodes[t].attrs == AttrFold(w.s.nodes[t].attrs, ps) - RemovedNames(w.s.nodes[t], w.s.nodes[t].attrs.Keys - PushedNames(ps))
      && (NamesRemovable(w.s.nodes[t]) ==> r.s.nodes[t].attrs == AttrFold(map[], ps))
      && |r.s.nodes[t].children| <= |f.placed|
      && (Distinct(f.placed) ==> Exactly(r.s, t, f.placed))
      && t in r.s.cleanups && r.s.cleanups[t] == FinalCleanups(ps, unref, t in w.s.removeds)
      && (t !in w.s.removeds ==> t in r.s.removeds && r.s.removeds[t] == CreatedRemovedSet(f.created))
      && (t in w.s.removeds ==> t in r.s.removeds && r.s.removeds[t] == w.s.removeds[t])
  {
    var w1 := CleanedUp(CleanupEnsured(w, t), t);
    var w2 := CleanedUp(CleanupEnsured(w1, t), t);
    RenderedOpened(w, t);
    var D := Distinct(PassFold(ps).placed);
    RunPrefix(w2, t, ps, D);
    var w3 := Run(w2, t, ps);
    var names := w.s.nodes[t].attrs.Keys - PushedNames(ps);
    ClosedOutcome(w3, t, ps, unref, names, t in w.s.removeds, D);
    RemovedNamesSameFlag(w3.s.nodes[t], w.s.nodes[t], names);
    RemovableAttrs(w.s.nodes[t], ps);
  }

  /** When `removeAttribute` finds every old name as written, the pass
      leaves exactly the attributes its calls set. */
  lemma RemovableAttrs(node: Node, ps: seq<Push>)
    ensures NamesRemovable(node) ==>
      AttrFold(node.attrs, ps) - RemovedNames(node, node.attrs.Keys - PushedNames(ps)) == AttrFold(map[], ps)
  {
    if NamesRemovable(node) {
      RemovedNamesAsWritten(node, node.attrs.Keys - PushedNames(ps));
      PassAttrs(node.attrs, ps);
    }
  }

  /** On an element in the HTML namespace an attribute whose name has an
      upper-case letter, such as `tabIndex` set through `setAttributeNS`,
      outlives a pass that does not set it again: `updateAttributes` asks
      `removeAttribute` for the name, which looks for `tabindex`. */
  lemma MixedCaseAttributeSurvives(w: Doc, t: NodeId, ps: seq<Push>, unref: Option<Callback>, name: string, i: nat)
    requires Sound(w.s) && t in w.s.nodes && w.s.nodes[t].inHtmlNamespace
    requires name in w.s.nodes[t].attrs && name !in PushedNames(ps)
    requires i < |name| && 'A' <= name[i] <= 'Z'
    ensures var r := Rendered(w, t, ps, unref);
      t in r.s.nodes && name in r.s.nodes[t].attrs && r.s.nodes[t].attrs[name] == w.s.nodes[t].attrs[name]
  {
    var attrs := w.s.nodes[t].attrs;
    RenderedOutcome(w, t, ps, unref);
    AttrFoldOverwrites(attrs, ps, name);
    UpperCaseNeverRemoved(w.s.nodes[t], attrs.Keys - PushedNames(ps), name, i);
  }

  /** The two runs of the target's cleanup set, from `render` and from the
      context's constructor, empty it and change nothing else. */
  lemma RenderedOpened(w: Doc, t: NodeId)
    requires Sound(w.s) && t in w.s.nodes
    ensures var w1 := CleanedUp(CleanupEnsured(w, t), t);
      var w2 := CleanedUp(CleanupEnsured(w1, t), t);
      && Sound(w2.s) && w2.s.nodes == w.s.nodes && w1.s.removeds == w.s.removeds && w2.s.removeds == w.s.removeds
      && t in w2.s.cleanups && w2.s.cleanups[t] == []
  {
    var w1 := CleanedUp(CleanupEnsured(w, t), t);
    OpenKeeps(w, t);
    OpenKeeps(w1, t);
  }

  /** The end of `render`: the returned cleanup, the attributes not set
      again, the children not placed, then the callbacks. */
  lemma ClosedOutcome(w: Doc, t: NodeId, ps: seq<Push>, unref: Option<Callback>, names: set<string>, isUpdated: bool, D: bool)
    requires Sound(w.s) && t in w.s.nodes
    requires t in w.s.cleanups && w.s.cleanups[t] == PassFold(ps).cleanups
    requires D ==> Prefix(w.s, t, PassFold(ps).placed)
    ensures var f := PassFold(ps);
      var w4 := if unref.Some? then CleanupAdded(w, t, unref.value) else w;
      var w5 := AttrsRemoved(w4, t, names);
      var r := CallbacksRun(RestRemoved(w5, t, |f.placed|), t, isUpdated, f);
      && Sound(r.s) && t in r.s.nodes && r.s.nodes[t].kind == w.s.nodes[t].kind && r.s.nodes[t].inHtmlNamespace == w.s.nodes[t].inHtmlNamespace
      && r.s.nodes[t].attrs == w.s.nodes[t].attrs - RemovedNames(w.s.nodes[t], names)
      && |r.s.nodes[t].children| <= |f.placed|
      && (D ==> Exactly(r.s, t, f.placed))
      && t in r.s.cleanups && r.s.cleanups[t] == FinalCleanups(ps, unref, isUpdated)
      && (!isUpdated ==> t in r.s.removeds && r.s.removeds[t] == CreatedRemovedSet(f.created))
      && (isUpdated ==> Agree(w.s.removeds, r.s.removeds, t))
  {
    var f := PassFold(ps);
    var w4 := if unref.Some? then CleanupAdded(w, t, unref.value) else w;
    if unref.Some? {
      CleanupAddedPrefix(w, t, unref.value);
    }
    var w5 := AttrsRemoved(w4, t, names);
    AttrsRemovedPrefix(w4, t, names, f.placed, D);
    var w6 := RestRemoved(w5, t, |f.placed|);
    RestRemovedPrefix(w5, t, f.placed, D);
    CallbacksOutcome(w6, t, isUpdated, f);
  }

  /** `updateAttributes` removes what `removeAttribute` finds for each name
      not set again. */
  lemma AttrsRemovedPrefix(w: Doc, t: NodeId, names: set<string>, placed: seq<Placement>, D: bool)
    requires Sound(w.s) && t in w.s.nodes
    requires D ==> Prefix(w.s, t, placed)
    ensures var r := AttrsRemoved(w, t, names);
      && Sound(r.s) && t in r.s.nodes && r.s.nodes[t].kind == w.s.nodes[t].kind && r.s.nodes[t].inHtmlNamespace == w.s.nodes[t].inHtmlNamespace
      && r.s.nodes[t].attrs == w.s.nodes[t].attrs - RemovedNames(w.s.nodes[t], names)
      && r.s.cleanups == w.s.cleanups && r.s.removeds == w.s.removeds
      && (D ==> Prefix(r.s, t, placed))
  {
    NodeEdit(w, t, w.s.nodes[t].(attrs := w.s.nodes[t].attrs - RemovedNames(w.s.nodes[t], names)));
    if D {
      SelfPrefix(w.s, AttrsRemoved(w, t, names).s, t, placed);
    }
  }

  /** `updateCallbacks` adds to the target's cleanup set on a later pass
      and sets its removed set on the first. */
  lemma CallbacksOutcome(w: Doc, t: NodeId, isUpdated: bool, f: PassState)
    requires Sound(w.s) && t in w.s.nodes && t in w.s.cleanups
    ensures var r := CallbacksRun(w, t, isUpdated, f);
      && Sound(r.s) && r.s.nodes == w.s.nodes && r.s.keys == w.s.keys
      && t in r.s.cleanups
      && r.s.cleanups[t] == (if isUpdated then SetAddAll(w.s.cleanups[t], UpdatedCleanupSet(f.updated)) else w.s.cleanups[t])
      && (!isUpdated ==> t in r.s.removeds && r.s.removeds[t] == CreatedRemovedSet(f.created))
      && (isUpdated ==> r.s.removeds == w.s.removeds)
  {
    TablesEdit(w, CallbacksRun(w, t, isUpdated, f).s, t);
  }
}
