/** The live tree the reconciler of src/render.ts works on: an arena of
    nodes identified by creation order, the child lists the DOM keeps, and
    the three module-level `WeakMap` side tables (`nodesKeyMap`,
    `elementsCleanupCallbacksSetMap`, `elementsRemovedCallbacksSetMap`) as
    ordinary maps with explicit deletion. `parent` is the DOM's
    `parentNode`, kept as a ghost map to state the tree's shape. */
module Tree {
  import opened Common
  import opened Descriptors
  import opened Nodes
  import opened Callbacks
  import ChildList

  /** A snapshot of the tree and its side tables. */
  datatype DomState = DomState(
    nodes: map<NodeId, Node>,
    parent: map<NodeId, NodeId>,
    next: nat,
    keys: map<NodeId, KeyValue>,
    cleanups: map<NodeId, seq<Callback>>,
    removeds: map<NodeId, seq<Callback>>)

  /** A snapshot of the document: its state and the callbacks run so far. */
  datatype Doc = Doc(s: DomState, log: seq<Event>)

  /** The DOM's shape: ids below the next fresh id, a child list without
      repetitions whose members name their parent, children created after
      their parent, and `parentNode` consistent with the child lists (so a
      node has at most one parent). */
  ghost predicate TreeWf(nodes: map<NodeId, Node>, parent: map<NodeId, NodeId>, next: nat) {
    && (forall x :: x in nodes ==> x < next)
    && (forall x, i :: x in nodes && 0 <= i < |nodes[x].children| ==> ChildFits(nodes, parent, x, nodes[x].children[i]))
    && (forall x :: x in nodes ==> NoDup(nodes[x].children))
    && ParentsListed(nodes, parent)
  }


  /** Every recorded parent exists and lists the child. */
  ghost predicate ParentsListed(nodes: map<NodeId, Node>, parent: map<NodeId, NodeId>) {
    forall c :: c in parent ==> parent[c] in nodes && c in nodes[parent[c]].children
  }

  ghost predicate ChildFits(nodes: map<NodeId, Node>, parent: map<NodeId, NodeId>, x: NodeId, c: NodeId) {
    c in nodes && x < c && c in parent && parent[c] == x
  }

  /** The side tables only mention existing nodes, and the callback sets are
      sets. */
  ghost predicate TablesWf(s: DomState) {
    && s.keys.Keys <= s.nodes.Keys && s.cleanups.Keys <= s.nodes.Keys && s.removeds.Keys <= s.nodes.Keys
    && (forall x :: x in s.cleanups ==> NoDup(s.cleanups[x]))
    && (forall x :: x in s.removeds ==> NoDup(s.removeds[x]))
  }

  ghost predicate Wf(s: DomState) {
    TreeWf(s.nodes, s.parent, s.next) && TablesWf(s)
  }

  // ---------------------------------------------------------------------
  // Subtrees and frames

  /** `n` is `y` or one of its ancestors. */
  ghost predicate Below(parent: map<NodeId, NodeId>, y: NodeId, n: NodeId)
    decreases y
  {
    y == n || (y in parent && parent[y] < y && Below(parent, parent[y], n))
  }

  lemma {:induction false} BelowAtLeast(parent: map<NodeId, NodeId>, y: NodeId, n: NodeId)
    requires Below(parent, y, n)
    ensures n <= y
    decreases y
  {
    if y != n {
      BelowAtLeast(parent, parent[y], n);
    }
  }

  lemma {:induction false} BelowTrans(parent: map<NodeId, NodeId>, y: NodeId, m: NodeId, n: NodeId)
    requires Below(parent, y, m) && Below(parent, m, n)
    ensures Below(parent, y, n)
    decreases y
  {
    if y != m {
      BelowTrans(parent, parent[y], m, n);
    }
  }

  /** The ancestors of a node form a chain. */
  lemma {:induction false} BelowLinear(parent: map<NodeId, NodeId>, y: NodeId, a: NodeId, b: NodeId)
    requires Below(parent, y, a) && Below(parent, y, b)
    ensures Below(parent, a, b) || Below(parent, b, a)
    decreases y
  {
    if y != a && y != b {
      BelowLinear(parent, parent[y], a, b);
    }
  }

  /** A map entry is the same in two maps. */
  predicate Agree<V(==)>(m0: map<NodeId, V>, m1: map<NodeId, V>, k: NodeId) {
    (k in m0 <==> k in m1) && (k in m0 ==> m0[k] == m1[k])
  }

  /** Nothing recorded about node `y` differs. */
  ghost predicate Same(s0: DomState, s1: DomState, y: NodeId) {
    && Agree(s0.nodes, s1.nodes, y) && Agree(s0.parent, s1.parent, y)
    && Agree(s0.keys, s1.keys, y) && Agree(s0.cleanups, s1.cleanups, y) && Agree(s0.removeds, s1.removeds, y)
  }

  /** Nodes are never destroyed, and a node's kind and tag never change. */
  ghost predicate Grows(s0: DomState, s1: DomState) {
    && s0.next <= s1.next
    && forall y :: y in s0.nodes ==> y in s1.nodes && s1.nodes[y].kind == s0.nodes[y].kind && s1.nodes[y].tagName == s0.nodes[y].tagName
  }

  /** Only nodes of the subtree rooted at `n`, and nodes created from `lim`
      on, have changed; `n` is still where it was, with the same key. */
  ghost predicate Confined(s0: DomState, s1: DomState, n: NodeId, lim: nat) {
    && Grows(s0, s1)
    && Agree(s0.parent, s1.parent, n) && Agree(s0.keys, s1.keys, n)
    && forall y: NodeId :: y < lim && !Below(s0.parent, y, n) ==> Same(s0, s1, y)
  }

  /** Only the nodes in `d` have changed. */
  ghost predicate Changed(s0: DomState, s1: DomState, d: set<NodeId>) {
    Grows(s0, s1) && forall y: NodeId :: y !in d ==> Same(s0, s1, y)
  }

  /** A node outside the subtree keeps its ancestors, so it stays outside. */
  lemma {:induction false} NotBelowKept(p0: map<NodeId, NodeId>, p1: map<NodeId, NodeId>, y: NodeId, n: NodeId, lim: nat)
    requires forall z: NodeId :: z < lim && !Below(p0, z, n) ==> Agree(p0, p1, z)
    requires y < lim && !Below(p0, y, n)
    ensures !Below(p1, y, n)
    decreases y
  {
    assert Agree(p0, p1, y);
    if y in p1 && p1[y] < y {
      NotBelowKept(p0, p1, p1[y], n, lim);
    }
  }

  lemma ConfinedRefl(s: DomState, n: NodeId, lim: nat)
    ensures Confined(s, s, n, lim)
  {
  }

  lemma ConfinedTrans(s0: DomState, s1: DomState, s2: DomState, n: NodeId, lim: nat)
    requires Confined(s0, s1, n, lim) && Confined(s1, s2, n, lim)
    ensures Confined(s0, s2, n, lim)
  {
    forall y: NodeId | y < lim && !Below(s0.parent, y, n) ensures Same(s0, s2, y) {
      assert Same(s0, s1, y);
      NotBelowKept(s0.parent, s1.parent, y, n, lim);
      assert Same(s1, s2, y);
    }
  }

  /** A change confined to a subtree is confined to any subtree containing
      it, and to fewer old nodes. */
  lemma ConfinedWiden(s0: DomState, s1: DomState, m: NodeId, n: NodeId, lim: nat, lim': nat)
    requires Confined(s0, s1, m, lim) && lim' <= lim
    requires forall y: NodeId :: y < lim' && Below(s0.parent, y, m) ==> Below(s0.parent, y, n)
    requires n == m || (n < lim && !Below(s0.parent, n, m))
    ensures Confined(s0, s1, n, lim')
  {
  }

  /** From the subtree of a descendant to the subtree of its ancestor. */
  lemma ConfinedToAncestor(s0: DomState, s1: DomState, m: NodeId, n: NodeId, lim: nat)
    requires Confined(s0, s1, m, lim) && Below(s0.parent, m, n) && n < lim
    ensures Confined(s0, s1, n, lim)
  {
    forall y: NodeId | y < lim && Below(s0.parent, y, m) ensures Below(s0.parent, y, n) {
      BelowTrans(s0.parent, y, m, n);
    }
    if n != m {
      BelowAtLeast(s0.parent, m, n);
      if Below(s0.parent, n, m) {
        BelowAtLeast(s0.parent, n, m);
      }
    }
    ConfinedWiden(s0, s1, m, n, lim, lim);
  }

  /** From the subtree of a node created from `lim` on to any subtree. */
  lemma ConfinedFromFresh(s0: DomState, s1: DomState, m: NodeId, n: NodeId, lim: nat, lim': nat)
    requires Confined(s0, s1, m, lim) && lim' <= lim && lim' <= m && n < lim'
    ensures Confined(s0, s1, n, lim')
  {
    forall y: NodeId | y < lim' && Below(s0.parent, y, m) ensures false {
      BelowAtLeast(s0.parent, y, m);
    }
    if Below(s0.parent, n, m) {
      BelowAtLeast(s0.parent, n, m);
    }
    ConfinedWiden(s0, s1, m, n, lim, lim');
  }

  lemma ChangedConfined(s0: DomState, s1: DomState, d: set<NodeId>, n: NodeId, lim: nat)
    requires Changed(s0, s1, d) && Agree(s0.parent, s1.parent, n) && Agree(s0.keys, s1.keys, n)
    requires forall y :: y in d && y < lim ==> Below(s0.parent, y, n)
    ensures Confined(s0, s1, n, lim)
  {
  }

  lemma ChangedTrans(s0: DomState, s1: DomState, s2: DomState, d1: set<NodeId>, d2: set<NodeId>)
    requires Changed(s0, s1, d1) && Changed(s1, s2, d2)
    ensures Changed(s0, s2, d1 + d2)
  {
  }

  /** A child is in its parent's subtree. */
  lemma ChildBelow(s: DomState, t: NodeId, c: NodeId, n: NodeId)
    requires TreeWf(s.nodes, s.parent, s.next) && t in s.nodes && c in s.nodes[t].children
    requires Below(s.parent, t, n)
    ensures Below(s.parent, c, n)
  {
  }

  /** A sibling is not in the subtree of another child of the same parent, and
      the parent is in neither. */
  lemma SiblingNotBelow(s: DomState, t: NodeId, c: NodeId, y: NodeId)
    requires TreeWf(s.nodes, s.parent, s.next) && t in s.nodes
    requires c in s.nodes[t].children && y in s.nodes[t].children && y != c
    ensures !Below(s.parent, y, c) && !Below(s.parent, t, c)
  {
    assert t < c && s.parent[y] == t;
    if Below(s.parent, t, c) {
      BelowAtLeast(s.parent, t, c);
    }
    assert !Below(s.parent, t, c);
    assert Below(s.parent, y, c) == Below(s.parent, t, c);
  }

  // ---------------------------------------------------------------------
  // The DOM edits the reconciler makes, on snapshots

  /** A node created with no children keeps the tree well formed. */
  lemma CreateWf(s: DomState, node: Node)
    requires Wf(s) && node.children == []
    ensures Wf(s.(nodes := s.nodes[s.next := node], next := s.next + 1))
  {
    var nodes' := s.nodes[s.next := node];
    forall y, i | y in nodes' && 0 <= i < |nodes'[y].children| ensures ChildFits(nodes', s.parent, y, nodes'[y].children[i]) {
      assert y != s.next && ChildFits(s.nodes, s.parent, y, s.nodes[y].children[i]);
    }
  }

  /** `insertBefore` of a child of `t`, or of a detached node created after
      `t`. */
  lemma InsertWf(s: DomState, t: NodeId, x: NodeId, ref: Option<NodeId>)
    requires Wf(s) && t in s.nodes && x in s.nodes && t < x
    requires x in s.nodes[t].children || x !in s.parent
    requires ref.Some? ==> ref.value in s.nodes[t].children && ref.value != x
    ensures Wf(s.(nodes := s.nodes[t := s.nodes[t].(children := ChildList.InsertBefore(s.nodes[t].children, x, ref))], parent := s.parent[x := t]))
  {
    var ch := s.nodes[t].children;
    var nc := ChildList.InsertBefore(ch, x, ref);
    var nodes' := s.nodes[t := s.nodes[t].(children := nc)];
    var parent' := s.parent[x := t];
    InsertChildrenFit(s, t, x, ref);
    InsertParents(s, t, x, ref);
    assert TreeWf(nodes', parent', s.next) by {
      assert forall y :: y in nodes' ==> NoDup(nodes'[y].children);
    }
    assert TablesWf(s.(nodes := nodes', parent := parent'));
  }

  /** `insertBefore` keeps the document well formed and changes only `t`
      and `x`. */
  lemma InsertEdit(s: DomState, t: NodeId, x: NodeId, ref: Option<NodeId>)
    requires Wf(s) && t in s.nodes && x in s.nodes && t < x
    requires x in s.nodes[t].children || x !in s.parent
    requires ref.Some? ==> ref.value in s.nodes[t].children && ref.value != x
    ensures var s' := s.(nodes := s.nodes[t := s.nodes[t].(children := ChildList.InsertBefore(s.nodes[t].children, x, ref))], parent := s.parent[x := t]);
      Wf(s') && Changed(s, s', {t, x})
  {
    InsertWf(s, t, x, ref);
    NodeEditChanged(s, t, s.nodes[t].(children := ChildList.InsertBefore(s.nodes[t].children, x, ref)), s.parent[x := t], {t, x});
  }

  /** `removeChild` keeps the document well formed and changes only `t`
      and `x`. */
  lemma RemoveEdit(s: DomState, t: NodeId, x: NodeId)
    requires Wf(s) && t in s.nodes && x in s.nodes[t].children
    ensures NoDup(s.nodes[t].children)
    ensures var s' := s.(nodes := s.nodes[t := s.nodes[t].(children := ChildList.RemoveChild(s.nodes[t].children, x))], parent := s.parent - {x});
      Wf(s') && Changed(s, s', {t, x})
  {
    RemoveChildWf(s, t, x);
    NodeEditChanged(s, t, s.nodes[t].(children := ChildList.RemoveChild(s.nodes[t].children, x)), s.parent - {x}, {t, x});
  }

  lemma InsertChildrenFit(s: DomState, t: NodeId, x: NodeId, ref: Option<NodeId>)
    requires Wf(s) && t in s.nodes && x in s.nodes && t < x
    requires x in s.nodes[t].children || x !in s.parent
    requires ref.Some? ==> ref.value in s.nodes[t].children && ref.value != x
    ensures var nodes' := s.nodes[t := s.nodes[t].(children := ChildList.InsertBefore(s.nodes[t].children, x, ref))];
      var parent' := s.parent[x := t];
      forall y, i :: y in nodes' && 0 <= i < |nodes'[y].children| ==> ChildFits(nodes', parent', y, nodes'[y].children[i])
  {
    var nodes' := s.nodes[t := s.nodes[t].(children := ChildList.InsertBefore(s.nodes[t].children, x, ref))];
    var parent' := s.parent[x := t];
    forall y, i | y in nodes' && 0 <= i < |nodes'[y].children| ensures ChildFits(nodes', parent', y, nodes'[y].children[i]) {
      InsertFits(s, t, x, ref, y, i);
    }
  }

  lemma InsertParents(s: DomState, t: NodeId, x: NodeId, ref: Option<NodeId>)
    requires ParentsListed(s.nodes, s.parent) && t in s.nodes
    requires ref.Some? ==> ref.value in s.nodes[t].children && ref.value != x
    ensures ParentsListed(s.nodes[t := s.nodes[t].(children := ChildList.InsertBefore(s.nodes[t].children, x, ref))], s.parent[x := t])
  {
    var nc := ChildList.InsertBefore(s.nodes[t].children, x, ref);
    ParentsAfterInsert(s.nodes, s.parent, t, x, nc);
  }

  /** `x` put under `t`, whose new list keeps the old children and has `x`. */
  lemma ParentsAfterInsert(nodes: map<NodeId, Node>, parent: map<NodeId, NodeId>, t: NodeId, x: NodeId, nc: seq<NodeId>)
    requires ParentsListed(nodes, parent) && t in nodes
    requires x in nc && forall y :: y in nodes[t].children ==> y in nc
    ensures ParentsListed(nodes[t := nodes[t].(children := nc)], parent[x := t])
  {
    var nodes' := nodes[t := nodes[t].(children := nc)];
    var parent' := parent[x := t];
    forall c | c in parent' ensures parent'[c] in nodes' && c in nodes'[parent'[c]].children {
      if c != x {
        var p := parent[c];
        assert p in nodes && c in nodes[p].children;
      }
    }
  }

  lemma InsertFits(s: DomState, t: NodeId, x: NodeId, ref: Option<NodeId>, y: NodeId, i: nat)
    requires Wf(s) && t in s.nodes && x in s.nodes && t < x
    requires x in s.nodes[t].children || x !in s.parent
    requires ref.Some? ==> ref.value in s.nodes[t].children && ref.value != x
    requires y in s.nodes && i < |(if y == t then ChildList.InsertBefore(s.nodes[t].children, x, ref) else s.nodes[y].children)|
    ensures var nc := ChildList.InsertBefore(s.nodes[t].children, x, ref);
      ChildFits(s.nodes[t := s.nodes[t].(children := nc)], s.parent[x := t], y, (if y == t then nc else s.nodes[y].children)[i])
  {
    var ch := s.nodes[t].children;
    var nc := ChildList.InsertBefore(ch, x, ref);
    if y == t {
      var c := nc[i];
      assert c in nc;
      if c != x {
        var j :| 0 <= j < |ch| && ch[j] == c;
        assert ChildFits(s.nodes, s.parent, t, ch[j]);
      }
      FitsAfterInsert(s.nodes, s.parent, t, x, nc, t, c);
    } else {
      assert ChildFits(s.nodes, s.parent, y, s.nodes[y].children[i]);
      if x in ch {
        var j :| 0 <= j < |ch| && ch[j] == x;
        assert ChildFits(s.nodes, s.parent, t, ch[j]);
      }
      FitsAfterInsert(s.nodes, s.parent, t, x, nc, y, s.nodes[y].children[i]);
    }
  }

  /** One child's fit after `x` is put under `t`. */
  lemma FitsAfterInsert(nodes: map<NodeId, Node>, parent: map<NodeId, NodeId>, t: NodeId, x: NodeId, nc: seq<NodeId>, y: NodeId, c: NodeId)
    requires t in nodes && x in nodes && t < x
    requires (y == t && c == x) || ChildFits(nodes, parent, y, c)
    requires y != t ==> x in parent ==> parent[x] == t
    ensures ChildFits(nodes[t := nodes[t].(children := nc)], parent[x := t], y, c)
  {
  }

  /** `removeChild` detaches the child. */
  lemma RemoveChildWf(s: DomState, t: NodeId, x: NodeId)
    requires Wf(s) && t in s.nodes && x in s.nodes[t].children
    ensures NoDup(s.nodes[t].children)
    ensures Wf(s.(nodes := s.nodes[t := s.nodes[t].(children := ChildList.RemoveChild(s.nodes[t].children, x))], parent := s.parent - {x}))
  {
    var ch := s.nodes[t].children;
    var nc := ChildList.RemoveChild(ch, x);
    var nodes' := s.nodes[t := s.nodes[t].(children := nc)];
    var parent' := s.parent - {x};
    var k :| 0 <= k < |ch| && ch[k] == x;
    assert ChildFits(s.nodes, s.parent, t, ch[k]);
    forall y, i | y in nodes' && 0 <= i < |nodes'[y].children| ensures ChildFits(nodes', parent', y, nodes'[y].children[i]) {
      var c := nodes'[y].children[i];
      if y == t {
        assert c in nc;
        var j :| 0 <= j < |ch| && ch[j] == c;
        assert ChildFits(s.nodes, s.parent, t, ch[j]);
      } else {
        assert ChildFits(s.nodes, s.parent, y, s.nodes[y].children[i]);
      }
    }
    forall c | c in parent' ensures parent'[c] in nodes' && c in nodes'[parent'[c]].children {
      var p := s.parent[c];
      assert c in s.nodes[p].children;
      if p == t {
        assert c in nc;
      }
    }
  }

  /** `replaceChild` with a detached node created after `t`. */
  lemma ReplaceWf(s: DomState, t: NodeId, nw: NodeId, oc: NodeId)
    requires Wf(s) && t in s.nodes && oc in s.nodes[t].children
    requires nw in s.nodes && nw !in s.parent && t < nw
    ensures NoDup(s.nodes[t].children) && nw !in s.nodes[t].children
    ensures Wf(s.(nodes := s.nodes[t := s.nodes[t].(children := ChildList.ReplaceChild(s.nodes[t].children, nw, oc))], parent := (s.parent - {oc})[nw := t]))
  {
    var ch := s.nodes[t].children;
    var nc := ChildList.ReplaceChild(ch, nw, oc);
    var nodes' := s.nodes[t := s.nodes[t].(children := nc)];
    var parent' := (s.parent - {oc})[nw := t];
    ReplaceChildrenFit(s, t, nw, oc);
    ReplaceParents(s, t, nw, oc);
    assert TreeWf(nodes', parent', s.next) by {
      assert forall y :: y in nodes' ==> NoDup(nodes'[y].children);
    }
    assert TablesWf(s.(nodes := nodes', parent := parent'));
  }

  lemma ReplaceChildrenFit(s: DomState, t: NodeId, nw: NodeId, oc: NodeId)
    requires Wf(s) && t in s.nodes && oc in s.nodes[t].children
    requires nw in s.nodes && nw !in s.parent && t < nw
    ensures NoDup(s.nodes[t].children) && nw !in s.nodes[t].children
    ensures var nodes' := s.nodes[t := s.nodes[t].(children := ChildList.ReplaceChild(s.nodes[t].children, nw, oc))];
      var parent' := (s.parent - {oc})[nw := t];
      forall y, i :: y in nodes' && 0 <= i < |nodes'[y].children| ==> ChildFits(nodes', parent', y, nodes'[y].children[i])
  {
    var ch := s.nodes[t].children;
    var nc := ChildList.ReplaceChild(ch, nw, oc);
    var nodes' := s.nodes[t := s.nodes[t].(children := nc)];
    var parent' := (s.parent - {oc})[nw := t];
    var k :| 0 <= k < |ch| && ch[k] == oc;
    assert ChildFits(s.nodes, s.parent, t, ch[k]);
    forall y, i | y in nodes' && 0 <= i < |nodes'[y].children| ensures ChildFits(nodes', parent', y, nodes'[y].children[i]) {
      var c := nodes'[y].children[i];
      if y == t {
        assert c in nc;
        if c != nw {
          var j :| 0 <= j < |ch| && ch[j] == c;
          assert ChildFits(s.nodes, s.parent, t, ch[j]);
        }
      } else {
        assert ChildFits(s.nodes, s.parent, y, s.nodes[y].children[i]);
      }
    }
  }

  lemma ReplaceParents(s: DomState, t: NodeId, nw: NodeId, oc: NodeId)
    requires Wf(s) && t in s.nodes && oc in s.nodes[t].children && nw !in s.nodes[t].children
    requires nw in s.nodes
    ensures var nodes' := s.nodes[t := s.nodes[t].(children := ChildList.ReplaceChild(s.nodes[t].children, nw, oc))];
      var parent' := (s.parent - {oc})[nw := t];
      forall c :: c in parent' ==> parent'[c] in nodes' && c in nodes'[parent'[c]].children
  {
    var ch := s.nodes[t].children;
    var nc := ChildList.ReplaceChild(ch, nw, oc);
    var nodes' := s.nodes[t := s.nodes[t].(children := nc)];
    var parent' := (s.parent - {oc})[nw := t];
    forall c | c in parent' ensures parent'[c] in nodes' && c in nodes'[parent'[c]].children {
      if c != nw {
        var p := s.parent[c];
        assert c in s.nodes[p].children;
        if p == t {
          assert c in nc;
        }
      }
    }
  }

  /** `replaceChild` keeps the document well formed and changes only `t`,
      `nw` and `oc`. */
  lemma ReplaceEdit(s: DomState, t: NodeId, nw: NodeId, oc: NodeId)
    requires Wf(s) && t in s.nodes && oc in s.nodes[t].children
    requires nw in s.nodes && nw !in s.parent && t < nw
    ensures NoDup(s.nodes[t].children) && nw !in s.nodes[t].children
    ensures var s' := s.(nodes := s.nodes[t := s.nodes[t].(children := ChildList.ReplaceChild(s.nodes[t].children, nw, oc))], parent := (s.parent - {oc})[nw := t]);
      Wf(s') && Changed(s, s', {t, nw, oc})
  {
    ReplaceWf(s, t, nw, oc);
    NodeEditChanged(s, t, s.nodes[t].(children := ChildList.ReplaceChild(s.nodes[t].children, nw, oc)), (s.parent - {oc})[nw := t], {t, nw, oc});
  }


  /** Assigning `innerHTML` detaches every child and leaves the markup. */
  lemma InnerHTMLWf(s: DomState, x: NodeId, html: string)
    requires Wf(s) && x in s.nodes
    ensures Wf(s.(nodes := s.nodes[x := s.nodes[x].(children := [], markup := Some(html))],
                  parent := s.parent - (set c | c in s.nodes[x].children)))
  {
    var nodes' := s.nodes[x := s.nodes[x].(children := [], markup := Some(html))];
    var gone := set c | c in s.nodes[x].children;
    var parent' := s.parent - gone;
    forall y, i | y in nodes' && 0 <= i < |nodes'[y].children| ensures ChildFits(nodes', parent', y, nodes'[y].children[i]) {
      var c := nodes'[y].children[i];
      assert y != x && ChildFits(s.nodes, s.parent, y, s.nodes[y].children[i]);
    }
    forall c | c in parent' ensures parent'[c] in nodes' && c in nodes'[parent'[c]].children {
      var p := s.parent[c];
      assert c in s.nodes[p].children;
    }
  }

  /** Changing a node's data or attributes keeps the tree well formed. */
  lemma SetNodeWf(s: DomState, x: NodeId, node: Node)
    requires Wf(s) && x in s.nodes && node.children == s.nodes[x].children
    ensures Wf(s.(nodes := s.nodes[x := node]))
  {
    var nodes' := s.nodes[x := node];
    forall y, i | y in nodes' && 0 <= i < |nodes'[y].children| ensures ChildFits(nodes', s.parent, y, nodes'[y].children[i]) {
      assert ChildFits(s.nodes, s.parent, y, s.nodes[y].children[i]);
    }
  }

  // ---------------------------------------------------------------------
  // Subtrees and the removal cascade

  /** The nodes of the subtree rooted at `x`. */
  ghost function Sub(nodes: map<NodeId, Node>, parent: map<NodeId, NodeId>, x: NodeId): set<NodeId> {
    set y | y in nodes && Below(parent, y, x)
  }

  /** `y` is in the subtree of one of `cs`. */
  ghost predicate BelowAny(parent: map<NodeId, NodeId>, y: NodeId, cs: seq<NodeId>) {
    exists j :: 0 <= j < |cs| && Below(parent, y, cs[j])
  }

  /** The nodes of the subtrees rooted at `cs`. */
  ghost function SubAll(nodes: map<NodeId, Node>, parent: map<NodeId, NodeId>, cs: seq<NodeId>): set<NodeId> {
    set y | y in nodes && BelowAny(parent, y, cs)
  }

  /** The callback sets of `d` emptied, others untouched. */
  function Emptied(m: map<NodeId, seq<Callback>>, d: set<NodeId>): (r: map<NodeId, seq<Callback>>)
    ensures r.Keys == m.Keys
    ensures forall y :: y in m ==> r[y] == if y in d then [] else m[y]
  {
    map y | y in m :: if y in d then [] else m[y]
  }

  /** The cleanup callbacks of `x`, then its removed callbacks. */
  function OwnEvents(s: DomState, x: NodeId): seq<Event> {
    CallbackEvents(x, CleanupPhase, if x in s.cleanups then s.cleanups[x] else [])
      + CallbackEvents(x, RemovedPhase, if x in s.removeds then s.removeds[x] else [])
  }

  /** The callbacks `removeNode(x)` runs: those of `x`, then those of each
      child's subtree in child order. */
  ghost function RemovalEvents(s: DomState, x: NodeId): seq<Event>
    requires TreeWf(s.nodes, s.parent, s.next) && x in s.nodes
    decreases s.next - x, 1, 0
  {
    ChildrenInside(s, x);
    OwnEvents(s, x) + ChildrenEvents(s, x, s.nodes[x].children)
  }

  ghost function ChildrenEvents(s: DomState, x: NodeId, cs: seq<NodeId>): seq<Event>
    requires TreeWf(s.nodes, s.parent, s.next) && x in s.nodes
    requires forall c :: c in cs ==> c in s.nodes && x < c
    decreases s.next - x, 0, |cs|
  {
    if cs == [] then []
    else
      var init := cs[..|cs| - 1];
      InitInside(s, x, cs, init);
      ChildrenEvents(s, x, init) + RemovalEvents(s, cs[|cs| - 1])
  }

  lemma InitInside(s: DomState, x: NodeId, cs: seq<NodeId>, init: seq<NodeId>)
    requires cs != [] && init == cs[..|cs| - 1] && forall c :: c in cs ==> c in s.nodes && x < c
    ensures forall c :: c in init ==> c in s.nodes && x < c
  {
    forall c | c in init ensures c in s.nodes && x < c {
      assert c in cs;
    }
  }

  lemma ChildrenInside(s: DomState, x: NodeId)
    requires TreeWf(s.nodes, s.parent, s.next) && x in s.nodes
    ensures forall c :: c in s.nodes[x].children ==> c in s.nodes && x < c && c < s.next && c in s.parent && s.parent[c] == x
  {
    forall c | c in s.nodes[x].children ensures c in s.nodes && x < c && c < s.next && c in s.parent && s.parent[c] == x {
      var j :| 0 <= j < |s.nodes[x].children| && s.nodes[x].children[j] == c;
      assert ChildFits(s.nodes, s.parent, x, s.nodes[x].children[j]);
    }
  }

  /** A node is in the subtree of `x` exactly when it is `x` or in the
      subtree of one of its children. */
  lemma {:induction false} SubSplit(s: DomState, x: NodeId, y: NodeId)
    requires TreeWf(s.nodes, s.parent, s.next) && x in s.nodes
    ensures Below(s.parent, y, x) <==> y == x || BelowAny(s.parent, y, s.nodes[x].children)
    decreases y
  {
    var ch := s.nodes[x].children;
    ChildrenInside(s, x);
    if y != x && Below(s.parent, y, x) {
      var p := s.parent[y];
      assert y in s.nodes[p].children;
      if p == x {
        var j :| 0 <= j < |ch| && ch[j] == y;
        assert Below(s.parent, y, ch[j]);
      } else {
        SubSplit(s, x, p);
        var j :| 0 <= j < |ch| && Below(s.parent, p, ch[j]);
        assert Below(s.parent, y, ch[j]);
      }
    }
    if BelowAny(s.parent, y, ch) {
      var j :| 0 <= j < |ch| && Below(s.parent, y, ch[j]);
      assert Below(s.parent, ch[j], x);
      BelowTrans(s.parent, y, ch[j], x);
    }
  }

  /** The subtrees of distinct children are disjoint, and exclude the parent. */
  lemma SubtreesDisjoint(s: DomState, x: NodeId, i: nat, y: NodeId)
    requires TreeWf(s.nodes, s.parent, s.next) && x in s.nodes && i < |s.nodes[x].children|
    requires Below(s.parent, y, s.nodes[x].children[i])
    ensures y != x && !BelowAny(s.parent, y, s.nodes[x].children[..i])
  {
    var ch := s.nodes[x].children;
    ChildrenInside(s, x);
    BelowAtLeast(s.parent, y, ch[i]);
    if BelowAny(s.parent, y, ch[..i]) {
      var j :| 0 <= j < i && Below(s.parent, y, ch[..i][j]);
      assert ch[..i][j] == ch[j] && ch[j] != ch[i];
      BelowLinear(s.parent, y, ch[i], ch[j]);
      SiblingNotBelow(s, x, ch[i], ch[j]);
      SiblingNotBelow(s, x, ch[j], ch[i]);
    }
  }

  /** The subtree of a child lies inside the parent's. */
  lemma ChildSubInside(s: DomState, x: NodeId, c: NodeId, y: NodeId)
    requires TreeWf(s.nodes, s.parent, s.next) && x in s.nodes && c in s.nodes[x].children
    requires Below(s.parent, y, c)
    ensures Below(s.parent, y, x)
  {
    ChildrenInside(s, x);
    assert Below(s.parent, c, x);
    BelowTrans(s.parent, y, c, x);
  }

  /** Removing the subtrees of the first `i` children leaves the tables of
      child `i`'s subtree alone. */
  lemma LaterSubtreeUntouched(s: DomState, x: NodeId, i: nat)
    requires TreeWf(s.nodes, s.parent, s.next) && x in s.nodes && i < |s.nodes[x].children|
    ensures var ch := s.nodes[x].children;
      TablesAgreeBelow(s, Forget(s, SubAll(s.nodes, s.parent, ch[..i])), ch[i])
  {
    var ch := s.nodes[x].children;
    var done := SubAll(s.nodes, s.parent, ch[..i]);
    var s' := Forget(s, done);
    forall y | y in s.nodes && Below(s.parent, y, ch[i]) ensures Agree(s.cleanups, s'.cleanups, y) && Agree(s.removeds, s'.removeds, y) {
      SubtreesDisjoint(s, x, i, y);
      assert y !in done;
    }
  }

  ghost predicate TablesAgreeBelow(s: DomState, s': DomState, x: NodeId) {
    forall y :: y in s.nodes && Below(s.parent, y, x) ==> Agree(s.cleanups, s'.cleanups, y) && Agree(s.removeds, s'.removeds, y)
  }

  /** The same, leaving out the root itself. */
  ghost predicate TablesAgreeInside(s: DomState, s': DomState, x: NodeId) {
    forall y :: y in s.nodes && Below(s.parent, y, x) && y != x ==> Agree(s.cleanups, s'.cleanups, y) && Agree(s.removeds, s'.removeds, y)
  }

  /** The removal events only depend on the callback sets of the subtree. */
  lemma {:induction false} RemovalEventsLocal(s: DomState, s': DomState, x: NodeId)
    requires TreeWf(s.nodes, s.parent, s.next) && x in s.nodes
    requires s'.nodes == s.nodes && s'.parent == s.parent && s'.next == s.next
    requires TablesAgreeBelow(s, s', x)
    ensures RemovalEvents(s, x) == RemovalEvents(s', x)
    decreases s.next - x, 1, 0
  {
    assert Below(s.parent, x, x);
    ChildrenInside(s, x);
    ChildrenEventsLocal(s, s', x, s.nodes[x].children);
  }

  lemma {:induction false} ChildrenEventsLocal(s: DomState, s': DomState, x: NodeId, cs: seq<NodeId>)
    requires TreeWf(s.nodes, s.parent, s.next) && x in s.nodes
    requires forall c :: c in cs ==> c in s.nodes[x].children
    requires s'.nodes == s.nodes && s'.parent == s.parent && s'.next == s.next
    requires TablesAgreeInside(s, s', x)
    ensures (ChildrenInside(s, x); ChildrenEvents(s, x, cs) == ChildrenEvents(s', x, cs))
    decreases s.next - x, 0, |cs|
  {
    ChildrenInside(s, x);
    if cs != [] {
      var c := cs[|cs| - 1];
      ChildrenEventsLocal(s, s', x, cs[..|cs| - 1]);
      forall y | y in s.nodes && Below(s.parent, y, c) ensures Below(s.parent, y, x) && y != x {
        ChildSubInside(s, x, c, y);
        BelowAtLeast(s.parent, y, c);
      }
      RemovalEventsLocal(s, s', c);
    }
  }

  /** Once the subtree's callback sets are emptied or deleted, removing it
      again runs nothing. */
  lemma {:induction false} RemovalEventsQuiet(s: DomState, x: NodeId)
    requires TreeWf(s.nodes, s.parent, s.next) && x in s.nodes
    requires forall y :: y in s.nodes && Below(s.parent, y, x) ==> (y in s.cleanups ==> s.cleanups[y] == []) && y !in s.removeds
    ensures RemovalEvents(s, x) == []
    decreases s.next - x, 1, 0
  {
    assert Below(s.parent, x, x);
    ChildrenInside(s, x);
    ChildrenEventsQuiet(s, x, s.nodes[x].children);
  }

  lemma {:induction false} ChildrenEventsQuiet(s: DomState, x: NodeId, cs: seq<NodeId>)
    requires TreeWf(s.nodes, s.parent, s.next) && x in s.nodes
    requires forall c :: c in cs ==> c in s.nodes[x].children
    requires forall y :: y in s.nodes && Below(s.parent, y, x) ==> (y in s.cleanups ==> s.cleanups[y] == []) && y !in s.removeds
    ensures (ChildrenInside(s, x); ChildrenEvents(s, x, cs) == [])
    decreases s.next - x, 0, |cs|
  {
    ChildrenInside(s, x);
    if cs != [] {
      var c := cs[|cs| - 1];
      ChildrenEventsQuiet(s, x, cs[..|cs| - 1]);
      forall y | y in s.nodes && Below(s.parent, y, c) ensures Below(s.parent, y, x) {
        ChildSubInside(s, x, c, y);
      }
      RemovalEventsQuiet(s, c);
    }
  }

  /** Every cleanup and every removed callback of every node of the subtree
      is run by the cascade. */
  lemma {:induction false} RemovalEventsCover(s: DomState, x: NodeId, y: NodeId, cb: Callback)
    requires TreeWf(s.nodes, s.parent, s.next) && x in s.nodes
    requires y in s.nodes && Below(s.parent, y, x)
    ensures y in s.cleanups && cb in s.cleanups[y] ==> Ran(y, CleanupPhase, cb.id) in RemovalEvents(s, x)
    ensures y in s.removeds && cb in s.removeds[y] ==> Ran(y, RemovedPhase, cb.id) in RemovalEvents(s, x)
    decreases s.next - x, 1, 0
  {
    ChildrenInside(s, x);
    var ch := s.nodes[x].children;
    var own := OwnEvents(s, x);
    if y == x {
      if y in s.cleanups && cb in s.cleanups[y] {
        var k :| 0 <= k < |s.cleanups[y]| && s.cleanups[y][k] == cb;
        assert own[k] == Ran(y, CleanupPhase, cb.id);
      }
      if y in s.removeds && cb in s.removeds[y] {
        var k :| 0 <= k < |s.removeds[y]| && s.removeds[y][k] == cb;
        var cl := if x in s.cleanups then s.cleanups[x] else [];
        assert own[|cl| + k] == Ran(y, RemovedPhase, cb.id);
      }
    } else {
      SubSplit(s, x, y);
      var j :| 0 <= j < |ch| && Below(s.parent, y, ch[j]);
      RemovalEventsCover(s, ch[j], y, cb);
      ChildrenEventsContain(s, x, ch, j);
    }
  }

  /** The events of each child's cascade appear among the children's. */
  lemma {:induction false} ChildrenEventsContain(s: DomState, x: NodeId, cs: seq<NodeId>, j: nat)
    requires TreeWf(s.nodes, s.parent, s.next) && x in s.nodes
    requires forall c :: c in cs ==> c in s.nodes[x].children
    requires j < |cs|
    ensures (ChildrenInside(s, x); forall e :: e in RemovalEvents(s, cs[j]) ==> e in ChildrenEvents(s, x, cs))
    decreases |cs|
  {
    ChildrenInside(s, x);
    if j < |cs| - 1 {
      ChildrenEventsContain(s, x, cs[..|cs| - 1], j);
      assert cs[..|cs| - 1][j] == cs[j];
    }
  }

  /** `setAttributeNS` and `getAttributeNS` treat the empty namespace as
      `null`. */
  function NormNs(ns: Option<string>): (r: Option<string>)
    ensures r != Some("")
    ensures ns != Some("") ==> r == ns
  {
    if ns == Some("") then None else ns
  }

  lemma EmptiedTwice(m: map<NodeId, seq<Callback>>, a: set<NodeId>, b: set<NodeId>)
    ensures Emptied(Emptied(m, a), b) == Emptied(m, a + b)
  {
  }

  lemma MinusTwice<V>(m: map<NodeId, V>, a: set<NodeId>, b: set<NodeId>)
    ensures (m - a) - b == m - (a + b)
  {
  }

  lemma ChildrenEventsSnoc(s: DomState, x: NodeId, i: nat)
    requires TreeWf(s.nodes, s.parent, s.next) && x in s.nodes && i < |s.nodes[x].children|
    ensures (ChildrenInside(s, x); var cs := s.nodes[x].children;
      ChildrenEvents(s, x, cs[..i + 1]) == ChildrenEvents(s, x, cs[..i]) + RemovalEvents(s, cs[i]))
  {
    ChildrenInside(s, x);
    var cs := s.nodes[x].children;
    assert cs[..i + 1][..i] == cs[..i];
  }

  /** The first `i + 1` subtrees are the first `i` and the last one. */
  lemma SubAllSnoc(nodes: map<NodeId, Node>, parent: map<NodeId, NodeId>, cs: seq<NodeId>, i: nat)
    requires i < |cs|
    ensures SubAll(nodes, parent, cs[..i + 1]) == SubAll(nodes, parent, cs[..i]) + Sub(nodes, parent, cs[i])
  {
    forall y | y in nodes ensures BelowAny(parent, y, cs[..i + 1]) <==> BelowAny(parent, y, cs[..i]) || Below(parent, y, cs[i]) {
      if BelowAny(parent, y, cs[..i + 1]) {
        var j :| 0 <= j < i + 1 && Below(parent, y, cs[..i + 1][j]);
        if j < i {
          assert cs[..i][j] == cs[j];
        }
      }
      if BelowAny(parent, y, cs[..i]) {
        var j :| 0 <= j < i && Below(parent, y, cs[..i][j]);
        assert cs[..i + 1][j] == cs[j];
      }
      if Below(parent, y, cs[i]) {
        assert cs[..i + 1][i] == cs[i];
      }
    }
  }

  /** The side tables with the keys and removed sets of `d` deleted and the
      cleanup sets of `d` emptied: what the removal cascade leaves. */
  ghost function Forget(s: DomState, d: set<NodeId>): DomState {
    s.(keys := s.keys - d, cleanups := Emptied(s.cleanups, d), removeds := s.removeds - d)
  }

  /** Forgetting the tables of `d` changes only `d`. */
  lemma ForgetChanged(s: DomState, d: set<NodeId>)
    ensures Changed(s, Forget(s, d), d)
  {
    var s' := Forget(s, d);
    forall y: NodeId | y !in d ensures Same(s, s', y) {
      assert Agree(s.cleanups, s'.cleanups, y);
    }
  }

  lemma ForgetWf(s: DomState, d: set<NodeId>)
    requires Wf(s)
    ensures Wf(Forget(s, d))
  {
  }

  lemma AppendAssoc<T>(a: seq<T>, b: seq<T>, c: seq<T>)
    ensures (a + b) + c == a + (b + c)
  {
  }

  lemma EmptiedOne(m: map<NodeId, seq<Callback>>, x: NodeId)
    ensures Emptied(m, {x}) == if x in m then m[x := []] else m
  {
  }

  /** The root's own events: its cleanup set's, then its removed set's. */
  lemma OwnLog(s: DomState, x: NodeId, l0: seq<Event>, l1: seq<Event>, l2: seq<Event>)
    requires l1 == l0 + CallbackEvents(x, CleanupPhase, if x in s.cleanups then s.cleanups[x] else [])
    requires l2 == l1 + CallbackEvents(x, RemovedPhase, if x in s.removeds then s.removeds[x] else [])
    ensures l2 == l0 + OwnEvents(s, x)
  {
  }

  lemma DropKeyWf(s: DomState, x: NodeId)
    requires Wf(s)
    ensures Wf(s.(keys := s.keys - {x}))
  {
  }

  /** Forgetting a node leaves the tables of its strict subtree alone. */
  lemma ForgetRootAgreesInside(s: DomState, x: NodeId)
    ensures TablesAgreeInside(s, Forget(s, {x}), x)
  {
  }

  /** The cascade forgets the root, then the children's subtrees. */
  lemma RemovalSplit(s: DomState, x: NodeId)
    requires TreeWf(s.nodes, s.parent, s.next) && x in s.nodes
    ensures Forget(Forget(s, {x}), SubAll(s.nodes, s.parent, s.nodes[x].children)) == Forget(s, Sub(s.nodes, s.parent, x))
  {
    var children := s.nodes[x].children;
    forall y | y in s.nodes ensures y in Sub(s.nodes, s.parent, x) <==> y in {x} + SubAll(s.nodes, s.parent, children) {
      SubSplit(s, x, y);
    }
    assert Sub(s.nodes, s.parent, x) == {x} + SubAll(s.nodes, s.parent, children);
    ForgetTwice(s, {x}, SubAll(s.nodes, s.parent, children));
  }

  /** The log of the cascade: the root's own events, then the children's,
      which forgetting the root does not change. */
  lemma RemovalLog(s: DomState, x: NodeId, l0: seq<Event>, l1: seq<Event>, l2: seq<Event>)
    requires TreeWf(s.nodes, s.parent, s.next) && x in s.nodes
    requires l1 == l0 + OwnEvents(s, x)
    requires (ChildrenInside(s, x); l2 == l1 + ChildrenEvents(Forget(s, {x}), x, s.nodes[x].children))
    ensures l2 == l0 + RemovalEvents(s, x)
  {
    ChildrenInside(s, x);
    ForgetRootAgreesInside(s, x);
    ChildrenEventsLocal(s, Forget(s, {x}), x, s.nodes[x].children);
    AppendAssoc(l0, OwnEvents(s, x), ChildrenEvents(s, x, s.nodes[x].children));
  }

  /** One step of the loop over the children: the child's cascade, as seen
      in the current tables, equals the one seen in the initial tables. */
  lemma ChildrenLogStep(s0: DomState, si: DomState, x: NodeId, i: nat, l0: seq<Event>, li: seq<Event>, l2: seq<Event>)
    requires TreeWf(s0.nodes, s0.parent, s0.next) && x in s0.nodes && i < |s0.nodes[x].children|
    requires si.nodes == s0.nodes && si.parent == s0.parent && si.next == s0.next
    requires TablesAgreeBelow(s0, si, s0.nodes[x].children[i])
    requires (ChildrenInside(s0, x); li == l0 + ChildrenEvents(s0, x, s0.nodes[x].children[..i]))
    requires (ChildrenInside(s0, x); l2 == li + RemovalEvents(si, s0.nodes[x].children[i]))
    ensures (ChildrenInside(s0, x); l2 == l0 + ChildrenEvents(s0, x, s0.nodes[x].children[..i + 1]))
  {
    ChildrenInside(s0, x);
    RemovalEventsLocal(s0, si, s0.nodes[x].children[i]);
    ChildrenLogSnoc(s0, x, i, l0, li, l2);
  }

  /** The log after the children before `i` and then child `i`. */
  lemma ChildrenLogSnoc(s: DomState, x: NodeId, i: nat, l0: seq<Event>, li: seq<Event>, l2: seq<Event>)
    requires TreeWf(s.nodes, s.parent, s.next) && x in s.nodes && i < |s.nodes[x].children|
    requires (ChildrenInside(s, x); li == l0 + ChildrenEvents(s, x, s.nodes[x].children[..i]))
    requires (ChildrenInside(s, x); l2 == li + RemovalEvents(s, s.nodes[x].children[i]))
    ensures (ChildrenInside(s, x); l2 == l0 + ChildrenEvents(s, x, s.nodes[x].children[..i + 1]))
  {
    ChildrenEventsSnoc(s, x, i);
    ChildrenInside(s, x);
    var cs := s.nodes[x].children;
    AppendAssoc(l0, ChildrenEvents(s, x, cs[..i]), RemovalEvents(s, cs[i]));
  }

  lemma ForgetTwice(s: DomState, a: set<NodeId>, b: set<NodeId>)
    ensures Forget(Forget(s, a), b) == Forget(s, a + b)
  {
    MinusTwice(s.keys, a, b);
    MinusTwice(s.removeds, a, b);
    EmptiedTwice(s.cleanups, a, b);
  }

  /** An edit of one node's record (keeping its kind and tag) and of the
      parent links of `d` changes only `d`. */
  lemma NodeEditChanged(s: DomState, t: NodeId, node: Node, parent': map<NodeId, NodeId>, d: set<NodeId>)
    requires t in s.nodes && node.kind == s.nodes[t].kind && node.tagName == s.nodes[t].tagName && t in d
    requires forall y :: y !in d ==> Agree(s.parent, parent', y)
    ensures Changed(s, s.(nodes := s.nodes[t := node], parent := parent'), d)
  {
  }

  /** Creating a node at the next fresh id changes only that id. */
  lemma CreateChanged(s: DomState, node: Node)
    requires s.next !in s.nodes
    ensures Changed(s, s.(nodes := s.nodes[s.next := node], next := s.next + 1), {s.next})
  {
  }

  // ---------------------------------------------------------------------
  // The document

  /** The live document: its nodes, the side tables, and the record of the
      user callbacks run so far. */
  class Dom {
    var nodes: map<NodeId, Node>
    ghost var parent: map<NodeId, NodeId>
    var next: nat
    var keys: map<NodeId, KeyValue>
    var cleanups: map<NodeId, seq<Callback>>
    var removeds: map<NodeId, seq<Callback>>
    var log: seq<Event>

    ghost function State(): DomState
      reads this
    {
      DomState(nodes, parent, next, keys, cleanups, removeds)
    }

    /** The state together with the record of callbacks run. */
    ghost function Snapshot(): Doc
      reads this
    {
      Doc(State(), log)
    }

    ghost predicate Valid()
      reads this
    {
      Wf(State())
    }

    constructor ()
      ensures Valid() && nodes == map[] && next == 0 && log == []
    {
      nodes := map[];
      parent := map[];
      next := 0;
      keys := map[];
      cleanups := map[];
      removeds := map[];
      log := [];
    }

    method NewNode(node: Node) returns (n: NodeId)
      requires Valid() && node.children == []
      modifies this
      ensures n == old(next) && n !in old(nodes)
      ensures State() == old(State()).(nodes := old(nodes)[n := node], next := old(next) + 1)
      ensures log == old(log)
      ensures Valid() && Changed(old(State()), State(), {n})
    {
      ghost var s0 := State();
      ghost var s1 := s0.(nodes := s0.nodes[s0.next := node], next := s0.next + 1);
      n := next;
      nodes := nodes[n := node];
      next := next + 1;
      assert State() == s1;
      CreateWf(s0, node);
      CreateChanged(s0, node);
    }

    /** `document.createElement`: an HTML document upper-cases the name and
        puts the element in the HTML namespace. */
    method CreateElement(tagName: string) returns (n: NodeId)
      requires Valid()
      modifies this
      ensures n == old(next) && n !in old(nodes)
      ensures State() == old(State()).(nodes := old(nodes)[n := Node(ElementNode, ToUpper(tagName), "", [], map[], None, true)], next := old(next) + 1)
      ensures log == old(log)
      ensures Valid() && Changed(old(State()), State(), {n})
    {
      n := NewNode(Node(ElementNode, ToUpper(tagName), "", [], map[], None, true));
    }

    /** `document.createElementNS`: the name is upper-cased, and the element
        is in the HTML namespace, only for the XHTML namespace. */
    method CreateElementNS(ns: string, tagName: string) returns (n: NodeId)
      requires Valid()
      modifies this
      ensures n == old(next) && n !in old(nodes)
      ensures State() == old(State()).(nodes := old(nodes)[n := Node(ElementNode, if ns == XHTML then ToUpper(tagName) else tagName, "", [], map[], None, ns == XHTML)], next := old(next) + 1)
      ensures log == old(log)
      ensures Valid() && Changed(old(State()), State(), {n})
    {
      var tag := if ns == XHTML then ToUpper(tagName) else tagName;
      n := NewNode(Node(ElementNode, tag, "", [], map[], None, ns == XHTML));
    }

    method CreateTextNode(data: string) returns (n: NodeId)
      requires Valid()
      modifies this
      ensures n == old(next) && n !in old(nodes)
      ensures State() == old(State()).(nodes := old(nodes)[n := Node(TextNode, "", data, [], map[], None, false)], next := old(next) + 1)
      ensures log == old(log)
      ensures Valid() && Changed(old(State()), State(), {n})
    {
      n := NewNode(Node(TextNode, "", data, [], map[], None, false));
    }

    method CreateComment(data: string) returns (n: NodeId)
      requires Valid()
      modifies this
      ensures n == old(next) && n !in old(nodes)
      ensures State() == old(State()).(nodes := old(nodes)[n := Node(CommentNode, "", data, [], map[], None, false)], next := old(next) + 1)
      ensures log == old(log)
      ensures Valid() && Changed(old(State()), State(), {n})
    {
      n := NewNode(Node(CommentNode, "", data, [], map[], None, false));
    }

    /** `t.insertBefore(x, ref)`, for a child of `t` or a detached node
        created after it. */
    method InsertBefore(t: NodeId, x: NodeId, ref: Option<NodeId>)
      requires Valid() && t in nodes && x in nodes && t < x
      requires x in nodes[t].children || x !in parent
      requires ref.Some? ==> ref.value in nodes[t].children && ref.value != x
      modifies this
      ensures State() == old(State()).(nodes := old(nodes)[t := old(nodes)[t].(children := ChildList.InsertBefore(old(nodes)[t].children, x, ref))], parent := old(parent)[x := t])
      ensures log == old(log)
      ensures Valid() && Changed(old(State()), State(), {t, x})
    {
      ghost var s0 := State();
      var node := nodes[t].(children := ChildList.InsertBefore(nodes[t].children, x, ref));
      ghost var s1 := s0.(nodes := s0.nodes[t := node], parent := s0.parent[x := t]);
      nodes := nodes[t := node];
      parent := parent[x := t];
      assert State() == s1;
      InsertEdit(s0, t, x, ref);
    }

    /** `t.removeChild(x)`. */
    method RemoveChild(t: NodeId, x: NodeId)
      requires Valid() && t in nodes && x in nodes[t].children
      modifies this
      ensures NoDup(old(nodes)[t].children)
      ensures State() == old(State()).(nodes := old(nodes)[t := old(nodes)[t].(children := ChildList.RemoveChild(old(nodes)[t].children, x))], parent := old(parent) - {x})
      ensures log == old(log)
      ensures Valid() && Changed(old(State()), State(), {t, x})
    {
      ghost var s0 := State();
      var node := nodes[t].(children := ChildList.RemoveChild(nodes[t].children, x));
      ghost var s1 := s0.(nodes := s0.nodes[t := node], parent := s0.parent - {x});
      nodes := nodes[t := node];
      parent := parent - {x};
      assert State() == s1;
      RemoveEdit(s0, t, x);
    }

    /** `t.replaceChild(nw, oc)` with a detached node created after `t`. */
    method ReplaceChild(t: NodeId, nw: NodeId, oc: NodeId)
      requires Valid() && t in nodes && oc in nodes[t].children
      requires nw in nodes && nw !in parent && t < nw
      modifies this
      ensures NoDup(old(nodes)[t].children) && nw !in old(nodes)[t].children
      ensures State() == old(State()).(nodes := old(nodes)[t := old(nodes)[t].(children := ChildList.ReplaceChild(old(nodes)[t].children, nw, oc))], parent := (old(parent) - {oc})[nw := t])
      ensures log == old(log)
      ensures Valid() && Changed(old(State()), State(), {t, nw, oc})
    {
      ghost var s0 := State();
      var node := nodes[t].(children := ChildList.ReplaceChild(nodes[t].children, nw, oc));
      ghost var s1 := s0.(nodes := s0.nodes[t := node], parent := (s0.parent - {oc})[nw := t]);
      nodes := nodes[t := node];
      parent := (parent - {oc})[nw := t];
      assert State() == s1;
      ReplaceEdit(s0, t, nw, oc);
    }

    /** Assigning `textContent` of a text or comment node. */
    method SetData(x: NodeId, data: string)
      requires Valid() && x in nodes
      modifies this
      ensures State() == old(State()).(nodes := old(nodes)[x := old(nodes)[x].(data := data)])
      ensures log == old(log)
      ensures Valid() && Changed(old(State()), State(), {x})
    {
      SetNodeWf(State(), x, nodes[x].(data := data));
      nodes := nodes[x := nodes[x].(data := data)];
    }

    /** `getAttributeNS`: the value, when the attribute exists in that
        namespace. */
    function GetAttributeNS(x: NodeId, ns: Option<string>, name: string): (r: Option<string>)
      reads this
      requires x in nodes
      ensures r.Some? <==> name in nodes[x].attrs && nodes[x].attrs[name].namespaceURI == NormNs(ns)
      ensures r.Some? ==> r.value == nodes[x].attrs[name].value
    {
      var attrs := nodes[x].attrs;
      if name in attrs && attrs[name].namespaceURI == NormNs(ns) then Some(attrs[name].value) else None
    }

    /** `getAttributeNames`. */
    function GetAttributeNames(x: NodeId): (r: set<string>)
      reads this
      requires x in nodes
      ensures forall name :: name in r <==> name in nodes[x].attrs
    {
      nodes[x].attrs.Keys
    }

    /** `setAttributeNS`. */
    method SetAttributeNS(x: NodeId, ns: Option<string>, name: string, value: string)
      requires Valid() && x in nodes
      modifies this
      ensures State() == old(State()).(nodes := old(nodes)[x := old(nodes)[x].(attrs := old(nodes)[x].attrs[name := AttrEntry(NormNs(ns), value)])])
      ensures log == old(log)
      ensures GetAttributeNS(x, ns, name) == Some(value)
      ensures Valid() && Changed(old(State()), State(), {x})
    {
      var node := nodes[x].(attrs := nodes[x].attrs[name := AttrEntry(NormNs(ns), value)]);
      SetNodeWf(State(), x, node);
      nodes := nodes[x := node];
    }

    /** `removeAttribute`: on an element in the HTML namespace the name is
        looked up in ASCII lower case, so a name `setAttributeNS` stored with
        an upper-case letter is not found. */
    method RemoveAttribute(x: NodeId, name: string)
      requires Valid() && x in nodes
      modifies this
      ensures State() == old(State()).(nodes := old(nodes)[x := old(nodes)[x].(attrs := old(nodes)[x].attrs - {RemovedName(old(nodes)[x], name)})])
      ensures log == old(log)
      ensures RemovedName(old(nodes)[x], name) !in GetAttributeNames(x)
      ensures Valid() && Changed(old(State()), State(), {x})
    {
      var node := nodes[x].(attrs := nodes[x].attrs - {RemovedName(nodes[x], name)});
      SetNodeWf(State(), x, node);
      nodes := nodes[x := node];
    }

    /** Assigning `innerHTML`: the old children are detached (and nothing
        is run for them); the parsed markup is kept unparsed. */
    method SetInnerHTML(x: NodeId, html: string)
      requires Valid() && x in nodes
      modifies this
      ensures State() == old(State()).(nodes := old(nodes)[x := old(nodes)[x].(children := [], markup := Some(html))],
                                       parent := old(parent) - (set c | c in old(nodes)[x].children))
      ensures log == old(log)
      ensures Valid() && Changed(old(State()), State(), {x} + (set c | c in old(nodes)[x].children))
    {
      ghost var s0 := State();
      var node := nodes[x].(children := [], markup := Some(html));
      ghost var gone := set c | c in nodes[x].children;
      InnerHTMLWf(s0, x, html);
      NodeEditChanged(s0, x, node, parent - gone, {x} + gone);
      parent := parent - gone;
      nodes := nodes[x := node];
      assert State() == s0.(nodes := s0.nodes[x := node], parent := s0.parent - gone);
    }

    /** `nodesKeyMap.set`. */
    method SetKey(x: NodeId, k: KeyValue)
      requires Valid() && x in nodes
      modifies this
      ensures State() == old(State()).(keys := old(keys)[x := k])
      ensures log == old(log)
      ensures Valid() && Changed(old(State()), State(), {x})
    {
      keys := keys[x := k];
    }

    /** The key table as `findNode` leaves it. */
    method SetKeys(k: map<NodeId, KeyValue>)
      requires Valid() && k.Keys <= nodes.Keys
      modifies this
      ensures State() == old(State()).(keys := k)
      ensures log == old(log)
      ensures Valid() && Changed(old(State()), State(), set y | y in nodes && !Agree(old(keys), k, y))
    {
      keys := k;
    }

    /** `getElementCleanupCallbacksSet`: the node's cleanup set, created empty
        when missing. */
    method EnsureCleanupSet(x: NodeId)
      requires Valid() && x in nodes
      modifies this
      ensures State() == old(State()).(cleanups := if x in old(cleanups) then old(cleanups) else old(cleanups)[x := []])
      ensures log == old(log) && x in cleanups
      ensures Valid() && Changed(old(State()), State(), {x})
    {
      if x !in cleanups {
        cleanups := cleanups[x := []];
      }
    }

    /** `set.add` on the node's cleanup set. */
    method AddCleanup(x: NodeId, c: Callback)
      requires Valid() && x in cleanups
      modifies this
      ensures State() == old(State()).(cleanups := old(cleanups)[x := SetAdd(old(cleanups)[x], c)])
      ensures log == old(log)
      ensures Valid() && Changed(old(State()), State(), {x})
    {
      cleanups := cleanups[x := SetAdd(cleanups[x], c)];
    }

    /** `elementsRemovedCallbacksSetMap.set`. */
    method SetRemoveds(x: NodeId, cbs: seq<Callback>)
      requires Valid() && x in nodes && NoDup(cbs)
      modifies this
      ensures State() == old(State()).(removeds := old(removeds)[x := cbs])
      ensures log == old(log)
      ensures Valid() && Changed(old(State()), State(), {x})
    {
      removeds := removeds[x := cbs];
    }

    /** Records callbacks run by the caller. */
    method Record(events: seq<Event>)
      modifies this
      ensures State() == old(State()) && log == old(log) + events
    {
      log := log + events;
    }

    /** `cleanup`: runs the node's cleanup set, if it has one, leaving it
        empty. */
    method Cleanup(x: NodeId)
      requires Valid()
      modifies this
      ensures State() == old(State()).(cleanups := if x in old(cleanups) then old(cleanups)[x := []] else old(cleanups))
      ensures log == old(log) + CallbackEvents(x, CleanupPhase, if x in old(cleanups) then old(cleanups)[x] else [])
      ensures Valid() && Changed(old(State()), State(), {x})
    {
      if x in cleanups {
        var rest, events := RunCleanupCallbacks(x, cleanups[x]);
        cleanups := cleanups[x := rest];
        log := log + events;
      }
    }

    /** `removeNode`: forgets the node's key, runs its cleanup set, runs and
        forgets its removed set, then does the same for every child, in
        child order, down the whole subtree. The tree itself is not
        changed. */
    method RemoveNode(x: NodeId)
      requires Valid() && x in nodes
      modifies this
      ensures State() == Forget(old(State()), Sub(nodes, parent, x))
      ensures log == old(log) + RemovalEvents(old(State()), x)
      ensures Valid()
      decreases next - x, 1
    {
      ghost var s0 := State();
      ghost var l0 := log;
      ForgetOwn(x);
      ghost var l1 := log;
      RemoveSubtrees(x);
      RemovalLog(s0, x, l0, l1, log);
      RemovalSplit(s0, x);
    }

    /** The first half of `removeNode`: the node's own entries. */
    method ForgetOwn(x: NodeId)
      requires Valid() && x in nodes
      modifies this
      ensures State() == Forget(old(State()), {x})
      ensures log == old(log) + OwnEvents(old(State()), x)
      ensures Valid()
    {
      ghost var s0 := State();
      ghost var l0 := log;
      ForgetWf(s0, {x});
      DropKeyWf(s0, x);
      EmptiedOne(s0.cleanups, x);
      keys := keys - {x};
      assert State() == s0.(keys := s0.keys - {x});
      Cleanup(x);
      ghost var l1 := log;
      if x in removeds {
        var events := RunRemovedCallbacks(x, removeds[x]);
        log := log + events;
        removeds := removeds - {x};
      } else {
        assert log == l1 + CallbackEvents(x, RemovedPhase, []);
      }
      OwnLog(s0, x, l0, l1, log);
    }

    /** The loop of `removeNode` over the children. */
    method RemoveSubtrees(x: NodeId)
      requires Valid() && x in nodes
      modifies this
      ensures State() == Forget(old(State()), SubAll(old(nodes), old(parent), old(nodes)[x].children))
      ensures (ChildrenInside(old(State()), x); log == old(log) + ChildrenEvents(old(State()), x, old(nodes)[x].children))
      ensures Valid()
      decreases next - x, 0
    {
      ghost var s0 := State();
      ChildrenInside(s0, x);
      var children := nodes[x].children;
      ghost var done: set<NodeId> := {};
      assert SubAll(nodes, parent, children[..0]) == {};
      assert ChildrenEvents(s0, x, children[..0]) == [];
      assert Forget(s0, {}) == s0;
      for i := 0 to |children|
        invariant done == SubAll(s0.nodes, s0.parent, children[..i])
        invariant State() == Forget(s0, done)
        invariant log == old(log) + ChildrenEvents(s0, x, children[..i])
        invariant Valid()
      {
        ghost var si := State();
        ghost var li := log;
        var c := children[i];
        assert si.nodes == s0.nodes && si.parent == s0.parent;
        LaterSubtreeUntouched(s0, x, i);
        SubAllSnoc(s0.nodes, s0.parent, children, i);
        ForgetTwice(s0, done, Sub(s0.nodes, s0.parent, c));
        RemoveNode(c);
        ChildrenLogStep(s0, si, x, i, old(log), li, log);
        done := done + Sub(s0.nodes, s0.parent, c);
      }
      assert children[..|children|] == children;
    }

    /** `removeChildNode`: the removal cascade, then the detachment. */
    method RemoveChildNode(t: NodeId, x: NodeId)
      requires Valid() && t in nodes && x in nodes[t].children
      modifies this
      ensures NoDup(old(nodes)[t].children)
      ensures State() == Forget(old(State()), Sub(old(nodes), old(parent), x)).(
        nodes := old(nodes)[t := old(nodes)[t].(children := ChildList.RemoveChild(old(nodes)[t].children, x))],
        parent := old(parent) - {x})
      ensures log == old(log) + RemovalEvents(old(State()), x)
      ensures Valid()
    {
      RemoveNode(x);
      RemoveChild(t, x);
    }
  }
}
