/** How each edit the reconciler makes to the live tree keeps what a pass
    has placed so far: the first children of the target keep showing their
    placements, the target keeps its attributes and callback sets, and only
    the target's subtree (and nodes created since) changes. All on values of
    the tree's state. */
module Placing {
  import opened Common
  import opened Descriptors
  import opened Nodes
  import opened Tree
  import opened Pass
  import Find
  import ChildList

  /** The target's own record, apart from its children, and its callback
      sets are as before. */
  ghost predicate TargetKept(s0: DomState, s1: DomState, t: NodeId)
    requires t in s0.nodes
  {
    && t in s1.nodes && s1.nodes[t].kind == s0.nodes[t].kind && s1.nodes[t].inHtmlNamespace == s0.nodes[t].inHtmlNamespace
    && s1.nodes[t].attrs == s0.nodes[t].attrs
    && Agree(s0.cleanups, s1.cleanups, t) && Agree(s0.removeds, s1.removeds, t)
  }

  lemma KeptTrans(s0: DomState, s1: DomState, s2: DomState, t: NodeId)
    requires t in s0.nodes && TargetKept(s0, s1, t) && TargetKept(s1, s2, t)
    ensures TargetKept(s0, s2, t)
  {
  }

  lemma ChildIsBelow(s: DomState, t: NodeId, c: NodeId)
    requires TreeWf(s.nodes, s.parent, s.next) && t in s.nodes && c in s.nodes[t].children
    ensures Below(s.parent, c, t) && t < c
  {
    var j :| 0 <= j < |s.nodes[t].children| && s.nodes[t].children[j] == c;
    assert ChildFits(s.nodes, s.parent, t, s.nodes[t].children[j]);
  }

  /** A node the scan may return (recorded under the placement's key, or
      untagged) is none of the children already placed. */
  lemma FoundNotPlaced(s: DomState, t: NodeId, placed: seq<Placement>, pl: Placement, r: NodeId)
    requires t in s.nodes && Prefix(s, t, placed) && Distinct(placed + [pl])
    requires r in s.nodes && s.nodes[r].kind == pl.NodeKind() && (r in s.keys ==> s.keys[r] == pl.key)
    ensures r !in s.nodes[t].children[..|placed|]
  {
    var ch := s.nodes[t].children;
    forall i | 0 <= i < |placed| ensures ch[..|placed|][i] != r {
      assert Shows(s, ch[i], placed[i]);
      assert (placed + [pl])[i] == placed[i] && (placed + [pl])[|placed|] == pl;
    }
  }

  /** Prefix of the placed children, as the prefix of the children list. */
  lemma PrefixByList(s0: DomState, s1: DomState, t: NodeId, placed: seq<Placement>)
    requires t in s0.nodes && t in s1.nodes && Prefix(s0, t, placed)
    requires |placed| <= |s1.nodes[t].children|
    requires s1.nodes[t].children[..|placed|] == s0.nodes[t].children[..|placed|]
    requires forall c :: c in s0.nodes[t].children[..|placed|] ==> Agree(s0.nodes, s1.nodes, c) && Agree(s0.keys, s1.keys, c)
    ensures Prefix(s1, t, placed)
  {
    var ch0, ch1 := s0.nodes[t].children, s1.nodes[t].children;
    forall i | 0 <= i < |placed| ensures Shows(s1, ch1[i], placed[i]) {
      assert ch1[i] == ch1[..|placed|][i] == ch0[..|placed|][i] == ch0[i];
      assert ch0[i] in ch0[..|placed|];
      assert Shows(s0, ch0[i], placed[i]);
    }
  }

  /** `findNode` tags at most one untagged child, which is not placed. */
  lemma RetagKeeps(s: DomState, t: NodeId, placed: seq<Placement>, kind: Kind, key: KeyValue, keys': map<NodeId, KeyValue>, lim: nat)
    requires Wf(s) && t in s.nodes && t < lim
    requires keys' == s.keys || exists u :: u in s.nodes[t].children && Find.Untagged(s.nodes, s.keys, u, kind) && keys' == s.keys[u := key]
    ensures var s' := s.(keys := keys');
      && TargetKept(s, s', t) && Confined(s, s', t, lim) && keys'.Keys <= s.nodes.Keys
      && (Prefix(s, t, placed) ==> Prefix(s', t, placed))
  {
    var s' := s.(keys := keys');
    var ch := s.nodes[t].children;
    if keys' != s.keys {
      var u :| u in ch && Find.Untagged(s.nodes, s.keys, u, kind) && keys' == s.keys[u := key];
      ChildIsBelow(s, t, u);
      forall y: NodeId | y < lim && !Below(s.parent, y, t) ensures Same(s, s', y) {
        if y == u {
          assert false;
        }
      }
      if Prefix(s, t, placed) {
        forall c | c in ch[..|placed|] ensures Agree(s.keys, keys', c) {
          var i :| 0 <= i < |placed| && ch[..|placed|][i] == c;
          assert ch[i] == c && Shows(s, ch[i], placed[i]);
        }
        PrefixByList(s, s', t, placed);
      }
    } else {
      ConfinedRefl(s, t, lim);
    }
  }

  /** An edit of one node's record or tables that is not the target and
      not placed. */
  lemma OtherKeeps(s: DomState, s': DomState, t: NodeId, placed: seq<Placement>, n: NodeId)
    requires t in s.nodes && Changed(s, s', {n}) && n != t
    requires Prefix(s, t, placed) ==> n !in s.nodes[t].children[..|placed|]
    ensures TargetKept(s, s', t) && s'.nodes[t] == s.nodes[t]
    ensures Prefix(s, t, placed) ==> Prefix(s', t, placed)
  {
    assert Same(s, s', t);
    if Prefix(s, t, placed) {
      forall c | c in s.nodes[t].children[..|placed|] ensures Agree(s.nodes, s'.nodes, c) && Agree(s.keys, s'.keys, c) {
        assert Same(s, s', c);
      }
      PrefixByList(s, s', t, placed);
    }
  }

  /** An edit confined to `n`, a child of the target or a node created in
      this pass. */
  lemma OtherConfined(s0: DomState, s: DomState, s': DomState, t: NodeId, n: NodeId, lim: nat)
    requires Wf(s) && t in s.nodes && Confined(s0, s, t, lim)
    requires Changed(s, s', {n}) && Agree(s.parent, s'.parent, t) && Agree(s.keys, s'.keys, t)
    requires n in s.nodes[t].children || lim <= n
    ensures Confined(s0, s', t, lim)
  {
    if n in s.nodes[t].children {
      ChildIsBelow(s, t, n);
    }
    ChangedConfined(s, s', {n}, t, lim);
    ConfinedTrans(s0, s, s', t, lim);
  }

  /** An edit of the target's own record or callback sets, leaving its
      children, parent and key. */
  lemma TargetOnlyKeeps(s0: DomState, s: DomState, s': DomState, t: NodeId, placed: seq<Placement>, lim: nat)
    requires Wf(s) && t in s.nodes && Confined(s0, s, t, lim) && Changed(s, s', {t})
    requires t in s'.nodes && s'.nodes[t].children == s.nodes[t].children
    requires Agree(s.parent, s'.parent, t) && Agree(s.keys, s'.keys, t)
    ensures Confined(s0, s', t, lim)
    ensures Prefix(s, t, placed) ==> Prefix(s', t, placed)
  {
    ChangedConfined(s, s', {t}, t, lim);
    ConfinedTrans(s0, s, s', t, lim);
    if Prefix(s, t, placed) {
      forall c | c in s.nodes[t].children[..|placed|] ensures Agree(s.nodes, s'.nodes, c) && Agree(s.keys, s'.keys, c) {
        ChildIsBelow(s, t, c);
        assert Same(s, s', c);
      }
      PrefixByList(s, s', t, placed);
    }
  }

  /** `insertBefore(n, childNodes[order])` for a node that is not placed. */
  lemma InsertKeeps(s: DomState, t: NodeId, placed: seq<Placement>, n: NodeId, s': DomState)
    requires Wf(s) && t in s.nodes && n != t
    requires var ch := s.nodes[t].children;
      && (Prefix(s, t, placed) ==> n !in ch[..|placed|] && (|placed| < |ch| ==> ch[|placed|] != n))
      && (|placed| < |ch| ==> ch[|placed|] != n)
      && s' == s.(nodes := s.nodes[t := s.nodes[t].(children := ChildList.InsertBefore(ch, n, if |placed| < |ch| then Some(ch[|placed|]) else None))],
                  parent := s.parent[n := t])
    ensures TargetKept(s, s', t)
    ensures Prefix(s, t, placed) ==> Prefix(s', t, placed) && |placed| < |s'.nodes[t].children| && s'.nodes[t].children[|placed|] == n
  {
    var ch := s.nodes[t].children;
    if Prefix(s, t, placed) {
      ChildList.InsertBeforePlaces(ch, n, |placed|);
      forall c | c in ch[..|placed|] ensures Agree(s.nodes, s'.nodes, c) && Agree(s.keys, s'.keys, c) {
        ChildIsBelow(s, t, c);
      }
      PrefixByList(s, s', t, placed);
    }
  }

  /** The target gains or moves a child: confined to the target. */
  lemma TargetEditConfined(s0: DomState, s: DomState, s': DomState, t: NodeId, d: set<NodeId>, lim: nat)
    requires Wf(s) && t in s.nodes && Confined(s0, s, t, lim)
    requires Changed(s, s', d) && Agree(s.parent, s'.parent, t) && Agree(s.keys, s'.keys, t)
    requires forall y :: y in d ==> y == t || y in s.nodes[t].children || lim <= y
    ensures Confined(s0, s', t, lim)
  {
    forall y | y in d && y < lim ensures Below(s.parent, y, t) {
      if y != t {
        ChildIsBelow(s, t, y);
      }
    }
    ChangedConfined(s, s', d, t, lim);
    ConfinedTrans(s0, s, s', t, lim);
  }

  /** `replaceChild(n, oldNode)` where the old node sits at `order`. */
  lemma ReplaceKeeps(s: DomState, t: NodeId, placed: seq<Placement>, n: NodeId, s': DomState)
    requires Wf(s) && t in s.nodes && n !in s.nodes[t].children
    requires var ch := s.nodes[t].children;
      && |placed| < |ch|
      && s' == s.(nodes := s.nodes[t := s.nodes[t].(children := ChildList.ReplaceChild(ch, n, ch[|placed|]))],
                  parent := (s.parent - {ch[|placed|]})[n := t])
    ensures TargetKept(s, s', t)
    ensures Prefix(s, t, placed) ==> Prefix(s', t, placed) && s'.nodes[t].children[|placed|] == n
  {
    var ch := s.nodes[t].children;
    ChildList.ReplaceChildPlaces(ch, n, |placed|);
    if Prefix(s, t, placed) {
      forall c | c in ch[..|placed|] ensures Agree(s.nodes, s'.nodes, c) && Agree(s.keys, s'.keys, c) {
        ChildIsBelow(s, t, c);
      }
      PrefixByList(s, s', t, placed);
    }
  }

  /** `removeChild(x)` for a child that is not placed. */
  lemma RemoveKeeps(s: DomState, t: NodeId, placed: seq<Placement>, x: NodeId, s': DomState)
    requires Wf(s) && t in s.nodes && x in s.nodes[t].children
    requires var ch := s.nodes[t].children;
      && (Prefix(s, t, placed) ==> x !in ch[..|placed|])
      && s' == s.(nodes := s.nodes[t := s.nodes[t].(children := ChildList.RemoveChild(ch, x))], parent := s.parent - {x})
    ensures TargetKept(s, s', t) && Changed(s, s', {t, x})
    ensures Prefix(s, t, placed) ==> Prefix(s', t, placed)
  {
    assert Changed(s, s', {t, x}) by {
      NodeEditChanged(s, t, s'.nodes[t], s'.parent, {t, x});
    }
    if Prefix(s, t, placed) {
      RemovePrefix(s, t, placed, x, s');
    }
  }

  lemma RemovePrefix(s: DomState, t: NodeId, placed: seq<Placement>, x: NodeId, s': DomState)
    requires Wf(s) && t in s.nodes && x in s.nodes[t].children && Prefix(s, t, placed)
    requires var ch := s.nodes[t].children;
      && x !in ch[..|placed|]
      && s' == s.(nodes := s.nodes[t := s.nodes[t].(children := ChildList.RemoveChild(ch, x))], parent := s.parent - {x})
    ensures Prefix(s', t, placed)
  {
    var ch := s.nodes[t].children;
    ChildList.RemoveChildKeepsBefore(ch, x, |placed|);
    forall c | c in ch[..|placed|] ensures Agree(s.nodes, s'.nodes, c) && Agree(s.keys, s'.keys, c) {
      ChildIsBelow(s, t, c);
    }
    PrefixByList(s, s', t, placed);
  }

  /** `removeNode(x)` for a child that is not placed: the cascade forgets
      only the tables of `x`'s subtree. */
  lemma ForgetKeeps(s0: DomState, s: DomState, t: NodeId, placed: seq<Placement>, x: NodeId, lim: nat, D: bool)
    requires Wf(s) && t in s.nodes && x in s.nodes[t].children && Confined(s0, s, t, lim)
    requires D ==> Prefix(s, t, placed) && x !in s.nodes[t].children[..|placed|]
    ensures var s' := Forget(s, Sub(s.nodes, s.parent, x));
      && TargetKept(s, s', t) && s'.nodes == s.nodes && Confined(s0, s', t, lim)
      && (D ==> Prefix(s', t, placed))
  {
    var d := Sub(s.nodes, s.parent, x);
    var s' := Forget(s, d);
    SubBelowTarget(s, t, x);
    ForgetChanged(s, d);
    ChangedConfined(s, s', d, t, lim);
    ConfinedTrans(s0, s, s', t, lim);
    if D {
      ForgetPrefix(s, t, placed, x);
    }
  }

  /** The subtree of a child lies below the target and leaves it out. */
  lemma SubBelowTarget(s: DomState, t: NodeId, x: NodeId)
    requires Wf(s) && t in s.nodes && x in s.nodes[t].children
    ensures var d := Sub(s.nodes, s.parent, x);
      t !in d && forall y :: y in d ==> Below(s.parent, y, t)
  {
    var d := Sub(s.nodes, s.parent, x);
    ChildIsBelow(s, t, x);
    assert t !in d by {
      if Below(s.parent, t, x) {
        BelowAtLeast(s.parent, t, x);
      }
    }
    forall y | y in d ensures Below(s.parent, y, t) {
      BelowTrans(s.parent, y, x, t);
    }
  }

  /** Forgetting the subtree of a child that is not placed keeps the keys
      of the placed ones. */
  lemma ForgetPrefix(s: DomState, t: NodeId, placed: seq<Placement>, x: NodeId)
    requires Wf(s) && t in s.nodes && x in s.nodes[t].children
    requires Prefix(s, t, placed) && x !in s.nodes[t].children[..|placed|]
    ensures Prefix(Forget(s, Sub(s.nodes, s.parent, x)), t, placed)
  {
    var s' := Forget(s, Sub(s.nodes, s.parent, x));
    var ch := s.nodes[t].children;
    forall c | c in ch[..|placed|] ensures Agree(s.nodes, s'.nodes, c) && Agree(s.keys, s'.keys, c) {
      assert c in ch;
      SiblingNotBelow(s, t, x, c);
    }
    PrefixByList(s, s', t, placed);
  }

  /** A nested pass on `n`, a child that is not placed or the node created
      last, leaves the target and its placed children alone. */
  lemma NestedKeeps(s0: DomState, s: DomState, s': DomState, t: NodeId, placed: seq<Placement>, n: NodeId, lim: nat, D: bool)
    requires Wf(s) && t in s.nodes && n in s.nodes && t < n && t < lim <= s.next && Confined(s0, s, t, lim)
    requires Confined(s, s', n, s.next)
    requires n in s.nodes[t].children || (n == s.next - 1 && lim <= n)
    requires D ==> Prefix(s, t, placed) && n !in s.nodes[t].children[..|placed|]
    ensures TargetKept(s, s', t) && s'.nodes[t] == s.nodes[t] && Confined(s0, s', t, lim)
    ensures D ==> Prefix(s', t, placed)
  {
    var ch := s.nodes[t].children;
    assert !Below(s.parent, t, n) by {
      if Below(s.parent, t, n) {
        BelowAtLeast(s.parent, t, n);
      }
    }
    assert Same(s, s', t);
    if n in ch {
      ChildIsBelow(s, t, n);
      ConfinedToAncestor(s, s', n, t, s.next);
      ConfinedWiden(s, s', t, t, s.next, lim);
    } else {
      ConfinedFromFresh(s, s', n, t, s.next, lim);
    }
    ConfinedTrans(s0, s, s', t, lim);
    if D {
      forall c | c in ch[..|placed|] ensures Agree(s.nodes, s'.nodes, c) && Agree(s.keys, s'.keys, c) {
        assert c in ch;
        ChildIsBelow(s, t, c);
        if n in ch {
          SiblingNotBelow(s, t, n, c);
        } else if Below(s.parent, c, n) {
          BelowAtLeast(s.parent, c, n);
        }
      }
      PrefixByList(s, s', t, placed);
    }
  }

  /** The node now at `order` shows the new placement. */
  lemma PrefixExtend(s: DomState, t: NodeId, placed: seq<Placement>, pl: Placement)
    requires t in s.nodes && Prefix(s, t, placed) && |placed| < |s.nodes[t].children|
    requires Shows(s, s.nodes[t].children[|placed|], pl)
    ensures Prefix(s, t, placed + [pl])
  {
    var ch := s.nodes[t].children;
    forall i | 0 <= i < |placed| + 1 ensures Shows(s, ch[i], (placed + [pl])[i]) {
      if i < |placed| {
        assert (placed + [pl])[i] == placed[i];
      }
    }
  }

  lemma DistinctInit(placed: seq<Placement>, pl: Placement)
    requires Distinct(placed + [pl])
    ensures Distinct(placed)
  {
    forall i, j | 0 <= i < j < |placed| ensures !SameSlot(placed[i], placed[j]) {
      assert (placed + [pl])[i] == placed[i] && (placed + [pl])[j] == placed[j];
    }
  }

  /** A child at some position is not among the children before it. */
  lemma AtNotBefore(ch: seq<NodeId>, i: nat)
    requires NoDup(ch) && i < |ch|
    ensures ch[i] !in ch[..i]
  {
  }

  /** A node without a parent is nobody's child. */
  lemma DetachedNotChild(s: DomState, t: NodeId, x: NodeId)
    requires TreeWf(s.nodes, s.parent, s.next) && t in s.nodes && x !in s.parent
    ensures x !in s.nodes[t].children
  {
    forall j | 0 <= j < |s.nodes[t].children| ensures s.nodes[t].children[j] != x {
      assert ChildFits(s.nodes, s.parent, t, s.nodes[t].children[j]);
    }
  }

  /** A node not yet created has no parent. */
  lemma FreshDetached(s: DomState, x: NodeId)
    requires TreeWf(s.nodes, s.parent, s.next) && x !in s.nodes
    ensures x !in s.parent
  {
    forall c | c in s.parent ensures c in s.nodes {
      var p := s.parent[c];
      var j :| 0 <= j < |s.nodes[p].children| && s.nodes[p].children[j] == c;
      assert ChildFits(s.nodes, s.parent, p, s.nodes[p].children[j]);
    }
  }
}
