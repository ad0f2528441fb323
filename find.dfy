/** `findNode` of src/render.ts: a circular scan of a parent's children,
    starting at `offset`, for a node of the requested kind recorded under the
    requested key; the first untagged node of that kind met on the way is
    kept as a fallback and tagged with the key on the spot. */
module Find {
  import opened Common
  import opened Descriptors
  import opened Nodes

  /** The order in which the loop visits the list: `list[(offset + i) % n]`. */
  function Rotate(list: seq<NodeId>, offset: nat): (r: seq<NodeId>)
    ensures |r| == |list|
    ensures multiset(r) == multiset(list)
  {
    if list == [] then []
    else
      var k := offset % |list|;
      assert list == list[..k] + list[k..];
      list[k..] + list[..k]
  }

  lemma MulAtLeast(d: int, n: int)
    requires d >= 1 && n > 0
    ensures d * n >= n
    decreases d
  {
    if d > 1 {
      MulAtLeast(d - 1, n);
      assert d * n == (d - 1) * n + n;
    }
  }

  lemma ModUnique(a: int, n: int, q: int, r: int)
    requires n > 0 && 0 <= r < n && a == q * n + r
    ensures a % n == r
  {
    var q2, r2 := a / n, a % n;
    assert a == q2 * n + r2;
    if q > q2 {
      assert q * n - q2 * n == (q - q2) * n;
      MulAtLeast(q - q2, n);
    } else if q < q2 {
      assert q2 * n - q * n == (q2 - q) * n;
      MulAtLeast(q2 - q, n);
    }
  }

  lemma ModShift(offset: nat, n: nat, i: nat)
    requires n > 0 && i < n
    ensures (offset + i) % n == if offset % n + i < n then offset % n + i else offset % n + i - n
  {
    var q, k := offset / n, offset % n;
    assert offset == q * n + k;
    if k + i < n {
      ModUnique(offset + i, n, q, k + i);
    } else {
      assert (q + 1) * n == q * n + n;
      ModUnique(offset + i, n, q + 1, k + i - n);
    }
  }

  /** The rotation visits exactly the positions the loop computes. */
  lemma RotateIndex(list: seq<NodeId>, offset: nat, i: nat)
    requires i < |list|
    ensures Rotate(list, offset)[i] == list[(offset + i) % |list|]
  {
    ModShift(offset, |list|, i);
  }

  lemma RotateNoDup(list: seq<NodeId>, offset: nat)
    requires NoDup(list)
    ensures NoDup(Rotate(list, offset))
  {
    var r := Rotate(list, offset);
    forall i, j | 0 <= i < j < |r| ensures r[i] != r[j] {
      RotateIndex(list, offset, i);
      RotateIndex(list, offset, j);
      var n := |list|;
      ModShift(offset, n, i);
      ModShift(offset, n, j);
    }
  }

  /** A node of the kind already recorded under the key. */
  predicate Exact(nodes: map<NodeId, Node>, keys: map<NodeId, KeyValue>, it: NodeId, key: KeyValue, kind: Kind)
  {
    it in nodes && nodes[it].kind == kind && it in keys && keys[it] == key
  }

  /** A node of the kind with no recorded key. */
  predicate Untagged(nodes: map<NodeId, Node>, keys: map<NodeId, KeyValue>, it: NodeId, kind: Kind)
  {
    it in nodes && nodes[it].kind == kind && it !in keys
  }

  /** What the scan returns, and the key map it leaves. */
  datatype Found = Found(node: Option<NodeId>, keys: map<NodeId, KeyValue>)

  /** The loop of `findNode` over the visiting order, with the fallback found
      so far. */
  function Scan(scan: seq<NodeId>, nodes: map<NodeId, Node>, keys: map<NodeId, KeyValue>,
                key: KeyValue, kind: Kind, fallback: Option<NodeId>): (r: Found)
    ensures r.node.Some? ==> r.node == fallback || r.node.value in scan
    decreases |scan|
  {
    if scan == [] then Found(fallback, keys)
    else
      var it := scan[0];
      if Exact(nodes, keys, it, key, kind) then Found(Some(it), keys)
      else if Untagged(nodes, keys, it, kind) && fallback.None? then
        Scan(scan[1..], nodes, keys[it := key], key, kind, Some(it))
      else
        Scan(scan[1..], nodes, keys, key, kind, fallback)
  }

  /** `findNode(list, key, kind, offset)`. */
  function FindSpec(list: seq<NodeId>, nodes: map<NodeId, Node>, keys: map<NodeId, KeyValue>,
                    key: KeyValue, kind: Kind, offset: nat): Found
  {
    Scan(Rotate(list, offset), nodes, keys, key, kind, None)
  }

  /** The loop itself; the key map is returned rather than updated in place. */
  method FindNode(list: seq<NodeId>, nodes: map<NodeId, Node>, keys: map<NodeId, KeyValue>,
                  key: KeyValue, kind: Kind, offset: nat) returns (r: Option<NodeId>, keys': map<NodeId, KeyValue>)
    requires forall x :: x in list ==> x in nodes
    ensures Found(r, keys') == FindSpec(list, nodes, keys, key, kind, offset)
  {
    var fallback: Option<NodeId> := None;
    keys' := keys;
    var n := |list|;
    ghost var rot := Rotate(list, offset);
    for i := 0 to n
      invariant Scan(rot[i..], nodes, keys', key, kind, fallback) == FindSpec(list, nodes, keys, key, kind, offset)
    {
      RotateIndex(list, offset, i);
      var it := list[(offset + i) % n];
      assert rot[i..][0] == it && rot[i..][1..] == rot[i + 1..];
      if nodes[it].kind == kind {
        if it in keys' && keys'[it] == key {
          return Some(it), keys';
        } else if it !in keys' && fallback.None? {
          fallback := Some(it);
          keys' := keys'[it := key];
        }
      }
    }
    r := fallback;
  }

  // ---------------------------------------------------------------------
  // What the scan finds

  /** The position of the first exact match, if any. */
  function FirstExact(scan: seq<NodeId>, nodes: map<NodeId, Node>, keys: map<NodeId, KeyValue>,
                      key: KeyValue, kind: Kind): (r: Option<nat>)
    ensures r.Some? ==> r.value < |scan|
    decreases |scan|
  {
    if scan == [] then None
    else if Exact(nodes, keys, scan[0], key, kind) then Some(0)
    else
      var rest := FirstExact(scan[1..], nodes, keys, key, kind);
      if rest.Some? then Some(rest.value + 1) else None
  }

  /** The first untagged node of the kind, if any. */
  function FirstUntagged(scan: seq<NodeId>, nodes: map<NodeId, Node>, keys: map<NodeId, KeyValue>,
                         kind: Kind): (r: Option<NodeId>)
    decreases |scan|
  {
    if scan == [] then None
    else if Untagged(nodes, keys, scan[0], kind) then Some(scan[0])
    else FirstUntagged(scan[1..], nodes, keys, kind)
  }

  /** `FirstExact` finds the first exact match, and reports none only when
      there is none. */
  lemma {:induction false} FirstExactSpec(scan: seq<NodeId>, nodes: map<NodeId, Node>,
      keys: map<NodeId, KeyValue>, key: KeyValue, kind: Kind)
    ensures var r := FirstExact(scan, nodes, keys, key, kind);
      && (r.Some? ==> Exact(nodes, keys, scan[r.value], key, kind)
                      && forall j :: 0 <= j < r.value ==> !Exact(nodes, keys, scan[j], key, kind))
      && (r.None? ==> forall j :: 0 <= j < |scan| ==> !Exact(nodes, keys, scan[j], key, kind))
    decreases |scan|
  {
    if scan != [] && !Exact(nodes, keys, scan[0], key, kind) {
      FirstExactSpec(scan[1..], nodes, keys, key, kind);
      var r1 := FirstExact(scan[1..], nodes, keys, key, kind);
      forall j | 0 < j < |scan| ensures scan[j] == scan[1..][j - 1] { }
    }
  }

  /** `FirstUntagged` finds an untagged node of the kind in the list, and
      reports none only when there is none. */
  lemma {:induction false} FirstUntaggedSpec(scan: seq<NodeId>, nodes: map<NodeId, Node>,
      keys: map<NodeId, KeyValue>, kind: Kind)
    ensures var r := FirstUntagged(scan, nodes, keys, kind);
      && (r.Some? ==> r.value in scan && Untagged(nodes, keys, r.value, kind))
      && (r.None? ==> forall x :: x in scan ==> !Untagged(nodes, keys, x, kind))
    decreases |scan|
  {
    if scan != [] && !Untagged(nodes, keys, scan[0], kind) {
      FirstUntaggedSpec(scan[1..], nodes, keys, kind);
      assert forall x :: x in scan ==> x == scan[0] || x in scan[1..];
    }
  }

  /** The key map after tagging the first untagged node of `scan`, unless a
      fallback was already chosen. */
  function TagFirst(scan: seq<NodeId>, nodes: map<NodeId, Node>, keys: map<NodeId, KeyValue>,
                    key: KeyValue, kind: Kind, fallback: Option<NodeId>): map<NodeId, KeyValue>
  {
    if fallback.Some? then keys
    else
      var u := FirstUntagged(scan, nodes, keys, kind);
      if u.Some? then keys[u.value := key] else keys
  }

  /** Tagging a node the rest of the scan never visits changes nothing the
      rest of the scan looks at. */
  lemma {:induction false} FirstExactIgnoresOthers(scan: seq<NodeId>, nodes: map<NodeId, Node>,
      keys: map<NodeId, KeyValue>, key: KeyValue, kind: Kind, u: NodeId)
    requires u !in scan
    ensures FirstExact(scan, nodes, keys[u := key], key, kind) == FirstExact(scan, nodes, keys, key, kind)
    ensures FirstUntagged(scan, nodes, keys[u := key], kind) == FirstUntagged(scan, nodes, keys, kind)
    decreases |scan|
  {
    if scan != [] {
      FirstExactIgnoresOthers(scan[1..], nodes, keys, key, kind, u);
    }
  }

  /** The scan, characterised: the first exact match wins; otherwise the
      fallback (or the first untagged node of the kind); and the first
      untagged node met before the result is tagged with the key. */
  lemma {:induction false} ScanSpec(scan: seq<NodeId>, nodes: map<NodeId, Node>, keys: map<NodeId, KeyValue>,
                                    key: KeyValue, kind: Kind, fallback: Option<NodeId>)
    requires NoDup(scan)
    requires fallback.Some? ==> fallback.value !in scan
    ensures var r := Scan(scan, nodes, keys, key, kind, fallback);
      var e := FirstExact(scan, nodes, keys, key, kind);
      && (e.Some? ==> r.node == Some(scan[e.value]) && r.keys == TagFirst(scan[..e.value], nodes, keys, key, kind, fallback))
      && (e.None? ==> (r.node == (if fallback.Some? then fallback else FirstUntagged(scan, nodes, keys, kind))
                       && r.keys == TagFirst(scan, nodes, keys, key, kind, fallback)))
    decreases |scan|
  {
    if scan == [] {
      return;
    }
    var it := scan[0];
    var tail := scan[1..];
    assert forall x :: x in tail ==> x in scan;
    assert NoDup(tail) && it !in tail;
    if Exact(nodes, keys, it, key, kind) {
      assert scan[..0] == [];
    } else if Untagged(nodes, keys, it, kind) && fallback.None? {
      ScanSpec(tail, nodes, keys[it := key], key, kind, Some(it));
      FirstExactIgnoresOthers(tail, nodes, keys, key, kind, it);
      ScanFallbackStep(scan, nodes, keys, key, kind);
    } else {
      ScanSpec(tail, nodes, keys, key, kind, fallback);
      ScanSkipStep(scan, nodes, keys, key, kind);
      SkipTag(scan, nodes, keys, key, kind, fallback);
      if fallback.None? {
        SkipUntagged(scan, nodes, keys, kind);
      }
      var e1 := FirstExact(tail, nodes, keys, key, kind);
      if e1.Some? {
        SkipTagPrefix(scan, nodes, keys, key, kind, fallback, e1.value);
      }
    }
  }

  /** One step of `ScanSpec`: the head becomes the fallback. */
  lemma ScanFallbackStep(scan: seq<NodeId>, nodes: map<NodeId, Node>, keys: map<NodeId, KeyValue>,
                         key: KeyValue, kind: Kind)
    requires scan != [] && Untagged(nodes, keys, scan[0], kind)
    ensures var e := FirstExact(scan, nodes, keys, key, kind);
      var e1 := FirstExact(scan[1..], nodes, keys, key, kind);
      && (e1.Some? ==> e == Some(e1.value + 1) && TagFirst(scan[..e1.value + 1], nodes, keys, key, kind, None) == keys[scan[0] := key])
      && (e1.None? ==> e.None? && FirstUntagged(scan, nodes, keys, kind) == Some(scan[0]))
  {
    var e1 := FirstExact(scan[1..], nodes, keys, key, kind);
    if e1.Some? {
      assert scan[..e1.value + 1][0] == scan[0];
    }
  }

  /** One step of `ScanSpec`: the head is passed over. */
  lemma ScanSkipStep(scan: seq<NodeId>, nodes: map<NodeId, Node>, keys: map<NodeId, KeyValue>,
                     key: KeyValue, kind: Kind)
    requires scan != [] && !Exact(nodes, keys, scan[0], key, kind)
    ensures var e := FirstExact(scan, nodes, keys, key, kind);
      var e1 := FirstExact(scan[1..], nodes, keys, key, kind);
      && (e1.Some? ==> e == Some(e1.value + 1))
      && (e1.None? ==> e.None?)
  {
  }

  lemma SkipTag(scan: seq<NodeId>, nodes: map<NodeId, Node>, keys: map<NodeId, KeyValue>,
                key: KeyValue, kind: Kind, fallback: Option<NodeId>)
    requires scan != [] && !(Untagged(nodes, keys, scan[0], kind) && fallback.None?)
    ensures TagFirst(scan, nodes, keys, key, kind, fallback) == TagFirst(scan[1..], nodes, keys, key, kind, fallback)
  {
    if fallback.None? {
      SkipUntagged(scan, nodes, keys, kind);
    }
  }

  lemma SkipTagPrefix(scan: seq<NodeId>, nodes: map<NodeId, Node>, keys: map<NodeId, KeyValue>,
                      key: KeyValue, kind: Kind, fallback: Option<NodeId>, k: nat)
    requires k < |scan| && !(Untagged(nodes, keys, scan[0], kind) && fallback.None?)
    ensures TagFirst(scan[..k + 1], nodes, keys, key, kind, fallback) == TagFirst(scan[1..][..k], nodes, keys, key, kind, fallback)
  {
    var pre := scan[..k + 1];
    assert pre[1..] == scan[1..][..k];
    if fallback.None? {
      SkipUntagged(pre, nodes, keys, kind);
    }
  }

  lemma SkipUntagged(scan: seq<NodeId>, nodes: map<NodeId, Node>, keys: map<NodeId, KeyValue>, kind: Kind)
    requires scan != [] && !Untagged(nodes, keys, scan[0], kind)
    ensures FirstUntagged(scan, nodes, keys, kind) == FirstUntagged(scan[1..], nodes, keys, kind)
  {
  }

  /** The rotation visits every node of the list and no other. */
  lemma RotateMembers(list: seq<NodeId>, offset: nat)
    ensures forall x :: x in Rotate(list, offset) <==> x in list
  {
    var rot := Rotate(list, offset);
    assert forall x :: x in rot <==> x in multiset(rot);
    assert forall x :: x in list <==> x in multiset(list);
  }

  /** `findNode` returns the first node in visiting order that is of the kind
      and recorded under the key. Before it, the first untagged node of the
      kind met (if any) has been tagged with the key although it is not
      returned. */
  lemma FindFirstExact(list: seq<NodeId>, nodes: map<NodeId, Node>, keys: map<NodeId, KeyValue>,
                       key: KeyValue, kind: Kind, offset: nat, i: nat)
    requires NoDup(list) && i < |list|
    requires Exact(nodes, keys, Rotate(list, offset)[i], key, kind)
    requires forall j :: 0 <= j < i ==> !Exact(nodes, keys, Rotate(list, offset)[j], key, kind)
    ensures var r := FindSpec(list, nodes, keys, key, kind, offset);
      var u := FirstUntagged(Rotate(list, offset)[..i], nodes, keys, kind);
      && r.node == Some(Rotate(list, offset)[i])
      && r.keys == (if u.Some? then keys[u.value := key] else keys)
  {
    var rot := Rotate(list, offset);
    RotateNoDup(list, offset);
    ScanSpec(rot, nodes, keys, key, kind, None);
    FirstExactSpec(rot, nodes, keys, key, kind);
    var e := FirstExact(rot, nodes, keys, key, kind);
    assert e.Some?;
    assert e.value == i;
  }

  /** With no exact match, `findNode` returns the first untagged node of the
      kind in visiting order, tagged with the key, or null when there is
      none (in particular on an empty list), leaving the keys unchanged. */
  lemma FindFallback(list: seq<NodeId>, nodes: map<NodeId, Node>, keys: map<NodeId, KeyValue>,
                     key: KeyValue, kind: Kind, offset: nat)
    requires NoDup(list)
    requires forall x :: x in list ==> !Exact(nodes, keys, x, key, kind)
    ensures var r := FindSpec(list, nodes, keys, key, kind, offset);
      var u := FirstUntagged(Rotate(list, offset), nodes, keys, kind);
      && r.node == u
      && r.keys == (if u.Some? then keys[u.value := key] else keys)
      && (r.node.None? <==> forall x :: x in list ==> !Untagged(nodes, keys, x, kind))
  {
    var rot := Rotate(list, offset);
    RotateMembers(list, offset);
    RotateNoDup(list, offset);
    ScanSpec(rot, nodes, keys, key, kind, None);
    FirstExactSpec(rot, nodes, keys, key, kind);
    FirstUntaggedSpec(rot, nodes, keys, kind);
  }

  /** Whatever `findNode` returns is of the kind and, afterwards, recorded
      under the key; it was either already recorded under the key or untagged.
      The scan tags at most one node, and only an untagged one. */
  lemma FindResult(list: seq<NodeId>, nodes: map<NodeId, Node>, keys: map<NodeId, KeyValue>,
                   key: KeyValue, kind: Kind, offset: nat)
    requires NoDup(list)
    ensures var r := FindSpec(list, nodes, keys, key, kind, offset);
      && (r.node.Some? ==> r.node.value in list && r.node.value in nodes && nodes[r.node.value].kind == kind
                           && r.node.value in r.keys && r.keys[r.node.value] == key
                           && (Exact(nodes, keys, r.node.value, key, kind) || r.node.value !in keys))
      && (r.keys == keys || exists u :: u in list && Untagged(nodes, keys, u, kind) && r.keys == keys[u := key])
  {
    var rot := Rotate(list, offset);
    RotateMembers(list, offset);
    RotateNoDup(list, offset);
    ScanSpec(rot, nodes, keys, key, kind, None);
    FirstExactSpec(rot, nodes, keys, key, kind);
    var e := FirstExact(rot, nodes, keys, key, kind);
    if e.Some? {
      var pre := rot[..e.value];
      FirstUntaggedSpec(pre, nodes, keys, kind);
      var u := FirstUntagged(pre, nodes, keys, kind);
      assert rot[e.value] in rot;
      if u.Some? {
        assert u.value in rot;
        assert u.value != rot[e.value];
      }
    } else {
      FirstUntaggedSpec(rot, nodes, keys, kind);
    }
  }
}
