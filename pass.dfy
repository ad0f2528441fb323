/** What one pass of the live-tree back-end of src/render.ts does to its
    target, as functions of the context calls the content function makes:
    the children it places (in order), the attributes it leaves, and the
    callback sets it fills. The reconciling methods of module Reconciler are
    proved to leave the target in exactly this state. */
module Pass {
  import opened Common
  import opened Descriptors
  import opened Nodes
  import opened Callbacks
  import opened Tree

  /** The key a child is placed under: the descriptor's own key, or, for a
      `null`/`undefined` one, its position in the pass. */
  function KeyOf(key: Key, order: nat): (r: KeyValue)
    ensures key.Some? ==> r == key.value
    ensures key.None? ==> r == NumKey(order)
  {
    if key.Some? then key.value else NumKey(order)
  }

  /** The tag name `pushElement` compares with a found element's: upper-cased
      for no namespace and for XHTML. */
  function ComparedTag(d: ElementDescriptor): string {
    if d.namespaceURI.None? || d.namespaceURI == Some(XHTML) then ToUpper(d.tagName) else d.tagName
  }

  /** The tag name of the element `createElement`/`replaceElement` make: a
      non-empty namespace goes through `createElementNS` (which upper-cases
      only for XHTML), anything else through `createElement`. */
  function CreatedTag(d: ElementDescriptor): string {
    if d.namespaceURI.Some? && d.namespaceURI.value != "" then
      (if d.namespaceURI.value == XHTML then ToUpper(d.tagName) else d.tagName)
    else ToUpper(d.tagName)
  }

  /** Whether the element made for `d` is in the HTML namespace:
      `createElement` in an HTML document makes one, `createElementNS` only
      for the XHTML namespace. */
  function CreatedInHtml(d: ElementDescriptor): bool {
    d.namespaceURI.None? || d.namespaceURI.value == "" || d.namespaceURI.value == XHTML
  }

  /** The two tag names agree except for the empty-string namespace. There a
      tag name with a lower-case letter is compared as written but created
      upper-cased, so an element made from such a descriptor never matches
      it again and is replaced on every later pass. */
  lemma TagsAgree(d: ElementDescriptor)
    ensures d.namespaceURI != Some("") ==> ComparedTag(d) == CreatedTag(d)
    ensures d.namespaceURI == Some("") ==> (ComparedTag(d) == CreatedTag(d) <==> ToUpper(d.tagName) == d.tagName)
  {
  }

  lemma EmptyNamespaceNeverMatches(tag: string, i: nat)
    requires i < |tag| && 'a' <= tag[i] <= 'z'
    ensures var d := ElementDescriptor(None, tag, Some(""), None, None);
      ComparedTag(d) != CreatedTag(d)
  {
    var d := ElementDescriptor(None, tag, Some(""), None, None);
    assert CreatedTag(d)[i] != tag[i];
  }

  // ---------------------------------------------------------------------
  // Placements

  /** What a pass puts at one position of the target's children. */
  datatype Placement =
    | Leaf(leafKind: Kind, key: KeyValue, data: string)
    | Elem(key: KeyValue, descriptor: ElementDescriptor)
  {
    function NodeKind(): Kind {
      if Leaf? then leafKind else ElementNode
    }
  }

  /** Two placements compete for the same node: same kind, same key. */
  predicate SameSlot(a: Placement, b: Placement) {
    a.NodeKind() == b.NodeKind() && a.key == b.key
  }

  /** No two placements of the pass compete for the same node. */
  ghost predicate Distinct(placed: seq<Placement>) {
    forall i, j :: 0 <= i < j < |placed| ==> !SameSlot(placed[i], placed[j])
  }

  /** A node shows a placement: its kind, and its text, or a tag name it was
      reused or created with. */
  predicate Matches(n: Node, p: Placement) {
    && n.kind == p.NodeKind()
    && (p.Leaf? ==> n.data == p.data)
    && (p.Elem? ==> n.tagName == ComparedTag(p.descriptor) || n.tagName == CreatedTag(p.descriptor))
  }

  /** The node `c` shows placement `p` and is recorded under its key. */
  ghost predicate Shows(s: DomState, c: NodeId, p: Placement) {
    c in s.nodes && Matches(s.nodes[c], p) && c in s.keys && s.keys[c] == p.key
  }

  /** The first children of `t` show the placements, in order. */
  ghost predicate Prefix(s: DomState, t: NodeId, placed: seq<Placement>)
    requires t in s.nodes
  {
    && |placed| <= |s.nodes[t].children|
    && forall i :: 0 <= i < |placed| ==> Shows(s, s.nodes[t].children[i], placed[i])
  }

  /** The children of `t` are exactly the placements. */
  ghost predicate Exactly(s: DomState, t: NodeId, placed: seq<Placement>)
    requires t in s.nodes
  {
    Prefix(s, t, placed) && |s.nodes[t].children| == |placed|
  }

  // ---------------------------------------------------------------------
  // The pass as a fold over its context calls

  /** The context's own state: what it has placed, and its callback sets
      (the cleanup set is the target's). */
  datatype PassState = PassState(
    placed: seq<Placement>,
    created: seq<CreatedEntry>,
    updated: seq<Updater>,
    linked: seq<Hook>,
    cleanups: seq<Callback>,
    serial: nat)

  /** A fresh context, after its target's cleanup set has been run empty. */
  const Start: PassState := PassState([], [], [], [], [], 0)

  /** One context call. Empty texts and comments are skipped without taking
      a position; a linking callback already seen is ignored; each removed
      callback gets a fresh wrapper in the created set. */
  function PassStep(s: PassState, p: Push): PassState {
    var order := |s.placed|;
    match p
    case PushText(d) =>
      if d.content == "" then s else s.(placed := s.placed + [Leaf(TextNode, KeyOf(d.key, order), d.content)])
    case PushComment(d) =>
      if d.content == "" then s else s.(placed := s.placed + [Leaf(CommentNode, KeyOf(d.key, order), d.content)])
    case PushElement(d) => s.(placed := s.placed + [Elem(KeyOf(d.key, order), d)])
    case PushAttr(_) => s
    case PushCleanup(c) => s.(cleanups := SetAdd(s.cleanups, c))
    case PushCreated(h) => s.(created := SetAdd(s.created, UserCreated(h)))
    case PushLinking(h) =>
      if h in s.linked then s
      else s.(linked := s.linked + [h], cleanups := if h.returned.Some? then SetAdd(s.cleanups, h.returned.value) else s.cleanups)
    case PushRemoved(c) => s.(created := SetAdd(s.created, RemovedWrapper(c, s.serial)), serial := s.serial + 1)
    case PushUpdated(u) => s.(updated := SetAdd(s.updated, u))
  }

  function PassFold(ps: seq<Push>): PassState
    decreases |ps|
  {
    if ps == [] then Start else PassStep(PassFold(ps[..|ps| - 1]), ps[|ps| - 1])
  }

  /** `setAttributeNS` converts a `false` value to the string `"false"`. */
  function AttrText(v: AttrValue): string {
    match v
    case AttrString(s) => s
    case AttrFalse => "false"
  }

  /** The target's attributes as the calls overwrite them. */
  function AttrFold(attrs: map<string, AttrEntry>, ps: seq<Push>): map<string, AttrEntry>
    decreases |ps|
  {
    if ps == [] then attrs
    else
      var r := AttrFold(attrs, ps[..|ps| - 1]);
      match ps[|ps| - 1]
      case PushAttr(a) => r[a.name := AttrEntry(NormNs(a.namespaceURI), AttrText(a.value))]
      case _ => r
  }

  /** The names of the attributes pushed. */
  function PushedNames(ps: seq<Push>): set<string>
    decreases |ps|
  {
    if ps == [] then {}
    else PushedNames(ps[..|ps| - 1]) + (if ps[|ps| - 1].PushAttr? then {ps[|ps| - 1].attr.name} else {})
  }

  /** The target's cleanup set at the end of the pass: the pass's own, the
      content function's returned cleanup, and, on a later pass, what the
      updated callbacks returned. */
  function FinalCleanups(ps: seq<Push>, unref: Option<Callback>, isUpdated: bool): seq<Callback> {
    var f := PassFold(ps);
    var c := if unref.Some? then SetAdd(f.cleanups, unref.value) else f.cleanups;
    if isUpdated then SetAddAll(c, UpdatedCleanupSet(f.updated)) else c
  }

  lemma FoldSnoc(ps: seq<Push>, p: Push)
    ensures PassFold(ps + [p]) == PassStep(PassFold(ps), p)
    ensures AttrFold(map[], ps + [p]) == (if p.PushAttr? then AttrFold(map[], ps)[p.attr.name := AttrEntry(NormNs(p.attr.namespaceURI), AttrText(p.attr.value))] else AttrFold(map[], ps))
    ensures PushedNames(ps + [p]) == PushedNames(ps) + (if p.PushAttr? then {p.attr.name} else {})
  {
    assert (ps + [p])[..|ps|] == ps;
  }

  lemma AttrFoldSnoc(attrs: map<string, AttrEntry>, ps: seq<Push>, p: Push)
    ensures AttrFold(attrs, ps + [p]) == (if p.PushAttr? then AttrFold(attrs, ps)[p.attr.name := AttrEntry(NormNs(p.attr.namespaceURI), AttrText(p.attr.value))] else AttrFold(attrs, ps))
  {
    assert (ps + [p])[..|ps|] == ps;
  }

  // ---------------------------------------------------------------------
  // What the fold promises

  /** The pushed attributes overwrite the old ones; the others are kept. */
  lemma {:induction false} AttrFoldOverwrites(attrs: map<string, AttrEntry>, ps: seq<Push>, name: string)
    ensures name in AttrFold(attrs, ps) <==> name in attrs || name in PushedNames(ps)
    ensures name in PushedNames(ps) ==> name in AttrFold(map[], ps) && AttrFold(attrs, ps)[name] == AttrFold(map[], ps)[name]
    ensures name !in PushedNames(ps) && name in attrs ==> AttrFold(attrs, ps)[name] == attrs[name]
    decreases |ps|
  {
    if ps != [] {
      AttrFoldOverwrites(attrs, ps[..|ps| - 1], name);
      AttrFoldOverwrites(map[], ps[..|ps| - 1], name);
    }
  }

  /** Removing the old names that were not pushed (`updateAttributes`)
      leaves exactly the pushed attributes: what a pass leaves does not
      depend on what was there before. */
  lemma PassAttrs(attrs: map<string, AttrEntry>, ps: seq<Push>)
    ensures AttrFold(attrs, ps) - (attrs.Keys - PushedNames(ps)) == AttrFold(map[], ps)
  {
    var l := AttrFold(attrs, ps) - (attrs.Keys - PushedNames(ps));
    var r := AttrFold(map[], ps);
    forall name ensures (name in l <==> name in r) && (name in l ==> l[name] == r[name]) {
      AttrFoldOverwrites(attrs, ps, name);
      AttrFoldOverwrites(map[], ps, name);
    }
  }

  /** An attribute is left by a pass exactly when one was pushed under its
      name, and the last such push decides its namespace and value. */
  lemma {:induction false} AttrFoldLastWins(ps: seq<Push>, i: nat)
    requires i < |ps| && ps[i].PushAttr?
    requires forall j :: i < j < |ps| ==> !(ps[j].PushAttr? && ps[j].attr.name == ps[i].attr.name)
    ensures var a := ps[i].attr;
      a.name in AttrFold(map[], ps) && AttrFold(map[], ps)[a.name] == AttrEntry(NormNs(a.namespaceURI), AttrText(a.value))
    decreases |ps|
  {
    if i < |ps| - 1 {
      var init := ps[..|ps| - 1];
      assert init[i] == ps[i];
      forall j | i < j < |init| ensures !(init[j].PushAttr? && init[j].attr.name == init[i].attr.name) {
        assert init[j] == ps[j];
      }
      AttrFoldLastWins(init, i);
    } else {
      assert ps[..|ps| - 1] + [ps[i]] == ps;
      AttrFoldSnoc(map[], ps[..|ps| - 1], ps[i]);
    }
  }

  lemma {:induction false} PushedNamesMembers(ps: seq<Push>, name: string)
    ensures name in PushedNames(ps) <==> exists i :: 0 <= i < |ps| && ps[i].PushAttr? && ps[i].attr.name == name
    decreases |ps|
  {
    if ps != [] {
      var init := ps[..|ps| - 1];
      PushedNamesMembers(init, name);
      if name in PushedNames(init) {
        var i :| 0 <= i < |init| && init[i].PushAttr? && init[i].attr.name == name;
        assert ps[i] == init[i];
      }
      if exists i :: 0 <= i < |ps| && ps[i].PushAttr? && ps[i].attr.name == name {
        var i :| 0 <= i < |ps| && ps[i].PushAttr? && ps[i].attr.name == name;
        if i < |init| {
          assert init[i] == ps[i];
        }
      }
    }
  }

  /** Whether a call takes a position among the children. */
  predicate Places(p: Push) {
    (p.PushText? && p.text.content != "") || (p.PushComment? && p.comment.content != "") || p.PushElement?
  }

  /** The placements follow the placing calls one for one. */
  lemma {:induction false} PlacedCount(ps: seq<Push>)
    ensures |PassFold(ps).placed| == |Placing(ps)|
    ensures PassFold(ps).placed == seq(|Placing(ps)|, i requires 0 <= i < |Placing(ps)| => PlacementOf(Placing(ps)[i], i))
    decreases |ps|
  {
    if ps != [] {
      var init := ps[..|ps| - 1];
      PlacedCount(init);
      if Places(ps[|ps| - 1]) {
        assert Placing(ps) == Placing(init) + [ps[|ps| - 1]];
      }
    }
  }

  /** The placing calls, in order. */
  function Placing(ps: seq<Push>): (r: seq<Push>)
    ensures forall i :: 0 <= i < |r| ==> Places(r[i])
    decreases |ps|
  {
    if ps == [] then []
    else Placing(ps[..|ps| - 1]) + (if Places(ps[|ps| - 1]) then [ps[|ps| - 1]] else [])
  }

  /** The placement a placing call makes at position `order`. */
  function PlacementOf(p: Push, order: nat): Placement
    requires Places(p)
  {
    match p
    case PushText(d) => Leaf(TextNode, KeyOf(d.key, order), d.content)
    case PushComment(d) => Leaf(CommentNode, KeyOf(d.key, order), d.content)
    case PushElement(d) => Elem(KeyOf(d.key, order), d)
  }

  /** Without explicit keys, every child is placed under its own position,
      so no two placements compete and a pass lays out exactly what it was
      given. */
  lemma UnkeyedIsDistinct(ps: seq<Push>)
    requires forall i :: 0 <= i < |ps| && Places(ps[i]) ==> KeyOfPush(ps[i]).None?
    ensures Distinct(PassFold(ps).placed)
  {
    PlacedCount(ps);
    var pl := Placing(ps);
    forall k | 0 <= k < |pl| ensures KeyOfPush(pl[k]).None? {
      PlacingFrom(ps, k);
    }
  }

  /** The key a placing call carries. */
  function KeyOfPush(p: Push): Key
    requires Places(p)
  {
    match p
    case PushText(d) => d.key
    case PushComment(d) => d.key
    case PushElement(d) => d.key
  }

  /** Every placing call comes from the input. */
  lemma {:induction false} PlacingFrom(ps: seq<Push>, k: nat)
    requires k < |Placing(ps)|
    ensures exists i :: 0 <= i < |ps| && ps[i] == Placing(ps)[k]
    decreases |ps|
  {
    var init := ps[..|ps| - 1];
    if k < |Placing(init)| {
      PlacingFrom(init, k);
      var i :| 0 <= i < |init| && init[i] == Placing(init)[k];
      assert ps[i] == init[i];
    } else {
      assert Placing(ps)[k] == ps[|ps| - 1];
    }
  }

  /** A linking callback is in the pass's linked set exactly when it was
      pushed. */
  lemma {:induction false} PassLinkedMembers(ps: seq<Push>, h: Hook)
    ensures h in PassFold(ps).linked <==> exists i :: 0 <= i < |ps| && ps[i] == PushLinking(h)
    decreases |ps|
  {
    if ps != [] {
      var init := ps[..|ps| - 1];
      PassLinkedMembers(init, h);
      if exists i :: 0 <= i < |ps| && ps[i] == PushLinking(h) {
        var i :| 0 <= i < |ps| && ps[i] == PushLinking(h);
        if i < |init| {
          assert init[i] == ps[i];
        }
      }
      if exists i :: 0 <= i < |init| && init[i] == PushLinking(h) {
        var i :| 0 <= i < |init| && init[i] == PushLinking(h);
        assert ps[i] == init[i];
      }
    }
  }

  /** Call `i` of `ps` is one that brings cleanup callback `c`. */
  predicate CleansAt(ps: seq<Push>, i: int, c: Callback)
    requires 0 <= i < |ps|
  {
    ps[i] == PushCleanup(c) || (ps[i].PushLinking? && ps[i].linking.returned == Some(c))
  }

  lemma StepCleanups(s: PassState, p: Push, c: Callback)
    ensures c in PassStep(s, p).cleanups <==>
      c in s.cleanups || p == PushCleanup(c) || (p.PushLinking? && p.linking !in s.linked && p.linking.returned == Some(c))
  {
  }

  /** A callback is in the pass's own cleanup set exactly when it was pushed
      as a cleanup callback or returned by a linking callback. */
  lemma {:induction false} PassCleanupsMembers(ps: seq<Push>, c: Callback)
    ensures c in PassFold(ps).cleanups <==> exists i :: 0 <= i < |ps| && CleansAt(ps, i, c)
    decreases |ps|
  {
    if ps != [] {
      var init := ps[..|ps| - 1];
      var last := |ps| - 1;
      var p := ps[last];
      PassCleanupsMembers(init, c);
      assert PassFold(ps) == PassStep(PassFold(init), p);
      StepCleanups(PassFold(init), p, c);
      if exists i :: 0 <= i < |init| && CleansAt(init, i, c) {
        var i :| 0 <= i < |init| && CleansAt(init, i, c);
        assert CleansAt(ps, i, c);
      }
      if c !in PassFold(init).cleanups && (p == PushCleanup(c) || (p.PushLinking? && p.linking.returned == Some(c))) {
        assert CleansAt(ps, last, c);
      }
      if exists i :: 0 <= i < |ps| && CleansAt(ps, i, c) {
        var i :| 0 <= i < |ps| && CleansAt(ps, i, c);
        if i < |init| {
          assert CleansAt(init, i, c);
        } else if p.PushLinking? && p.linking in PassFold(init).linked {
          // An already-linked callback was called the first time round.
          PassLinkedMembers(init, p.linking);
          var k :| 0 <= k < |init| && init[k] == PushLinking(p.linking);
          assert CleansAt(init, k, c);
        }
      }
    }
  }

  /** Call `i` of `ps` is the one that put entry `e` in the created set. */
  predicate MadeAt(ps: seq<Push>, i: int, e: CreatedEntry)
    requires 0 <= i < |ps|
  {
    match e
    case UserCreated(h) => ps[i] == PushCreated(h)
    case RemovedWrapper(c, _) => ps[i] == PushRemoved(c) && e.serial == RemovedCount(ps[..i])
  }

  /** The created entry one call adds, if any. */
  function NewEntry(s: PassState, p: Push): Option<CreatedEntry> {
    match p
    case PushCreated(h) => Some(UserCreated(h))
    case PushRemoved(c) => Some(RemovedWrapper(c, s.serial))
    case _ => None
  }

  lemma StepCreated(s: PassState, p: Push, e: CreatedEntry)
    ensures e in PassStep(s, p).created <==> e in s.created || NewEntry(s, p) == Some(e)
    ensures PassStep(s, p).serial == s.serial + (if p.PushRemoved? then 1 else 0)
  {
  }

  lemma MadeLast(ps: seq<Push>, e: CreatedEntry)
    requires ps != [] && PassFold(ps[..|ps| - 1]).serial == RemovedCount(ps[..|ps| - 1])
    ensures MadeAt(ps, |ps| - 1, e) <==> NewEntry(PassFold(ps[..|ps| - 1]), ps[|ps| - 1]) == Some(e)
  {
  }

  lemma MadeEarlier(ps: seq<Push>, i: int, e: CreatedEntry)
    requires 0 <= i < |ps| - 1
    ensures MadeAt(ps, i, e) <==> MadeAt(ps[..|ps| - 1], i, e)
  {
    assert ps[..|ps| - 1][..i] == ps[..i];
  }

  /** The created-callback set of a pass holds exactly its created
      callbacks and one wrapper per removed callback. */
  lemma {:induction false} PassCreatedMembers(ps: seq<Push>, e: CreatedEntry)
    ensures e in PassFold(ps).created <==> exists i :: 0 <= i < |ps| && MadeAt(ps, i, e)
    ensures PassFold(ps).serial == RemovedCount(ps)
    decreases |ps|
  {
    if ps != [] {
      var init := ps[..|ps| - 1];
      var last := |ps| - 1;
      PassCreatedMembers(init, e);
      assert PassFold(ps) == PassStep(PassFold(init), ps[last]);
      StepCreated(PassFold(init), ps[last], e);
      MadeLast(ps, e);
      if e in PassFold(ps).created {
        if e in PassFold(init).created {
          var i :| 0 <= i < |init| && MadeAt(init, i, e);
          MadeEarlier(ps, i, e);
        }
      }
      if exists i :: 0 <= i < |ps| && MadeAt(ps, i, e) {
        var i :| 0 <= i < |ps| && MadeAt(ps, i, e);
        if i < last {
          MadeEarlier(ps, i, e);
        }
      }
    }
  }

  /** How many removed callbacks were pushed. */
  function RemovedCount(ps: seq<Push>): nat
    decreases |ps|
  {
    if ps == [] then 0 else RemovedCount(ps[..|ps| - 1]) + (if ps[|ps| - 1].PushRemoved? then 1 else 0)
  }

  /** On a first pass the target's removed set ends up holding exactly the
      pushed removed callbacks and what the created callbacks returned. */
  lemma PassRemovedMembers(ps: seq<Push>, c: Callback)
    ensures c in CreatedRemovedSet(PassFold(ps).created) <==>
      exists i :: 0 <= i < |ps| && (ps[i] == PushRemoved(c) || (ps[i].PushCreated? && ps[i].created.returned == Some(c)))
  {
    var created := PassFold(ps).created;
    CreatedRemovedSetMembers(created, c);
    if c in CreatedRemovedSet(created) {
      var k :| 0 <= k < |created| && CreatedResult(created[k]) == Some(c);
      PassCreatedMembers(ps, created[k]);
    }
    if exists i :: 0 <= i < |ps| && (ps[i] == PushRemoved(c) || (ps[i].PushCreated? && ps[i].created.returned == Some(c))) {
      var i :| 0 <= i < |ps| && (ps[i] == PushRemoved(c) || (ps[i].PushCreated? && ps[i].created.returned == Some(c)));
      var e := if ps[i].PushRemoved? then RemovedWrapper(c, RemovedCount(ps[..i])) else UserCreated(ps[i].created);
      PassCreatedMembers(ps, e);
      assert MadeAt(ps, i, e);
      var k :| 0 <= k < |created| && created[k] == e;
      assert CreatedResult(created[k]) == Some(c);
    }
  }
}
