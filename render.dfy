/** The live-tree back-end of src/render.ts. `render` reconciles a target
    element's children, attributes and lifecycle callbacks with the calls
    its content function makes, and reuses the nodes already there by key
    and kind. The content function is modelled as the sequence of its
    context calls. A nested content function becomes a nested pass over the
    child element, with its own context on the registry. Each method is
    proved to change the document exactly as the matching function of
    module Reconcile says, so what module Ordering proves about those
    functions holds of the methods. */
module Reconciler {
  import opened Common
  import opened Descriptors
  import opened Nodes
  import opened Tree
  import opened Pass
  import opened Callbacks
  import opened Reconcile
  import opened Keeping
  import opened Placing
  import opened Ordering
  import opened Registry
  import Find

  /** A call that places a child, written out. */
  lemma PlacingStepIs(w: Doc, t: NodeId, f: PassState, p: Push)
    requires p.PushText? || p.PushComment? || p.PushElement?
    ensures p.PushText? ==>
      Stepped(w, t, f, p) == (if p.text.content == "" then w else LeafPushed(w, t, |f.placed|, TextNode, KeyOf(p.text.key, |f.placed|), p.text.content))
    ensures p.PushComment? ==>
      Stepped(w, t, f, p) == (if p.comment.content == "" then w else LeafPushed(w, t, |f.placed|, CommentNode, KeyOf(p.comment.key, |f.placed|), p.comment.content))
    ensures p.PushElement? ==> Stepped(w, t, f, p) == ElementPushed(w, t, |f.placed|, p.element)
  {
  }

  /** The fold over one more call. */
  lemma FoldStep(w: Doc, t: NodeId, ps: seq<Push>, p: Push)
    ensures PassFold(ps + [p]) == PassStep(PassFold(ps), p)
    ensures PushedNames(ps + [p]) == PushedNames(ps) + (if p.PushAttr? then {p.attr.name} else {})
    ensures Run(w, t, ps + [p]) == Stepped(Run(w, t, ps), t, PassFold(ps), p)
  {
    assert (ps + [p])[..|ps|] == ps;
  }

  /** After one call the document is still well formed and the target
      still has a cleanup set. */
  lemma StepReady(w: Doc, t: NodeId, f: PassState, p: Push)
    requires Sound(w.s) && t in w.s.nodes && t in w.s.cleanups
    ensures var r := Stepped(w, t, f, p);
      Sound(r.s) && t in r.s.nodes && t in r.s.cleanups
  {
    StepPrefix(w, t, f, p, false);
  }

  /** Placing a text or comment keeps the target and its cleanup set. */
  lemma LeafReady(w: Doc, t: NodeId, order: nat, kind: Kind, key: KeyValue, data: string)
    requires Sound(w.s) && t in w.s.nodes && t in w.s.cleanups
    ensures var r := LeafPushed(w, t, order, kind, key, data);
      t in r.s.nodes && t in r.s.cleanups
  {
    LeafPushedKeeps(w, t, order, kind, key, data);
  }

  /** Placing an element keeps the target and its cleanup set. */
  lemma ElementReady(w: Doc, t: NodeId, order: nat, d: ElementDescriptor)
    requires Sound(w.s) && t in w.s.nodes && t in w.s.cleanups
    ensures var r := ElementPushed(w, t, order, d);
      t in r.s.nodes && t in r.s.cleanups
  {
    ElementPushedKeeps(w, t, order, d);
  }

  /** A nested pass on `n` leaves the target's record alone, and `n` in
      the document with the parent it had. */
  lemma NestedReady(w: Doc, t: NodeId, n: NodeId, content: Option<Content>)
    requires Sound(w.s) && t in w.s.nodes && n in w.s.nodes && t < n
    requires n in w.s.nodes[t].children || n == w.s.next - 1
    ensures var r := ContentRendered(w, n, content);
      && Sound(r.s) && t in r.s.nodes && r.s.nodes[t] == w.s.nodes[t]
      && n in r.s.nodes && Agree(w.s.parent, r.s.parent, n)
  {
    NestedPrefix(w, t, n, content, [], false);
  }

  lemma AttrsRemovedNone(w: Doc, t: NodeId)
    requires t in w.s.nodes
    ensures AttrsRemoved(w, t, {}) == w
  {
    var a := w.s.nodes[t].attrs;
    assert RemovedNames(w.s.nodes[t], {}) == {};
    assert a - {} == a;
    assert w.s.nodes[t := w.s.nodes[t].(attrs := a)] == w.s.nodes;
  }

  /** Removing the names one at a time removes them all. */
  lemma AttrsRemovedMore(w: Doc, t: NodeId, names: set<string>, name: string)
    requires t in w.s.nodes
    ensures AttrsRemoved(AttrsRemoved(w, t, names), t, {name}) == AttrsRemoved(w, t, names + {name})
  {
    var n := w.s.nodes[t];
    var a := n.attrs;
    var n1 := AttrsRemoved(w, t, names).s.nodes[t];
    assert RemovedNames(n1, {name}) == {RemovedName(n, name)};
    assert RemovedNames(n, names + {name}) == RemovedNames(n, names) + {RemovedName(n, name)};
    assert a - RemovedNames(n, names) - {RemovedName(n, name)} == a - RemovedNames(n, names + {name});
  }

  /** The cleanup set of `t` with `cbs` added in order. */
  ghost function CleanupsAdded(w: Doc, t: NodeId, cbs: seq<Callback>): Doc
    requires t in w.s.cleanups
  {
    Doc(w.s.(cleanups := w.s.cleanups[t := SetAddAll(w.s.cleanups[t], cbs)]), w.log)
  }

  lemma CleanupsAddedStep(w: Doc, t: NodeId, cbs: seq<Callback>, i: nat)
    requires t in w.s.cleanups && i < |cbs|
    ensures CleanupsAdded(CleanupAdded(w, t, cbs[i]), t, cbs[i + 1..]) == CleanupsAdded(w, t, cbs[i..])
  {
    assert cbs[i..][0] == cbs[i] && cbs[i..][1..] == cbs[i + 1..];
  }

  lemma CleanupsAddedNone(w: Doc, t: NodeId)
    requires t in w.s.cleanups
    ensures CleanupsAdded(w, t, []) == w
  {
    assert w.s.cleanups[t := w.s.cleanups[t]] == w.s.cleanups;
  }

  /** The context of one pass over `target`. */
  class RenderContext {
    const dom: Dom
    const target: NodeId
    /** Whether the target was rendered before (it has a removed set). */
    const isUpdated: bool
    /** The target's attribute names when the context was made. */
    ghost const names: set<string>
    var order: nat
    var created: seq<CreatedEntry>
    var updated: seq<Updater>
    var linked: seq<Hook>
    var willDelete: set<string>
    /** Numbers the wrappers `pushElementRemovedCallback` makes: each call
        makes a new closure. */
    var serial: nat
    /** What the calls made so far have gathered, and the attribute names
        they pushed. */
    ghost var pass: PassState
    ghost var pushed: set<string>

    /** The fields hold what the calls so far have gathered. */
    ghost predicate Mirrors(f: PassState)
      reads this
    {
      order == |f.placed| && created == f.created && updated == f.updated && linked == f.linked && serial == f.serial
    }

    /** The document is well formed and the target has a cleanup set. */
    ghost predicate DomReady()
      reads dom
    {
      dom.Valid() && target in dom.nodes && target in dom.cleanups
    }

    /** The fields hold what the calls so far gathered. */
    ghost predicate Gathered()
      reads this
    {
      Mirrors(pass) && willDelete == names - pushed
    }

    /** One call `p` moved the pass on. */
    ghost predicate Advanced(pass0: PassState, pushed0: set<string>, p: Push)
      reads this
    {
      pass == PassStep(pass0, p) && pushed == pushed0 + (if p.PushAttr? then {p.attr.name} else {})
    }

    ghost predicate Valid()
      reads this, dom
    {
      DomReady() && Gathered()
    }

    /** `new RenderContext(target)`: the target's state is read, then its
        cleanup set runs. */
    constructor (dom: Dom, target: NodeId)
      requires dom.Valid() && target in dom.nodes
      modifies dom
      ensures this.dom == dom && this.target == target
      ensures isUpdated == (target in old(dom.removeds))
      ensures names == old(dom.nodes)[target].attrs.Keys
      ensures dom.Snapshot() == CleanedUp(CleanupEnsured(old(dom.Snapshot()), target), target)
      ensures Valid() && pass == Start && pushed == {}
    {
      this.dom := dom;
      this.target := target;
      isUpdated := target in dom.removeds;
      names := dom.GetAttributeNames(target);
      willDelete := dom.GetAttributeNames(target);
      order := 0;
      created := [];
      updated := [];
      linked := [];
      serial := 0;
      pass := Start;
      pushed := {};
      new;
      dom.EnsureCleanupSet(target);
      dom.Cleanup(target);
    }

    /** `findNode(target.childNodes, key, kind, order)`, with the key it
        gives an untagged node. */
    method FindChild(key: KeyValue, kind: Kind) returns (r: Option<NodeId>)
      requires dom.Valid() && target in dom.nodes
      modifies dom
      ensures var found := Search(old(dom.Snapshot()), target, key, kind, order);
        r == found.node && dom.Snapshot() == Doc(old(dom.State()).(keys := found.keys), old(dom.log))
      ensures dom.Valid()
      ensures r.Some? ==> r.value in dom.nodes[target].children && dom.nodes[r.value].kind == kind
    {
      var children := dom.nodes[target].children;
      ChildrenInside(dom.State(), target);
      Find.FindResult(children, dom.nodes, dom.keys, key, kind, order);
      var keys;
      r, keys := Find.FindNode(children, dom.nodes, dom.keys, key, kind, order);
      dom.SetKeys(keys);
    }

    /** `target.insertBefore(n, target.childNodes[order])`. */
    method InsertAt(n: NodeId)
      requires dom.Valid() && target in dom.nodes && n in dom.nodes && target < n
      requires n in dom.nodes[target].children || n !in dom.parent
      requires ChildAt(dom.Snapshot(), target, order) != Some(n)
      modifies dom
      ensures dom.Snapshot() == InsertedAt(old(dom.Snapshot()), target, order, n)
      ensures dom.Valid()
    {
      var children := dom.nodes[target].children;
      var ref := if order < |children| then Some(children[order]) else None;
      dom.InsertBefore(target, n, ref);
    }

    /** The same, skipped when `n` is already at `order`. */
    method PlaceAt(n: NodeId)
      requires dom.Valid() && target in dom.nodes && n in dom.nodes[target].children
      modifies dom
      ensures dom.Snapshot() == Placed(old(dom.Snapshot()), target, order, n)
      ensures dom.Valid()
    {
      var children := dom.nodes[target].children;
      if !(order < |children| && children[order] == n) {
        ChildrenInside(dom.State(), target);
        InsertAt(n);
      }
    }

    /** `updateText` and `updateComment`. */
    method UpdateLeaf(n: NodeId, data: string)
      requires dom.Valid() && target in dom.nodes && n in dom.nodes[target].children
      modifies dom
      ensures dom.Snapshot() == LeafUpdated(old(dom.Snapshot()), target, order, n, data)
      ensures dom.Valid()
    {
      ChildrenInside(dom.State(), target);
      if dom.nodes[n].data != data {
        dom.SetData(n, data);
      }
      PlaceAt(n);
    }

    /** `createTextNode` or `createComment`. */
    method MakeLeaf(kind: Kind, data: string) returns (n: NodeId)
      requires dom.Valid() && (kind == TextNode || kind == CommentNode)
      modifies dom
      ensures n == old(dom.next)
      ensures dom.Snapshot() == Created(old(dom.Snapshot()), NewLeaf(kind, data))
      ensures dom.Valid()
    {
      if kind == TextNode {
        n := dom.CreateTextNode(data);
      } else {
        n := dom.CreateComment(data);
      }
    }

    /** `createText` and `createComment`. */
    method CreateLeaf(kind: Kind, key: KeyValue, data: string)
      requires dom.Valid() && target in dom.nodes && (kind == TextNode || kind == CommentNode)
      modifies dom
      ensures dom.Snapshot() == LeafCreated(old(dom.Snapshot()), target, order, kind, key, data)
      ensures dom.Valid()
    {
      FreshDetached(dom.State(), dom.next);
      var n := MakeLeaf(kind, data);
      DetachedNotChild(dom.State(), target, n);
      InsertAt(n);
      dom.SetKey(n, key);
    }

    /** `pushText` and `pushComment` for a non-empty text. */
    method PushLeaf(kind: Kind, key: KeyValue, data: string)
      requires dom.Valid() && target in dom.nodes && (kind == TextNode || kind == CommentNode)
      modifies dom
      ensures dom.Snapshot() == LeafPushed(old(dom.Snapshot()), target, order, kind, key, data)
      ensures dom.Valid()
    {
      var r := FindChild(key, kind);
      if r.Some? {
        UpdateLeaf(r.value, data);
      } else {
        CreateLeaf(kind, key, data);
      }
    }

    /** `pushElementAttr`: `getAttributeNS` and, when the value differs,
        `setAttributeNS`. */
    method SetAttr(a: AttrDescriptor)
      requires dom.Valid() && target in dom.nodes
      modifies dom
      ensures dom.Snapshot() == AttrPushed(old(dom.Snapshot()), target, a)
      ensures dom.Valid()
    {
      var value := dom.GetAttributeNS(target, a.namespaceURI, a.name);
      if a.value.AttrFalse? || value != Some(a.value.s) {
        dom.SetAttributeNS(target, a.namespaceURI, a.name, AttrText(a.value));
      }
    }

    /** `createElement` or `createElementNS`: the latter for a non-empty
        namespace. */
    method MakeElement(d: ElementDescriptor) returns (n: NodeId)
      requires dom.Valid()
      modifies dom
      ensures n == old(dom.next)
      ensures dom.Snapshot() == Created(old(dom.Snapshot()), NewElement(d))
      ensures dom.Valid()
    {
      if d.namespaceURI.Some? && d.namespaceURI.value != "" {
        n := dom.CreateElementNS(d.namespaceURI.value, d.tagName);
      } else {
        n := dom.CreateElement(d.tagName);
      }
    }

    /** `updateElement`: the element's cleanup set runs, its content is
        rendered, and it moves to `order`. */
    method UpdateElement(registry: ContextRegistry<RenderContext>, d: ElementDescriptor, n: NodeId)
      requires dom.Valid() && target in dom.nodes && n in dom.nodes[target].children
      modifies dom, registry
      ensures dom.Snapshot() == ElementUpdated(old(dom.Snapshot()), target, order, d, n)
      ensures dom.Valid() && registry.stack == old(registry.stack)
      decreases d, 2
    {
      ChildrenInside(dom.State(), target);
      dom.Cleanup(n);
      ghost var w1 := dom.Snapshot();
      RenderContent(dom, registry, n, d.content);
      NestedReady(w1, target, n, d.content);
      PlaceAt(n);
    }

    /** `createElement`: the new element is rendered, inserted at `order`
        and keyed. */
    method CreateElement(registry: ContextRegistry<RenderContext>, d: ElementDescriptor, key: KeyValue)
      requires dom.Valid() && target in dom.nodes
      modifies dom, registry
      ensures dom.Snapshot() == ElementCreated(old(dom.Snapshot()), target, order, d, key)
      ensures dom.Valid() && registry.stack == old(registry.stack)
      decreases d, 2
    {
      FreshDetached(dom.State(), dom.next);
      var n := MakeElement(d);
      ghost var w1 := dom.Snapshot();
      RenderContent(dom, registry, n, d.content);
      NestedReady(w1, target, n, d.content);
      DetachedNotChild(dom.State(), target, n);
      InsertAt(n);
      dom.SetKey(n, key);
    }

    /** `replaceElement`: the old element's subtree is removed, and the
        new element is made, rendered and put in its place. */
    method ReplaceElement(registry: ContextRegistry<RenderContext>, prev: NodeId, d: ElementDescriptor, key: KeyValue)
      requires dom.Valid() && target in dom.nodes && prev in dom.nodes[target].children
      modifies dom, registry
      ensures dom.Snapshot() == ElementReplaced(old(dom.Snapshot()), target, order, prev, d, key)
      ensures dom.Valid() && registry.stack == old(registry.stack)
      decreases d, 2
    {
      ghost var w0 := dom.Snapshot();
      ChildrenInside(w0.s, target);
      dom.RemoveNode(prev);
      assert dom.Snapshot() == NodeRemoved(w0, prev);
      FreshDetached(dom.State(), dom.next);
      var n := MakeElement(d);
      ghost var w1 := dom.Snapshot();
      assert w1.s.nodes[target] == w0.s.nodes[target] && n !in w1.s.parent;
      RenderContent(dom, registry, n, d.content);
      NestedReady(w1, target, n, d.content);
      SwapIn(prev, n, key);
    }

    /** The end of `replaceElement`: `replaceChild` when the old element is
        at `order`; otherwise `removeChild` and an insertion at `order`. */
    method SwapIn(prev: NodeId, n: NodeId, key: KeyValue)
      requires dom.Valid() && target in dom.nodes && prev in dom.nodes[target].children
      requires n in dom.nodes && n !in dom.parent && target < n
      modifies dom
      ensures dom.Snapshot() ==
        var w := old(dom.Snapshot());
        Keyed(if ChildAt(w, target, order) == Some(prev) then Replaced(w, target, n, prev)
              else InsertedAt(Removed(w, target, prev), target, order, n), n, key)
      ensures dom.Valid()
    {
      var children := dom.nodes[target].children;
      if order < |children| && children[order] == prev {
        ReplaceAt(prev, n);
      } else {
        Reinsert(prev, n);
      }
      dom.SetKey(n, key);
    }

    /** `replaceChild(n, prev)`. */
    method ReplaceAt(prev: NodeId, n: NodeId)
      requires dom.Valid() && target in dom.nodes && prev in dom.nodes[target].children
      requires n in dom.nodes && n !in dom.parent && target < n
      modifies dom
      ensures dom.Snapshot() == Replaced(old(dom.Snapshot()), target, n, prev)
      ensures dom.Valid() && n in dom.nodes
    {
      dom.ReplaceChild(target, n, prev);
    }

    /** `removeChild(prev)`, then `n` inserted at `order`. */
    method Reinsert(prev: NodeId, n: NodeId)
      requires dom.Valid() && target in dom.nodes && prev in dom.nodes[target].children
      requires n in dom.nodes && n !in dom.parent && target < n
      modifies dom
      ensures dom.Snapshot() == InsertedAt(Removed(old(dom.Snapshot()), target, prev), target, order, n)
      ensures dom.Valid() && n in dom.nodes
    {
      dom.RemoveChild(target, prev);
      DetachedNotChild(dom.State(), target, n);
      InsertAt(n);
    }

    /** `pushText`: an empty text is skipped and takes no position. */
    method PushText(d: TextDescriptor)
      requires Valid()
      modifies this, dom
      ensures Valid() && Advanced(old(pass), old(pushed), Push.PushText(d))
      ensures dom.Snapshot() == Stepped(old(dom.Snapshot()), target, old(pass), Push.PushText(d))
    {
      ghost var w := dom.Snapshot();
      if d.content != "" {
        PushLeaf(TextNode, KeyOf(d.key, order), d.content);
        LeafReady(w, target, order, TextNode, KeyOf(d.key, order), d.content);
        order := order + 1;
      }
      pass := PassStep(pass, Push.PushText(d));
      assert dom.Snapshot() == Stepped(w, target, old(pass), Push.PushText(d)) by {
        PlacingStepIs(w, target, old(pass), Push.PushText(d));
      }
    }

    /** `pushComment`, as `pushText`. */
    method PushComment(d: CommentDescriptor)
      requires Valid()
      modifies this, dom
      ensures Valid() && Advanced(old(pass), old(pushed), Push.PushComment(d))
      ensures dom.Snapshot() == Stepped(old(dom.Snapshot()), target, old(pass), Push.PushComment(d))
    {
      ghost var w := dom.Snapshot();
      if d.content != "" {
        PushLeaf(CommentNode, KeyOf(d.key, order), d.content);
        LeafReady(w, target, order, CommentNode, KeyOf(d.key, order), d.content);
        order := order + 1;
      }
      pass := PassStep(pass, Push.PushComment(d));
      assert dom.Snapshot() == Stepped(w, target, old(pass), Push.PushComment(d)) by {
        PlacingStepIs(w, target, old(pass), Push.PushComment(d));
      }
    }

    /** `pushElement`: a child element with the key (by default the
        position) is looked for; one with the same tag name is updated,
        one with another is replaced, and without one a new element is
        created. */
    method PushElement(registry: ContextRegistry<RenderContext>, d: ElementDescriptor)
      requires Valid()
      modifies this, dom, registry
      ensures Valid() && Advanced(old(pass), old(pushed), Push.PushElement(d))
      ensures dom.Snapshot() == Stepped(old(dom.Snapshot()), target, old(pass), Push.PushElement(d))
      ensures registry.stack == old(registry.stack)
      decreases d, 4
    {
      ghost var w := dom.Snapshot();
      ElementReady(w, target, order, d);
      PlacingStepIs(w, target, pass, Push.PushElement(d));
      PlaceElement(registry, d);
      order := order + 1;
      pass := PassStep(pass, Push.PushElement(d));
    }

    /** The search and the update, replacement or creation of `pushElement`. */
    method PlaceElement(registry: ContextRegistry<RenderContext>, d: ElementDescriptor)
      requires dom.Valid() && target in dom.nodes
      modifies dom, registry
      ensures dom.Snapshot() == ElementPushed(old(dom.Snapshot()), target, order, d)
      ensures dom.Valid() && registry.stack == old(registry.stack)
      decreases d, 3
    {
      var key := KeyOf(d.key, order);
      var r := FindChild(key, ElementNode);
      if r.Some? {
        var n := r.value;
        ChildrenInside(dom.State(), target);
        if ComparedTag(d) == dom.nodes[n].tagName {
          UpdateElement(registry, d, n);
        } else {
          ReplaceElement(registry, n, d, key);
        }
      } else {
        CreateElement(registry, d, key);
      }
    }

    /** `pushElementAttr`: the name is kept from deletion, and the
        attribute is set unless it already has the value. */
    method PushElementAttr(a: AttrDescriptor)
      requires Valid()
      modifies this, dom
      ensures Valid() && Advanced(old(pass), old(pushed), PushAttr(a))
      ensures dom.Snapshot() == Stepped(old(dom.Snapshot()), target, old(pass), PushAttr(a))
    {
      ghost var w := dom.Snapshot();
      willDelete := willDelete - {a.name};
      pushed := pushed + {a.name};
      SetAttr(a);
      pass := PassStep(pass, PushAttr(a));
      assert dom.Snapshot() == Stepped(w, target, old(pass), PushAttr(a)) by {
        StepIs(w, target, old(pass), PushAttr(a));
      }
      StepReady(w, target, old(pass), PushAttr(a));
    }

    /** `pushElementCleanupCallback`: the callback joins the target's
        cleanup set. */
    method PushElementCleanupCallback(c: Callback)
      requires Valid()
      modifies this, dom
      ensures Valid() && Advanced(old(pass), old(pushed), PushCleanup(c))
      ensures dom.Snapshot() == Stepped(old(dom.Snapshot()), target, old(pass), PushCleanup(c))
    {
      ghost var w := dom.Snapshot();
      dom.AddCleanup(target, c);
      pass := PassStep(pass, PushCleanup(c));
      assert dom.Snapshot() == Stepped(w, target, old(pass), PushCleanup(c)) by {
        StepIs(w, target, old(pass), PushCleanup(c));
      }
      StepReady(w, target, old(pass), PushCleanup(c));
    }

    /** `pushElementCreatedCallback`. */
    method PushElementCreatedCallback(h: Hook)
      requires Gathered()
      modifies this
      ensures Gathered() && Advanced(old(pass), old(pushed), PushCreated(h))
      ensures created == SetAdd(old(created), UserCreated(h))
    {
      created := SetAdd(created, UserCreated(h));
      pass := PassStep(pass, PushCreated(h));
    }

    /** `pushElementLinkingCallback`: a callback already linked in this
        pass is ignored; otherwise it runs at once, and a function it
        returns joins the cleanup set. */
    method PushElementLinkingCallback(h: Hook)
      requires Valid()
      modifies this, dom
      ensures Valid() && Advanced(old(pass), old(pushed), PushLinking(h))
      ensures dom.Snapshot() == Stepped(old(dom.Snapshot()), target, old(pass), PushLinking(h))
    {
      ghost var w := dom.Snapshot();
      if h !in linked {
        linked := linked + [h];
        dom.Record([Ran(target, LinkingPhase, h.id)]);
        if h.returned.Some? {
          dom.AddCleanup(target, h.returned.value);
        }
      }
      pass := PassStep(pass, PushLinking(h));
      assert dom.Snapshot() == Stepped(w, target, old(pass), PushLinking(h)) by {
        StepIs(w, target, old(pass), PushLinking(h));
      }
      StepReady(w, target, old(pass), PushLinking(h));
    }

    /** `pushElementRemovedCallback`: a new wrapper returning the callback
        joins the created set. */
    method PushElementRemovedCallback(c: Callback)
      requires Gathered()
      modifies this
      ensures Gathered() && Advanced(old(pass), old(pushed), PushRemoved(c))
      ensures created == SetAdd(old(created), RemovedWrapper(c, old(serial)))
    {
      created := SetAdd(created, RemovedWrapper(c, serial));
      serial := serial + 1;
      pass := PassStep(pass, PushRemoved(c));
    }

    /** `pushElementUpdatedCallback`. */
    method PushElementUpdatedCallback(u: Updater)
      requires Gathered()
      modifies this
      ensures Gathered() && Advanced(old(pass), old(pushed), PushUpdated(u))
      ensures updated == SetAdd(old(updated), u)
    {
      updated := SetAdd(updated, u);
      pass := PassStep(pass, PushUpdated(u));
    }

    /** One call of the content function on this context. */
    method Step(registry: ContextRegistry<RenderContext>, p: Push)
      requires Valid()
      modifies this, dom, registry
      ensures Valid() && Advanced(old(pass), old(pushed), p)
      ensures dom.Snapshot() == Stepped(old(dom.Snapshot()), target, old(pass), p)
      ensures registry.stack == old(registry.stack)
      decreases p, 0
    {
      match p
      case PushText(d) => PushText(d);
      case PushComment(d) => PushComment(d);
      case PushElement(d) => PushElement(registry, d);
      case PushAttr(a) => PushElementAttr(a);
      case PushCleanup(c) => PushElementCleanupCallback(c);
      case PushCreated(h) =>
        PushElementCreatedCallback(h);
        StepIs(dom.Snapshot(), target, old(pass), p);
      case PushLinking(h) => PushElementLinkingCallback(h);
      case PushRemoved(c) =>
        PushElementRemovedCallback(c);
        StepIs(dom.Snapshot(), target, old(pass), p);
      case PushUpdated(u) =>
        PushElementUpdatedCallback(u);
        StepIs(dom.Snapshot(), target, old(pass), p);
    }

    /** `updateAttributes`: `removeAttribute` for each name not pushed again. */
    method UpdateAttributes()
      requires dom.Valid() && target in dom.nodes
      modifies dom
      ensures dom.Snapshot() == AttrsRemoved(old(dom.Snapshot()), target, willDelete)
      ensures dom.Valid()
    {
      ghost var w := dom.Snapshot();
      AttrsRemovedNone(w, target);
      var rest := willDelete;
      assert willDelete - rest == {};
      while rest != {}
        invariant rest <= willDelete
        invariant dom.Valid() && target in dom.nodes
        invariant dom.Snapshot() == AttrsRemoved(w, target, willDelete - rest)
        decreases rest
      {
        var name :| name in rest;
        ghost var v := dom.Snapshot();
        dom.RemoveAttribute(target, name);
        assert RemovedNames(v.s.nodes[target], {name}) == {RemovedName(v.s.nodes[target], name)};
        assert dom.Snapshot() == AttrsRemoved(v, target, {name});
        AttrsRemovedMore(w, target, willDelete - rest, name);
        assert willDelete - rest + {name} == willDelete - (rest - {name});
        rest := rest - {name};
      }
      assert willDelete - rest == willDelete;
    }

    /** `updateChildNodes`: the children from `order` on are removed one
        by one, each with `removeChildNode`. */
    method UpdateChildNodes()
      requires dom.Valid() && target in dom.nodes
      modifies dom
      ensures dom.Snapshot() == RestRemoved(old(dom.Snapshot()), target, order)
      ensures dom.Valid()
    {
      while order < |dom.nodes[target].children|
        invariant dom.Valid() && target in dom.nodes
        invariant RestRemoved(dom.Snapshot(), target, order) == RestRemoved(old(dom.Snapshot()), target, order)
        decreases |dom.nodes[target].children|
      {
        ghost var v := dom.Snapshot();
        var x := dom.nodes[target].children[order];
        dom.RemoveChildNode(target, x);
        assert dom.Snapshot() == Removed(NodeRemoved(v, x), target, x);
      }
    }

    /** `updateCallbacks`: on a later pass the updated callbacks run and
        what they return joins the cleanup set; on the first, the created
        callbacks run and what they return becomes the removed set. */
    method UpdateCallbacks()
      requires dom.Valid() && target in dom.nodes && target in dom.cleanups
      requires Mirrors(pass)
      modifies dom
      ensures dom.Snapshot() == CallbacksRun(old(dom.Snapshot()), target, isUpdated, pass)
      ensures dom.Valid()
    {
      if isUpdated {
        var cbs, events := RunUpdatedCallbacks(target, updated);
        assert events == UpdatedEvents(target, updated);
        dom.Record(events);
        AddCleanups(cbs);
        assert dom.Snapshot() == CallbacksRun(old(dom.Snapshot()), target, isUpdated, pass);
      } else {
        var removed, events := RunCreatedCallbacks(target, created);
        dom.Record(events);
        dom.SetRemoveds(target, removed);
      }
    }

    /** Each callback, in order, joins the target's cleanup set. */
    method AddCleanups(cbs: seq<Callback>)
      requires dom.Valid() && target in dom.cleanups
      modifies dom
      ensures dom.Snapshot() == CleanupsAdded(old(dom.Snapshot()), target, cbs)
      ensures dom.Valid()
    {
      for i := 0 to |cbs|
        invariant dom.Valid() && target in dom.cleanups
        invariant CleanupsAdded(dom.Snapshot(), target, cbs[i..]) == CleanupsAdded(old(dom.Snapshot()), target, cbs)
      {
        ghost var v := dom.Snapshot();
        dom.AddCleanup(target, cbs[i]);
        CleanupsAddedStep(v, target, cbs, i);
      }
      CleanupsAddedNone(dom.Snapshot(), target);
    }

    /** `content(target)`: the content function's calls, one after the
        other, while this context is the registry's top. */
    method RunCalls(registry: ContextRegistry<RenderContext>, ps: seq<Push>)
      requires Valid() && pass == Start && pushed == {} && registry.Peek() == Some(this)
      modifies this, dom, registry
      ensures Valid() && pass == PassFold(ps) && pushed == PushedNames(ps)
      ensures dom.Snapshot() == Run(old(dom.Snapshot()), target, ps)
      ensures registry.stack == old(registry.stack)
      decreases ps, 0, 1
    {
      for i := 0 to |ps|
        invariant Valid() && pass == PassFold(ps[..i]) && pushed == PushedNames(ps[..i])
        invariant dom.Snapshot() == Run(old(dom.Snapshot()), target, ps[..i])
        invariant registry.stack == old(registry.stack)
      {
        StepAt(registry, old(dom.Snapshot()), ps, i);
      }
      assert ps[..|ps|] == ps;
    }

    /** Call `i` of the content function, after the calls before it. */
    method StepAt(registry: ContextRegistry<RenderContext>, ghost w: Doc, ps: seq<Push>, i: nat)
      requires i < |ps|
      requires Valid() && pass == PassFold(ps[..i]) && pushed == PushedNames(ps[..i])
      requires dom.Snapshot() == Run(w, target, ps[..i])
      modifies this, dom, registry
      ensures Valid() && pass == PassFold(ps[..i + 1]) && pushed == PushedNames(ps[..i + 1])
      ensures dom.Snapshot() == Run(w, target, ps[..i + 1])
      ensures registry.stack == old(registry.stack)
      decreases ps, 0, 0
    {
      assert ps[..i + 1] == ps[..i] + [ps[i]];
      FoldStep(w, target, ps[..i], ps[i]);
      Step(registry, ps[i]);
    }

    /** `render(content)`: the content function makes the calls `ps` and
        returns `unref`, which the wrapper made by `renderContent` adds to
        the cleanup set; then attributes, children and callbacks are brought
        up to date. */
    method Render(registry: ContextRegistry<RenderContext>, ps: seq<Push>, unref: Option<Callback>)
      requires Valid() && pass == Start && pushed == {} && registry.Peek() == Some(this)
      modifies this, dom, registry
      ensures dom.Snapshot() ==
        var w3 := Run(old(dom.Snapshot()), target, ps);
        var w4 := if unref.Some? then CleanupAdded(w3, target, unref.value) else w3;
        var f := PassFold(ps);
        CallbacksRun(RestRemoved(AttrsRemoved(w4, target, names - PushedNames(ps)), target, |f.placed|), target, isUpdated, f)
      ensures dom.Valid() && registry.stack == old(registry.stack)
      decreases ps, 1
    {
      RunCalls(registry, ps);
      Finish(unref);
    }

    /** What follows the content function: its returned `unref` joins the
        cleanup set, then `updateAttributes`, `updateChildNodes` and
        `updateCallbacks`. */
    method Finish(unref: Option<Callback>)
      requires Valid()
      modifies dom
      ensures dom.Snapshot() ==
        var w := old(dom.Snapshot());
        var w4 := if unref.Some? then CleanupAdded(w, target, unref.value) else w;
        CallbacksRun(RestRemoved(AttrsRemoved(w4, target, willDelete), target, order), target, isUpdated, pass)
      ensures dom.Valid()
    {
      if unref.Some? {
        dom.AddCleanup(target, unref.value);
      }
      UpdateAttributes();
      ghost var w5 := dom.Snapshot();
      UpdateChildNodes();
      RestRemovedKeeps(w5, target, order);
      UpdateCallbacks();
    }
  }

  /** `renderContent`: a content function is rendered as a nested pass on
      the element, a string becomes its markup, and anything else leaves it
      alone. */
  method RenderContent(dom: Dom, registry: ContextRegistry<RenderContext>, n: NodeId, content: Option<Content>)
    requires dom.Valid() && n in dom.nodes
    modifies dom, registry
    ensures dom.Snapshot() == ContentRendered(old(dom.Snapshot()), n, content)
    ensures dom.Valid() && registry.stack == old(registry.stack)
    decreases content, 1
  {
    match content
    case None =>
    case Some(Markup(html)) => dom.SetInnerHTML(n, html);
    case Some(Body(ps, unref)) => RenderNode(dom, registry, n, ps, unref);
  }
  /** `render(target, content)` on an element: the target's cleanup set
      runs, then a new context is pushed on the registry, renders, and is
      popped again. */
  method RenderNode(dom: Dom, registry: ContextRegistry<RenderContext>, t: NodeId, ps: seq<Push>, unref: Option<Callback>)
    requires dom.Valid() && t in dom.nodes
    modifies dom, registry
    ensures dom.Snapshot() == Rendered(old(dom.Snapshot()), t, ps, unref)
    ensures dom.Valid() && registry.stack == old(registry.stack)
    decreases ps, 2
  {
    dom.EnsureCleanupSet(t);
    dom.Cleanup(t);
    var ctx := new RenderContext(dom, t);
    var top := registry.Push(ctx);
    ctx.Render(registry, ps, unref);
    ghost var st := dom.State();
    assert Wf(st);
    registry.Pop();
    assert dom.State() == st;
    PushThenPopRestores(old(registry.stack), ctx);
  }

  /** The exported `render`: nothing happens without a target. */
  method Render(dom: Dom, registry: ContextRegistry<RenderContext>, target: Option<NodeId>, ps: seq<Push>)
    requires dom.Valid() && (target.Some? ==> target.value in dom.nodes)
    modifies dom, registry
    ensures dom.Snapshot() == RenderedAt(old(dom.Snapshot()), target, ps)
    ensures dom.Valid() && registry.stack == old(registry.stack)
  {
    if target.Some? {
      RenderNode(dom, registry, target.value, ps, None);
    }
  }
}
