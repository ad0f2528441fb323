/** The lifecycle-callback runners of src/render.ts. A callback set is a
    JavaScript `Set`, modelled as a duplicate-free sequence in insertion
    order; running a callback is recorded as an event, and whether it throws
    or what it returns is part of the callback's data. */
module Callbacks {
  import opened Common
  import opened Descriptors
  import opened Nodes
  import ChildList

  datatype Phase = CleanupPhase | RemovedPhase | CreatedPhase | LinkingPhase | UpdatedPhase

  /** A user callback was invoked on a node. */
  datatype Event = Ran(node: NodeId, phase: Phase, id: nat)

  /** A member of a context's created-callback set: a user's created
      callback, or the wrapper `() => callback` that registering a removed
      callback puts there. Each wrapper is a fresh closure, told apart from
      the others by `serial`. */
  datatype CreatedEntry = UserCreated(hook: Hook) | RemovedWrapper(callback: Callback, serial: nat)

  /** One event per callback, in set order. */
  function CallbackEvents(target: NodeId, phase: Phase, cbs: seq<Callback>): (r: seq<Event>)
    ensures |r| == |cbs|
    ensures forall i :: 0 <= i < |cbs| ==> r[i] == Ran(target, phase, cbs[i].id)
  {
    seq(|cbs|, i requires 0 <= i < |cbs| => Ran(target, phase, cbs[i].id))
  }

  /** `runElementCleanupCallbacks`: every callback runs once, in order, and is
      deleted from the set whether or not it throws, so the set ends empty. */
  method RunCleanupCallbacks(target: NodeId, cbs: seq<Callback>) returns (rest: seq<Callback>, events: seq<Event>)
    requires NoDup(cbs)
    ensures rest == []
    ensures events == CallbackEvents(target, CleanupPhase, cbs)
  {
    var snapshot := cbs;
    rest := cbs;
    events := [];
    for i := 0 to |snapshot|
      invariant rest == snapshot[i..]
      invariant events == CallbackEvents(target, CleanupPhase, snapshot[..i])
    {
      var callback := snapshot[i];
      // A throwing callback is caught and logged; the loop goes on.
      events := events + [Ran(target, CleanupPhase, callback.id)];
      assert rest[0] == callback && callback !in rest[1..];
      rest := ChildList.Without(rest, callback);
      assert snapshot[..i + 1] == snapshot[..i] + [callback];
    }
  }

  /** `runElementRemovedCallbacks`: every callback runs once, in order; a
      throwing one does not stop the others. */
  method RunRemovedCallbacks(target: NodeId, cbs: seq<Callback>) returns (events: seq<Event>)
    ensures events == CallbackEvents(target, RemovedPhase, cbs)
  {
    events := [];
    for i := 0 to |cbs|
      invariant events == CallbackEvents(target, RemovedPhase, cbs[..i])
    {
      events := events + [Ran(target, RemovedPhase, cbs[i].id)];
      assert cbs[..i + 1] == cbs[..i] + [cbs[i]];
    }
  }

  /** The removed-callback set that running a created-callback set yields:
      each result that is a function joins it, a wrapper yielding the removed
      callback it wraps. */
  function CreatedRemovedSet(entries: seq<CreatedEntry>): (r: seq<Callback>)
    ensures NoDup(r)
    decreases |entries|
  {
    if entries == [] then []
    else
      var rest := CreatedRemovedSet(entries[..|entries| - 1]);
      match entries[|entries| - 1]
      case UserCreated(h) => if h.returned.Some? then SetAdd(rest, h.returned.value) else rest
      case RemovedWrapper(c, _) => SetAdd(rest, c)
  }

  /** What a created-callback set member's call returns, if a function. */
  function CreatedResult(e: CreatedEntry): Option<Callback> {
    match e
    case UserCreated(h) => h.returned
    case RemovedWrapper(c, _) => Some(c)
  }

  /** Only the user's created callbacks are user code; the wrappers run no
      user code. */
  function CreatedEvents(target: NodeId, entries: seq<CreatedEntry>): (r: seq<Event>)
    ensures |r| <= |entries|
    decreases |entries|
  {
    if entries == [] then []
    else
      var rest := CreatedEvents(target, entries[..|entries| - 1]);
      match entries[|entries| - 1]
      case UserCreated(h) => rest + [Ran(target, CreatedPhase, h.id)]
      case RemovedWrapper(_, _) => rest
  }

  /** `runElementCreatedCallbacks`: runs the set in order and collects the
      functions the calls return into a new set. */
  method RunCreatedCallbacks(target: NodeId, entries: seq<CreatedEntry>) returns (removed: seq<Callback>, events: seq<Event>)
    ensures removed == CreatedRemovedSet(entries)
    ensures events == CreatedEvents(target, entries)
  {
    removed := [];
    events := [];
    for i := 0 to |entries|
      invariant removed == CreatedRemovedSet(entries[..i])
      invariant events == CreatedEvents(target, entries[..i])
    {
      assert entries[..i + 1][..i] == entries[..i];
      match entries[i] {
        case UserCreated(h) =>
          events := events + [Ran(target, CreatedPhase, h.id)];
          if h.returned.Some? {
            removed := SetAdd(removed, h.returned.value);
          }
        case RemovedWrapper(c, _) =>
          removed := SetAdd(removed, c);
      }
    }
    assert entries[..|entries|] == entries;
  }

  /** A callback is in the resulting removed set exactly when some member of
      the created set returned it. */
  lemma {:induction false} CreatedRemovedSetMembers(entries: seq<CreatedEntry>, c: Callback)
    ensures c in CreatedRemovedSet(entries) <==> exists i :: 0 <= i < |entries| && CreatedResult(entries[i]) == Some(c)
    decreases |entries|
  {
    if entries != [] {
      var init := entries[..|entries| - 1];
      CreatedRemovedSetMembers(init, c);
      if c in CreatedRemovedSet(entries) {
        if c in CreatedRemovedSet(init) {
          var i :| 0 <= i < |init| && CreatedResult(init[i]) == Some(c);
          assert entries[i] == init[i];
        } else {
          assert CreatedResult(entries[|entries| - 1]) == Some(c);
        }
      } else {
        forall i | 0 <= i < |entries| ensures CreatedResult(entries[i]) != Some(c) {
          if i < |init| {
            assert entries[i] == init[i];
          }
        }
      }
    }
  }

  /** The cleanup set that running an updated-callback set yields: the
      function results of the calls that did not throw. */
  function UpdatedCleanupSet(ups: seq<Updater>): (r: seq<Callback>)
    ensures NoDup(r)
    decreases |ups|
  {
    if ups == [] then []
    else
      var rest := UpdatedCleanupSet(ups[..|ups| - 1]);
      var u := ups[|ups| - 1];
      if !u.throws && u.returned.Some? then SetAdd(rest, u.returned.value) else rest
  }

  /** `runElementUpdatedCallbacks`: every callback runs (a throwing one is
      caught), and the functions returned by those that did not throw are
      collected. */
  method RunUpdatedCallbacks(target: NodeId, ups: seq<Updater>) returns (cleanups: seq<Callback>, events: seq<Event>)
    ensures cleanups == UpdatedCleanupSet(ups)
    ensures |events| == |ups| && forall i :: 0 <= i < |ups| ==> events[i] == Ran(target, UpdatedPhase, ups[i].id)
  {
    cleanups := [];
    events := [];
    for i := 0 to |ups|
      invariant cleanups == UpdatedCleanupSet(ups[..i])
      invariant |events| == i && forall j :: 0 <= j < i ==> events[j] == Ran(target, UpdatedPhase, ups[j].id)
    {
      assert ups[..i + 1][..i] == ups[..i];
      var u := ups[i];
      events := events + [Ran(target, UpdatedPhase, u.id)];
      if !u.throws && u.returned.Some? {
        cleanups := SetAdd(cleanups, u.returned.value);
      }
    }
    assert ups[..|ups|] == ups;
  }

  /** A callback joins the cleanup set exactly when some updated callback
      returned it without throwing. */
  lemma {:induction false} UpdatedCleanupSetMembers(ups: seq<Updater>, c: Callback)
    ensures c in UpdatedCleanupSet(ups) <==> exists i :: 0 <= i < |ups| && !ups[i].throws && ups[i].returned == Some(c)
    decreases |ups|
  {
    if ups != [] {
      var init := ups[..|ups| - 1];
      UpdatedCleanupSetMembers(init, c);
      if c in UpdatedCleanupSet(ups) {
        if c in UpdatedCleanupSet(init) {
          var i :| 0 <= i < |init| && !init[i].throws && init[i].returned == Some(c);
          assert ups[i] == init[i];
        }
      } else {
        forall i | 0 <= i < |ups| ensures !(!ups[i].throws && ups[i].returned == Some(c)) {
          if i < |init| {
            assert ups[i] == init[i];
          }
        }
      }
    }
  }
}
