/** The context stack of src/context.ts. Builders only ever look at the top
    of it; each render or write pass pushes one context and pops it again. */
module Registry {
  import opened Common

  /** The LIFO discipline on the stack's contents, as values. */
  function StackPush<C>(s: seq<C>, c: C): seq<C> {
    s + [c]
  }

  /** Popping an empty stack does nothing. */
  function StackPop<C>(s: seq<C>): (r: seq<C>)
    ensures s == [] ==> r == []
    ensures s != [] ==> |r| == |s| - 1 && s == r + [s[|s| - 1]]
  {
    if |s| > 0 then s[..|s| - 1] else s
  }

  /** The top of the stack, or `null` when it is empty. */
  function StackPeek<C>(s: seq<C>): (r: Option<C>)
    ensures r == None <==> s == []
    ensures s != [] ==> r == Some(s[|s| - 1])
  {
    if |s| > 0 then Some(s[|s| - 1]) else None
  }

  lemma PushThenPeek<C>(s: seq<C>, c: C)
    ensures StackPeek(StackPush(s, c)) == Some(c)
  {
  }

  /** Push followed by pop restores the stack, so `peek` answers as before. */
  lemma {:induction false} PushThenPopRestores<C>(s: seq<C>, c: C)
    ensures StackPop(StackPush(s, c)) == s
    ensures StackPeek(StackPop(StackPush(s, c))) == StackPeek(s)
  {
    assert (s + [c])[..|s|] == s;
  }

  /** Any balanced sequence of passes leaves the stack as it was: a pass
      nested inside another restores the outer pass's top. */
  lemma NestedPassesRestore<C>(s: seq<C>, outer: C, inner: C)
    ensures StackPeek(StackPop(StackPush(StackPush(s, outer), inner))) == Some(outer)
    ensures StackPop(StackPop(StackPush(StackPush(s, outer), inner))) == s
  {
    PushThenPopRestores(StackPush(s, outer), inner);
    PushThenPopRestores(s, outer);
  }

  class ContextRegistry<C> {
    var stack: seq<C>

    constructor ()
      ensures stack == []
    {
      stack := [];
    }

    /** `push` returns its argument, which becomes the top. */
    method Push(c: C) returns (r: C)
      modifies this
      ensures r == c
      ensures stack == StackPush(old(stack), c)
    {
      stack := stack + [c];
      r := c;
    }

    method Pop()
      modifies this
      ensures stack == StackPop(old(stack))
    {
      if |stack| > 0 {
        stack := stack[..|stack| - 1];
      }
    }

    function Peek(): (r: Option<C>)
      reads this
      ensures r == StackPeek(stack)
    {
      if |stack| > 0 then Some(stack[|stack| - 1]) else None
    }
  }

  /** `peekContext` reads the module-level `contexts` array. */
  function PeekContext<C>(contexts: seq<C>): (r: Option<C>)
    ensures r == StackPeek(contexts)
  {
    if |contexts| < 1 then None else Some(contexts[|contexts| - 1])
  }

  /** `peekContext` answers `null` for the only value the module-level
      `contexts` array ever holds: nothing pushes to it, so it stays empty. */
  lemma PeekContextIsAlwaysNull<C>()
    ensures PeekContext<C>([]) == None
  {
  }

  /** A client of the registry: one pass pushes, reads its own context at the
      top, and pops, leaving the stack as it found it. */
  method PassRestoresStack<C>(registry: ContextRegistry<C>, c: C)
    modifies registry
    ensures registry.stack == old(registry.stack)
    ensures registry.Peek() == old(registry.Peek())
  {
    var pushed := registry.Push(c);
    assert registry.Peek() == Some(pushed);
    registry.Pop();
    PushThenPopRestores(old(registry.stack), c);
  }
}
