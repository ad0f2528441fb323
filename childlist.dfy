/** The three DOM child-list edits the reconciler uses (`insertBefore`,
    `replaceChild`, `removeChild`), as functions on a parent's list of
    children, and where they leave the node being placed. */
module ChildList {
  import opened Common

  /** The list with `x` taken out. */
  function Without<T(==,!new)>(s: seq<T>, x: T): (r: seq<T>)
    ensures x !in r && |r| <= |s|
    ensures forall y :: y in r ==> y in s && y != x
    ensures forall y :: y in s && y != x ==> y in r
    ensures x !in s ==> r == s
    ensures NoDup(s) ==> NoDup(r)
    decreases |s|
  {
    if s == [] then []
    else if s[0] == x then Without(s[1..], x)
    else
      var rest := Without(s[1..], x);
      NoDupCons(s[0], rest);
      [s[0]] + rest
  }

  lemma NoDupCons<T>(a: T, s: seq<T>)
    ensures NoDup(s) && a !in s ==> NoDup([a] + s)
  {
    if NoDup(s) && a !in s {
      var r := [a] + s;
      forall i, j | 0 <= i < j < |r| ensures r[i] != r[j] {
        assert r[j] == s[j - 1];
        if i > 0 {
          assert r[i] == s[i - 1];
        }
      }
    }
  }

  lemma NoDupSnoc<T>(s: seq<T>, a: T)
    ensures NoDup(s) && a !in s ==> NoDup(s + [a])
  {
    if NoDup(s) && a !in s {
      var r := s + [a];
      forall i, j | 0 <= i < j < |r| ensures r[i] != r[j] {
        assert r[i] == s[i];
        if j < |s| {
          assert r[j] == s[j];
        }
      }
    }
  }

  /** Taking out the element at position `i` of a duplicate-free list. */
  lemma {:induction false} WithoutAt<T(!new)>(s: seq<T>, i: nat)
    requires NoDup(s) && i < |s|
    ensures Without(s, s[i]) == s[..i] + s[i + 1..]
    decreases |s|
  {
    var x, tail := s[i], s[1..];
    NoDupTail(s);
    if i == 0 {
      assert Without(s, x) == Without(tail, x);
      assert tail == s[..0] + tail;
    } else {
      assert s[0] != x && tail[i - 1] == x;
      assert Without(s, x) == [s[0]] + Without(tail, x);
      WithoutAt(tail, i - 1);
      assert tail[..i - 1] + tail[i..] == s[1..i] + s[i + 1..];
      assert s[..i] == [s[0]] + s[1..i];
    }
  }

  lemma NoDupTail<T>(s: seq<T>)
    requires NoDup(s) && s != []
    ensures NoDup(s[1..]) && s[0] !in s[1..]
  {
    var t := s[1..];
    forall i, j | 0 <= i < j < |t| ensures t[i] != t[j] {
      assert t[i] == s[i + 1] && t[j] == s[j + 1];
    }
    forall j | 0 <= j < |t| ensures t[j] != s[0] {
      assert t[j] == s[j + 1];
    }
  }

  lemma WithoutLength<T(!new)>(s: seq<T>, x: T)
    ensures NoDup(s) ==> |Without(s, x)| == if x in s then |s| - 1 else |s|
  {
    if NoDup(s) && x in s {
      WithoutAt(s, IndexOf(s, x));
    }
  }

  /** `parent.insertBefore(x, ref)`: `x` leaves its old position (if any)
      and goes just before `ref`, or last when `ref` is `null`. */
  function InsertBefore<T(==,!new)>(s: seq<T>, x: T, ref: Option<T>): (r: seq<T>)
    requires ref.Some? ==> ref.value in s && ref.value != x
    ensures x in r && forall y :: y in r <==> y in s || y == x
    ensures NoDup(s) ==> NoDup(r) && |r| == if x in s then |s| else |s| + 1
  {
    var t := Without(s, x);
    WithoutLength(s, x);
    NoDupSnoc(t, x);
    if ref.None? then t + [x]
    else
      var i := IndexOf(t, ref.value);
      InsertAt(t, i, x);
      t[..i] + [x] + t[i..]
  }

  lemma InsertAt<T(!new)>(t: seq<T>, i: nat, x: T)
    requires i <= |t|
    ensures var r := t[..i] + [x] + t[i..];
      && |r| == |t| + 1
      && (forall y :: y in r <==> y in t || y == x)
      && (NoDup(t) && x !in t ==> NoDup(r))
  {
    var r := t[..i] + [x] + t[i..];
    assert t == t[..i] + t[i..];
    forall y | y in r ensures y in t || y == x {
      if y in t[..i] {
        assert y in t;
      }
      if y in t[i..] {
        assert y in t;
      }
    }
    if NoDup(t) && x !in t {
      forall a, b | 0 <= a < b < |r| ensures r[a] != r[b] {
        if a < i && b < i {
          assert r[a] == t[a] && r[b] == t[b];
        } else if a < i && b == i {
          assert r[a] == t[a];
        } else if a < i {
          assert r[a] == t[a] && r[b] == t[b - 1];
        } else if a == i {
          assert r[b] == t[b - 1];
        } else {
          assert r[a] == t[a - 1] && r[b] == t[b - 1];
        }
      }
    }
  }

  /** `parent.replaceChild(x, oldChild)` with a node `x` not in the list. */
  function ReplaceChild<T(==,!new)>(s: seq<T>, x: T, oldChild: T): (r: seq<T>)
    requires NoDup(s) && oldChild in s && x !in s
    ensures |r| == |s| && NoDup(r)
    ensures forall y :: y in r <==> (y in s && y != oldChild) || y == x
  {
    var i := IndexOf(s, oldChild);
    var r := s[i := x];
    assert r[i] == x && x in r;
    assert forall y :: y in r && y != x ==> y in s && y != oldChild by {
      forall y | y in r && y != x ensures y in s && y != oldChild {
        var k :| 0 <= k < |r| && r[k] == y;
        assert k != i && s[k] == y && s[i] == oldChild;
      }
    }
    assert forall y :: y in s && y != oldChild ==> y in r by {
      forall y | y in s && y != oldChild ensures y in r {
        var k :| 0 <= k < |s| && s[k] == y;
        assert k != i && r[k] == y;
      }
    }
    assert NoDup(r) by {
      forall a, b | 0 <= a < b < |r| ensures r[a] != r[b] {
        if a != i && b != i {
          assert r[a] == s[a] && r[b] == s[b];
        } else if a == i {
          assert r[b] == s[b] && s[b] in s;
        } else {
          assert r[a] == s[a] && s[a] in s;
        }
      }
    }
    r
  }

  /** `parent.removeChild(x)`. */
  function RemoveChild<T(==,!new)>(s: seq<T>, x: T): (r: seq<T>)
    requires NoDup(s) && x in s
    ensures x !in r && forall y :: y in r <==> y in s && y != x
    ensures NoDup(r) && |r| == |s| - 1
  {
    WithoutAt(s, IndexOf(s, x));
    Without(s, x)
  }

  /** Inserting before the child at `order` (or appending when there is
      none) puts `x` at position `order` and keeps the children before it,
      provided `x` is not one of them. */
  lemma InsertBeforePlaces<T(!new)>(s: seq<T>, x: T, order: nat)
    requires NoDup(s) && order <= |s| && x !in s[..order]
    requires order < |s| ==> s[order] != x
    ensures var r := InsertBefore(s, x, if order < |s| then Some(s[order]) else None);
      order < |r| && r[..order] == s[..order] && r[order] == x
  {
    var t := Without(s, x);
    WithoutKeepsBefore(s, x, order);
    if order < |s| {
      IndexOfAt(t, order);
      SplicedAt(t, order, x);
    } else {
      assert t == s;
    }
  }

  /** Taking out `x`, which is not among the first `order` elements nor at
      `order`, keeps those positions. */
  lemma WithoutKeepsBefore<T(!new)>(s: seq<T>, x: T, order: nat)
    requires NoDup(s) && order <= |s| && x !in s[..order]
    requires order < |s| ==> s[order] != x
    ensures var t := Without(s, x);
      order <= |t| && t[..order] == s[..order] && (order < |s| ==> order < |t| && t[order] == s[order])
  {
    if x in s {
      var j := IndexOf(s, x);
      assert j > order;
      WithoutAt(s, j);
      var t := s[..j] + s[j + 1..];
      assert t[..order] == s[..order];
    }
  }

  lemma SplicedAt<T>(t: seq<T>, i: nat, x: T)
    requires i <= |t|
    ensures var r := t[..i] + [x] + t[i..];
      i < |r| && r[..i] == t[..i] && r[i] == x
  {
  }

  lemma IndexOfAt<T(!new)>(s: seq<T>, i: nat)
    requires NoDup(s) && i < |s|
    ensures IndexOf(s, s[i]) == i
  {
  }

  /** Replacing the child at `order` keeps the children before it. */
  lemma ReplaceChildPlaces<T(!new)>(s: seq<T>, x: T, order: nat)
    requires NoDup(s) && order < |s| && x !in s
    ensures var r := ReplaceChild(s, x, s[order]);
      |r| == |s| && r[..order] == s[..order] && r[order] == x
  {
    IndexOfAt(s, order);
  }

  /** Removing a child that sits after `order` keeps the children before
      `order` and leaves at least `order` children. */
  lemma RemoveChildKeepsPrefix<T(!new)>(s: seq<T>, x: T, order: nat)
    requires NoDup(s) && order < |s| && x in s && x !in s[..order + 1]
    ensures var r := RemoveChild(s, x);
      order <= |r| == |s| - 1 && r[..order] == s[..order]
  {
    var j := IndexOf(s, x);
    assert j > order;
    WithoutAt(s, j);
  }

  /** Removing a child that is not among the first `order` keeps them. */
  lemma RemoveChildKeepsBefore<T(!new)>(s: seq<T>, x: T, order: nat)
    requires NoDup(s) && order <= |s| && x in s && x !in s[..order]
    ensures var r := RemoveChild(s, x);
      order <= |r| && r[..order] == s[..order]
  {
    var j := IndexOf(s, x);
    assert j >= order;
    WithoutAt(s, j);
  }

  /** Removing the child at `order` keeps everything before it. */
  lemma RemoveChildAt<T(!new)>(s: seq<T>, order: nat)
    requires NoDup(s) && order < |s|
    ensures RemoveChild(s, s[order]) == s[..order] + s[order + 1..]
  {
    IndexOfAt(s, order);
    WithoutAt(s, order);
  }

  /** When a node already placed earlier in the same pass is found again, it
      is moved forward and lands one place before `order`, not at it. */
  lemma RepeatedNodeLandsBeforeOrder<T(!new)>(s: seq<T>, j: nat, order: nat)
    requires NoDup(s) && j < order < |s|
    ensures var r := InsertBefore(s, s[j], Some(s[order]));
      r[order - 1] == s[j] && |r| == |s|
  {
    var x := s[j];
    var t := Without(s, x);
    WithoutAt(s, j);
    assert t == s[..j] + s[j + 1..];
    assert t[order - 1] == s[order];
    assert NoDup(t);
    IndexOfAt(t, order - 1);
  }
}
