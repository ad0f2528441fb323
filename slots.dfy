/** Slot ordering of src/write.ts: `Array.from(keys.values()).sort()` uses
    the default comparison of `Array.prototype.sort`, which orders the slot
    numbers by their decimal strings, not by value. */
module Slots {
  import opened Common

  /** JavaScript's `<=` on strings: lexicographic on characters, a prefix
      coming first. */
  predicate LexLe(a: string, b: string)
    decreases |a|
  {
    a == [] || (b != [] && (a[0] < b[0] || (a[0] == b[0] && LexLe(a[1..], b[1..]))))
  }

  lemma {:induction false} LexLeTotal(a: string, b: string)
    ensures LexLe(a, b) || LexLe(b, a)
    decreases |a|
  {
    if a != [] && b != [] && a[0] == b[0] {
      LexLeTotal(a[1..], b[1..]);
    }
  }

  lemma {:induction false} LexLeAntisymmetric(a: string, b: string)
    requires LexLe(a, b) && LexLe(b, a)
    ensures a == b
    decreases |a|
  {
    if a != [] {
      LexLeAntisymmetric(a[1..], b[1..]);
      assert a == [a[0]] + a[1..] && b == [b[0]] + b[1..];
    }
  }

  lemma {:induction false} LexLeTransitive(a: string, b: string, c: string)
    requires LexLe(a, b) && LexLe(b, c)
    ensures LexLe(a, c)
    decreases |a|
  {
    if a != [] && a[0] == b[0] && b[0] == c[0] {
      LexLeTransitive(a[1..], b[1..], c[1..]);
    }
  }

  lemma {:induction false} LexLeReflexive(a: string)
    ensures LexLe(a, a)
    decreases |a|
  {
    if a != [] {
      LexLeReflexive(a[1..]);
    }
  }

  /** The comparison `sort()` applies to two slot numbers. */
  predicate SlotLe(m: nat, n: nat) {
    LexLe(Decimal(m), Decimal(n))
  }

  lemma SlotLeTotal(m: nat, n: nat)
    ensures SlotLe(m, n) || SlotLe(n, m)
  {
    LexLeTotal(Decimal(m), Decimal(n));
  }

  lemma SlotLeAntisymmetric(m: nat, n: nat)
    requires SlotLe(m, n) && SlotLe(n, m)
    ensures m == n
  {
    LexLeAntisymmetric(Decimal(m), Decimal(n));
    DecimalInjective(m, n);
  }

  lemma SlotLeTransitive(m: nat, n: nat, k: nat)
    requires SlotLe(m, n) && SlotLe(n, k)
    ensures SlotLe(m, k)
  {
    LexLeTransitive(Decimal(m), Decimal(n), Decimal(k));
  }

  ghost predicate SlotSorted(s: seq<nat>) {
    forall i, j {:trigger SlotLe(s[i], s[j])} :: 0 <= i < j < |s| ==> SlotLe(s[i], s[j])
  }

  /** The values of the `keys` map in insertion order: every new key gets the
      map's size, so they are `0, 1, ..., n - 1`. */
  function Range(n: nat): (r: seq<nat>)
    ensures |r| == n && forall i :: 0 <= i < n ==> r[i] == i
  {
    seq(n, i requires 0 <= i < n => i)
  }

  function Insert(x: nat, s: seq<nat>): seq<nat>
    decreases |s|
  {
    if s == [] then [x]
    else if SlotLe(x, s[0]) then [x] + s
    else [s[0]] + Insert(x, s[1..])
  }

  /** `sort()` with the default comparison; the sort is stable, but on slot
      numbers, which are distinct, any sorting gives the same sequence (see
      `SortedUnique`). */
  function SortSlots(s: seq<nat>): seq<nat>
    decreases |s|
  {
    if s == [] then [] else Insert(s[0], SortSlots(s[1..]))
  }

  lemma {:induction false} InsertPermutes(x: nat, s: seq<nat>)
    ensures multiset(Insert(x, s)) == multiset(s) + multiset{x}
    decreases |s|
  {
    if s != [] && !SlotLe(x, s[0]) {
      InsertPermutes(x, s[1..]);
      assert s == [s[0]] + s[1..];
    }
  }

  /** The head of a sorted sequence comes before each of its members. */
  lemma SortedHeadLeast(a: seq<nat>, x: nat)
    requires SlotSorted(a) && x in a
    ensures SlotLe(a[0], x)
  {
    var k :| 0 <= k < |a| && a[k] == x;
    if k == 0 {
      LexLeReflexive(Decimal(x));
    }
  }

  lemma {:induction false} InsertMembers(x: nat, s: seq<nat>)
    ensures forall y :: y in Insert(x, s) ==> y == x || y in s
    decreases |s|
  {
    if s != [] && !SlotLe(x, s[0]) {
      InsertMembers(x, s[1..]);
    }
  }

  /** A sorted sequence stays sorted when a new head no greater than its
      first element is put in front. */
  lemma ConsSorted(x: nat, s: seq<nat>)
    requires SlotSorted(s)
    requires forall y :: y in s ==> SlotLe(x, y)
    ensures SlotSorted([x] + s)
  {
    var r := [x] + s;
    forall i, j | 0 <= i < j < |r| ensures SlotLe(r[i], r[j]) {
      if i == 0 {
        assert r[j] == s[j - 1];
      } else {
        assert r[i] == s[i - 1] && r[j] == s[j - 1];
      }
    }
  }

  lemma {:induction false} InsertSorted(x: nat, s: seq<nat>)
    requires SlotSorted(s)
    ensures SlotSorted(Insert(x, s))
    decreases |s|
  {
    if s == [] {
    } else if SlotLe(x, s[0]) {
      forall y | y in s ensures SlotLe(x, y) {
        SortedHeadLeast(s, y);
        SlotLeTransitive(x, s[0], y);
      }
      ConsSorted(x, s);
    } else {
      SlotLeTotal(x, s[0]);
      assert SlotSorted(s[1..]);
      InsertSorted(x, s[1..]);
      InsertMembers(x, s[1..]);
      forall y | y in Insert(x, s[1..]) ensures SlotLe(s[0], y) {
        if y != x {
          SortedHeadLeast(s, y);
        }
      }
      ConsSorted(s[0], Insert(x, s[1..]));
    }
  }

  /** The sorted slots are sorted under the string comparison and are a
      permutation of the input. */
  lemma {:induction false} SortSlotsSpec(s: seq<nat>)
    ensures SlotSorted(SortSlots(s))
    ensures multiset(SortSlots(s)) == multiset(s)
    decreases |s|
  {
    if s != [] {
      var rest := SortSlots(s[1..]);
      assert SortSlots(s) == Insert(s[0], rest);
      SortSlotsSpec(s[1..]);
      assert SlotSorted(Insert(s[0], rest)) by {
        InsertSorted(s[0], rest);
      }
      assert multiset(Insert(s[0], rest)) == multiset(s) by {
        InsertPermutes(s[0], rest);
        assert s == [s[0]] + s[1..];
      }
    }
  }

  lemma SortedTail(a: seq<nat>)
    requires a != [] && SlotSorted(a)
    ensures SlotSorted(a[1..])
  {
    var t := a[1..];
    forall i, j | 0 <= i < j < |t| ensures SlotLe(t[i], t[j]) {
      assert t[i] == a[i + 1] && t[j] == a[j + 1];
    }
  }

  /** Two sorted arrangements of the same numbers are equal: the order the
      serialiser joins children in does not depend on the sorting algorithm. */
  lemma {:induction false} SortedUnique(a: seq<nat>, b: seq<nat>)
    requires SlotSorted(a) && SlotSorted(b) && multiset(a) == multiset(b)
    ensures a == b
    decreases |a|
  {
    if a == [] {
      assert |b| == |multiset(b)| == 0;
    } else {
      assert b != [] && a[0] in b && b[0] in a by {
        assert a[0] in multiset(b);
        assert b[0] in multiset(a);
      }
      assert a[0] == b[0] by {
        SortedHeadLeast(a, b[0]);
        SortedHeadLeast(b, a[0]);
        SlotLeAntisymmetric(a[0], b[0]);
      }
      TailsSamePermutation(a, b);
      SortedTail(a);
      SortedTail(b);
      SortedUnique(a[1..], b[1..]);
      assert a == [a[0]] + a[1..] && b == [b[0]] + b[1..];
    }
  }

  lemma TailsSamePermutation(a: seq<nat>, b: seq<nat>)
    requires a != [] && b != [] && a[0] == b[0] && multiset(a) == multiset(b)
    ensures multiset(a[1..]) == multiset(b[1..])
  {
    MultisetTail(a);
    MultisetTail(b);
    assert multiset(a[1..]) == multiset(a) - multiset{a[0]};
    assert multiset(b[1..]) == multiset(b) - multiset{b[0]};
  }

  lemma MultisetTail(a: seq<nat>)
    requires a != []
    ensures multiset(a) == multiset{a[0]} + multiset(a[1..])
  {
    assert a == [a[0]] + a[1..];
  }

  /** `"2"` sorts after `"10"`. */
  lemma TwoAfterTen()
    ensures !SlotLe(2, 10)
  {
    assert Decimal(10) == "10" && Decimal(2) == "2";
  }

  /** In a sorted sequence, a member that is not `<=` an earlier one in
      the string order comes later. */
  lemma SortedAfter(a: seq<nat>, i: int, j: int)
    requires SlotSorted(a) && 0 <= i < |a| && 0 <= j < |a|
    requires a[i] != a[j] && !SlotLe(a[j], a[i])
    ensures i < j
  {
  }

  /** Slot 10 is emitted before slot 2 (and 1 before 10). */
  lemma TenBeforeTwo(n: nat)
    requires n >= 11
    ensures exists i, j :: (0 <= i < j < |SortSlots(Range(n))| && SortSlots(Range(n))[i] == 10 && SortSlots(Range(n))[j] == 2)
  {
    var r := SortSlots(Range(n));
    SortSlotsSpec(Range(n));
    assert 10 in r && 2 in r by {
      assert Range(n)[10] == 10 && Range(n)[2] == 2;
      assert 10 in multiset(r) && 2 in multiset(r);
    }
    var i :| 0 <= i < |r| && r[i] == 10;
    var j :| 0 <= j < |r| && r[j] == 2;
    TwoAfterTen();
    SortedAfter(r, i, j);
  }
}
