/** Rows in query order. SQL returns the rows that match a query in the order of some
    key, so a query result is the set of matching inodes ranked by that key. */
module Ordering {
  import opened Sequences

  /** `x` comes before `y`: smaller key first, ties by number. */
  predicate Before(key: nat -> int, x: nat, y: nat) {
    key(x) < key(y) || (key(x) == key(y) && x < y)
  }

  /** `x` is the first element of `s`. */
  ghost predicate IsFirst(s: set<nat>, key: nat -> int, x: nat) {
    x in s && forall y :: y in s && y != x ==> Before(key, x, y)
  }

  lemma FirstOfMore(s: set<nat>, key: nat -> int, x: nat, z: nat)
    requires IsFirst(s, key, x) && z !in s
    ensures IsFirst(s + {z}, key, if Before(key, x, z) then x else z)
  {
  }

  lemma {:induction false} FirstExists(s: set<nat>, key: nat -> int)
    requires s != {}
    ensures exists x :: IsFirst(s, key, x)
    decreases s
  {
    var z :| z in s;
    var t := s - {z};
    if t == {} {
      assert s == {z};
      assert IsFirst(s, key, z);
    } else {
      FirstExists(t, key);
      var x :| IsFirst(t, key, x);
      FirstOfMore(t, key, x, z);
      assert t + {z} == s;
    }
  }

  ghost predicate Ascending(key: nat -> int, r: seq<nat>) {
    forall a, b :: 0 <= a < b < |r| ==> Before(key, r[a], r[b])
  }

  function First(s: set<nat>, key: nat -> int): (x: nat)
    requires s != {}
    ensures IsFirst(s, key, x)
  {
    FirstExists(s, key);
    assert exists x :: IsFirst(s, key, x);
    var x :| x in s && forall y :: y in s && y != x ==> Before(key, x, y);
    x
  }

  /** The elements of `s` in ascending key order. */
  function Ranked(s: set<nat>, key: nat -> int): (r: seq<nat>)
    ensures ElemsOf(r) == s
    ensures |r| == |s|
  {
    if s == {} then []
    else
      var x := First(s, key);
      var rest := Ranked(s - {x}, key);
      assert forall y :: y in [x] + rest <==> y == x || y in ElemsOf(rest);
      [x] + rest
  }

  lemma AscendingCons(key: nat -> int, x: nat, rest: seq<nat>)
    requires Ascending(key, rest) && forall y :: y in rest ==> Before(key, x, y)
    ensures Ascending(key, [x] + rest)
  {
  }

  lemma {:induction false} RankedAscending(s: set<nat>, key: nat -> int)
    ensures Ascending(key, Ranked(s, key))
    decreases s
  {
    if s != {} {
      var x := First(s, key);
      RankedAscending(s - {x}, key);
      var rest := Ranked(s - {x}, key);
      forall y | y in rest ensures Before(key, x, y) { assert y in ElemsOf(rest); }
      AscendingCons(key, x, rest);
    }
  }

  lemma RankedTail(s: set<nat>, key: nat -> int)
    requires s != {}
    ensures Ranked(s, key)[0] in s
    ensures Ranked(s - {Ranked(s, key)[0]}, key) == Ranked(s, key)[1..]
  {
  }

  lemma ElemsPeel(s: set<nat>, q: seq<nat>)
    requires q != []
    ensures s - ElemsOf(q) == s - {q[0]} - ElemsOf(q[1..])
  {
    assert q == [q[0]] + q[1..];
  }

  lemma SplitStep(s: set<nat>, key: nat -> int, front: seq<nat>, rest: seq<nat>)
    requires front != [] && Ranked(s, key) == front + rest
    ensures Ranked(s - {front[0]}, key) == front[1..] + rest
  {
    TailOfFront(front, rest);
    assert s != {};
    RankedTail(s, key);
  }

  lemma TailOfFront(front: seq<nat>, rest: seq<nat>)
    requires front != []
    ensures (front + rest)[0] == front[0] && (front + rest)[1..] == front[1..] + rest
  {
  }

  /** Taking the front of its ranking away from a set leaves the rest of that ranking. */
  lemma {:induction false} RankedSplit(s: set<nat>, key: nat -> int, front: seq<nat>, rest: seq<nat>)
    requires Ranked(s, key) == front + rest
    ensures Ranked(s - ElemsOf(front), key) == rest
    decreases |front|
  {
    if front == [] {
      assert front + rest == rest && s - ElemsOf(front) == s;
    } else {
      SplitStep(s, key, front, rest);
      RankedSplit(s - {front[0]}, key, front[1..], rest);
      ElemsPeel(s, front);
    }
  }

  /** The ranking depends on the keys of the ranked elements only. */
  lemma {:induction false} RankedCongruent(s: set<nat>, key: nat -> int, other: nat -> int)
    requires forall x :: x in s ==> key(x) == other(x)
    ensures Ranked(s, key) == Ranked(s, other)
    decreases s
  {
    if s != {} {
      var x, y := First(s, key), First(s, other);
      assert x == y by {
        assert y != x ==> Before(key, x, y) && Before(other, y, x);
      }
      RankedCongruent(s - {x}, key, other);
    }
  }

  /** There is only one way to list a set in ascending order. */
  lemma {:induction false} RankedUnique(s: set<nat>, key: nat -> int, r: seq<nat>)
    requires Ascending(key, r) && forall x :: x in r <==> x in s
    ensures r == Ranked(s, key)
    decreases s
  {
    if r == [] {
      assert s == {};
    } else {
      assert r[0] in s;
      var x := First(s, key);
      HeadIsFirst(s, key, r, x);
      RankedUnique(s - {x}, key, r[1..]);
      RankedHead(s, key, x);
      assert r == [x] + r[1..];
    }
  }

  lemma RankedHead(s: set<nat>, key: nat -> int, x: nat)
    requires s != {} && x == First(s, key)
    ensures Ranked(s, key) == [x] + Ranked(s - {x}, key)
  {
  }

  lemma HeadIsFirst(s: set<nat>, key: nat -> int, r: seq<nat>, x: nat)
    requires Ascending(key, r) && r != [] && (forall y :: y in r <==> y in s) && IsFirst(s, key, x)
    ensures r[0] == x && Ascending(key, r[1..]) && forall y :: y in r[1..] <==> y in s - {x}
  {
    var k :| 0 <= k < |r| && r[k] == x;
    assert r == [r[0]] + r[1..];
    assert r[0] in s && forall l :: 0 < l < |r| ==> Before(key, r[0], r[l]);
    forall y | y in r[1..] ensures y != r[0] {
      var l :| 0 <= l < |r[1..]| && r[1..][l] == y;
      assert r[l + 1] == y && Before(key, r[0], r[l + 1]);
    }
  }
}
