/** The arithmetic of eviction: how many of the candidates, oldest first, are evicted. */
module EvictionPlan {
  import opened Sequences

  function Sum(sizes: seq<nat>): nat {
    if sizes == [] then 0 else Sum(sizes[..|sizes| - 1]) + sizes[|sizes| - 1]
  }

  lemma {:induction false} SumSplit(a: seq<nat>, b: seq<nat>)
    ensures Sum(a + b) == Sum(a) + Sum(b)
    decreases |b|
  {
    if b == [] {
      assert a + b == a;
    } else {
      assert (a + b)[..|a + b| - 1] == a + b[..|b| - 1];
      SumSplit(a, b[..|b| - 1]);
    }
  }

  lemma SumPrefixMonotone(sizes: seq<nat>, n: nat)
    requires n <= |sizes|
    ensures Sum(sizes[..n]) <= Sum(sizes)
  {
    assert sizes == sizes[..n] + sizes[n..];
    SumSplit(sizes[..n], sizes[n..]);
  }

  /** The unbatched pass: the length of the shortest prefix that frees `need`, or all. */
  function SinglePass(sizes: seq<nat>, need: nat): nat {
    if need == 0 || sizes == [] then 0
    else if sizes[0] >= need then 1
    else 1 + SinglePass(sizes[1..], need - sizes[0])
  }

  /** `n` is the shortest prefix whose sizes reach `need`, or everything if nothing does. */
  ghost predicate Shortest(sizes: seq<nat>, need: nat, n: nat) {
    && n <= |sizes|
    && (Sum(sizes[..n]) >= need || n == |sizes|)
    && forall k :: 0 <= k < n ==> Sum(sizes[..k]) < need
  }

  lemma {:induction false} SinglePassIsShortest(sizes: seq<nat>, need: nat)
    ensures Shortest(sizes, need, SinglePass(sizes, need))
    decreases |sizes|
  {
    if need == 0 || sizes == [] {
    } else {
      var head, rest := sizes[0], sizes[1..];
      if head >= need {
        assert sizes[..1] == [head];
      } else {
        SinglePassIsShortest(rest, need - head);
        forall k | 0 < k <= |sizes| ensures Sum(sizes[..k]) == head + Sum(rest[..k - 1]) {
          assert sizes[..k] == [head] + rest[..k - 1];
          SumSplit([head], rest[..k - 1]);
          assert Sum([head]) == head by { assert [head][..0] == []; }
        }
      }
    }
  }

  lemma ShortestUnique(sizes: seq<nat>, need: nat, a: nat, b: nat)
    requires Shortest(sizes, need, a) && Shortest(sizes, need, b)
    ensures a == b
  {
  }

  lemma StoppedIsShortest(sizes: seq<nat>, need: nat, n: nat)
    requires n <= |sizes| && (n > 0 ==> Sum(sizes[..n - 1]) < need)
    requires Sum(sizes[..n]) >= need || n == |sizes|
    ensures n == SinglePass(sizes, need)
  {
    forall k | 0 <= k < n ensures Sum(sizes[..k]) < need {
      assert sizes[..n - 1][..k] == sizes[..k];
      SumPrefixMonotone(sizes[..n - 1], k);
    }
    SinglePassIsShortest(sizes, need);
    ShortestUnique(sizes, need, n, SinglePass(sizes, need));
  }

  /** The batched loop: a pass over at most `batch` candidates at a time, with a new query
      between passes, giving up after a pass that freed nothing. */
  function Batched(sizes: seq<nat>, need: nat, batch: nat): (n: nat)
    requires batch > 0
    ensures n <= |sizes|
    decreases |sizes|
  {
    if need == 0 || sizes == [] then 0
    else
      var b := Take(sizes, batch);
      var n := SinglePass(b, need);
      SinglePassIsShortest(b, need);
      SumPrefixMonotone(b, n);
      if Sum(b[..n]) == 0 then n
      else n + Batched(sizes[n..], Less(need, Sum(b[..n])), batch)
  }

  /** While bytes are still needed and more candidates follow, no whole batch of candidates
      is made of empty files. */
  ghost predicate NoEmptyBatch(sizes: seq<nat>, need: nat, batch: nat)
    requires batch > 0
    decreases |sizes|
  {
    need > 0 && |sizes| > batch ==>
      Sum(sizes[..batch]) > 0 && NoEmptyBatch(sizes[batch..], Less(need, Sum(sizes[..batch])), batch)
  }

  lemma SumPast(sizes: seq<nat>, n: nat, k: nat)
    requires n + k <= |sizes|
    ensures Sum(sizes[..n + k]) == Sum(sizes[..n]) + Sum(sizes[n..][..k])
  {
    assert sizes[..n + k] == sizes[..n] + sizes[n..][..k];
    SumSplit(sizes[..n], sizes[n..][..k]);
  }

  lemma StillShort(sizes: seq<nat>, need: nat, n: nat, m: nat, k: nat)
    requires n <= |sizes| && Sum(sizes[..n]) < need && Shortest(sizes[n..], Less(need, Sum(sizes[..n])), m) && k < n + m
    ensures Sum(sizes[..k]) < need
  {
    if k < n {
      assert sizes[..n][..k] == sizes[..k];
      SumPrefixMonotone(sizes[..n], k);
    } else {
      SumPast(sizes, n, k - n);
    }
  }

  lemma SinglePassSkips(sizes: seq<nat>, need: nat, n: nat)
    requires n <= |sizes| && Sum(sizes[..n]) < need
    ensures SinglePass(sizes, need) == n + SinglePass(sizes[n..], Less(need, Sum(sizes[..n])))
  {
    var m := SinglePass(sizes[n..], Less(need, Sum(sizes[..n])));
    SinglePassIsShortest(sizes[n..], Less(need, Sum(sizes[..n])));
    forall k | 0 <= k < n + m ensures Sum(sizes[..k]) < need { StillShort(sizes, need, n, m, k); }
    SumPast(sizes, n, m);
    SinglePassIsShortest(sizes, need);
    ShortestUnique(sizes, need, n + m, SinglePass(sizes, need));
  }

  lemma SinglePassStaysInFront(sizes: seq<nat>, need: nat, batch: nat)
    requires batch <= |sizes| && Sum(sizes[..batch]) >= need
    ensures SinglePass(sizes, need) == SinglePass(sizes[..batch], need)
  {
    var b := sizes[..batch];
    SinglePassIsShortest(b, need);
    var n := SinglePass(b, need);
    assert forall k :: 0 <= k <= |b| ==> b[..k] == sizes[..k];
    assert Sum(b[..n]) >= need by { assert b[..|b|] == b; }
    assert Shortest(sizes, need, n);
    SinglePassIsShortest(sizes, need);
    ShortestUnique(sizes, need, n, SinglePass(sizes, need));
  }

  lemma LastBatch(sizes: seq<nat>, need: nat, batch: nat)
    requires batch > 0 && need > 0 && sizes != [] && |sizes| <= batch
    ensures Batched(sizes, need, batch) == SinglePass(sizes, need)
  {
    SinglePassIsShortest(sizes, need);
    assert Take(sizes, batch) == sizes;
  }

  /** A full batch that is enough on its own. */
  lemma EnoughInBatch(sizes: seq<nat>, need: nat, batch: nat)
    requires batch > 0 && need > 0 && |sizes| > batch && Sum(sizes[..batch]) >= need
    ensures Batched(sizes, need, batch) == SinglePass(sizes, need)
  {
    var b := sizes[..batch];
    SinglePassIsShortest(b, need);
    SinglePassStaysInFront(sizes, need, batch);
    assert b[..|b|] == b;
    assert Sum(b[..SinglePass(b, need)]) >= need;
  }

  /** A full batch that is not enough: the loop takes all of it, then goes on or gives up. */
  lemma WholeBatch(sizes: seq<nat>, need: nat, batch: nat)
    requires batch > 0 && |sizes| > batch && Sum(sizes[..batch]) < need
    ensures Batched(sizes, need, batch)
         == batch + (if Sum(sizes[..batch]) == 0 then 0
                     else Batched(sizes[batch..], Less(need, Sum(sizes[..batch])), batch))
  {
    var b := sizes[..batch];
    SinglePassIsShortest(b, need);
    var n := SinglePass(b, need);
    SumPrefixMonotone(b, n);
    assert n == batch;
    assert b[..n] == b;
  }

  /** The batched loop evicts what one unbatched pass would exactly when it meets no batch
      of empty files before it is done. */
  lemma {:induction false} BatchedIsSinglePass(sizes: seq<nat>, need: nat, batch: nat)
    requires batch > 0
    ensures Batched(sizes, need, batch) == SinglePass(sizes, need) <==> NoEmptyBatch(sizes, need, batch)
    decreases |sizes|
  {
    if need == 0 || sizes == [] {
    } else if |sizes| <= batch {
      LastBatch(sizes, need, batch);
    } else if Sum(sizes[..batch]) >= need {
      EnoughInBatch(sizes, need, batch);
    } else {
      WholeBatch(sizes, need, batch);
      SinglePassSkips(sizes, need, batch);
      BatchedIsSinglePass(sizes[batch..], Less(need, Sum(sizes[..batch])), batch);
    }
  }

  /** Files of positive size never form an empty batch. */
  lemma {:induction false} PositiveSizesSuffice(sizes: seq<nat>, need: nat, batch: nat)
    requires batch > 0 && forall k :: 0 <= k < |sizes| ==> sizes[k] > 0
    ensures NoEmptyBatch(sizes, need, batch)
    decreases |sizes|
  {
    if need > 0 && |sizes| > batch {
      var b := sizes[..batch];
      assert b[|b| - 1] == sizes[batch - 1] > 0;
      PositiveSizesSuffice(sizes[batch..], Less(need, Sum(b)), batch);
    }
  }
}
