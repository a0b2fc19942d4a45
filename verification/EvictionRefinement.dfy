/** Without failures and writes, the batched loop against a single unbatched pass; and small
    tables for which it stops short, or loses a write. */
module EvictionRefinement {
  import opened Types
  import opened Sequences
  import opened Ordering
  import opened FileIndex
  import opened Statements
  import opened EvictionPlan
  import opened CacheUse
  import opened EvictionRun

  ghost predicate Quiet(w: World) {
    && (forall p: nat, i: Inode :: w.removal(p, i) != Failed)
    && (forall p: nat, m: Moment :: w.writes(p, m) == [])
  }

  /** Exactly the rows in `evicted` changed, by losing their cache. */
  ghost predicate OnlyEvicted(before: Rows, after: Rows, evicted: seq<Inode>) {
    && after.Keys == before.Keys
    && (forall i :: i in evicted ==> i in before && Evictable(before[i]) && after[i] == Evicted(before[i]))
    && (forall i :: i in before && i !in evicted ==> after[i] == before[i])
  }

  lemma QuietChange(before: Rows, after: Rows, evicted: seq<Inode>, w: World)
    requires Quiet(w) && Changed(before, after, evicted, Written(w.writes))
    ensures OnlyEvicted(before, after, evicted)
  {
    forall i: Inode ensures i !in Written(w.writes) {
      forall p: nat, m: Moment ensures !Hits(w.writes(p, m), i) { assert w.writes(p, m) == []; }
    }
  }

  lemma QuietQuery(rows: Rows, w: World)
    requires Quiet(w)
    ensures AtQuery(rows, w) == Idle(rows)
  {
    assert w.writes(w.pass, BeforeQuery) == [];
  }

  lemma QuietVisit(from: Rows, t: Tally, i: Inode, w: World)
    requires Quiet(w) && i in t.rows && t.rows[i].status.Cached?
    ensures Visit(from, t, i, w) == Drop(from, t, i, w.pass)
  {
    assert w.writes(w.pass, BeforeTurn(i)) == [] && w.writes(w.pass, InTurn(i)) == [];
    assert w.removal(w.pass, i) != Failed;
  }

  // ------------------------------------------------------------------- one pass

  /** A pass evicts a prefix of its batch, and all of it if that frees too little. */
  ghost predicate TakesPrefix(batch: seq<Inode>, need: nat, t: Tally) {
    && |t.evicted| <= |batch| && t.evicted == batch[..|t.evicted|]
    && (t.freed < need ==> t.evicted == batch)
  }

  lemma PrefixStep(from: Rows, front: seq<Inode>, i: Inode, need: nat, t: Tally, pass: nat)
    requires TakesPrefix(front, need, t)
    ensures TakesPrefix(front + [i], need, if t.freed >= need then t else Drop(from, t, i, pass))
  {
    var batch := front + [i];
    assert front[..|t.evicted|] == batch[..|t.evicted|];
    assert batch[..|batch|] == batch;
  }

  lemma {:induction false} QuietPass(from: Rows, batch: seq<Inode>, need: nat, w: World)
    requires Batch(from, batch) && Quiet(w)
    ensures TakesPrefix(batch, need, RunPass(from, batch, need, w))
    decreases |batch|
  {
    if batch != [] {
      var front, i := batch[..|batch| - 1], batch[|batch| - 1];
      var t := RunPass(from, front, need, w);
      BatchFront(from, batch);
      QuietPass(from, front, need, w);
      PassEffect(from, front, need, w);
      QuietChange(from, t.rows, t.evicted, w);
      QuietVisit(from, t, i, w);
      PrefixStep(from, front, i, need, t, w.pass);
    }
  }

  lemma PrefixCount(from: Rows, batch: seq<Inode>, need: nat, t: Tally)
    requires TakesPrefix(batch, need, t) && Balanced(from, need, t)
    ensures
      var b := Sizes(from, batch);
      var n := SinglePass(b, need);
      n <= |b| == |batch| && t.evicted == batch[..n] && t.freed == Sum(b[..n])
  {
    var b, n := Sizes(from, batch), |t.evicted|;
    SizesTake(from, batch, n);
    if n > 0 {
      assert t.evicted[..n - 1] == batch[..n - 1];
      SizesTake(from, batch, n - 1);
    }
    StoppedIsShortest(b, need, n);
  }

  lemma PassFollowsPlan(from: Rows, batch: seq<Inode>, need: nat, w: World)
    requires Quiet(w) && Batch(from, batch)
    ensures
      var t, b := RunPass(from, batch, need, w), Sizes(from, batch);
      var n := SinglePass(b, need);
      && n <= |b| == |batch| && t.evicted == batch[..n] && t.freed == Sum(b[..n])
      && OnlyEvicted(from, t.rows, t.evicted)
  {
    var t := RunPass(from, batch, need, w);
    PassEffect(from, batch, need, w);
    QuietChange(from, t.rows, t.evicted, w);
    QuietPass(from, batch, need, w);
    PassSettled(from, batch, need, w);
    PassTight(from, batch, need, w);
    PrefixCount(from, batch, need, t);
  }

  // ---------------------------------------------------------------- the next query

  lemma EvictableAfter(rows: Rows, t: Tally)
    requires OnlyEvicted(rows, t.rows, t.evicted)
    ensures EvictableRows(t.rows) == EvictableRows(rows) - ElemsOf(t.evicted)
    ensures forall i :: i in EvictableRows(t.rows) ==> t.rows[i] == rows[i]
  {
  }

  lemma RankedRest(s: set<nat>, rest: set<nat>, key: nat -> int, other: nat -> int, n: nat)
    requires n <= |Ranked(s, key)| && rest == s - ElemsOf(Ranked(s, key)[..n])
    requires forall x :: x in rest ==> key(x) == other(x)
    ensures Ranked(rest, other) == Ranked(s, key)[n..]
  {
    var q := Ranked(s, key);
    assert q == q[..n] + q[n..];
    RankedSplit(s, key, q[..n], q[n..]);
    RankedCongruent(rest, key, other);
  }

  /** Evicting the front of the queue leaves the rest of the queue. */
  lemma QueueAfter(rows: Rows, t: Tally, n: nat)
    requires OnlyEvicted(rows, t.rows, t.evicted)
    requires n <= |Queue(rows)| && t.evicted == Queue(rows)[..n]
    ensures Queue(t.rows) == Queue(rows)[n..]
  {
    EvictableAfter(rows, t);
    RankedRest(EvictableRows(rows), EvictableRows(t.rows), LastAccess(rows), LastAccess(t.rows), n);
  }

  lemma RestUntouched(rows: Rows, t: Tally, q: seq<Inode>, n: nat, k: nat)
    requires OnlyEvicted(rows, t.rows, t.evicted) && n <= k < |q|
    requires q == Queue(rows) && Queue(t.rows) == q[n..]
    ensures q[k] in rows && q[k] in t.rows && t.rows[q[k]] == rows[q[k]]
  {
    EvictableAfter(rows, t);
    assert q[n..][k - n] == q[k];
    assert q[k] in ElemsOf(q[n..]);
  }

  lemma SizesAfter(rows: Rows, t: Tally, q: seq<Inode>, n: nat)
    requires OnlyEvicted(rows, t.rows, t.evicted) && q == Queue(rows) && n <= |q|
    requires Queue(t.rows) == q[n..] && AllComplete(rows, q)
    ensures AllComplete(t.rows, q[n..])
    ensures Sizes(t.rows, q[n..]) == Sizes(rows, q)[n..]
  {
    forall k | n <= k < |q| ensures q[k] in rows && q[k] in t.rows && t.rows[q[k]] == rows[q[k]] {
      RestUntouched(rows, t, q, n, k);
    }
    SizesDrop(rows, t.rows, q, n);
  }

  // ------------------------------------------------------------------- the loop

  lemma SizesFront(rows: Rows, q: seq<Inode>, limit: nat)
    ensures Sizes(rows, Take(q, limit)) == Take(Sizes(rows, q), limit)
  {
    if limit < |q| { SizesTake(rows, q, limit); }
  }

  lemma FirstIsBatch(rows: Rows, q: seq<Inode>)
    requires q == Queue(rows) && AllComplete(rows, q)
    ensures Batch(rows, Take(q, BATCH)) && AllComplete(rows, Take(q, BATCH))
  {
    assert forall i :: i in Take(q, BATCH) ==> i in q;
    NextBatch(rows);
  }

  lemma QuietOnePass(rows: Rows, need: nat, w: World)
    requires Quiet(w)
    ensures OnePass(rows, need, w) == RunPass(rows, Take(Queue(rows), BATCH), need, w)
  {
    QuietQuery(rows, w);
    var t := RunPass(rows, Take(Queue(rows), BATCH), need, w);
    assert [] + t.evicted == t.evicted;
  }

  lemma BatchByPlan(rows: Rows, batch: seq<Inode>, sizes: seq<nat>, need: nat, w: World, t: Tally, n: nat)
    requires Quiet(w) && Batch(rows, batch) && sizes == Sizes(rows, batch)
    requires t == RunPass(rows, batch, need, w) && n == SinglePass(sizes, need)
    ensures n <= |sizes| == |batch| && t.evicted == batch[..n] && t.freed == Sum(sizes[..n])
    ensures OnlyEvicted(rows, t.rows, t.evicted)
  {
    PassFollowsPlan(rows, batch, need, w);
  }

  lemma FrontPrefix<T>(q: seq<T>, limit: nat, n: nat)
    requires n <= |Take(q, limit)|
    ensures n <= |q| && Take(q, limit)[..n] == q[..n]
  {
  }

  /** A pass took the first `n` candidates of `q`. */
  ghost predicate ByPlan(q: seq<Inode>, sizes: seq<nat>, t: Tally, n: nat) {
    n <= |Take(sizes, BATCH)| && n <= |q| && t.evicted == q[..n] && t.freed == Sum(Take(sizes, BATCH)[..n])
  }

  /** The first pass of a quiet run, in the terms of the plan. */
  lemma FirstPass(rows: Rows, q: seq<Inode>, sizes: seq<nat>, need: nat, w: World, t: Tally, n: nat)
    requires Quiet(w) && q == Queue(rows) && AllComplete(rows, q) && sizes == Sizes(rows, q)
    requires t == OnePass(rows, need, w) && n == SinglePass(Take(sizes, BATCH), need)
    ensures ByPlan(q, sizes, t, n) && OnlyEvicted(rows, t.rows, t.evicted)
  {
    FirstIsBatch(rows, q);
    QuietOnePass(rows, need, w);
    SizesFront(rows, q, BATCH);
    BatchByPlan(rows, Take(q, BATCH), Take(sizes, BATCH), need, w, t, n);
    FrontPrefix(q, BATCH, n);
  }

  lemma QuietUnfold(rows: Rows, q: seq<Inode>, need: nat, w: World, t: Tally)
    requires Quiet(w) && need > 0 && q == Queue(rows) && q != [] && AllComplete(rows, q) && t == OnePass(rows, need, w)
    ensures t.freed == 0 ==> RunLoop(rows, need, w) == (t, NoProgress)
    ensures t.freed > 0 ==>
              RunLoop(rows, need, w).0.evicted == t.evicted + RunLoop(t.rows, Less(need, t.freed), w.Later()).0.evicted
  {
    QuietQuery(rows, w);
    FirstIsBatch(rows, q);
    RunUnfold(rows, need, w, t, rows);
  }

  lemma RunUnfold(rows: Rows, need: nat, w: World, t: Tally, here: Rows)
    requires need > 0 && here == AtQuery(rows, w).rows && t == OnePass(rows, need, w)
    requires AllComplete(here, Take(Queue(here), BATCH)) && Take(Queue(here), BATCH) != []
    ensures t.freed == 0 ==> RunLoop(rows, need, w) == (t, NoProgress)
    ensures t.freed > 0 ==>
              RunLoop(rows, need, w).0.evicted == t.evicted + RunLoop(t.rows, Less(need, t.freed), w.Later()).0.evicted
  {
  }

  lemma BatchedUnfold(sizes: seq<nat>, need: nat, n: nat, freed: nat)
    requires need > 0 && sizes != [] && n == SinglePass(Take(sizes, BATCH), need)
    requires n <= |Take(sizes, BATCH)| && freed == Sum(Take(sizes, BATCH)[..n])
    ensures Batched(sizes, need, BATCH) == if freed == 0 then n else n + Batched(sizes[n..], Less(need, freed), BATCH)
  {
  }

  lemma FollowStep(q: seq<Inode>, sizes: seq<nat>, need: nat, n: nat, freed: nat, rest: seq<Inode>, loop: seq<Inode>)
    requires need > 0 && sizes != [] && |sizes| == |q| && n == SinglePass(Take(sizes, BATCH), need)
    requires n <= |Take(sizes, BATCH)| && freed == Sum(Take(sizes, BATCH)[..n])
    requires loop == if freed == 0 then q[..n] else q[..n] + rest
    requires freed > 0 ==> rest == q[n..][..Batched(sizes[n..], Less(need, freed), BATCH)]
    ensures loop == q[..Batched(sizes, need, BATCH)]
  {
    BatchedUnfold(sizes, need, n, freed);
    if freed > 0 { PlanStep(q, n, q[..n], rest, Batched(sizes[n..], Less(need, freed), BATCH)); }
  }

  lemma PlanStep(q: seq<Inode>, n: nat, first: seq<Inode>, rest: seq<Inode>, m: nat)
    requires n <= |q| && m <= |q[n..]| && first == q[..n] && rest == q[n..][..m]
    ensures first + rest == q[..n + m]
  {
  }

  lemma RestOfQueue(rows: Rows, q: seq<Inode>, need: nat, w: World, t: Tally, n: nat)
    requires Quiet(w) && q == Queue(rows) && AllComplete(rows, q) && t == OnePass(rows, need, w) && t.freed > 0
    requires n <= |q| && t.evicted == q[..n] && OnlyEvicted(rows, t.rows, t.evicted)
    ensures EvictableRows(t.rows) < EvictableRows(rows)
    ensures q[n..] == Queue(t.rows) && AllComplete(t.rows, q[n..]) && Sizes(rows, q)[n..] == Sizes(t.rows, q[n..])
  {
    QuietQuery(rows, w);
    FirstIsBatch(rows, q);
    OnePassEffect(rows, need, w);
    QueueAfter(rows, t, n);
    SizesAfter(rows, t, q, n);
  }

  /** With no failures and no interference, the batched loop evicts the first
      `Batched(..)` rows of the least-recently-used order. */
  lemma {:induction false} EvictionFollowsPlan(rows: Rows, q: seq<Inode>, sizes: seq<nat>, need: nat, w: World)
    requires Quiet(w) && q == Queue(rows) && AllComplete(rows, q) && sizes == Sizes(rows, q)
    ensures |sizes| == |q| && RunLoop(rows, need, w).0.evicted == q[..Batched(sizes, need, BATCH)]
    decreases EvictableRows(rows)
  {
    QuietQuery(rows, w);
    if need > 0 && q != [] {
      var t, n := OnePass(rows, need, w), SinglePass(Take(sizes, BATCH), need);
      FirstPass(rows, q, sizes, need, w, t, n);
      QuietUnfold(rows, q, need, w, t);
      var rest := RunLoop(t.rows, Less(need, t.freed), w.Later()).0.evicted;
      if t.freed > 0 {
        RestOfQueue(rows, q, need, w, t, n);
        EvictionFollowsPlan(t.rows, q[n..], sizes[n..], Less(need, t.freed), w.Later());
      }
      FollowStep(q, sizes, need, n, t.freed, rest, RunLoop(rows, need, w).0.evicted);
    }
  }

  /** The eviction run refines a single unbatched pass: it evicts exactly the shortest prefix
      of the least-recently-used order that frees `need` bytes (or everything) if and only
      if it meets no batch made of empty files on the way. */
  lemma EvictionRefinesSinglePass(rows: Rows, need: nat, w: World)
    requires Quiet(w) && AllComplete(rows, Queue(rows))
    ensures
      var sizes := Sizes(rows, Queue(rows));
      Shortest(sizes, need, |RunLoop(rows, need, w).0.evicted|) <==> NoEmptyBatch(sizes, need, BATCH)
    ensures RunLoop(rows, need, w).0.evicted <= Queue(rows)
  {
    var sizes := Sizes(rows, Queue(rows));
    EvictionFollowsPlan(rows, Queue(rows), sizes, need, w);
    BatchedShortest(sizes, need);
  }

  lemma BatchedShortest(sizes: seq<nat>, need: nat)
    ensures Shortest(sizes, need, Batched(sizes, need, BATCH)) <==> NoEmptyBatch(sizes, need, BATCH)
  {
    var n := Batched(sizes, need, BATCH);
    BatchedIsSinglePass(sizes, need, BATCH);
    SinglePassIsShortest(sizes, need);
    if Shortest(sizes, need, n) { ShortestUnique(sizes, need, n, SinglePass(sizes, need)); }
  }

  // --------------------------------------------------------------- a batch of empty files

  lemma {:induction false} ZeroesSum(sizes: seq<nat>)
    requires forall k :: 0 <= k < |sizes| ==> sizes[k] == 0
    ensures Sum(sizes) == 0
  {
    if sizes != [] { ZeroesSum(sizes[..|sizes| - 1]); }
  }

  lemma ZeroFront(sizes: seq<nat>, limit: nat, n: nat)
    requires n <= |Take(sizes, limit)| && forall k :: 0 <= k < limit && k < |sizes| ==> sizes[k] == 0
    ensures Sum(Take(sizes, limit)[..n]) == 0
  {
    ZeroesSum(Take(sizes, limit)[..n]);
  }

  /** The oldest candidates, a whole batch of them, are empty files. */
  ghost predicate EmptyBatch(rows: Rows, q: seq<Inode>) {
    && q == Queue(rows) && AllComplete(rows, q) && |q| > BATCH
    && forall k :: 0 <= k < BATCH ==> SizeIn(rows, q[k]) == 0
  }

  lemma EmptySizes(rows: Rows, q: seq<Inode>, sizes: seq<nat>)
    requires EmptyBatch(rows, q) && sizes == Sizes(rows, q)
    ensures forall k :: 0 <= k < BATCH && k < |sizes| ==> sizes[k] == 0
  {
  }

  lemma EmptyPass(rows: Rows, q: seq<Inode>, sizes: seq<nat>, need: nat, w: World, t: Tally)
    requires Quiet(w) && EmptyBatch(rows, q) && t == OnePass(rows, need, w) && sizes == Sizes(rows, q)
    requires forall k :: 0 <= k < BATCH && k < |sizes| ==> sizes[k] == 0
    ensures t.freed == 0 && |t.evicted| <= BATCH && t.evicted <= q && OnlyEvicted(rows, t.rows, t.evicted)
  {
    var n := SinglePass(Take(sizes, BATCH), need);
    FirstPass(rows, q, sizes, need, w, t, n);
    EmptyPrefix(q, sizes, t, n);
  }

  lemma EmptyPrefix(q: seq<Inode>, sizes: seq<nat>, t: Tally, n: nat)
    requires ByPlan(q, sizes, t, n) && forall k :: 0 <= k < BATCH && k < |sizes| ==> sizes[k] == 0
    ensures t.freed == 0 && |t.evicted| <= BATCH && t.evicted <= q
  {
    ZeroFront(sizes, BATCH, n);
  }

  /** The loop then ends after that batch with nothing freed, whatever else there is to evict. */
  lemma EmptyBatchStops(rows: Rows, q: seq<Inode>, need: nat, w: World)
    requires Quiet(w) && EmptyBatch(rows, q) && need > 0
    ensures
      var r := RunLoop(rows, need, w);
      && r.1 == NoProgress && r.0.freed == 0
      && |r.0.evicted| <= BATCH && r.0.evicted <= q && OnlyEvicted(rows, r.0.rows, r.0.evicted)
  {
    EmptySizes(rows, q, Sizes(rows, q));
    EmptyPass(rows, q, Sizes(rows, q), need, w, OnePass(rows, need, w));
    QuietUnfold(rows, q, need, w, OnePass(rows, need, w));
  }

  function Name(i: Inode): string { seq(i, _ => 'a') }

  const ROOT: Row := Row(None, "/", "/", Directory, 0, 0, None, Remote, None, None, 0, None, None)

  /** File `i` was last used at time `i`; of 1001 files only the youngest has any content. */
  function Sample(i: Inode): Row {
    var size := if i <= BATCH + 1 then 0 else 5;
    Row(Some(ROOT_INODE), Name(i), Name(i), File, size, 0, None, Cached, Some(Name(i)), Some(size), 0, None,
        Some(Lru(i, false)))
  }

  /** `n` files take the inodes after the root's. */
  predicate InRange(i: nat, n: nat) { 2 <= i <= n + 1 }

  function Range(n: nat): set<nat> { set i: nat | i <= n + 1 && InRange(i, n) }

  function SampleRows(n: nat): Rows { (map i | i in Range(n) :: Sample(i))[ROOT_INODE := ROOT] }

  lemma {:induction false} RangeSize(n: nat)
    ensures |Range(n)| == n
  {
    if n == 0 {
      assert Range(n) == {};
    } else {
      RangeSize(n - 1);
      assert Range(n) == Range(n - 1) + {n + 1};
    }
  }

  lemma SampleCandidates(n: nat, rows: Rows)
    requires rows == SampleRows(n)
    ensures EvictableRows(rows) == Range(n)
    ensures forall i :: i in Range(n) ==> i in rows && rows[i] == Sample(i) && Complete(rows[i])
  {
  }

  lemma SampleQueue(n: nat, rows: Rows, q: seq<Inode>)
    requires rows == SampleRows(n) && q == Queue(rows)
    ensures |q| == n && AllComplete(rows, q) && (forall k :: 0 <= k < |q| ==> InRange(q[k], n))
  {
    RangeSize(n);
    SampleCandidates(n, rows);
    forall k | 0 <= k < |q| ensures InRange(q[k], n) && q[k] in Range(n) { assert q[k] in ElemsOf(q); }
    assert forall i :: i in q ==> i in ElemsOf(q);
  }

  /** The youngest file comes last. */
  lemma SampleOrder(n: nat, rows: Rows, q: seq<Inode>, k: nat)
    requires rows == SampleRows(n) && q == Queue(rows) && |q| == n && k < n - 1
    requires forall l :: 0 <= l < |q| ==> InRange(q[l], n)
    ensures q[k] <= n
  {
    RankedAscending(EvictableRows(rows), LastAccess(rows));
    assert Before(LastAccess(rows), q[k], q[k + 1]);
    assert q[k] in Range(n) && q[k + 1] in Range(n);
    SampleCandidates(n, rows);
  }

  lemma SampleValid(n: nat)
    ensures Valid(SampleRows(n))
  {
    var rows := SampleRows(n);
    forall i | i in rows ensures Admissible(rows, i, rows[i]) {
      forall j | j in rows && j != i ensures !Clashes(rows[i], rows[j]) { SamplesApart(n, i, j); }
    }
  }

  lemma SamplesApart(n: nat, i: Inode, j: Inode)
    requires i in SampleRows(n) && j in SampleRows(n) && i != j
    ensures !Clashes(SampleRows(n)[i], SampleRows(n)[j])
  {
    assert |Name(i)| == i && |Name(j)| == j;
    assert i != ROOT_INODE ==> Name(i)[0] == 'a';
    assert j != ROOT_INODE ==> Name(j)[0] == 'a';
  }

  lemma SampleEmptyBatch(n: nat, rows: Rows, q: seq<Inode>)
    requires n == BATCH + 1 && rows == SampleRows(n) && q == Queue(rows)
    ensures EmptyBatch(rows, q) && forall k :: 0 <= k < BATCH ==> q[k] != n + 1
  {
    SampleQueue(n, rows, q);
    SampleCandidates(n, rows);
    forall k | 0 <= k < BATCH ensures q[k] != n + 1 && SizeIn(rows, q[k]) == 0 {
      SampleOrder(n, rows, q, k);
      assert InRange(q[k], n) && q[k] in Range(n);
    }
  }

  /** What is left to evict in `rows`. */
  ghost predicate StillEvictable(rows: Rows, i: Inode, bytes: nat) {
    i in rows && Evictable(rows[i]) && CacheBytes(rows[i]) == bytes
  }

  lemma YoungestStays(n: nat, rows: Rows, q: seq<Inode>, after: Rows, evicted: seq<Inode>)
    requires n == BATCH + 1 && rows == SampleRows(n) && OnlyEvicted(rows, after, evicted)
    requires evicted <= q && |evicted| <= BATCH < |q| && forall k :: 0 <= k < BATCH ==> q[k] != n + 1
    ensures StillEvictable(after, n + 1, 5)
  {
    assert InRange(n + 1, n) && n + 1 in Range(n);
    assert n + 1 !in evicted;
  }

  /** Below the root, a thousand empty files older than one of five bytes: the loop gives up
      although that one is still there to evict. */
  lemma EmptyFilesStopEviction(n: nat, need: nat, w: World) returns (rows: Rows)
    requires n == 1001 && need > 0 && Quiet(w)
    ensures Valid(rows) && ROOT_INODE in rows && rows[ROOT_INODE] == ROOT && AllComplete(rows, Queue(rows))
    ensures RunLoop(rows, need, w).1 == NoProgress && RunLoop(rows, need, w).0.freed == 0
    ensures StillEvictable(RunLoop(rows, need, w).0.rows, n + 1, 5)
  {
    rows := SampleRows(n);
    var q := Queue(rows);
    SampleValid(n);
    SampleEmptyBatch(n, rows, q);
    EmptyBatchStops(rows, q, need, w);
    YoungestStays(n, rows, q, RunLoop(rows, need, w).0.rows, RunLoop(rows, need, w).0.evicted);
  }

  // ------------------------------------------------------- a write in the middle of a turn

  /** A write lands between the status check of the only candidate and its eviction: the row
      loses its cache all the same, and the bytes are off by the growth of the file. */
  lemma LateWriteIsLost(rows: Rows, i: Inode, size: nat, need: nat, w: World)
    requires Queue(rows) == [i] && i in rows && Complete(rows[i]) && rows[i].kind == File
    requires 0 < need <= CacheBytes(rows[i])
    requires w.Landing(BeforeQuery) == [] && w.Landing(BeforeTurn(i)) == [] && w.Landing(InTurn(i)) == [Write(i, size)]
    requires w.Removes(i)
    ensures
      var r := RunLoop(rows, need, w);
      && i in r.0.rows && r.0.rows[i].status == Remote && r.0.rows[i].cachePath == None
      && TotalBytes(r.0.rows) + r.0.freed == TotalBytes(rows) + r.0.growth - (size - CacheBytes(rows[i]))
  {
    OneTurn(rows, i, size, need, w);
    EvictionAccounts(rows, need, w);
  }

  lemma OneTurn(rows: Rows, i: Inode, size: nat, need: nat, w: World)
    requires Queue(rows) == [i] && i in rows && Complete(rows[i]) && rows[i].kind == File
    requires 0 < need <= CacheBytes(rows[i])
    requires w.Landing(BeforeQuery) == [] && w.Landing(BeforeTurn(i)) == [] && w.Landing(InTurn(i)) == [Write(i, size)]
    requires w.Removes(i)
    ensures
      var r := RunLoop(rows, need, w);
      r.0.rows == rows[i := Evicted(Dirtied(rows[i], size))] && r.0.lost == size - CacheBytes(rows[i])
  {
    assert i in ElemsOf(Queue(rows));
    LateTurn(rows, i, size, w);
    var batch := [i];
    assert batch[..|batch| - 1] == [];
    assert RunPass(rows, batch[..|batch| - 1], need, w) == Idle(rows);
    var t := RunPass(rows, batch, need, w);
    assert t == Visit(rows, Idle(rows), i, w);
    assert [] + t.evicted == t.evicted;
    assert AtQuery(rows, w) == Idle(rows) && Take(Queue(rows), BATCH) == [i];
    assert OnePass(rows, need, w) == Join(Idle(rows), t);
    assert Less(need, t.freed) == 0;
  }

  lemma LateTurn(rows: Rows, i: Inode, size: nat, w: World)
    requires i in rows && rows[i].status.Cached? && Complete(rows[i]) && w.Removes(i)
    requires w.Landing(BeforeTurn(i)) == [] && w.Landing(InTurn(i)) == [Write(i, size)]
    ensures
      var t := Visit(rows, Idle(rows), i, w);
      && t.rows == rows[i := Evicted(Dirtied(rows[i], size))]
      && t.freed == CacheBytes(rows[i]) && t.lost == size - CacheBytes(rows[i])
  {
    var ws := [Write(i, size)];
    assert ws[..|ws| - 1] == [];
    assert WriteAll(rows, []) == rows;
    assert WriteAll(rows, ws) == SetDirtySize(rows, ws[|ws| - 1].inode, ws[|ws| - 1].size);
    var late := Dirtied(rows[i], size);
    assert rows[i := late][i := Evicted(late)] == rows[i := Evicted(late)];
  }
}
