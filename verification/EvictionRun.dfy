/** One run of cache eviction as a function of the table and of what the run meets: removals
    that may fail, and local writes that may land on any row before a query, before a
    candidate's turn, or in the middle of it. */
module EvictionRun {
  import opened Types
  import opened Sequences
  import opened Ordering
  import opened FileIndex
  import opened Statements
  import opened EvictionPlan
  import opened CacheUse

  const BATCH: nat := 1000

  // ----------------------------------------------------------------- candidates

  predicate Evictable(r: Row) {
    r.status.Cached? && r.lru.Some? && !r.lru.value.pinned
  }

  /** In columns: the row is cached, has an LRU row and is not pinned. */
  predicate CachedUnpinned(r: Row) { r.status == Cached && r.lru.Some? && r.lru.value.pinned == false }

  function EvictableRows(rows: Rows): set<Inode> {
    set i | i in rows && Evictable(rows[i])
  }

  function LastAccess(rows: Rows): nat -> int {
    i => if i in rows && rows[i].lru.Some? then rows[i].lru.value.lastAccess else 0
  }

  /** All candidates, least recently used first. */
  function Queue(rows: Rows): seq<Inode> {
    Ranked(EvictableRows(rows), LastAccess(rows))
  }

  /** The columns that the candidate query reads are not NULL. */
  predicate Complete(r: Row) { r.cachePath.Some? && r.cacheSize.Some? }

  predicate AllComplete(rows: Rows, batch: seq<Inode>) {
    forall i :: i in batch && i in rows ==> Complete(rows[i])
  }

  // ------------------------------------------------------------------- the world

  /** How unlinking a cache file turns out. A file that is missing already counts as gone. */
  datatype Removal = Unlinked | AlreadyMissing | Failed

  /** When a write can land: before a pass's query, before a candidate's status is read, or
      between that reading and the statement that clears the row. */
  datatype Moment = BeforeQuery | BeforeTurn(candidate: Inode) | InTurn(candidate: Inode)

  /** What the loop meets from pass `pass` on. */
  datatype World = World(removal: (nat, Inode) -> Removal, writes: (nat, Moment) -> seq<Write>, pass: nat)
  {
    predicate Removes(i: Inode) { removal(pass, i) != Failed }

    function Landing(m: Moment): seq<Write> { writes(pass, m) }

    function Later(): World { World(removal, writes, pass + 1) }
  }

  ghost predicate EverWritten(writes: (nat, Moment) -> seq<Write>, i: Inode) {
    exists p: nat, m: Moment :: Hits(writes(p, m), i)
  }

  /** The rows that some write hits. */
  ghost function Written(writes: (nat, Moment) -> seq<Write>): iset<Inode> {
    iset i: Inode | EverWritten(writes, i)
  }

  /** No write lands on a candidate between its status check and its eviction. */
  ghost predicate RaceFree(w: World) {
    forall p: nat, i: Inode :: !Hits(w.writes(p, InTurn(i)), i)
  }

  // ------------------------------------------------------------------ one pass

  datatype Exit = BelowHighMark | QueryFailed | FreedEnough | NoCandidates | NoProgress

  /** Progress of a run: the rows, the bytes credited, the candidates skipped, the rows evicted
      in order and the pass of each eviction, what writes added to the cached bytes, what
      evictions wiped beyond the bytes credited for them, and the rows that had unsynced edits
      when they were cleared. */
  datatype Tally = Tally(rows: Rows, freed: nat, skipped: nat, evicted: seq<Inode>, passes: seq<nat>,
                         growth: int, lost: int, wiped: seq<Inode>)

  function Idle(rows: Rows): Tally { Tally(rows, 0, 0, [], [], 0, 0, []) }

  function Land(t: Tally, ws: seq<Write>): Tally {
    t.(rows := WriteAll(t.rows, ws), growth := t.growth + Growth(t.rows, ws))
  }

  function Skip(t: Tally): Tally { t.(skipped := t.skipped + 1) }

  /** Eviction credits the size that the query reported. */
  function Drop(from: Rows, t: Tally, i: Inode, pass: nat): Tally {
    var edited := i in t.rows && t.rows[i].status.IsLocalWork();
    Tally(SetEvicted(t.rows, i), t.freed + SizeIn(from, i), t.skipped, t.evicted + [i], t.passes + [pass],
          t.growth, t.lost + SizeIn(t.rows, i) - SizeIn(from, i), if edited then t.wiped + [i] else t.wiped)
  }

  /** A candidate's turn, `from` being the rows at the time of the query: a row that is no
      longer cached is skipped, and so is one whose cache file cannot be removed. */
  function Visit(from: Rows, t: Tally, i: Inode, w: World): Tally {
    var seen := Land(t, w.Landing(BeforeTurn(i)));
    if i !in seen.rows || !seen.rows[i].status.Cached? then Skip(seen)
    else
      var late := Land(seen, w.Landing(InTurn(i)));
      if w.Removes(i) then Drop(from, late, i, w.pass) else Skip(late)
  }

  function RunPass(from: Rows, batch: seq<Inode>, need: nat, w: World): Tally {
    if batch == [] then Idle(from)
    else
      var t := RunPass(from, batch[..|batch| - 1], need, w);
      if t.freed >= need then t else Visit(from, t, batch[|batch| - 1], w)
  }

  ghost predicate Batch(rows: Rows, batch: seq<Inode>) {
    && (forall k, l :: 0 <= k < l < |batch| ==> batch[k] != batch[l])
    && (forall i :: i in batch ==> i in rows && Evictable(rows[i]) && Complete(rows[i]))
  }

  lemma BatchFront(rows: Rows, batch: seq<Inode>)
    requires Batch(rows, batch) && batch != []
    ensures
      var front, i := batch[..|batch| - 1], batch[|batch| - 1];
      && Batch(rows, front) && batch == front + [i]
      && i !in front && i in rows && Evictable(rows[i]) && Complete(rows[i])
  {
  }

  // ------------------------------------------------------------- effect on the rows

  /** What an evicted row can have become: a write in the middle of the turn leaves its size. */
  predicate Loses(a: Row, b: Row, written: bool) {
    b == Evicted(a) || (written && (b == Evicted(a).(size := b.size) || Rewritten(Evicted(a), b)))
  }

  /** Only rows in `evicted` lost their cache, and those were candidates at the start; every
      other row is as it was, or as a write left it. */
  ghost predicate Changed(before: Rows, after: Rows, evicted: seq<Inode>, written: iset<Inode>) {
    && after.Keys == before.Keys
    && (forall i :: i in evicted ==>
          i in before && CachedUnpinned(before[i]) && Loses(before[i], after[i], i in written))
    && (forall i :: i in before && i !in evicted ==> Stays(before[i], after[i], i in written))
  }

  lemma ChangedByWrites(before: Rows, mid: Rows, evicted: seq<Inode>, written: iset<Inode>, ws: seq<Write>)
    requires Changed(before, mid, evicted, written) && forall i :: Hits(ws, i) ==> i in written
    ensures Changed(before, WriteAll(mid, ws), evicted, written)
  {
    WritesTouch(mid, ws);
  }

  lemma ChangedByEviction(before: Rows, mid: Rows, evicted: seq<Inode>, written: iset<Inode>, i: Inode)
    requires Changed(before, mid, evicted, written) && i in before && Evictable(before[i]) && i !in evicted
    ensures Changed(before, SetEvicted(mid, i), evicted + [i], written)
  {
  }

  /** A row that is still cached has not been touched. */
  lemma CachedUntouched(before: Rows, after: Rows, evicted: seq<Inode>, written: iset<Inode>, i: Inode)
    requires Changed(before, after, evicted, written) && i in before && after[i].status.Cached?
    ensures i !in evicted && after[i] == before[i]
  {
  }

  lemma ChangedTwice(a: Rows, b: Rows, c: Rows, first: seq<Inode>, more: seq<Inode>, written: iset<Inode>)
    requires Changed(a, b, first, written) && Changed(b, c, more, written)
    ensures Changed(a, c, first + more, written)
    ensures forall i :: i in more ==> i in a && i in b && a[i] == b[i]
  {
    forall i | i in more ensures i in a && i !in first && a[i] == b[i] { CachedUntouched(a, b, first, written, i); }
    forall i | i in first ensures i in a && Loses(a[i], c[i], i in written) {}
  }

  /** What a pass over `batch` may have done. */
  ghost predicate Effect(from: Rows, batch: seq<Inode>, w: World, t: Tally) {
    && Changed(from, t.rows, t.evicted, Written(w.writes))
    && (forall i :: i in t.evicted ==> i in batch && w.Removes(i))
  }

  lemma LandEffect(from: Rows, batch: seq<Inode>, w: World, t: Tally, m: Moment)
    requires Effect(from, batch, w, t)
    ensures Effect(from, batch, w, Land(t, w.Landing(m)))
  {
    assert forall i :: Hits(w.writes(w.pass, m), i) ==> EverWritten(w.writes, i);
    ChangedByWrites(from, t.rows, t.evicted, Written(w.writes), w.Landing(m));
  }

  lemma DropEffect(from: Rows, front: seq<Inode>, i: Inode, w: World, t: Tally)
    requires Effect(from, front, w, t) && i in from && Evictable(from[i]) && i !in front && w.Removes(i)
    ensures Effect(from, front + [i], w, Drop(from, t, i, w.pass))
  {
    ChangedByEviction(from, t.rows, t.evicted, Written(w.writes), i);
  }

  lemma MoreEffect(from: Rows, front: seq<Inode>, i: Inode, w: World, t: Tally)
    requires Effect(from, front, w, t)
    ensures Effect(from, front + [i], w, t) && Effect(from, front + [i], w, Skip(t))
  {
  }

  lemma VisitEffect(from: Rows, front: seq<Inode>, i: Inode, w: World, t: Tally)
    requires Effect(from, front, w, t) && i in from && Evictable(from[i]) && i !in front
    ensures Effect(from, front + [i], w, Visit(from, t, i, w))
  {
    LandEffect(from, front, w, t, BeforeTurn(i));
    var seen := Land(t, w.Landing(BeforeTurn(i)));
    LandEffect(from, front, w, seen, InTurn(i));
    var late := Land(seen, w.Landing(InTurn(i)));
    MoreEffect(from, front, i, w, seen);
    MoreEffect(from, front, i, w, late);
    if w.Removes(i) { DropEffect(from, front, i, w, late); }
  }

  lemma {:induction false} PassEffect(from: Rows, batch: seq<Inode>, need: nat, w: World)
    requires Batch(from, batch)
    ensures Effect(from, batch, w, RunPass(from, batch, need, w))
    decreases |batch|
  {
    if batch != [] {
      var front, i := batch[..|batch| - 1], batch[|batch| - 1];
      BatchFront(from, batch);
      PassEffect(from, front, need, w);
      MoreEffect(from, front, i, w, RunPass(from, front, need, w));
      VisitEffect(from, front, i, w, RunPass(from, front, need, w));
    }
  }

  // ------------------------------------------------------------- effect on the bytes

  /** What was credited is what the evicted rows held at the start, and the cached bytes fell
      by that and by what was lost, but for what writes added. */
  ghost predicate Settled(from: Rows, t: Tally) {
    && t.freed == Sum(Sizes(from, t.evicted))
    && TotalBytes(t.rows) + t.freed + t.lost == TotalBytes(from) + t.growth
  }

  lemma LandSettled(from: Rows, t: Tally, ws: seq<Write>)
    requires Settled(from, t)
    ensures Settled(from, Land(t, ws))
  {
    WritesGrow(t.rows, ws);
  }

  lemma DropSettled(from: Rows, t: Tally, i: Inode, pass: nat)
    requires Settled(from, t) && i in t.rows
    ensures Settled(from, Drop(from, t, i, pass))
  {
    BytesUpdate(t.rows, i, Evicted(t.rows[i]));
    SizesSnoc(from, t.evicted, i);
  }

  lemma SkipSettled(from: Rows, t: Tally)
    requires Settled(from, t)
    ensures Settled(from, Skip(t))
  {
  }

  /** The part of a turn after the status check. */
  lemma RestSettled(from: Rows, seen: Tally, i: Inode, ws: seq<Write>, pass: nat)
    requires Settled(from, seen) && i in seen.rows
    ensures Settled(from, Skip(Land(seen, ws))) && Settled(from, Drop(from, Land(seen, ws), i, pass))
  {
    LandSettled(from, seen, ws);
    SkipSettled(from, Land(seen, ws));
    WritesTouch(seen.rows, ws);
    DropSettled(from, Land(seen, ws), i, pass);
  }

  lemma VisitSettled(from: Rows, t: Tally, i: Inode, w: World)
    requires Settled(from, t)
    ensures Settled(from, Visit(from, t, i, w))
  {
    LandSettled(from, t, w.Landing(BeforeTurn(i)));
    var seen := Land(t, w.Landing(BeforeTurn(i)));
    SkipSettled(from, seen);
    if i in seen.rows { RestSettled(from, seen, i, w.Landing(InTurn(i)), w.pass); }
  }

  lemma {:induction false} PassSettled(from: Rows, batch: seq<Inode>, need: nat, w: World)
    ensures Settled(from, RunPass(from, batch, need, w))
    decreases |batch|
  {
    if batch != [] {
      PassSettled(from, batch[..|batch| - 1], need, w);
      VisitSettled(from, RunPass(from, batch[..|batch| - 1], need, w), batch[|batch| - 1], w);
    }
  }

  // ------------------------------------------------------- which candidates are tried

  /** Nothing is evicted once enough is freed; and a pass that frees too little has tried
      every candidate: each was evicted, could not be removed, or had become dirty. */
  ghost predicate Tight(from: Rows, batch: seq<Inode>, need: nat, w: World, t: Tally) {
    && (t.evicted != [] ==> Sum(Sizes(from, t.evicted[..|t.evicted| - 1])) < need)
    && (t.freed < need ==>
          && t.skipped + |t.evicted| == |batch|
          && forall i :: i in batch ==> Tried(w, t, i))
  }

  predicate Tried(w: World, t: Tally, i: Inode) {
    i in t.evicted || !w.Removes(i) || (i in t.rows && t.rows[i].status.Dirty?)
  }

  lemma LandTried(w: World, t: Tally, ws: seq<Write>, i: Inode)
    requires Tried(w, t, i)
    ensures Tried(w, Land(t, ws), i)
  {
    WritesTouch(t.rows, ws);
  }

  lemma DropTried(from: Rows, w: World, t: Tally, i: Inode, j: Inode)
    requires Tried(w, t, j) || j == i
    ensures Tried(w, Drop(from, t, i, w.pass), j)
  {
  }

  /** A candidate that is not cached any more at its turn has become dirty. */
  lemma SkippedIsDirty(from: Rows, front: seq<Inode>, i: Inode, w: World, t: Tally)
    requires Effect(from, front, w, t) && i in from && Evictable(from[i]) && i !in front
    requires !t.rows[i].status.Cached?
    ensures t.rows[i].status.Dirty?
  {
  }

  lemma VisitTried(from: Rows, front: seq<Inode>, i: Inode, w: World, t: Tally, j: Inode)
    requires Effect(from, front, w, t) && i in from && Evictable(from[i]) && i !in front
    requires Tried(w, t, j) || j == i
    ensures Tried(w, Visit(from, t, i, w), j)
  {
    var seen := Land(t, w.Landing(BeforeTurn(i)));
    var late := Land(seen, w.Landing(InTurn(i)));
    LandEffect(from, front, w, t, BeforeTurn(i));
    if !seen.rows[i].status.Cached? { SkippedIsDirty(from, front, i, w, seen); }
    if j != i {
      LandTried(w, t, w.Landing(BeforeTurn(i)), j);
      LandTried(w, seen, w.Landing(InTurn(i)), j);
    }
    if w.Removes(i) { DropTried(from, w, late, i, j); }
  }

  /** A turn skips its candidate or evicts it, and evicts only while bytes are needed. */
  lemma VisitCounts(from: Rows, t: Tally, i: Inode, w: World)
    ensures
      var t' := Visit(from, t, i, w);
      || (t'.skipped == t.skipped + 1 && t'.evicted == t.evicted && t'.freed == t.freed)
      || (t'.skipped == t.skipped && t'.evicted == t.evicted + [i] && t'.evicted[..|t'.evicted| - 1] == t.evicted)
    ensures Visit(from, t, i, w).freed >= t.freed
  {
    assert (t.evicted + [i])[..|t.evicted|] == t.evicted;
  }

  lemma VisitTight(from: Rows, front: seq<Inode>, i: Inode, need: nat, w: World, t: Tally)
    requires Effect(from, front, w, t) && Settled(from, t) && Tight(from, front, need, w, t) && t.freed < need
    requires i in from && Evictable(from[i]) && i !in front
    ensures Tight(from, front + [i], need, w, Visit(from, t, i, w))
  {
    VisitCounts(from, t, i, w);
    forall j | j in front + [i] ensures Tried(w, Visit(from, t, i, w), j) { VisitTried(from, front, i, w, t, j); }
  }

  lemma {:induction false} PassTight(from: Rows, batch: seq<Inode>, need: nat, w: World)
    requires Batch(from, batch)
    ensures Tight(from, batch, need, w, RunPass(from, batch, need, w))
    decreases |batch|
  {
    if batch != [] {
      var front, i := batch[..|batch| - 1], batch[|batch| - 1];
      BatchFront(from, batch);
      PassTight(from, front, need, w);
      PassSettled(from, front, need, w);
      PassEffect(from, front, need, w);
      var t := RunPass(from, front, need, w);
      if t.freed < need { VisitTight(from, front, i, need, w, t); }
    }
  }

  // ----------------------------------------------------------------- the whole run

  lemma NextBatch(rows: Rows)
    requires AllComplete(rows, Take(Queue(rows), BATCH))
    ensures Batch(rows, Take(Queue(rows), BATCH))
  {
    var batch := Take(Queue(rows), BATCH);
    RankedAscending(EvictableRows(rows), LastAccess(rows));
    assert forall i :: i in batch ==> i in ElemsOf(Queue(rows));
  }

  lemma NoBatch(rows: Rows)
    requires Take(Queue(rows), BATCH) == []
    ensures EvictableRows(rows) == {}
  {
    assert ElemsOf(Queue(rows)) == {};
  }

  lemma ChangedShrinks(before: Rows, after: Rows, evicted: seq<Inode>, written: iset<Inode>)
    requires Changed(before, after, evicted, written)
    ensures EvictableRows(after) <= EvictableRows(before)
    ensures evicted != [] ==> EvictableRows(after) < EvictableRows(before)
  {
    forall i | i in EvictableRows(after) ensures i in EvictableRows(before) {
      CachedUntouched(before, after, evicted, written, i);
    }
    if evicted != [] {
      var i := evicted[0];
      assert i in EvictableRows(before) && i !in EvictableRows(after);
    }
  }

  /** The rows that the next query meets. */
  function AtQuery(rows: Rows, w: World): Tally { Land(Idle(rows), w.Landing(BeforeQuery)) }

  lemma QueryEffect(rows: Rows, w: World)
    ensures Changed(rows, AtQuery(rows, w).rows, [], Written(w.writes)) && Settled(rows, AtQuery(rows, w))
  {
    assert Effect(rows, [], w, Idle(rows));
    LandEffect(rows, [], w, Idle(rows), BeforeQuery);
    assert Settled(rows, Idle(rows));
    LandSettled(rows, Idle(rows), w.Landing(BeforeQuery));
  }

  function Join(a: Tally, b: Tally): Tally {
    Tally(b.rows, a.freed + b.freed, a.skipped + b.skipped, a.evicted + b.evicted, a.passes + b.passes,
          a.growth + b.growth, a.lost + b.lost, a.wiped + b.wiped)
  }

  function OnePass(rows: Rows, need: nat, w: World): Tally {
    var here := AtQuery(rows, w);
    Join(here, RunPass(here.rows, Take(Queue(here.rows), BATCH), need, w))
  }

  lemma OnePassChanges(rows: Rows, need: nat, w: World)
    requires AllComplete(AtQuery(rows, w).rows, Take(Queue(AtQuery(rows, w).rows), BATCH))
    ensures var t := OnePass(rows, need, w); Changed(rows, t.rows, t.evicted, Written(w.writes))
  {
    var here := AtQuery(rows, w);
    var batch := Take(Queue(here.rows), BATCH);
    NextBatch(here.rows);
    QueryEffect(rows, w);
    PassEffect(here.rows, batch, need, w);
    var t := RunPass(here.rows, batch, need, w);
    ChangedTwice(rows, here.rows, t.rows, [], t.evicted, Written(w.writes));
  }

  /** Bytes are credited only for evicted rows. */
  lemma CreditNeedsEviction(from: Rows, t: Tally)
    requires Settled(from, t) && t.freed > 0
    ensures t.evicted != []
  {
  }

  lemma OnePassEvicts(rows: Rows, need: nat, w: World)
    requires OnePass(rows, need, w).freed > 0
    ensures OnePass(rows, need, w).evicted != []
  {
    var here := AtQuery(rows, w);
    var batch := Take(Queue(here.rows), BATCH);
    PassSettled(here.rows, batch, need, w);
    CreditNeedsEviction(here.rows, RunPass(here.rows, batch, need, w));
  }

  /** A pass that frees anything leaves fewer candidates. */
  lemma OnePassEffect(rows: Rows, need: nat, w: World)
    requires AllComplete(AtQuery(rows, w).rows, Take(Queue(AtQuery(rows, w).rows), BATCH))
    ensures
      var t := OnePass(rows, need, w);
      && Changed(rows, t.rows, t.evicted, Written(w.writes))
      && (t.freed > 0 ==> EvictableRows(t.rows) < EvictableRows(rows))
  {
    OnePassChanges(rows, need, w);
    var t := OnePass(rows, need, w);
    if t.freed > 0 { OnePassEvicts(rows, need, w); }
    ChangedShrinks(rows, t.rows, t.evicted, Written(w.writes));
  }

  /** The eviction loop from here on, with `need` bytes still to free. */
  ghost function RunLoop(rows: Rows, need: nat, w: World): (r: (Tally, Exit))
    decreases EvictableRows(rows)
  {
    if need == 0 then (Idle(rows), FreedEnough)
    else
      var here := AtQuery(rows, w);
      if !AllComplete(here.rows, Take(Queue(here.rows), BATCH)) then (here, QueryFailed)
      else if Take(Queue(here.rows), BATCH) == [] then (here, NoCandidates)
      else
        var t := OnePass(rows, need, w);
        OnePassEffect(rows, need, w);
        if t.freed == 0 then (t, NoProgress)
        else
          var r := RunLoop(t.rows, Less(need, t.freed), w.Later());
          (Join(t, r.0), r.1)
  }

  // --------------------------------------------------------------- accounting for a run

  /** The money side of a run; and the last eviction was still needed. */
  ghost predicate Balanced(rows: Rows, need: nat, t: Tally) {
    Settled(rows, t) && (t.evicted != [] ==> Sum(Sizes(rows, t.evicted[..|t.evicted| - 1])) < need)
  }

  lemma LastStillNeeded(a: Rows, b: Rows, first: seq<Inode>, more: seq<Inode>, need: nat)
    requires forall i :: i in more ==> i in a && i in b && a[i] == b[i]
    requires first != [] ==> Sum(Sizes(a, first[..|first| - 1])) < need
    requires more != [] ==> Sum(Sizes(b, more[..|more| - 1])) < Less(need, Sum(Sizes(a, first)))
    ensures
      var all := first + more;
      all != [] ==> Sum(Sizes(a, all[..|all| - 1])) < need
  {
    var all := first + more;
    if more != [] {
      var front := more[..|more| - 1];
      assert all[..|all| - 1] == first + front;
      assert forall i :: i in front ==> i in more;
      SizesJoin(a, b, first, front);
    } else {
      assert all == first;
    }
  }

  lemma JoinBalanced(rows: Rows, need: nat, t: Tally, rest: Tally)
    requires forall i :: i in rest.evicted ==> i in rows && i in t.rows && rows[i] == t.rows[i]
    requires Balanced(rows, need, t) && Balanced(t.rows, Less(need, t.freed), rest)
    ensures Balanced(rows, need, Join(t, rest))
  {
    SizesJoin(rows, t.rows, t.evicted, rest.evicted);
    LastStillNeeded(rows, t.rows, t.evicted, rest.evicted, need);
  }

  /** Why a run may end as it does. */
  ghost predicate Justified(need: nat, t: Tally, exit: Exit) {
    && (exit == FreedEnough <==> t.freed >= need)
    && (exit == NoCandidates ==> EvictableRows(t.rows) == {})
    && (exit == QueryFailed ==> !AllComplete(t.rows, Take(Queue(t.rows), BATCH)))
    && exit != BelowHighMark
  }

  /** A run that ended with `exit` after evicting `t.evicted` to free `need` bytes: only
      candidates of the start lost their cache, every byte is accounted for, and the run
      stopped for the reason it gives. */
  ghost predicate Accounts(rows: Rows, need: nat, w: World, t: Tally, exit: Exit) {
    && Changed(rows, t.rows, t.evicted, Written(w.writes))
    && Balanced(rows, need, t)
    && Justified(need, t, exit)
  }

  lemma JoinAccounts(rows: Rows, need: nat, w: World, t: Tally, rest: Tally, exit: Exit)
    requires Changed(rows, t.rows, t.evicted, Written(w.writes)) && Balanced(rows, need, t)
    requires Accounts(t.rows, Less(need, t.freed), w.Later(), rest, exit)
    ensures Accounts(rows, need, w, Join(t, rest), exit)
  {
    ChangedTwice(rows, t.rows, rest.rows, t.evicted, rest.evicted, Written(w.writes));
    JoinBalanced(rows, need, t, rest);
  }

  lemma QueryBalanced(rows: Rows, need: nat, w: World)
    ensures Changed(rows, AtQuery(rows, w).rows, [], Written(w.writes)) && Balanced(rows, need, AtQuery(rows, w))
  {
    QueryEffect(rows, w);
  }

  lemma OnePassBalanced(rows: Rows, need: nat, w: World)
    requires AllComplete(AtQuery(rows, w).rows, Take(Queue(AtQuery(rows, w).rows), BATCH))
    ensures
      var t := OnePass(rows, need, w);
      Changed(rows, t.rows, t.evicted, Written(w.writes)) && Balanced(rows, need, t)
  {
    var here := AtQuery(rows, w);
    var batch := Take(Queue(here.rows), BATCH);
    var t := RunPass(here.rows, batch, need, w);
    NextBatch(here.rows);
    QueryBalanced(rows, need, w);
    PassEffect(here.rows, batch, need, w);
    PassSettled(here.rows, batch, need, w);
    PassTight(here.rows, batch, need, w);
    ChangedTwice(rows, here.rows, t.rows, [], t.evicted, Written(w.writes));
    JoinBalanced(rows, need, here, t);
  }

  /** Whatever removals fail and whatever writes land, and wherever: the run ends, and it
      accounts for every byte. */
  lemma {:induction false} EvictionAccounts(rows: Rows, need: nat, w: World)
    ensures Accounts(rows, need, w, RunLoop(rows, need, w).0, RunLoop(rows, need, w).1)
    decreases EvictableRows(rows)
  {
    if need > 0 {
      var here := AtQuery(rows, w);
      QueryBalanced(rows, need, w);
      if AllComplete(here.rows, Take(Queue(here.rows), BATCH)) {
        if Take(Queue(here.rows), BATCH) == [] {
          NoBatch(here.rows);
        } else {
          var t := OnePass(rows, need, w);
          OnePassBalanced(rows, need, w);
          OnePassEffect(rows, need, w);
          if t.freed > 0 {
            EvictionAccounts(t.rows, Less(need, t.freed), w.Later());
            var r := RunLoop(t.rows, Less(need, t.freed), w.Later());
            JoinAccounts(rows, need, w, t, r.0, r.1);
          }
        }
      }
    }
  }

  // ------------------------------------------------------------------- lost edits

  /** A write that hits a cached row with a cache path makes it dirty; nothing else does. */
  lemma {:induction false} DirtyIffHit(rows: Rows, ws: seq<Write>, i: Inode)
    requires i in rows && rows[i].status.Cached? && rows[i].cachePath.Some?
    ensures i in WriteAll(rows, ws) && WriteAll(rows, ws)[i].cachePath.Some?
    ensures WriteAll(rows, ws)[i].status.IsLocalWork() <==> Hits(ws, i)
    ensures !Hits(ws, i) ==> WriteAll(rows, ws)[i] == rows[i]
  {
    if ws != [] {
      DirtyIffHit(rows, ws[..|ws| - 1], i);
      HitsFront(ws, i);
      WritesTouch(rows, ws);
    }
  }

  /** Candidate `i` was hit by a write in the middle of the turn that evicted it, the `k`th
      eviction. */
  predicate HitInTurn(writes: (nat, Moment) -> seq<Write>, t: Tally, k: nat, i: Inode) {
    k < |t.evicted| && k < |t.passes| && t.evicted[k] == i && Hits(writes(t.passes[k], InTurn(i)), i)
  }

  /** The rows that lost edits are the evicted ones that were hit in the middle of their turn;
      and when there are none, no byte is lost. */
  ghost predicate WipesExactly(writes: (nat, Moment) -> seq<Write>, t: Tally) {
    && |t.passes| == |t.evicted|
    && (forall i :: i in t.wiped <==> exists k: nat :: HitInTurn(writes, t, k, i))
    && (t.wiped == [] ==> t.lost == 0)
  }

  lemma DropWipes(writes: (nat, Moment) -> seq<Write>, from: Rows, t: Tally, i: Inode, pass: nat)
    requires WipesExactly(writes, t) && i in t.rows
    requires t.rows[i].status.IsLocalWork() <==> Hits(writes(pass, InTurn(i)), i)
    requires !t.rows[i].status.IsLocalWork() ==> SizeIn(t.rows, i) == SizeIn(from, i)
    ensures WipesExactly(writes, Drop(from, t, i, pass))
  {
    var t' := Drop(from, t, i, pass);
    var n := |t.evicted|;
    forall j ensures j in t'.wiped <==> exists k: nat :: HitInTurn(writes, t', k, j) {
      if k: nat :| HitInTurn(writes, t, k, j) { assert HitInTurn(writes, t', k, j); }
      if k: nat :| HitInTurn(writes, t', k, j) { assert k < n ==> HitInTurn(writes, t, k, j); }
      assert HitInTurn(writes, t', n, i) <==> Hits(writes(pass, InTurn(i)), i);
    }
  }

  lemma SameWipes(writes: (nat, Moment) -> seq<Write>, t: Tally, t': Tally)
    requires WipesExactly(writes, t)
    requires t'.evicted == t.evicted && t'.passes == t.passes && t'.wiped == t.wiped && t'.lost == t.lost
    ensures WipesExactly(writes, t')
  {
    forall k: nat, i ensures HitInTurn(writes, t', k, i) == HitInTurn(writes, t, k, i) {}
  }

  /** In a turn whose status check finds the candidate cached, edits are lost if and only if
      the removal works and a write has hit the candidate since the check. */
  lemma TurnLosesEdits(from: Rows, front: seq<Inode>, t: Tally, i: Inode, w: World)
    requires Effect(from, front, w, t) && i in from && Complete(from[i])
    requires var seen := Land(t, w.Landing(BeforeTurn(i))); i in seen.rows && seen.rows[i].status.Cached?
    ensures
      var late := Land(Land(t, w.Landing(BeforeTurn(i))), w.Landing(InTurn(i)));
      KeepsLocalWork(late.rows, Visit(from, t, i, w).rows) <==> !(w.Removes(i) && Hits(w.Landing(InTurn(i)), i))
  {
    var seen := Land(t, w.Landing(BeforeTurn(i)));
    var late := Land(seen, w.Landing(InTurn(i)));
    LandEffect(from, front, w, t, BeforeTurn(i));
    CachedUntouched(from, seen.rows, seen.evicted, Written(w.writes), i);
    DirtyIffHit(seen.rows, w.Landing(InTurn(i)), i);
    if w.Removes(i) { ClearedRow(late.rows, i); }
  }

  /** Clearing a row costs local work if and only if the row has some. */
  lemma ClearedRow(rows: Rows, i: Inode)
    requires i in rows
    ensures KeepsLocalWork(rows, SetEvicted(rows, i)) <==> !rows[i].status.IsLocalWork()
  {
    assert SetEvicted(rows, i)[i].status == Remote;
  }

  lemma VisitWipes(from: Rows, front: seq<Inode>, t: Tally, i: Inode, w: World)
    requires Effect(from, front, w, t) && i in from && Complete(from[i]) && WipesExactly(w.writes, t)
    ensures WipesExactly(w.writes, Visit(from, t, i, w))
  {
    var seen := Land(t, w.Landing(BeforeTurn(i)));
    var late := Land(seen, w.Landing(InTurn(i)));
    LandEffect(from, front, w, t, BeforeTurn(i));
    SameWipes(w.writes, t, Skip(seen));
    SameWipes(w.writes, t, late);
    SameWipes(w.writes, t, Skip(late));
    if seen.rows[i].status.Cached? {
      CachedUntouched(from, seen.rows, seen.evicted, Written(w.writes), i);
      DirtyIffHit(seen.rows, w.Landing(InTurn(i)), i);
      DropWipes(w.writes, from, late, i, w.pass);
    }
  }

  lemma {:induction false} PassWipes(from: Rows, batch: seq<Inode>, need: nat, w: World)
    requires Batch(from, batch)
    ensures WipesExactly(w.writes, RunPass(from, batch, need, w))
    decreases |batch|
  {
    if batch != [] {
      var front, i := batch[..|batch| - 1], batch[|batch| - 1];
      BatchFront(from, batch);
      PassWipes(from, front, need, w);
      PassEffect(from, front, need, w);
      VisitWipes(from, front, RunPass(from, front, need, w), i, w);
    }
  }

  lemma JoinWipes(writes: (nat, Moment) -> seq<Write>, a: Tally, b: Tally)
    requires WipesExactly(writes, a) && WipesExactly(writes, b)
    ensures WipesExactly(writes, Join(a, b))
  {
    var t, n := Join(a, b), |a.evicted|;
    forall i ensures i in t.wiped <==> exists k: nat :: HitInTurn(writes, t, k, i) {
      if k: nat :| HitInTurn(writes, a, k, i) { assert HitInTurn(writes, t, k, i); }
      if k: nat :| HitInTurn(writes, b, k, i) { assert HitInTurn(writes, t, n + k, i); }
      if k: nat :| HitInTurn(writes, t, k, i) {
        assert if k < n then HitInTurn(writes, a, k, i) else HitInTurn(writes, b, k - n, i);
      }
    }
  }

  lemma OnePassWipes(rows: Rows, need: nat, w: World)
    requires Proceeds(rows, w)
    ensures WipesExactly(w.writes, OnePass(rows, need, w))
  {
    var here := AtQuery(rows, w);
    var batch := Take(Queue(here.rows), BATCH);
    SameWipes(w.writes, Idle(rows), here);
    NextBatch(here.rows);
    PassWipes(here.rows, batch, need, w);
    JoinWipes(w.writes, here, RunPass(here.rows, batch, need, w));
  }

  /** Over a whole run, whatever fails and whatever lands: the rows that lose edits are exactly
      the evicted candidates that a write hit in the middle of the turn that evicted them; when
      there are none, the cached bytes fall by exactly what is credited, but for the growth. */
  lemma {:induction false} EditsLostExactly(rows: Rows, need: nat, w: World)
    ensures WipesExactly(w.writes, RunLoop(rows, need, w).0)
    decreases EvictableRows(rows)
  {
    SameWipes(w.writes, Idle(rows), AtQuery(rows, w));
    if need > 0 && Proceeds(rows, w) {
      var t := OnePass(rows, need, w);
      OnePassWipes(rows, need, w);
      OnePassEffect(rows, need, w);
      if t.freed > 0 {
        EditsLostExactly(t.rows, Less(need, t.freed), w.Later());
        JoinWipes(w.writes, t, RunLoop(t.rows, Less(need, t.freed), w.Later()).0);
      }
    }
    RunGives(rows, need, w, t => WipesExactly(w.writes, t));
  }

  /** The next query succeeds and returns candidates. */
  predicate Proceeds(rows: Rows, w: World) {
    var here := AtQuery(rows, w);
    AllComplete(here.rows, Take(Queue(here.rows), BATCH)) && Take(Queue(here.rows), BATCH) != []
  }

  /** Whatever holds of each of its possible ends holds of a run. */
  lemma RunGives(rows: Rows, need: nat, w: World, good: Tally -> bool)
    requires need == 0 ==> good(Idle(rows))
    requires need > 0 && !Proceeds(rows, w) ==> good(AtQuery(rows, w))
    requires
      var t := OnePass(rows, need, w);
      need > 0 && Proceeds(rows, w) ==>
        if t.freed == 0 then good(t) else good(Join(t, RunLoop(t.rows, Less(need, t.freed), w.Later()).0))
    ensures good(RunLoop(rows, need, w).0)
  {
  }

  /** When no write lands in the middle of the turn of its own row, no edit and no byte is
      lost. */
  lemma RaceFreeLosesNothing(rows: Rows, need: nat, w: World)
    requires RaceFree(w)
    ensures RunLoop(rows, need, w).0.wiped == [] && RunLoop(rows, need, w).0.lost == 0
  {
    var t := RunLoop(rows, need, w).0;
    assert t.wiped == [] || t.wiped[0] in t.wiped;
    EditsLostExactly(rows, need, w);
    forall i, k: nat ensures !HitInTurn(w.writes, t, k, i) {}
  }

  // -------------------------------------------------------------- giving up without progress

  lemma {:induction false} ZeroSum(sizes: seq<nat>, k: nat)
    requires Sum(sizes) == 0 && k < |sizes|
    ensures sizes[k] == 0
  {
    if k < |sizes| - 1 { ZeroSum(sizes[..|sizes| - 1], k); }
  }

  /** Every candidate of the batch was a candidate in `mid` and freed nothing: it could not be
      removed, has become dirty in `after`, or was empty. */
  ghost predicate Fruitless(mid: Rows, batch: seq<Inode>, w: World, after: Rows) {
    forall i :: i in batch ==>
      && i in mid && Evictable(mid[i])
      && (!w.Removes(i) || CacheBytes(mid[i]) == 0 || (i in after && after[i].status.Dirty?))
  }

  lemma FruitlessPass(from: Rows, batch: seq<Inode>, need: nat, w: World)
    requires Batch(from, batch) && need > 0 && RunPass(from, batch, need, w).freed == 0
    ensures Fruitless(from, batch, w, RunPass(from, batch, need, w).rows)
  {
    var t := RunPass(from, batch, need, w);
    PassTight(from, batch, need, w);
    PassSettled(from, batch, need, w);
    PassEffect(from, batch, need, w);
    forall i | i in t.evicted ensures CacheBytes(from[i]) == 0 {
      var k :| 0 <= k < |t.evicted| && t.evicted[k] == i;
      ZeroSum(Sizes(from, t.evicted), k);
    }
    assert forall i :: i in batch ==> Tried(w, t, i);
  }

  /** The run up to its last query, and the world in that pass. */
  ghost function LastQuery(rows: Rows, need: nat, w: World): (Tally, World)
    decreases EvictableRows(rows)
  {
    if need == 0 then (Idle(rows), w)
    else
      var here := AtQuery(rows, w);
      if !AllComplete(here.rows, Take(Queue(here.rows), BATCH)) || Take(Queue(here.rows), BATCH) == [] then (here, w)
      else
        var t := OnePass(rows, need, w);
        OnePassEffect(rows, need, w);
        if t.freed == 0 then (here, w)
        else
          var r := LastQuery(t.rows, Less(need, t.freed), w.Later());
          (Join(t, r.0), r.1)
  }

  /** How a run that gives up for lack of progress comes to do so. */
  lemma NoProgressUnfold(rows: Rows, need: nat, w: World, here: Tally, t: Tally)
    requires RunLoop(rows, need, w).1 == NoProgress && here == AtQuery(rows, w) && t == OnePass(rows, need, w)
    ensures need > 0 && AllComplete(here.rows, Take(Queue(here.rows), BATCH)) && Take(Queue(here.rows), BATCH) != []
    ensures t.freed == 0 ==> RunLoop(rows, need, w).0 == t && LastQuery(rows, need, w) == (here, w)
    ensures t.freed > 0 ==>
              var later := RunLoop(t.rows, Less(need, t.freed), w.Later());
              var q := LastQuery(t.rows, Less(need, t.freed), w.Later());
              && later.1 == NoProgress && RunLoop(rows, need, w).0 == Join(t, later.0)
              && LastQuery(rows, need, w) == (Join(t, q.0), q.1)
  {
  }

  lemma JoinAssociates(a: Tally, b: Tally, c: Tally)
    ensures Join(a, Join(b, c)) == Join(Join(a, b), c)
  {
  }

  /** `h` is a run from `rows` on that freed `freed` bytes and ended in world `last`. */
  ghost predicate Leads(rows: Rows, w: World, freed: nat, h: Tally, last: World) {
    && last.removal == w.removal && last.writes == w.writes && last.pass >= w.pass
    && Changed(rows, h.rows, h.evicted, Written(w.writes)) && Sum(Sizes(rows, h.evicted)) == freed
  }

  /** `run` is `h` and then one pass over the whole batch that the query returned, with `need`
      bytes still to free, which freed nothing. */
  ghost predicate Fails(need: nat, run: Tally, h: Tally, last: World) {
    var batch := Take(Queue(h.rows), BATCH);
    var pass := RunPass(h.rows, batch, need, last);
    batch != [] && run == Join(h, pass) && pass.freed == 0 && Fruitless(h.rows, batch, last, run.rows)
  }

  lemma FailsJoin(t: Tally, need: nat, run: Tally, h: Tally, last: World)
    requires Fails(need, run, h, last)
    ensures Fails(need, Join(t, run), Join(t, h), last)
  {
    JoinAssociates(t, h, RunPass(h.rows, Take(Queue(h.rows), BATCH), need, last));
  }

  lemma LeadsJoin(rows: Rows, w: World, t: Tally, freed: nat, h: Tally, last: World, total: nat)
    requires Changed(rows, t.rows, t.evicted, Written(w.writes)) && Settled(rows, t)
    requires Leads(t.rows, w.Later(), freed, h, last) && total == t.freed + freed
    ensures Leads(rows, w, total, Join(t, h), last)
  {
    ChangedTwice(rows, t.rows, h.rows, t.evicted, h.evicted, Written(w.writes));
    SizesJoin(rows, t.rows, t.evicted, h.evicted);
  }

  /** A run that leads to a query whose whole batch then frees nothing, with `rest` bytes of
      `need` still to free. */
  ghost predicate EndsFruitless(rows: Rows, need: nat, w: World, run: Tally, h: Tally, last: World, rest: nat) {
    rest == Less(need, h.freed) && Leads(rows, w, run.freed, h, last) && Fails(rest, run, h, last)
  }

  lemma FruitlessHere(rows: Rows, need: nat, w: World, here: Tally, t: Tally)
    requires need > 0 && here == AtQuery(rows, w) && t == OnePass(rows, need, w) && t.freed == 0
    requires AllComplete(here.rows, Take(Queue(here.rows), BATCH)) && Take(Queue(here.rows), BATCH) != []
    ensures EndsFruitless(rows, need, w, t, here, w, need)
  {
    NextBatch(here.rows);
    QueryEffect(rows, w);
    FruitlessPass(here.rows, Take(Queue(here.rows), BATCH), need, w);
  }

  lemma LessTwice(a: nat, b: nat, c: nat)
    ensures Less(Less(a, b), c) == Less(a, b + c)
  {
  }

  lemma FruitlessLater(rows: Rows, need: nat, w: World, t: Tally, run: Tally, h: Tally, last: World, rest: nat)
    requires Changed(rows, t.rows, t.evicted, Written(w.writes)) && Settled(rows, t)
    requires EndsFruitless(t.rows, Less(need, t.freed), w.Later(), run, h, last, rest)
    ensures EndsFruitless(rows, need, w, Join(t, run), Join(t, h), last, rest)
  {
    LessTwice(need, t.freed, h.freed);
    LeadsJoin(rows, w, t, run.freed, h, last, Join(t, run).freed);
    FailsJoin(t, rest, run, h, last);
  }

  /** The run gives up for lack of progress only at the end of a pass over a whole batch, as
      its last query returned it, that freed nothing. */
  lemma {:induction false} NoProgressMeansFruitless(rows: Rows, need: nat, w: World) returns (rest: nat)
    requires RunLoop(rows, need, w).1 == NoProgress
    ensures
      var q := LastQuery(rows, need, w);
      EndsFruitless(rows, need, w, RunLoop(rows, need, w).0, q.0, q.1, rest)
    decreases EvictableRows(rows)
  {
    var here, t := AtQuery(rows, w), OnePass(rows, need, w);
    NoProgressUnfold(rows, need, w, here, t);
    if t.freed == 0 {
      rest := need;
      FruitlessHere(rows, need, w, here, t);
    } else {
      OnePassEffect(rows, need, w);
      OnePassBalanced(rows, need, w);
      rest := NoProgressMeansFruitless(t.rows, Less(need, t.freed), w.Later());
      var later := RunLoop(t.rows, Less(need, t.freed), w.Later());
      var q := LastQuery(t.rows, Less(need, t.freed), w.Later());
      FruitlessLater(rows, need, w, t, later.0, q.0, q.1, rest);
    }
  }

  // -------------------------------------------------------------------- in columns

  /** The row's cache columns, and everything else but what a write sets, are the same. */
  predicate KeptOrWritten(a: Row, b: Row) {
    || b == a
    || (b.status == Dirty && b == a.(status := Dirty, size := b.size, cacheSize := Some(b.size)))
  }

  /** Over every run: each row that lost its cache was cached, had an LRU row and was not pinned
      at the start, and is remote or rewritten now; a pinned row, and any row that was not
      cached, keeps its cache columns or is as a write left it. */
  lemma EvictedWereUnpinned(rows: Rows, need: nat, w: World, i: Inode)
    requires i in rows
    ensures
      var t := RunLoop(rows, need, w).0;
      && i in t.rows
      && (i in t.evicted ==> CachedUnpinned(rows[i]) && t.rows[i].cachePath == None)
      && (i !in t.evicted ==> KeptOrWritten(rows[i], t.rows[i]))
      && (rows[i].lru.Some? && rows[i].lru.value.pinned ==> i !in t.evicted)
      && (rows[i].status != Cached ==> i !in t.evicted)
  {
    EvictionAccounts(rows, need, w);
  }

  /** The queue lists exactly the cached, unpinned rows, each once, least recently used first. */
  lemma QueueSpelled(rows: Rows, q: seq<Inode>)
    requires q == Queue(rows)
    ensures forall i :: i in q <==> i in rows && CachedUnpinned(rows[i])
    ensures forall a, b :: 0 <= a < b < |q| ==> q[a] != q[b] && OlderOrSame(rows, q[a], q[b])
  {
    RankedAscending(EvictableRows(rows), LastAccess(rows));
    assert forall i :: i in q <==> i in ElemsOf(q);
    forall a, b | 0 <= a < b < |q| ensures q[a] != q[b] && OlderOrSame(rows, q[a], q[b]) {
      assert q[a] in q && q[b] in q && Before(LastAccess(rows), q[a], q[b]);
    }
  }

  /** `i` was used no later than `j`. */
  predicate OlderOrSame(rows: Rows, i: Inode, j: Inode) {
    && i in rows && j in rows && rows[i].lru.Some? && rows[j].lru.Some?
    && rows[i].lru.value.lastAccess <= rows[j].lru.value.lastAccess
  }

  /** A candidate's turn. After the writes that come before it, a row that is still cached is cleared,
      with the size of the query credited, if its cache file could be unlinked or was missing
      already; writes that come meanwhile hit the row before it is cleared. Otherwise the
      candidate is skipped. */
  lemma VisitSpelled(from: Rows, t: Tally, i: Inode, w: World)
    ensures
      var early := WriteAll(t.rows, w.writes(w.pass, BeforeTurn(i)));
      var late := WriteAll(early, w.writes(w.pass, InTurn(i)));
      var t', cached := Visit(from, t, i, w), i in early && early[i].status == Cached;
      if cached && (w.removal(w.pass, i) == Unlinked || w.removal(w.pass, i) == AlreadyMissing) then
        && t'.rows == SetEvicted(late, i) && t'.evicted == t.evicted + [i] && t'.skipped == t.skipped
        && t'.freed == t.freed + (if i in from && from[i].cacheSize.Some? then from[i].cacheSize.value else 0)
      else
        && t'.rows == (if cached then late else early) && t'.evicted == t.evicted
        && t'.skipped == t.skipped + 1 && t'.freed == t.freed
  {
  }

  /** A run that ends for lack of candidates has left no cached, unpinned row. */
  lemma NoCandidatesSpelled(rows: Rows, need: nat, w: World, i: Inode)
    requires RunLoop(rows, need, w).1 == NoCandidates && i in RunLoop(rows, need, w).0.rows
    ensures !CachedUnpinned(RunLoop(rows, need, w).0.rows[i])
  {
    EvictionAccounts(rows, need, w);
    assert i !in EvictableRows(RunLoop(rows, need, w).0.rows);
  }
}
