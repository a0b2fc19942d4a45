/** Cache eviction as the daemon runs it: the nested loops, proved to compute the run that
    `EvictionRun` describes. */
module Eviction {
  import opened Types
  import opened Sequences
  import opened FileIndex
  import opened Statements
  import opened CacheUse
  import opened EvictionRun
  import S = StateDb

  datatype Report = Report(exit: Exit, freed: nat, skipped: nat)

  /** What the candidate query returns for one row. */
  datatype Candidate = Candidate(inode: Inode, size: nat)

  function Inodes(cs: seq<Candidate>): seq<Inode> { seq(|cs|, k requires 0 <= k < |cs| => cs[k].inode) }

  method TotalCacheBytes(db: S.StateDb) returns (total: nat)
    ensures total == TotalBytes(db.rows)
  {
    var todo := db.rows.Keys;
    total := 0;
    while todo != {}
      invariant todo <= db.rows.Keys
      invariant total + BytesOver(db.rows, todo) == TotalBytes(db.rows)
      decreases todo
    {
      var i :| i in todo;
      BytesPick(db.rows, todo, i);
      total := total + CacheBytes(db.rows[i]);
      todo := todo - {i};
    }
  }

  /** At most `limit` cached, unpinned rows with their cache size, each once, least recently used
      first; and all of them when they are fewer than the limit. */
  ghost predicate Oldest(rows: Rows, limit: nat, cs: seq<Candidate>) {
    && |cs| <= limit
    && (forall k :: 0 <= k < |cs| ==>
          var c := cs[k];
          c.inode in rows && CachedUnpinned(rows[c.inode]) && rows[c.inode].cacheSize == Some(c.size))
    && (forall a, b :: 0 <= a < b < |cs| ==>
          cs[a].inode != cs[b].inode && OlderOrSame(rows, cs[a].inode, cs[b].inode))
    && (|cs| < limit ==>
          forall i :: i in rows && CachedUnpinned(rows[i]) ==> exists k :: 0 <= k < |cs| && cs[k].inode == i)
  }

  lemma OldestSpelled(rows: Rows, limit: nat, cs: seq<Candidate>)
    requires Inodes(cs) == Take(Queue(rows), limit)
    requires forall k :: 0 <= k < |cs| ==> cs[k].inode in rows && Complete(rows[cs[k].inode])
    requires forall k :: 0 <= k < |cs| ==> cs[k].size == SizeIn(rows, cs[k].inode)
    ensures Oldest(rows, limit, cs)
  {
    var q := Queue(rows);
    QueueSpelled(rows, q);
    forall k | 0 <= k < |cs| ensures cs[k].inode == q[k] { assert Inodes(cs)[k] == q[k]; }
    if |cs| < limit {
      assert |Inodes(cs)| == |cs|;
      forall i | i in rows && CachedUnpinned(rows[i]) ensures exists k :: 0 <= k < |cs| && cs[k].inode == i {
        var k :| 0 <= k < |q| && q[k] == i;
        assert cs[k].inode == i;
      }
    }
  }

  /** The candidate query: at most `limit` rows, oldest first; a NULL column is an error. */
  method Candidates(db: S.StateDb, limit: nat) returns (r: Option<seq<Candidate>>)
    ensures r.None? <==> exists i :: i in Take(Queue(db.rows), limit) && i in db.rows && !Complete(db.rows[i])
    ensures r.Some? ==> Inodes(r.value) == Take(Queue(db.rows), limit)
    ensures r.Some? ==> forall k :: 0 <= k < |r.value| ==> r.value[k].size == SizeIn(db.rows, r.value[k].inode)
    // in columns
    ensures r.Some? ==> Oldest(db.rows, limit, r.value)
  {
    var rows := db.rows;
    var batch := Take(Queue(rows), limit);
    assert forall i :: i in batch ==> i in ElemsOf(Queue(rows));
    if forall i :: i in batch ==> i in rows && Complete(rows[i]) {
      var cs := seq(|batch|, k requires 0 <= k < |batch| => Candidate(batch[k], SizeIn(rows, batch[k])));
      assert Inodes(cs) == batch;
      OldestSpelled(rows, limit, cs);
      r := Some(cs);
    } else {
      r := None;
    }
  }

  /** Local writes land on the table. */
  method LandWrites(db: S.StateDb, ws: seq<Write>)
    requires db.Ok()
    modifies db`rows
    ensures db.Ok() && db.rows == WriteAll(old(db.rows), ws)
  {
    ghost var before := db.rows;
    for k := 0 to |ws|
      invariant db.Ok() && db.rows == WriteAll(before, ws[..k])
    {
      assert ws[..k + 1][..k] == ws[..k];
      WriteKeepsValid(db.rows, ws[k].inode, ws[k].size);
      db.rows := SetDirtySize(db.rows, ws[k].inode, ws[k].size);
    }
    assert ws[..|ws|] == ws;
  }

  /** One candidate's turn: its status is read again, its cache file is unlinked, its row is
      cleared; writes may land before and in between. */
  method EvictCandidate(db: S.StateDb, c: Candidate, w: World, ghost from: Rows, ghost t: Tally)
    returns (bytes: nat, ok: bool, ghost t': Tally)
    requires db.Ok() && db.rows == t.rows && c.size == SizeIn(from, c.inode)
    modifies db`rows
    ensures db.Ok() && t' == Visit(from, t, c.inode, w)
    ensures db.rows == t'.rows && t'.freed == t.freed + bytes && t'.skipped == t.skipped + (if ok then 0 else 1)
  {
    bytes, ok := 0, false;
    LandWrites(db, w.Landing(BeforeTurn(c.inode)));
    t' := Land(t, w.Landing(BeforeTurn(c.inode)));
    if c.inode !in db.rows || !db.rows[c.inode].status.Cached? {
      t' := Skip(t');
      return;
    }
    LandWrites(db, w.Landing(InTurn(c.inode)));
    t' := Land(t', w.Landing(InTurn(c.inode)));
    if !w.Removes(c.inode) {
      t' := Skip(t');
      return;
    }
    EvictedKeepsValid(db.rows, SetEvicted(db.rows, c.inode));
    db.rows := SetEvicted(db.rows, c.inode);
    t' := Drop(from, t', c.inode, w.pass);
    bytes, ok := c.size, true;
  }

  lemma PassStep(from: Rows, batch: seq<Inode>, need: nat, w: World, k: nat)
    requires k < |batch| && RunPass(from, batch[..k], need, w).freed < need
    ensures RunPass(from, batch[..k + 1], need, w) == Visit(from, RunPass(from, batch[..k], need, w), batch[k], w)
  {
    assert batch[..k + 1][..k] == batch[..k];
  }

  lemma {:induction false} PassStops(from: Rows, batch: seq<Inode>, need: nat, w: World, k: nat)
    requires k <= |batch| && (k == |batch| || RunPass(from, batch[..k], need, w).freed >= need)
    ensures RunPass(from, batch, need, w) == RunPass(from, batch[..k], need, w)
    decreases |batch|
  {
    if k == |batch| {
      assert batch[..k] == batch;
    } else {
      assert batch[..|batch| - 1][..k] == batch[..k];
      PassStops(from, batch[..|batch| - 1], need, w, k);
    }
  }

  /** One pass over the candidates that a query returned. */
  method Pass(db: S.StateDb, cs: seq<Candidate>, need: nat, w: World) returns (freed: nat, skipped: nat)
    requires db.Ok() && forall k :: 0 <= k < |cs| ==> cs[k].size == SizeIn(db.rows, cs[k].inode)
    modifies db`rows
    ensures db.Ok()
    ensures
      var t := RunPass(old(db.rows), Inodes(cs), need, w);
      db.rows == t.rows && freed == t.freed && skipped == t.skipped
  {
    freed, skipped := 0, 0;
    ghost var from, batch := db.rows, Inodes(cs);
    ghost var t := Idle(from);
    var k := 0;
    while k < |cs| && freed < need
      invariant k <= |cs| && db.Ok() && t == RunPass(from, batch[..k], need, w)
      invariant db.rows == t.rows && freed == t.freed && skipped == t.skipped
    {
      PassStep(from, batch, need, w, k);
      var bytes, ok;
      bytes, ok, t := EvictCandidate(db, cs[k], w, from, t);
      freed := freed + bytes;
      if !ok { skipped := skipped + 1; }
      k := k + 1;
    }
    PassStops(from, batch, need, w, k);
  }

  // ------------------------------------------------------------------ the outer loop

  /** What is left of the run from `rows` on, after `freed` bytes and `skipped` candidates,
      leads to `goal`. */
  ghost predicate OnTrack(goal: (Tally, Exit), rows: Rows, need: nat, w: World, freed: nat, skipped: nat) {
    var r := RunLoop(rows, need, w);
    && goal.0.rows == r.0.rows && goal.0.freed == freed + r.0.freed
    && goal.0.skipped == skipped + r.0.skipped && goal.1 == r.1
  }

  /** The goal is reached. */
  ghost predicate Arrived(goal: (Tally, Exit), rows: Rows, exit: Exit, freed: nat, skipped: nat) {
    goal.0.rows == rows && goal.0.freed == freed && goal.0.skipped == skipped && goal.1 == exit
  }

  lemma TrackEnds(rows: Rows, need: nat, w: World, here: Rows)
    requires here == AtQuery(rows, w).rows
    ensures need == 0 ==> Arrived(RunLoop(rows, need, w), rows, FreedEnough, 0, 0)
    ensures need > 0 && !AllComplete(here, Take(Queue(here), BATCH)) ==>
              Arrived(RunLoop(rows, need, w), here, QueryFailed, 0, 0)
    ensures need > 0 && Take(Queue(here), BATCH) == [] ==> Arrived(RunLoop(rows, need, w), here, NoCandidates, 0, 0)
  {
  }

  lemma TrackPass(rows: Rows, need: nat, w: World, here: Rows, t: Tally)
    requires need > 0 && here == AtQuery(rows, w).rows && t == RunPass(here, Take(Queue(here), BATCH), need, w)
    requires AllComplete(here, Take(Queue(here), BATCH)) && Take(Queue(here), BATCH) != []
    ensures t.freed == 0 ==> Arrived(RunLoop(rows, need, w), t.rows, NoProgress, 0, t.skipped)
    ensures t.freed > 0 ==> OnTrack(RunLoop(rows, need, w), t.rows, Less(need, t.freed), w.Later(), t.freed, t.skipped)
    ensures t.freed > 0 ==> EvictableRows(t.rows) < EvictableRows(rows)
  {
    OnePassEffect(rows, need, w);
    OnePassFields(rows, need, w, here, t);
    LoopUnfold(rows, need, w, here, OnePass(rows, need, w));
  }

  /** One round of the run, by itself. */
  lemma LoopUnfold(rows: Rows, need: nat, w: World, here: Rows, t: Tally)
    requires need > 0 && here == AtQuery(rows, w).rows && t == OnePass(rows, need, w)
    requires AllComplete(here, Take(Queue(here), BATCH)) && Take(Queue(here), BATCH) != []
    ensures t.freed == 0 ==> Arrived(RunLoop(rows, need, w), t.rows, NoProgress, 0, t.skipped)
    ensures t.freed > 0 ==> OnTrack(RunLoop(rows, need, w), t.rows, Less(need, t.freed), w.Later(), t.freed, t.skipped)
  {
  }

  lemma OnePassFields(rows: Rows, need: nat, w: World, here: Rows, t: Tally)
    requires here == AtQuery(rows, w).rows && t == RunPass(here, Take(Queue(here), BATCH), need, w)
    ensures
      var p := OnePass(rows, need, w);
      p.rows == t.rows && p.freed == t.freed && p.skipped == t.skipped
  {
  }

  /** One round of the loop: why it stops here, or what one pass freed. */
  method EvictBatch(db: S.StateDb, need: nat, w: World) returns (exit: Option<Exit>, freed: nat, skipped: nat)
    requires db.Ok()
    modifies db`rows
    ensures db.Ok()
    ensures exit.Some? ==> Arrived(RunLoop(old(db.rows), need, w), db.rows, exit.value, freed, skipped)
    ensures exit.None? ==>
              && OnTrack(RunLoop(old(db.rows), need, w), db.rows, Less(need, freed), w.Later(), freed, skipped)
              && EvictableRows(db.rows) < EvictableRows(old(db.rows))
  {
    freed, skipped := 0, 0;
    ghost var rows := db.rows;
    TrackEnds(rows, need, w, AtQuery(rows, w).rows);
    if need == 0 { return Some(FreedEnough), 0, 0; }
    LandWrites(db, w.Landing(BeforeQuery));
    ghost var here := db.rows;
    var candidates := Candidates(db, BATCH);
    if candidates.None? { return Some(QueryFailed), 0, 0; }
    if candidates.value == [] {
      assert Take(Queue(here), BATCH) == [];
      return Some(NoCandidates), 0, 0;
    }
    freed, skipped := Pass(db, candidates.value, need, w);
    TrackPass(rows, need, w, here, RunPass(here, Take(Queue(here), BATCH), need, w));
    exit := if freed == 0 then Some(NoProgress) else None;
  }

  lemma TrackOn(goal: (Tally, Exit), rows: Rows, need: nat, w: World, freed: nat, skipped: nat, later: Rows,
                more: nat, extra: nat)
    requires OnTrack(goal, rows, need, w, freed, skipped)
    requires OnTrack(RunLoop(rows, need, w), later, Less(need, more), w.Later(), more, extra)
    ensures OnTrack(goal, later, Less(need, more), w.Later(), freed + more, skipped + extra)
  {
  }

  lemma TrackArrives(goal: (Tally, Exit), rows: Rows, need: nat, w: World, freed: nat, skipped: nat,
                     after: Rows, exit: Exit, more: nat, extra: nat)
    requires OnTrack(goal, rows, need, w, freed, skipped)
    requires Arrived(RunLoop(rows, need, w), after, exit, more, extra)
    ensures Arrived(goal, after, exit, freed + more, skipped + extra)
  {
  }

  method EvictLoop(db: S.StateDb, toFree: nat, w: World) returns (report: Report)
    requires db.Ok()
    modifies db`rows
    ensures db.Ok() && Arrived(RunLoop(old(db.rows), toFree, w), db.rows, report.exit, report.freed, report.skipped)
  {
    var freed: nat, skipped: nat := 0, 0;
    var world := w;
    ghost var goal := RunLoop(db.rows, toFree, w);
    while true
      invariant db.Ok() && OnTrack(goal, db.rows, Less(toFree, freed), world, freed, skipped)
      decreases EvictableRows(db.rows)
    {
      ghost var rows, need, before, past := db.rows, Less(toFree, freed), freed, skipped;
      var exit, more, extra := EvictBatch(db, Less(toFree, freed), world);
      freed, skipped := freed + more, skipped + extra;
      if exit.Some? {
        TrackArrives(goal, rows, need, world, before, past, db.rows, exit.value, more, extra);
        return Report(exit.value, freed, skipped);
      }
      TrackOn(goal, rows, need, world, before, past, db.rows, more, extra);
      assert Less(need, more) == Less(toFree, freed);
      world := world.Later();
    }
  }

  /** `maybe_evict`, with the high mark and the target given in bytes. */
  method MaybeEvict(db: S.StateDb, high: nat, target: nat, w: World) returns (report: Report, ghost t: Tally)
    requires db.Ok()
    modifies db`rows
    ensures db.Ok()
    ensures
      var used := TotalBytes(old(db.rows));
      if used <= high then db.rows == old(db.rows) && report == Report(BelowHighMark, 0, 0)
      else
        && t == RunLoop(old(db.rows), Less(used, target), w).0
        && db.rows == t.rows && report.freed == t.freed && report.skipped == t.skipped
        && Accounts(old(db.rows), Less(used, target), w, t, report.exit)
        && TotalBytes(db.rows) + report.freed + t.lost == used + t.growth
        && (RaceFree(w) ==> t.lost == 0)
    // in columns: only cached, unpinned rows lose their cache, and pinned ones never do
    ensures forall i :: i in old(db.rows) ==>
      && i in db.rows
      && (|| KeptOrWritten(old(db.rows)[i], db.rows[i])
          || (CachedUnpinned(old(db.rows)[i]) && db.rows[i].cachePath == None))
  {
    var used := TotalCacheBytes(db);
    t := Idle(db.rows);
    if used <= high { return Report(BelowHighMark, 0, 0), t; }
    ghost var need := Less(used, target);
    t := RunLoop(db.rows, need, w).0;
    EvictionAccounts(db.rows, need, w);
    if RaceFree(w) { RaceFreeLosesNothing(db.rows, need, w); }
    forall i | i in db.rows
      ensures i in t.rows && (|| KeptOrWritten(db.rows[i], t.rows[i])
                              || (CachedUnpinned(db.rows[i]) && t.rows[i].cachePath == None))
    {
      EvictedWereUnpinned(db.rows, need, w, i);
    }
    report := EvictLoop(db, Less(used, target), w);
  }
}
