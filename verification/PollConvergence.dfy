/** Runs of full-listing polls, some of them cut short anywhere, interleaved with any local
    activity: when vanished entries leave the index, and when they never do. */
module PollConvergence {
  import opened Types
  import opened Sequences
  import opened Ordering
  import opened FileIndex
  import opened Statements
  import opened PollSpec
  import opened PollTheorem

  /** No row was seen in a later generation than the poll now under way would store. */
  ghost predicate GenerationBound(d: Db) {
    forall i :: i in d.rows ==> d.rows[i].generation <= d.generation + 1
  }

  /** `m` speaks neither of the path nor of the item of `row`. */
  predicate Foreign(m: Meta, row: Row) {
    m.path != row.path && (m.itemId.Some? ==> m.itemId != row.itemId)
  }

  /** Nothing that the listing counts as present speaks of `row`. */
  ghost predicate Unlisted(p: PollInput, row: Row) {
    p.listing.Some? ==> forall m :: m in p.listing.value && Considered(p.rules, m) ==> Foreign(m, row)
  }

  // ------------------------------------------------------ one poll, one row

  lemma UpsertLeaves(d: Db, parent: Inode, m: Meta, generation: nat, i: Inode)
    requires i < d.next && (i in d.rows ==> Foreign(m, d.rows[i]))
    ensures
      var d' := Upsert(d, parent, m, generation).0;
      && d'.next >= d.next && d'.generation == d.generation
      && (i in d.rows ==> i in d'.rows && d'.rows[i] == d.rows[i])
      && (i !in d.rows ==> i !in d'.rows)
  {
  }

  lemma UpsertBounds(d: Db, parent: Inode, m: Meta, generation: nat)
    requires forall i :: i in d.rows ==> d.rows[i].generation <= generation
    ensures
      var d' := Upsert(d, parent, m, generation).0;
      && d'.next >= d.next && d'.generation == d.generation
      && forall i :: i in d'.rows ==> d'.rows[i].generation <= generation
  {
  }

  lemma {:induction false} UpsertsLeave(d: Db, ups: seq<Meta>, generation: nat, i: Inode)
    requires ValidDb(d) && i < d.next
    requires i in d.rows ==> forall m :: m in ups ==> Foreign(m, d.rows[i])
    ensures
      var d' := RunUpserts(d, ups, generation).d;
      && d'.next >= d.next && d'.generation == d.generation
      && (i in d.rows ==> i in d'.rows && d'.rows[i] == d.rows[i])
      && (i !in d.rows ==> i !in d'.rows)
    decreases |ups|
  {
    if ups != [] {
      var front, m := ups[..|ups| - 1], ups[|ups| - 1];
      UpsertsLeave(d, front, generation, i);
      var run := RunUpserts(d, front, generation);
      assert RunUpserts(d, ups, generation) == UpsertOne(run, m, generation);
      UpsertLeaves(run.d, ParentInode(run.index, m.path), m, generation, i);
    }
  }

  lemma {:induction false} UpsertsBound(d: Db, ups: seq<Meta>, generation: nat)
    requires ValidDb(d) && forall i :: i in d.rows ==> d.rows[i].generation <= generation
    ensures
      var d' := RunUpserts(d, ups, generation).d;
      && d'.next >= d.next && d'.generation == d.generation
      && forall i :: i in d'.rows ==> d'.rows[i].generation <= generation
    decreases |ups|
  {
    if ups != [] {
      var front, m := ups[..|ups| - 1], ups[|ups| - 1];
      UpsertsBound(d, front, generation);
      var run := RunUpserts(d, front, generation);
      assert RunUpserts(d, ups, generation) == UpsertOne(run, m, generation);
      UpsertBounds(run.d, ParentInode(run.index, m.path), m, generation);
    }
  }

  /** The sweep phase removes stale rows only, all of them if it finishes, and then stores
      the generation. */
  lemma SweepPhaseFacts(d: Db, generation: nat, scan: Inode -> int, left: nat)
    requires ValidDb(d)
    ensures
      var (d', ok) := SweepPhase(d, generation, scan, left);
      && d'.next == d.next && d'.generation == (if ok then generation else d.generation)
      && (forall i :: i in d'.rows ==> i in d.rows && d'.rows[i] == d.rows[i])
      && (ok ==> forall i :: i in StaleRows(d.rows, generation) ==> i !in d'.rows)
  {
    var order := Ranked(StaleRows(d.rows, generation), scan);
    assert forall k :: k in order <==> k in ElemsOf(order);
    SweepRemoves(d.rows, Take(order, left));
  }

  lemma MarkBounds(d: Db, marks: seq<Inode>, generation: nat)
    requires generation == d.generation + 1 && GenerationBound(d)
    ensures GenerationBound(d.(rows := Mark(d.rows, marks, generation)))
  {
  }

  lemma SweepPhaseBounds(d: Db, generation: nat, scan: Inode -> int, left: nat)
    requires ValidDb(d) && generation == d.generation + 1 && GenerationBound(d)
    ensures
      var r := SweepPhase(d, generation, scan, left);
      && GenerationBound(r.0) && r.0.next == d.next
      && r.0.generation == (if r.1 then generation else d.generation)
  {
    SweepPhaseFacts(d, generation, scan, left);
  }

  lemma MarkPhaseIs(d: Db, marks: seq<Inode>, generation: nat, scan: Inode -> int, left: nat, marked: Db)
    requires ValidDb(d) && ValidDb(marked) && marked == d.(rows := Mark(d.rows, Take(marks, left), generation))
    ensures left < |marks| ==> MarkPhase(d, marks, generation, scan, left) == (marked, false)
    ensures left >= |marks| ==>
              MarkPhase(d, marks, generation, scan, left) == SweepPhase(marked, generation, scan, left - |marks|)
  {
  }

  lemma MarkPhaseBounds(d: Db, marks: seq<Inode>, generation: nat, scan: Inode -> int, left: nat)
    requires ValidDb(d) && generation == d.generation + 1 && GenerationBound(d)
    ensures
      var r := MarkPhase(d, marks, generation, scan, left);
      && GenerationBound(r.0) && r.0.next == d.next
      && r.0.generation == (if r.1 then generation else d.generation)
  {
    MarkKeepsValid(d.rows, Take(marks, left), generation);
    MarkBounds(d, Take(marks, left), generation);
    var marked := d.(rows := Mark(d.rows, Take(marks, left), generation));
    MarkPhaseIs(d, marks, generation, scan, left, marked);
    if left >= |marks| { SweepPhaseBounds(marked, generation, scan, left - |marks|); }
  }

  /** What any poll, finished or not, does to a row that its listing does not speak of. */
  ghost predicate LeftAlone(d: Db, i: Inode, d': Db, ok: bool) {
    && (i in d'.rows ==> i in d.rows && d'.rows[i] == d.rows[i])
    && (ok && i in d.rows && Sweepable(d, i) ==> i !in d'.rows)
  }

  ghost predicate Sweepable(d: Db, i: Inode)
    requires i in d.rows
  {
    i != ROOT_INODE && !d.rows[i].status.IsLocalWork() && d.rows[i].generation <= d.generation
  }

  lemma MarkPhaseLeaves(d: Db, marks: seq<Inode>, generation: nat, scan: Inode -> int, left: nat, i: Inode)
    requires ValidDb(d) && generation == d.generation + 1 && i !in marks
    ensures var r := MarkPhase(d, marks, generation, scan, left); LeftAlone(d, i, r.0, r.1)
  {
    MarkKeepsValid(d.rows, Take(marks, left), generation);
    var marked := d.(rows := Mark(d.rows, Take(marks, left), generation));
    assert i in d.rows ==> marked.rows[i] == d.rows[i];
    if left >= |marks| { SweepPhaseFacts(marked, generation, scan, left - |marks|); }
  }

  lemma TornLeaves(d: Db, m: Meta, i: Inode)
    requires i in d.rows ==> Foreign(m, d.rows[i])
    ensures SameRow(d, Torn(d, m), i)
  {
  }

  /** Nothing about row `i` has changed. */
  ghost predicate SameRow(d: Db, d': Db, i: Inode) {
    && d'.generation == d.generation
    && (i in d.rows <==> i in d'.rows) && (i in d.rows ==> d'.rows[i] == d.rows[i])
  }

  lemma UpsertPhaseLeaves(d: Db, ups: seq<Meta>, p: PollInput, i: Inode)
    requires ValidDb(d) && i < d.next
    requires i in d.rows ==> forall m :: m in ups ==> Foreign(m, d.rows[i])
    ensures SameRow(d, UpsertPhase(d, ups, p).0, i)
  {
    var some := Take(ups, p.cut);
    assert forall m :: m in some ==> m in ups;
    UpsertsLeave(d, some, d.generation + 1, i);
    if p.cut < |ups| { TornLeaves(RunUpserts(d, some, d.generation + 1).d, ups[p.cut], i); }
  }

  lemma UpsertPhaseBounds(d: Db, ups: seq<Meta>, p: PollInput)
    requires ValidDb(d) && GenerationBound(d)
    ensures GenerationBound(UpsertPhase(d, ups, p).0)
    ensures UpsertPhase(d, ups, p).0.next >= d.next && UpsertPhase(d, ups, p).0.generation == d.generation
  {
    UpsertsBound(d, Take(ups, p.cut), d.generation + 1);
  }

  lemma FinishBounds(mid: Db, ok: bool, marks: seq<Inode>, generation: nat, scan: Inode -> int, left: nat)
    requires ValidDb(mid) && GenerationBound(mid) && generation == mid.generation + 1
    ensures
      var r := Finish(mid, ok, marks, generation, scan, left);
      && GenerationBound(r.0) && r.0.next == mid.next
      && r.0.generation == (if r.1 then mid.generation + 1 else mid.generation)
  {
    if ok { MarkPhaseBounds(mid, marks, generation, scan, left); }
  }

  lemma FinishLeaves(d: Db, mid: Db, ok: bool, marks: seq<Inode>, generation: nat, scan: Inode -> int, left: nat,
                     i: Inode)
    requires ValidDb(mid) && i !in marks && generation == mid.generation + 1 && SameRow(d, mid, i)
    ensures LeftBy(d, i, Finish(mid, ok, marks, generation, scan, left))
  {
    var r := Finish(mid, ok, marks, generation, scan, left);
    if ok { MarkPhaseLeaves(mid, marks, generation, scan, left, i); }
    LeftAloneFrom(d, mid, i, r);
  }

  /** `LeftAlone` for the result of a poll. */
  ghost predicate LeftBy(d: Db, i: Inode, a: (Db, bool)) { LeftAlone(d, i, a.0, a.1) }

  /** Generations stay bounded, and the stored one moves exactly when the poll finishes. */
  ghost predicate Bounded(d: Db, a: (Db, bool)) {
    && GenerationBound(a.0) && a.0.next >= d.next
    && a.0.generation == (if a.1 then d.generation + 1 else d.generation)
  }

  lemma LeftAloneFrom(d: Db, mid: Db, i: Inode, r: (Db, bool))
    requires SameRow(d, mid, i) && LeftAlone(mid, i, r.0, r.1)
    ensures LeftAlone(d, i, r.0, r.1)
  {
  }

  lemma ApplyBounds(d: Db, ups: seq<Meta>, marks: seq<Inode>, p: PollInput)
    requires ValidDb(d) && GenerationBound(d)
    ensures Bounded(d, Apply(d, ups, marks, p))
  {
    UpsertPhaseBounds(d, ups, p);
    var r := UpsertPhase(d, ups, p);
    FinishBounds(r.0, r.1, marks, d.generation + 1, p.scan, Less(p.cut, |ups|));
    PhasesGive(d, ups, marks, p, (a: (Db, bool)) => Bounded(d, a));
  }

  lemma ApplyLeaves(d: Db, ups: seq<Meta>, marks: seq<Inode>, p: PollInput, i: Inode)
    requires ValidDb(d) && i < d.next && i !in marks
    requires i in d.rows ==> forall m :: m in ups ==> Foreign(m, d.rows[i])
    ensures LeftAlone(d, i, Apply(d, ups, marks, p).0, Apply(d, ups, marks, p).1)
  {
    UpsertPhaseLeaves(d, ups, p, i);
    var r := UpsertPhase(d, ups, p);
    FinishLeaves(d, r.0, r.1, marks, d.generation + 1, p.scan, Less(p.cut, |ups|), i);
    PhasesGive(d, ups, marks, p, (a: (Db, bool)) => LeftBy(d, i, a));
  }

  /** A poll stores its generation exactly when it finishes, reuses no inode, and never
      takes a row beyond the generation it would store. */
  lemma PollBounds(d: Db, p: PollInput)
    requires ValidDb(d) && GenerationBound(d)
    ensures
      var (d', ok) := Poll(d, p);
      && GenerationBound(d') && d'.next >= d.next
      && d'.generation == (if ok then d.generation + 1 else d.generation)
  {
    if p.listing.Some? && |p.listing.value| <= MAX_POLL_ENTRIES {
      ApplyBounds(d, Plan(d.rows, p.rules, p.listing.value), ToMark(d.rows, p.rules, p.listing.value), p);
    }
  }

  lemma ForeignToPlan(d: Db, p: PollInput, i: Inode)
    requires p.listing.Some? && i in d.rows && Unlisted(p, d.rows[i])
    ensures forall m :: m in Plan(d.rows, p.rules, p.listing.value) ==> Foreign(m, d.rows[i])
    ensures i !in ToMark(d.rows, p.rules, p.listing.value)
  {
    forall m | m in Plan(d.rows, p.rules, p.listing.value) ensures Foreign(m, d.rows[i]) {
      PlanMembers(d.rows, p.rules, p.listing.value, m);
    }
    ToMarkMembers(d.rows, p.rules, p.listing.value, i);
  }

  lemma PollLeaves(d: Db, p: PollInput, i: Inode)
    requires ValidDb(d) && i < d.next && (i in d.rows ==> Unlisted(p, d.rows[i]))
    ensures LeftAlone(d, i, Poll(d, p).0, Poll(d, p).1)
  {
    if p.listing.Some? && |p.listing.value| <= MAX_POLL_ENTRIES {
      var ups, marks := Plan(d.rows, p.rules, p.listing.value), ToMark(d.rows, p.rules, p.listing.value);
      if i in d.rows { ForeignToPlan(d, p, i); } else { ToMarkMembers(d.rows, p.rules, p.listing.value, i); }
      ApplyLeaves(d, ups, marks, p, i);
    }
  }

  // ------------------------------------------------------------------ runs

  /** Local activity between polls: anything that keeps the stored generation, reuses no
      inode and never raises a row's generation (creating, writing, renaming, deleting,
      hydrating, uploading, evicting, listing a directory). */
  datatype Event = Polling(p: PollInput) | LocalActivity(after: Db)

  ghost predicate LocalStep(d: Db, d': Db) {
    && ValidDb(d') && d'.generation == d.generation && d'.next >= d.next
    && forall i :: i in d'.rows ==>
         if i < d.next then i in d.rows && d'.rows[i].generation <= d.rows[i].generation
         else d'.rows[i].generation == 0
  }

  ghost predicate Legal(d: Db, e: Event) {
    ValidDb(d) && (e.LocalActivity? ==> LocalStep(d, e.after))
  }

  ghost function Next(d: Db, e: Event): (d': Db)
    requires Legal(d, e)
    ensures ValidDb(d')
  {
    match e
    case Polling(p) => Poll(d, p).0
    case LocalActivity(after) => after
  }

  ghost predicate LegalRun(d: Db, events: seq<Event>)
    decreases |events|
  {
    events == [] || (Legal(d, events[0]) && LegalRun(Next(d, events[0]), events[1..]))
  }

  ghost function After(d: Db, events: seq<Event>): Db
    requires LegalRun(d, events)
    decreases |events|
  {
    if events == [] then d else After(Next(d, events[0]), events[1..])
  }

  /** Number of polls of the run that finish. */
  ghost function Finished(d: Db, events: seq<Event>): nat
    requires LegalRun(d, events)
    decreases |events|
  {
    if events == [] then 0
    else
      (if events[0].Polling? && Poll(d, events[0].p).1 then 1 else 0)
      + Finished(Next(d, events[0]), events[1..])
  }

  /** Whenever a poll of the run starts, row `i` is unlisted and free of unsynced edits. */
  ghost predicate VanishedThroughout(d: Db, events: seq<Event>, i: Inode)
    requires LegalRun(d, events)
    decreases |events|
  {
    events != [] ==>
      && (events[0].Polling? && i in d.rows ==>
            Unlisted(events[0].p, d.rows[i]) && !d.rows[i].status.IsLocalWork())
      && VanishedThroughout(Next(d, events[0]), events[1..], i)
  }

  /** In every run, with polls cut anywhere, no row gets ahead of the stored generation by
      more than one. */
  lemma {:induction false} GenerationsBounded(d: Db, events: seq<Event>)
    requires LegalRun(d, events) && GenerationBound(d)
    ensures GenerationBound(After(d, events)) && After(d, events).next >= d.next
    decreases |events|
  {
    if events != [] {
      if events[0].Polling? { PollBounds(d, events[0].p); }
      GenerationsBounded(Next(d, events[0]), events[1..]);
    }
  }

  /** Finished polls that row `i` can still outlive. */
  ghost function Lives(d: Db, i: Inode): nat {
    if i !in d.rows then 0 else if d.rows[i].generation <= d.generation then 1 else 2
  }

  lemma {:induction false} VanishedRowGoes(d: Db, events: seq<Event>, i: Inode)
    requires LegalRun(d, events) && GenerationBound(d) && i != ROOT_INODE && i < d.next
    requires VanishedThroughout(d, events, i) && Finished(d, events) >= Lives(d, i)
    ensures i !in After(d, events).rows
    decreases |events|
  {
    if events != [] {
      var d' := Next(d, events[0]);
      if events[0].Polling? {
        PollBounds(d, events[0].p);
        PollLeaves(d, events[0].p, i);
      }
      assert GenerationBound(d') && i < d'.next;
      VanishedRowGoes(d', events[1..], i);
    }
  }

  /** A row that stays unlisted and clean is gone after two finished polls, whatever polls
      were cut short before, between or after them and whatever else happened meanwhile. */
  lemma TwoFinishedPollsSuffice(d: Db, events: seq<Event>, i: Inode)
    requires LegalRun(d, events) && GenerationBound(d) && i != ROOT_INODE && i < d.next
    requires VanishedThroughout(d, events, i) && Finished(d, events) >= 2
    ensures i !in After(d, events).rows
  {
    VanishedRowGoes(d, events, i);
  }

  // ------------------------------------------------------- polls that never finish

  /** A directory that comes before its child in the sweep keeps both alive. */
  lemma BlockedSweepKeeps(rows: Rows, order: seq<Inode>, dir: Inode, child: Inode)
    requires dir in rows && child in rows && dir != child && rows[child].parent == Some(dir)
    requires forall a, b :: 0 <= a < b < |order| ==> order[a] != order[b]
    requires forall a, b :: 0 <= a < |order| && 0 <= b < |order| && order[a] == dir && order[b] == child ==> a < b
    requires child in order ==> dir in order
    ensures dir in Sweep(rows, order).0 && child in Sweep(rows, order).0
    ensures dir in order ==> !Sweep(rows, order).1
  {
    if dir in order {
      var k :| 0 <= k < |order| && order[k] == dir;
      assert child !in order[..k] && dir !in order[..k];
      BlockedAt(rows, order[..k + 1], order[..k], dir, child);
      SweepStops(rows, order, k + 1);
    } else {
      SweepRemoves(rows, order);
    }
  }

  lemma BlockedAt(rows: Rows, upTo: seq<Inode>, front: seq<Inode>, dir: Inode, child: Inode)
    requires dir in rows && child in rows && dir != child && rows[child].parent == Some(dir)
    requires upTo == front + [dir] && child !in front && dir !in front
    ensures !Sweep(rows, upTo).1 && dir in Sweep(rows, upTo).0 && child in Sweep(rows, upTo).0
  {
    SweepRemoves(rows, front);
    assert upTo[..|upTo| - 1] == front;
    var prev := Sweep(rows, front).0;
    assert HasChildren(prev, dir) by { assert child in prev && prev[child].parent == Some(dir); }
  }

  /** A vanished directory with a vanished child that the stale-row query returns later. */
  ghost predicate Stuck(d: Db, dir: Inode, child: Inode) {
    && ValidDb(d) && dir != ROOT_INODE && dir != child && dir in d.rows && child in d.rows
    && d.rows[child].parent == Some(dir)
    && d.rows[dir].generation <= d.generation && !d.rows[dir].status.IsLocalWork()
  }

  lemma StuckMarkPhase(d: Db, marks: seq<Inode>, generation: nat, scan: Inode -> int, left: nat, dir: Inode,
                       child: Inode)
    requires generation == d.generation + 1
    requires Stuck(d, dir, child) && dir !in marks && child !in marks && Before(scan, dir, child)
    ensures
      var (d', ok) := MarkPhase(d, marks, generation, scan, left);
      !ok && StillStuck(d, d', dir, child)
  {
    MarkKeepsValid(d.rows, Take(marks, left), generation);
    var marked := Mark(d.rows, Take(marks, left), generation);
    if left >= |marks| {
      var order := Ranked(StaleRows(marked, generation), scan);
      assert forall k :: k in order <==> k in ElemsOf(order);
      RankedAscending(StaleRows(marked, generation), scan);
      StuckSweep(marked, order, scan, left - |marks|, dir, child);
    }
  }

  lemma StuckSweep(rows: Rows, order: seq<Inode>, scan: Inode -> int, left: nat, dir: Inode, child: Inode)
    requires dir in rows && child in rows && dir != child && rows[child].parent == Some(dir)
    requires Ascending(scan, order) && dir in order && Before(scan, dir, child)
    ensures
      var (after, ok) := Sweep(rows, Take(order, left));
      dir in after && child in after && after[dir] == rows[dir] && after[child] == rows[child]
      && (left >= |order| ==> !ok)
  {
    var part := Take(order, left);
    SweepRemoves(rows, part);
    forall a, b | 0 <= a < |part| && 0 <= b < |part| && part[a] == dir && part[b] == child ensures a < b {
      assert part[a] == order[a] && part[b] == order[b];
    }
    if child in part {
      var b :| 0 <= b < |part| && part[b] == child;
      var a :| 0 <= a < |order| && order[a] == dir;
      assert order[b] == child;
      assert part[a] == dir;
    }
    BlockedSweepKeeps(rows, part, dir, child);
  }

  lemma StuckSame(d: Db, mid: Db, dir: Inode, child: Inode)
    requires Stuck(d, dir, child) && ValidDb(mid) && SameRow(d, mid, dir) && SameRow(d, mid, child)
    ensures StillStuck(d, mid, dir, child)
  {
  }

  lemma StuckFinish(mid: Db, ok: bool, marks: seq<Inode>, generation: nat, scan: Inode -> int, left: nat, dir: Inode,
                    child: Inode)
    requires generation == mid.generation + 1
    requires Stuck(mid, dir, child) && Before(scan, dir, child) && dir !in marks && child !in marks
    ensures var r := Finish(mid, ok, marks, generation, scan, left); !r.1 && StillStuck(mid, r.0, dir, child)
  {
    if ok { StuckMarkPhase(mid, marks, generation, scan, left, dir, child); }
  }

  lemma StuckApply(d: Db, ups: seq<Meta>, marks: seq<Inode>, p: PollInput, dir: Inode, child: Inode)
    requires Stuck(d, dir, child) && Before(p.scan, dir, child) && dir !in marks && child !in marks
    requires forall m :: m in ups ==> Foreign(m, d.rows[dir])
    requires forall m :: m in ups ==> Foreign(m, d.rows[child])
    ensures !Apply(d, ups, marks, p).1 && StillStuck(d, Apply(d, ups, marks, p).0, dir, child)
  {
    UpsertPhaseLeaves(d, ups, p, dir);
    UpsertPhaseLeaves(d, ups, p, child);
    var r := UpsertPhase(d, ups, p);
    StuckSame(d, r.0, dir, child);
    StuckFinish(r.0, r.1, marks, d.generation + 1, p.scan, Less(p.cut, |ups|), dir, child);
    PhasesGive(d, ups, marks, p, (a: (Db, bool)) => !a.1 && StillStuck(d, a.0, dir, child));
  }

  /** With a vanished directory returned before its vanished child, a poll cannot finish,
      and it leaves both rows as they were. */
  lemma StuckPoll(d: Db, p: PollInput, dir: Inode, child: Inode)
    requires Stuck(d, dir, child) && Before(p.scan, dir, child)
    requires Unlisted(p, d.rows[dir]) && Unlisted(p, d.rows[child])
    ensures !Poll(d, p).1 && StillStuck(d, Poll(d, p).0, dir, child)
  {
    if p.listing.Some? && |p.listing.value| <= MAX_POLL_ENTRIES {
      ForeignToPlan(d, p, dir);
      ForeignToPlan(d, p, child);
      StuckApply(d, Plan(d.rows, p.rules, p.listing.value), ToMark(d.rows, p.rules, p.listing.value), p, dir, child);
    }
  }

  ghost predicate StillStuck(d: Db, d': Db, dir: Inode, child: Inode)
    requires dir in d.rows && child in d.rows
  {
    Stuck(d', dir, child) && d'.rows[dir] == d.rows[dir] && d'.rows[child] == d.rows[child]
  }

  /** A poll over an empty listing that fails although both rows should be swept. */
  ghost predicate Blocked(d: Db, p: PollInput, dir: Inode, child: Inode)
    requires ValidDb(d)
  {
    && GenerationBound(d) && p.listing == Some([])
    && dir in StaleRows(d.rows, d.generation + 1) && child in StaleRows(d.rows, d.generation + 1)
    && !Poll(d, p).1 && dir in Poll(d, p).0.rows && child in Poll(d, p).0.rows
  }

  lemma EmptyListingBlocks(d: Db, p: PollInput, dir: Inode, child: Inode)
    requires Stuck(d, dir, child) && GenerationBound(d) && p.listing == Some([]) && Before(p.scan, dir, child)
    requires dir in StaleRows(d.rows, d.generation + 1) && child in StaleRows(d.rows, d.generation + 1)
    ensures Blocked(d, p, dir, child)
  {
    StuckPoll(d, p, dir, child);
  }

  /** A directory "a", inode 2, with its one file, inode 3. */
  lemma OneFileInOneDirectory() returns (d: Db)
    ensures Stuck(d, 2, 3) && GenerationBound(d)
    ensures 2 in StaleRows(d.rows, d.generation + 1) && 3 in StaleRows(d.rows, d.generation + 1)
  {
    var root := Row(None, "/", "/", Directory, 0, 0, None, Remote, None, None, 0, None, None);
    var dir := Row(Some(1), "a", "a", Directory, 0, 0, None, Remote, None, None, 0, None, None);
    var file := Row(Some(2), "b", "a/b", File, 4, 0, None, Remote, None, None, 0, None, None);
    d := Db(map[1 := root, 2 := dir, 3 := file], 4, 0);
    ThreeRowsValid(d.rows, root, dir, file);
  }

  /** The smallest case of a poll that fails, however far it is let run: the remote lost that
      directory with its file, and the stale-row query returns rows by inode. */
  lemma VanishedDirectoryBlocks(cut: nat) returns (d: Db, p: PollInput)
    ensures ValidDb(d) && p.cut == cut && Blocked(d, p, 2, 3)
  {
    d := OneFileInOneDirectory();
    p := PollInput(Some([]), Rules([], _ => false), i => i, cut, false);
    EmptyListingBlocks(d, p, 2, 3);
  }

  /** Removing a non-empty directory on the remote can halt polling for good: as long as the
      stale-row query returns the directory before a child of it, every poll fails, however
      often it is repeated, and the vanished rows stay. */
  lemma {:induction false} PollingNeverFinishes(d: Db, polls: seq<PollInput>, dir: Inode, child: Inode)
    requires Stuck(d, dir, child)
    requires forall p :: p in polls ==>
      Before(p.scan, dir, child) && Unlisted(p, d.rows[dir]) && Unlisted(p, d.rows[child])
    ensures AllFail(d, polls)
    decreases |polls|
  {
    if polls != [] {
      StuckPoll(d, polls[0], dir, child);
      PollingNeverFinishes(Poll(d, polls[0]).0, polls[1..], dir, child);
    }
  }

  ghost predicate AllFail(d: Db, polls: seq<PollInput>)
    requires ValidDb(d)
    decreases |polls|
  {
    polls == [] || (!Poll(d, polls[0]).1 && AllFail(Poll(d, polls[0]).0, polls[1..]))
  }
}
