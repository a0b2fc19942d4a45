/** When a full poll finishes, and what exactly it does to rows that the listing does not
    speak of; conflict files are the most visible of those. */
module PollFinish {
  import opened Types
  import opened Sequences
  import opened Text
  import opened Ordering
  import opened FileIndex
  import opened Statements
  import opened PollSpec
  import opened PollConvergence

  // ------------------------------------------------------------- when a poll finishes

  lemma SweepPhaseFinishes(d: Db, generation: nat, scan: Inode -> int, left: nat)
    requires ValidDb(d)
    ensures
      var order := StaleOrder(d.rows, generation, scan);
      SweepPhase(d, generation, scan, left).1 <==> left > |order| && ChildrenFirst(d.rows, order)
  {
    SweepCompletes(d.rows, StaleOrder(d.rows, generation, scan));
  }

  lemma MarkPhaseFinishes(d: Db, marks: seq<Inode>, generation: nat, scan: Inode -> int, left: nat, marked: Rows)
    requires ValidDb(d) && marked == Mark(d.rows, marks, generation)
    ensures
      var order := StaleOrder(marked, generation, scan);
      MarkPhase(d, marks, generation, scan, left).1 <==> left > |marks| + |order| && ChildrenFirst(marked, order)
  {
    MarkKeepsValid(d.rows, marks, generation);
    if left >= |marks| {
      assert Take(marks, left) == marks;
      MarkPhaseIs(d, marks, generation, scan, left, d.(rows := marked));
      SweepPhaseFinishes(d.(rows := marked), generation, scan, left - |marks|);
    }
  }

  /** `n` upserts ended with `rows`, all accepted or not; the rest of the poll runs through. */
  ghost predicate Through(accepted: bool, rows: Rows, n: nat, marks: seq<Inode>, generation: nat, scan: Inode -> int,
                          cut: nat) {
    var marked := Mark(rows, marks, generation);
    var order := StaleOrder(marked, generation, scan);
    accepted && cut > n + |marks| + |order| && ChildrenFirst(marked, order)
  }

  lemma CutUpserts(d: Db, ups: seq<Meta>, p: PollInput)
    requires ValidDb(d) && p.cut < |ups|
    ensures !UpsertPhase(d, ups, p).1
  {
  }

  lemma AllUpserts(d: Db, ups: seq<Meta>, p: PollInput, run: Run)
    requires ValidDb(d) && p.cut >= |ups| && run == RunUpserts(d, ups, d.generation + 1)
    ensures UpsertPhase(d, ups, p).1 == run.ok && UpsertPhase(d, ups, p).0.rows == run.d.rows
  {
    assert Take(ups, p.cut) == ups;
  }

  lemma UpsertPhaseIs(d: Db, ups: seq<Meta>, p: PollInput, run: Run)
    requires ValidDb(d) && run == RunUpserts(d, ups, d.generation + 1)
    ensures UpsertPhase(d, ups, p).1 <==> p.cut >= |ups| && run.ok
    ensures UpsertPhase(d, ups, p).1 ==> UpsertPhase(d, ups, p).0.rows == run.d.rows
  {
    if p.cut >= |ups| { AllUpserts(d, ups, p, run); } else { CutUpserts(d, ups, p); }
  }

  lemma FinishFinishes(mid: Db, ok: bool, accepted: bool, rows: Rows, n: nat, marks: seq<Inode>,
                       generation: nat, scan: Inode -> int, cut: nat)
    requires ValidDb(mid) && (ok <==> cut >= n && accepted) && (ok ==> mid.rows == rows)
    ensures Finish(mid, ok, marks, generation, scan, Less(cut, n)).1
       <==> Through(accepted, rows, n, marks, generation, scan, cut)
  {
    if ok { MarkPhaseFinishes(mid, marks, generation, scan, Less(cut, n), Mark(rows, marks, generation)); }
  }

  lemma ApplyFinishes(d: Db, ups: seq<Meta>, marks: seq<Inode>, p: PollInput, run: Run, r: (Db, bool), through: bool)
    requires ValidDb(d) && run == RunUpserts(d, ups, d.generation + 1) && r == UpsertPhase(d, ups, p)
    requires through == Through(run.ok, run.d.rows, |ups|, marks, d.generation + 1, p.scan, p.cut)
    ensures Apply(d, ups, marks, p).1 == through
  {
    UpsertPhaseIs(d, ups, p, run);
    FinishFinishes(r.0, r.1, run.ok, run.d.rows, |ups|, marks, d.generation + 1, p.scan, p.cut);
    PhasesGive(d, ups, marks, p, (a: (Db, bool)) => a.1 == through);
  }

  /** A listing arrived that is not too long. */
  predicate Listed(p: PollInput) { p.listing.Some? && |p.listing.value| <= 500_000 }

  /** Whatever holds after the phases holds after the poll. */
  lemma PollGives(d: Db, p: PollInput, ups: seq<Meta>, marks: seq<Inode>, good: ((Db, bool)) -> bool)
    requires ValidDb(d) && Listed(p)
    requires ups == Plan(d.rows, p.rules, p.listing.value) && marks == ToMark(d.rows, p.rules, p.listing.value)
    requires good(Apply(d, ups, marks, p))
    ensures good(Poll(d, p))
  {
  }

  /** What one poll sets out to do: its upserts, the run of them, and its marks. */
  ghost predicate Prepared(d: Db, p: PollInput, ups: seq<Meta>, marks: seq<Inode>, run: Run)
    requires ValidDb(d)
  {
    && Listed(p) && ups == Plan(d.rows, p.rules, p.listing.value) && marks == ToMark(d.rows, p.rules, p.listing.value)
    && run == RunUpserts(d, ups, d.generation + 1)
  }

  lemma UnlistedFails(d: Db, p: PollInput)
    requires ValidDb(d) && !Listed(p)
    ensures Poll(d, p) == (d, false)
  {
  }

  /** A poll whose listing arrived finishes if and only if every upsert goes through, enough
      statements complete, and the stale-row query returns every row after all of the row's
      children. */
  lemma PollFinishes(d: Db, p: PollInput, ups: seq<Meta>, marks: seq<Inode>, run: Run)
    requires ValidDb(d) && Prepared(d, p, ups, marks, run)
    ensures Poll(d, p).1 <==> Through(run.ok, run.d.rows, |ups|, marks, d.generation + 1, p.scan, p.cut)
  {
    var through := Through(run.ok, run.d.rows, |ups|, marks, d.generation + 1, p.scan, p.cut);
    ApplyFinishes(d, ups, marks, p, run, UpsertPhase(d, ups, p), through);
    PollGives(d, p, ups, marks, (a: (Db, bool)) => a.1 == through);
  }

  // ------------------------------------------------------------------ unlisted rows

  /** Row `i` is still there, as it was. */
  ghost predicate Spared(d: Db, i: Inode, a: (Db, bool))
    requires i in d.rows
  {
    i in a.0.rows && a.0.rows[i] == d.rows[i]
  }

  lemma SweepSpares(d: Db, generation: nat, scan: Inode -> int, left: nat, i: Inode)
    requires ValidDb(d) && i in d.rows && i !in StaleRows(d.rows, generation)
    ensures Spared(d, i, SweepPhase(d, generation, scan, left))
  {
    var order := Ranked(StaleRows(d.rows, generation), scan);
    assert forall k :: k in order ==> k in ElemsOf(order);
    SweepRemoves(d.rows, Take(order, left));
  }

  lemma MarkSpares(d: Db, marks: seq<Inode>, generation: nat, scan: Inode -> int, left: nat, i: Inode)
    requires ValidDb(d) && i in d.rows && i !in marks && i !in StaleRows(d.rows, generation)
    ensures Spared(d, i, MarkPhase(d, marks, generation, scan, left))
  {
    MarkKeepsValid(d.rows, Take(marks, left), generation);
    var marked := d.(rows := Mark(d.rows, Take(marks, left), generation));
    MarkPhaseIs(d, marks, generation, scan, left, marked);
    if left >= |marks| { SweepSpares(marked, generation, scan, left - |marks|, i); }
  }

  lemma FinishSpares(mid: Db, ok: bool, marks: seq<Inode>, generation: nat, scan: Inode -> int, left: nat, i: Inode)
    requires ValidDb(mid) && i in mid.rows && i !in marks && i !in StaleRows(mid.rows, generation)
    ensures Spared(mid, i, Finish(mid, ok, marks, generation, scan, left))
  {
    if ok { MarkSpares(mid, marks, generation, scan, left, i); }
  }

  lemma ApplySpares(d: Db, ups: seq<Meta>, marks: seq<Inode>, p: PollInput, i: Inode)
    requires ValidDb(d) && i in d.rows && i !in marks && !Sweepable(d, i)
    requires forall m :: m in ups ==> Foreign(m, d.rows[i])
    ensures Spared(d, i, Apply(d, ups, marks, p))
  {
    UpsertPhaseLeaves(d, ups, p, i);
    var r := UpsertPhase(d, ups, p);
    FinishSpares(r.0, r.1, marks, d.generation + 1, p.scan, Less(p.cut, |ups|), i);
    PhasesGive(d, ups, marks, p, (a: (Db, bool)) => Spared(d, i, a));
  }

  /** A row that the listing does not speak of outlives every poll, finished or not, if it has
      unsynced edits, is the root, or is ahead of the stored generation. */
  lemma PollSpares(d: Db, p: PollInput, i: Inode)
    requires ValidDb(d) && i in d.rows && Unlisted(p, d.rows[i]) && !Sweepable(d, i)
    ensures Spared(d, i, Poll(d, p))
  {
    if Listed(p) {
      var ups, marks := Plan(d.rows, p.rules, p.listing.value), ToMark(d.rows, p.rules, p.listing.value);
      ForeignToPlan(d, p, i);
      ApplySpares(d, ups, marks, p, i);
      PollGives(d, p, ups, marks, (a: (Db, bool)) => Spared(d, i, a));
    } else {
      UnlistedFails(d, p);
    }
  }

  /** What a finished poll does to a row that its listing does not speak of: the row is gone if
      and only if it is clean, not the root, and of an old generation; else it is unchanged. */
  lemma UnlistedRowExact(d: Db, p: PollInput, i: Inode)
    requires ValidDb(d) && i in d.rows && Unlisted(p, d.rows[i]) && Poll(d, p).1
    ensures i in Poll(d, p).0.rows <==> !Sweepable(d, i)
    ensures i in Poll(d, p).0.rows ==> Poll(d, p).0.rows[i] == d.rows[i]
  {
    PollLeaves(d, p, i);
    if !Sweepable(d, i) { PollSpares(d, p, i); }
  }

  // --------------------------------------------------------------- conflict files

  /** A row of the conflict namespace counts as unlisted, whatever the listing holds. */
  lemma ConflictRowUnlisted(p: PollInput, row: Row)
    requires StartsWith(row.path, CONFLICT_PREFIX) && row.itemId.None?
    ensures Unlisted(p, row)
  {
  }

  /** So a finished poll removes the row of a conflict file, listed or not, if and only if that
      row is clean and of an old generation. */
  lemma ConflictRowsSwept(d: Db, p: PollInput, i: Inode)
    requires ValidDb(d) && Poll(d, p).1 && i in d.rows
    requires StartsWith(d.rows[i].path, CONFLICT_PREFIX) && d.rows[i].itemId.None?
    ensures i in Poll(d, p).0.rows <==> !Sweepable(d, i)
  {
    ConflictRowUnlisted(p, d.rows[i]);
    UnlistedRowExact(d, p, i);
  }

  /** The root, a file, and the conflict file that was made for it. */
  lemma ConflictSample() returns (d: Db, m: Meta)
    ensures ValidDb(d) && d.generation == 0 && StaleRows(d.rows, 1) == {2} && !HasChildren(d.rows, 2)
    ensures StartsWith(d.rows[2].path, CONFLICT_PREFIX) && d.rows[2].itemId.None? && d.rows[2].status == Conflict
    ensures m.path == d.rows[2].path && m.size == d.rows[2].size && Sweepable(d, 2)
  {
    var path := CONFLICT_PREFIX + "b.conflict";
    var root := Row(None, "/", "/", Directory, 0, 0, None, Remote, None, None, 0, None, None);
    var file := Row(Some(1), "b", "b", File, 4, 0, None, Dirty, Some("cache/b"), Some(4), 0, None, None);
    var kept := Row(Some(1), "b.conflict", path, File, 4, 0, None, Conflict, None, None, 0, None, None);
    d := Db(map[1 := root, 2 := kept, 3 := file], 4, 0);
    m := Meta(path, "b.conflict", 4, 0, false, None, None);
    assert path[0] == '.';
    ThreeRowsValid(d.rows, root, kept, file);
  }

  /** A listing of conflict files only leads to no upsert and no mark. */
  lemma NothingToDo(rows: Rows, rules: Rules, m: Meta)
    requires StartsWith(m.path, CONFLICT_PREFIX)
    ensures Plan(rows, rules, [m]) == [] && ToMark(rows, rules, [m]) == []
  {
    var listing := [m];
    assert listing[..|listing| - 1] == [] && !Considered(rules, m);
    assert ToUpsert(rows, rules, []) == [] && ToMark(rows, rules, []) == [];
    assert ToUpsert(rows, rules, listing) == [] + [];
  }

  lemma OneChildless(rows: Rows, scan: Inode -> int, i: Inode)
    requires StaleRows(rows, 1) == {i} && !HasChildren(rows, i)
    ensures StaleOrder(rows, 1, scan) == [i] && ChildrenFirst(rows, [i])
  {
    var order := StaleOrder(rows, 1, scan);
    assert ElemsOf(order) == {i} && |order| == 1;
    assert order[0] in ElemsOf(order);
  }

  lemma MarkNothing(rows: Rows, generation: nat)
    ensures Mark(rows, [], generation) == rows
  {
  }

  /** The smallest case: the remote lists the conflict file unchanged, and the poll deletes its
      row. */
  lemma ListedConflictRowGoes(scan: Inode -> int, rules: Rules) returns (d: Db, p: PollInput)
    ensures ValidDb(d) && 2 in d.rows && d.rows[2].status == Conflict
    ensures p.listing.Some? && exists m :: m in p.listing.value && m.path == d.rows[2].path
    ensures Poll(d, p).1 && 2 !in Poll(d, p).0.rows
  {
    var m;
    d, m := ConflictSample();
    p := PollInput(Some([m]), rules, scan, 2, false);
    SampleFinishes(d, m, p);
    ConflictRowsSwept(d, p, 2);
    assert m in p.listing.value;
  }

  lemma SampleFinishes(d: Db, m: Meta, p: PollInput)
    requires ValidDb(d) && d.generation == 0 && StaleRows(d.rows, 1) == {2} && !HasChildren(d.rows, 2)
    requires StartsWith(m.path, CONFLICT_PREFIX) && p.listing == Some([m]) && p.cut == 2
    ensures Poll(d, p).1
  {
    NothingToDo(d.rows, p.rules, m);
    SampleThrough(d.rows, [], p.scan);
    NothingFinishes(d, p, [], [], RunUpserts(d, [], d.generation + 1), d.rows, 0, 1);
  }

  /** A poll with nothing to upsert finishes when its sweep does. */
  lemma NothingFinishes(d: Db, p: PollInput, ups: seq<Meta>, marks: seq<Inode>, run: Run, rows: Rows, n: nat,
                        generation: nat)
    requires ValidDb(d) && Prepared(d, p, ups, marks, run) && ups == [] && rows == d.rows && n == 0
    requires generation == d.generation + 1 && Through(true, rows, n, marks, generation, p.scan, p.cut)
    ensures Poll(d, p).1
  {
    RunNothing(d, ups, run);
    PollFinishes(d, p, ups, marks, run);
  }

  lemma RunNothing(d: Db, ups: seq<Meta>, run: Run)
    requires ValidDb(d) && ups == [] && run == RunUpserts(d, ups, d.generation + 1)
    ensures run.ok && run.d.rows == d.rows
  {
  }

  lemma SampleThrough(rows: Rows, marks: seq<Inode>, scan: Inode -> int)
    requires StaleRows(rows, 1) == {2} && !HasChildren(rows, 2) && marks == []
    ensures Through(true, rows, 0, marks, 1, scan, 2)
  {
    OneChildless(rows, scan, 2);
    MarkNothing(rows, 1);
  }
}
