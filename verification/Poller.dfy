/** The poll loop body as the poller runs it: diff, sort, upsert, mark, sweep. */
module Poller {
  import opened Types
  import opened Sequences
  import opened Text
  import opened Ordering
  import opened FileIndex
  import opened Statements
  import opened PollSpec
  import opened PollColumns
  import S = StateDb

  /** What the diff decided: entries to upsert, rows to mark, and the skip counters. */
  datatype Diff = Diff(toUpsert: seq<Meta>, toMark: seq<Inode>,
                       unsafe: nat, tombstoned: nat, ignored: nat)

  ghost function CountWhere(listing: seq<Meta>, f: Meta -> bool): nat {
    if listing == [] then 0
    else CountWhere(listing[..|listing| - 1], f) + (if f(listing[|listing| - 1]) then 1 else 0)
  }

  /** Skipped because the user deleted the path locally a short while ago. */
  predicate Deferred(rules: Rules, m: Meta) {
    !Unsafe(m) && !StartsWith(m.path, CONFLICT_PREFIX) && Tombstoned(rules.tombstones, m.path)
  }

  method DiffListing(db: S.StateDb, rules: Rules, listing: seq<Meta>) returns (diff: Diff)
    requires db.Ok()
    ensures diff.toUpsert == ToUpsert(db.rows, rules, listing)
    ensures diff.toMark == ToMark(db.rows, rules, listing)
    // in columns
    ensures Decided(db.rows, rules, listing, diff.toUpsert, diff.toMark)
    ensures diff.unsafe == CountWhere(listing, Unsafe)
    ensures diff.tombstoned == CountWhere(listing, m => Deferred(rules, m))
    ensures diff.ignored == CountWhere(listing, m => Considered(rules, m) && rules.ignore(m.path))
  {
    var rows := db.rows;
    var snapshot := PathIndex(rows);
    var toUpsert: seq<Meta>, toMark: seq<Inode> := [], [];
    var unsafe, tombstoned, ignored := 0, 0, 0;
    ghost var isDeferred := (m: Meta) => Deferred(rules, m);
    ghost var isIgnored := (m: Meta) => Considered(rules, m) && rules.ignore(m.path);
    for k := 0 to |listing|
      invariant toUpsert == ToUpsert(rows, rules, listing[..k])
      invariant toMark == ToMark(rows, rules, listing[..k])
      invariant unsafe == CountWhere(listing[..k], Unsafe)
      invariant tombstoned == CountWhere(listing[..k], isDeferred)
      invariant ignored == CountWhere(listing[..k], isIgnored)
    {
      var m := listing[k];
      assert listing[..k + 1][..k] == listing[..k];
      SnapshotIsIndex(rows, m.path);
      if Unsafe(m) {
        unsafe := unsafe + 1;
      } else if StartsWith(m.path, CONFLICT_PREFIX) {
      } else if Tombstoned(rules.tombstones, m.path) {
        tombstoned := tombstoned + 1;
      } else if rules.ignore(m.path) {
        if m.path in snapshot { toMark := toMark + [snapshot[m.path]]; }
        ignored := ignored + 1;
      } else if m.path in snapshot {
        var row := rows[snapshot[m.path]];
        if row.etag == m.etag && row.size == m.size {
          toMark := toMark + [snapshot[m.path]];
        } else {
          toUpsert := toUpsert + [m];
        }
      } else {
        toUpsert := toUpsert + [m];
      }
    }
    assert listing[..|listing|] == listing;
    assert CountWhere(listing, isDeferred) == CountWhere(listing, m => Deferred(rules, m));
    assert CountWhere(listing, isIgnored) == CountWhere(listing, m => Considered(rules, m) && rules.ignore(m.path));
    DiffSpelled(rows, rules, listing);
    diff := Diff(toUpsert, toMark, unsafe, tombstoned, ignored);
  }

  lemma SnapshotIsIndex(rows: Rows, path: string)
    requires Valid(rows)
    ensures path in PathIndex(rows) <==> At(rows, path).Some?
    ensures path in PathIndex(rows) ==> At(rows, path) == Some(PathIndex(rows)[path])
  {
    if path in PathIndex(rows) { AtUnique(rows, PathIndex(rows)[path]); }
  }

  /** The upsert loop, over the entries that come before the cut. */
  method UpsertLoop(db: S.StateDb, ups: seq<Meta>, generation: nat) returns (ok: bool)
    requires db.Ok()
    modifies db
    ensures db.Ok()
    ensures
      var run := RunUpserts(old(db.State()), ups, generation);
      db.State() == run.d && ok == run.ok
  {
    var index := PathIndex(db.rows);
    ghost var start := db.State();
    ghost var inodes: seq<Inode> := [];
    var k := 0;
    ok := true;
    while k < |ups| && ok
      invariant k <= |ups| && db.Ok()
      invariant
        var run := RunUpserts(start, ups[..k], generation);
        db.State() == run.d && ok == run.ok && (ok ==> index == run.index)
    {
      var m := ups[k];
      assert ups[..k + 1][..k] == ups[..k];
      var inode := db.UpsertRemoteFile(ParentInode(index, m.path), m, generation);
      if inode.Some? { index := index[m.path := inode.value]; } else { ok := false; }
      k := k + 1;
    }
    if !ok { RunStops(start, ups, generation, k); } else { assert ups[..k] == ups; }
  }

  lemma {:induction false} RunStops(d: Db, ups: seq<Meta>, generation: nat, n: nat)
    requires ValidDb(d) && n <= |ups| && !RunUpserts(d, ups[..n], generation).ok
    ensures RunUpserts(d, ups, generation) == RunUpserts(d, ups[..n], generation)
    decreases |ups|
  {
    if n == |ups| {
      assert ups[..n] == ups;
    } else {
      assert ups[..|ups| - 1][..n] == ups[..n];
      RunStops(d, ups[..|ups| - 1], generation, n);
    }
  }

  /** The first statement of an upsert that gets no further. */
  method TornUpsert(db: S.StateDb, m: Meta)
    requires db.Ok()
    modifies db
    ensures db.Ok() && db.State() == Torn(old(db.State()), m)
  {
    var byId := db.FindById(m.itemId);
    var holder := db.FindByPath(m.path);
    if byId.Some? && db.rows[byId.value].path != m.path && holder.Some? {
      var deleted := db.DeleteRow(holder.value);
    }
  }

  /** `poll_once`. The statements run until the cut; a listing error, an oversized listing,
      a refused statement or the cut makes the poll fail with what was done so far in force. */
  method PollOnce(db: S.StateDb, p: PollInput) returns (ok: bool)
    requires db.Ok()
    modifies db
    ensures db.Ok()
    ensures (db.State(), ok) == Poll(old(db.State()), p)
  {
    if p.listing.None? { return false; }
    var listing := p.listing.value;
    if |listing| > MAX_POLL_ENTRIES { return false; }
    var diff := DiffListing(db, p.rules, listing);
    ok := ApplyDiff(db, SortByLength(diff.toUpsert), diff.toMark, p);
  }

  /** Phase 3: everything that changes the database. */
  method ApplyDiff(db: S.StateDb, ups: seq<Meta>, marks: seq<Inode>, p: PollInput) returns (ok: bool)
    requires db.Ok()
    modifies db
    ensures db.Ok()
    ensures (db.State(), ok) == Apply(old(db.State()), ups, marks, p)
  {
    var generation := db.generation + 1;
    ghost var start := db.State();
    ok := UpsertAll(db, ups, p, generation);
    ghost var mid := (db.State(), ok);
    ghost var end;
    ok, end := FinishPoll(db, ok, marks, generation, p.scan, Less(p.cut, |ups|), mid);
    PhasesEnd(start, ups, marks, p, generation, mid, end);
  }

  lemma PhasesEnd(d: Db, ups: seq<Meta>, marks: seq<Inode>, p: PollInput, generation: nat,
                  mid: (Db, bool), end: (Db, bool))
    requires ValidDb(d) && generation == d.generation + 1 && mid == UpsertPhase(d, ups, p)
    requires end == Finish(mid.0, mid.1, marks, generation, p.scan, Less(p.cut, |ups|))
    ensures end == Apply(d, ups, marks, p)
  {
    PhasesGive(d, ups, marks, p, (a: (Db, bool)) => a == end);
  }

  /** Marks and sweep, unless the upserts did not get through. */
  method FinishPoll(db: S.StateDb, upserted: bool, marks: seq<Inode>, generation: nat, scan: Inode -> int, left: nat,
                    ghost mid: (Db, bool))
    returns (ok: bool, ghost end: (Db, bool))
    requires db.Ok() && mid == (db.State(), upserted)
    modifies db
    ensures db.Ok() && end == (db.State(), ok)
    ensures end == Finish(mid.0, mid.1, marks, generation, scan, left)
  {
    ok := false;
    if upserted { ok := MarkAndSweep(db, marks, generation, scan, left); }
    end := (db.State(), ok);
  }

  /** The upserts up to the cut. */
  method UpsertAll(db: S.StateDb, ups: seq<Meta>, p: PollInput, generation: nat) returns (ok: bool)
    requires db.Ok() && generation == db.generation + 1
    modifies db
    ensures db.Ok()
    ensures (db.State(), ok) == UpsertPhase(old(db.State()), ups, p)
  {
    ok := UpsertLoop(db, Take(ups, p.cut), generation);
    if !ok { return false; }
    if p.cut < |ups| {
      if p.torn { TornUpsert(db, ups[p.cut]); }
      return false;
    }
  }

  method StaleInOrder(db: S.StateDb, generation: nat, scan: Inode -> int) returns (order: seq<Inode>)
    ensures order == Ranked(StaleRows(db.rows, generation), scan)
  {
    order := db.SelectStale(generation, scan);
    RankedUnique(StaleRows(db.rows, generation), scan, order);
  }

  method MarkAndSweep(db: S.StateDb, marks: seq<Inode>, generation: nat, scan: Inode -> int, left: nat)
    returns (ok: bool)
    requires db.Ok()
    modifies db
    ensures db.Ok()
    ensures (db.State(), ok) == MarkPhase(old(db.State()), marks, generation, scan, left)
  {
    db.MarkGeneration(Take(marks, left), generation);
    if left < |marks| { return false; }
    var order := StaleInOrder(db, generation, scan);
    var swept := db.DeleteAll(Take(order, left - |marks|));
    if !swept || left - |marks| <= |order| { return false; }
    db.SetPollGeneration(generation);
    ok := true;
  }
}
