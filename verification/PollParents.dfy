/** Parent directories: the upserts run by increasing path length, so a directory is always
    indexed before its contents. */
module PollParents {
  import opened Types
  import opened Text
  import opened FileIndex
  import opened Statements
  import opened PollSpec
  import opened PollRefinement
  import opened PollTheorem

  /** The path index of the upsert loop: what was indexed, overlaid with what was upserted. */
  ghost predicate IndexMatch(d: Db, ups: seq<Meta>, index: map<string, Inode>, inodes: seq<Inode>)
    requires |inodes| == |ups|
  {
    && (forall a :: 0 <= a < |ups| ==> ups[a].path in index && index[ups[a].path] == inodes[a])
    && (forall q :: q in index ==> At(d.rows, q) == Some(index[q]) || exists a :: 0 <= a < |ups| && ups[a].path == q)
    && (forall i :: i in d.rows ==> d.rows[i].path in index)
  }

  lemma IndexStart(d: Db)
    requires ValidDb(d)
    ensures IndexMatch(d, [], PathIndex(d.rows), [])
  {
    forall q | q in PathIndex(d.rows) ensures At(d.rows, q) == Some(PathIndex(d.rows)[q]) {
      AtUnique(d.rows, PathIndex(d.rows)[q]);
    }
  }

  lemma IndexStep(d: Db, ups: seq<Meta>, index: map<string, Inode>, inodes: seq<Inode>,
                  index': map<string, Inode>, inodes': seq<Inode>)
    requires ups != [] && |inodes| == |ups| - 1 && IndexMatch(d, ups[..|ups| - 1], index, inodes)
    requires forall a, b :: 0 <= a < b < |ups| ==> ups[a].path != ups[b].path
    requires |inodes'| == |ups| && inodes'[..|ups| - 1] == inodes
    requires index' == index[ups[|ups| - 1].path := inodes'[|ups| - 1]]
    ensures IndexMatch(d, ups, index', inodes')
  {
    var front, m := ups[..|ups| - 1], ups[|ups| - 1];
    forall q | q in index'
      ensures At(d.rows, q) == Some(index'[q]) || exists a :: 0 <= a < |ups| && ups[a].path == q
    {
      if q == m.path {
        assert ups[|ups| - 1].path == q;
      } else if At(d.rows, q) != Some(index[q]) {
        var a :| 0 <= a < |front| && front[a].path == q;
        assert ups[a].path == q;
      }
    }
    forall a | 0 <= a < |ups| ensures ups[a].path in index' && index'[ups[a].path] == inodes'[a] {
      if a < |front| { assert front[a] == ups[a] && inodes'[a] == inodes[a]; }
    }
  }

  lemma {:induction false} IndexExact(d: Db, ups: seq<Meta>, generation: nat)
    requires ValidDb(d) && RunUpserts(d, ups, generation).ok
    requires forall a, b :: 0 <= a < b < |ups| ==> ups[a].path != ups[b].path
    ensures IndexMatch(d, ups, RunUpserts(d, ups, generation).index, RunUpserts(d, ups, generation).inodes)
    decreases |ups|
  {
    if ups == [] {
      IndexStart(d);
    } else {
      RunGrows(d, ups, generation);
      IndexExact(d, ups[..|ups| - 1], generation);
      var before, after := RunUpserts(d, ups[..|ups| - 1], generation), RunUpserts(d, ups, generation);
      IndexStep(d, ups, before.index, before.inodes, after.index, after.inodes);
    }
  }

  /** A prefix of a run of upserts answers with a prefix of its inodes. */
  lemma {:induction false} RunPrefix(d: Db, ups: seq<Meta>, generation: nat, b: nat)
    requires ValidDb(d) && RunUpserts(d, ups, generation).ok && b <= |ups|
    ensures RunUpserts(d, ups[..b], generation).ok
    ensures RunUpserts(d, ups[..b], generation).inodes == RunUpserts(d, ups, generation).inodes[..b]
    decreases |ups|
  {
    if b == |ups| {
      assert ups[..b] == ups;
    } else {
      RunGrows(d, ups, generation);
      RunPrefix(d, ups[..|ups| - 1], generation, b);
      assert ups[..|ups| - 1][..b] == ups[..b];
    }
  }

  lemma {:induction false} ParentsPrefix(d: Db, ups: seq<Meta>, generation: nat, b: nat)
    requires ValidDb(d) && b < |ups|
    ensures ParentsOf(d, ups, generation)[b] == ParentInode(RunUpserts(d, ups[..b], generation).index, ups[b].path)
    decreases |ups|
  {
    if b < |ups| - 1 {
      ParentsPrefix(d, ups[..|ups| - 1], generation, b);
      assert ups[..|ups| - 1][..b] == ups[..b];
    }
  }

  /** The directory part of a path, when it has one. */
  function Dirname(path: string): Option<string> {
    var k := LastIndexOf(path, '/');
    if k >= 0 then Some(path[..k]) else None
  }

  /** The directory of entry `b` was upserted by this poll. */
  lemma ParentUpserted(d: Db, ups: seq<Meta>, generation: nat, b: nat, a: nat)
    requires ValidDb(d) && RunUpserts(d, ups, generation).ok && a < |ups| && b < |ups|
    requires forall x, y :: 0 <= x < y < |ups| ==> ups[x].path != ups[y].path
    requires ByLength(ups) && Dirname(ups[b].path) == Some(ups[a].path)
    ensures ParentsOf(d, ups, generation)[b] == RunUpserts(d, ups, generation).inodes[a]
  {
    RunPrefix(d, ups, generation, b);
    ParentsPrefix(d, ups, generation, b);
    IndexExact(d, ups[..b], generation);
    assert |ups[a].path| < |ups[b].path|;
    assert a < b && ups[..b][a] == ups[a];
    var run := RunUpserts(d, ups[..b], generation);
    DirectoryUpserted(d, ups[..b], run.index, run.inodes, ups[b].path, a);
  }

  lemma DirectoryUpserted(d: Db, done: seq<Meta>, index: map<string, Inode>, inodes: seq<Inode>, path: string, a: nat)
    requires |inodes| == |done| && IndexMatch(d, done, index, inodes)
    requires a < |done| && Dirname(path) == Some(done[a].path)
    ensures ParentInode(index, path) == inodes[a]
  {
  }

  lemma DirectoryIndexed(d: Db, done: seq<Meta>, index: map<string, Inode>, inodes: seq<Inode>, path: string)
    requires |inodes| == |done| && IndexMatch(d, done, index, inodes)
    requires forall a :: 0 <= a < |done| ==> Dirname(path) != Some(done[a].path)
    ensures
      var dir := Dirname(path);
      ParentInode(index, path)
      == if dir.Some? && At(d.rows, dir.value).Some? then At(d.rows, dir.value).value else ROOT_INODE
  {
  }

  /** The directory of entry `b` was not upserted by this poll: it is the row indexed at
      that path before, or the root. */
  lemma ParentIndexed(d: Db, ups: seq<Meta>, generation: nat, b: nat)
    requires ValidDb(d) && RunUpserts(d, ups, generation).ok && b < |ups|
    requires forall x, y :: 0 <= x < y < |ups| ==> ups[x].path != ups[y].path
    requires forall a :: 0 <= a < |ups| ==> Dirname(ups[b].path) != Some(ups[a].path)
    ensures
      var dir := Dirname(ups[b].path);
      ParentsOf(d, ups, generation)[b]
      == if dir.Some? && At(d.rows, dir.value).Some? then At(d.rows, dir.value).value else ROOT_INODE
  {
    RunPrefix(d, ups, generation, b);
    ParentsPrefix(d, ups, generation, b);
    IndexExact(d, ups[..b], generation);
    var run := RunUpserts(d, ups[..b], generation);
    DirectoryIndexed(d, ups[..b], run.index, run.inodes, ups[b].path);
  }

  lemma PositionStands(d: Db, rules: Rules, listing: seq<Meta>, run: Run, parents: seq<Inode>, after: Rows, b: nat)
    requires ValidDb(d) && Coherent(d.rows, rules, listing) && Polled(d, rules, listing, run, parents, after)
    requires b < |Plan(d.rows, rules, listing)|
    ensures StandsFor(d, rules, Plan(d.rows, rules, listing)[b], after, run.inodes[b])
    ensures after[run.inodes[b]].parent == Some(parents[b])
  {
    var ups, marks := Plan(d.rows, rules, listing), ToMark(d.rows, rules, listing);
    var m, i := ups[b], run.inodes[b];
    PlanMembers(d.rows, rules, listing, m);
    assert i in run.inodes;
    UpsertedStands(d, rules, m, run.d.rows, marks, parents[b], i);
    StandsAfterSweep(d, rules, m, Mark(run.d.rows, marks, d.generation + 1), after, i);
  }

  /** Entry `x` of the listing is upserted by the poll and is the directory `dir`. */
  ghost predicate UpsertsDirectory(rows: Rows, rules: Rules, listing: seq<Meta>, dir: Option<string>, x: Meta) {
    x in listing && NeedsUpsert(rows, rules, x) && dir == Some(x.path)
  }

  /** `parent` is the right parent for an entry in directory `dir`. */
  ghost predicate RightParent(d: Db, rules: Rules, listing: seq<Meta>, dir: Option<string>, after: Rows,
                              parent: Inode) {
    if exists x :: UpsertsDirectory(d.rows, rules, listing, dir, x)
    then parent in after && Some(after[parent].path) == dir
    else if dir.Some? && At(d.rows, dir.value).Some? then parent == At(d.rows, dir.value).value
    else parent == ROOT_INODE
  }

  lemma RightParentAt(d: Db, rules: Rules, listing: seq<Meta>, run: Run, after: Rows, b: nat)
    requires ValidDb(d) && Coherent(d.rows, rules, listing)
    requires run == RunUpserts(d, Plan(d.rows, rules, listing), d.generation + 1)
    requires Polled(d, rules, listing, run, ParentsOf(d, Plan(d.rows, rules, listing), d.generation + 1), after)
    requires b < |Plan(d.rows, rules, listing)|
    ensures RightParent(d, rules, listing, Dirname(Plan(d.rows, rules, listing)[b].path), after,
                        ParentsOf(d, Plan(d.rows, rules, listing), d.generation + 1)[b])
  {
    CoherentSettles(d.rows, rules, listing);
    SortByLengthSorts(ToUpsert(d.rows, rules, listing));
    RightParentIn(d, rules, listing, Plan(d.rows, rules, listing), run,
                  ParentsOf(d, Plan(d.rows, rules, listing), d.generation + 1), after, b);
  }

  lemma RightParentIn(d: Db, rules: Rules, listing: seq<Meta>, ups: seq<Meta>, run: Run, parents: seq<Inode>,
                      after: Rows, b: nat)
    requires ValidDb(d) && Coherent(d.rows, rules, listing) && Settled(d.rows, ups) && ByLength(ups)
    requires ups == Plan(d.rows, rules, listing) && run == RunUpserts(d, ups, d.generation + 1)
    requires parents == ParentsOf(d, ups, d.generation + 1)
    requires Polled(d, rules, listing, run, parents, after) && b < |ups|
    ensures RightParent(d, rules, listing, Dirname(ups[b].path), after, parents[b])
  {
    var generation := d.generation + 1;
    var dir := Dirname(ups[b].path);
    if x :| UpsertsDirectory(d.rows, rules, listing, dir, x) {
      PlanMembers(d.rows, rules, listing, x);
      var a :| 0 <= a < |ups| && ups[a] == x;
      ParentUpserted(d, ups, generation, b, a);
      PositionStands(d, rules, listing, run, parents, after, a);
    } else {
      NotUpserted(d.rows, rules, listing, ups, dir);
      ParentIndexed(d, ups, generation, b);
    }
  }

  lemma NotUpserted(rows: Rows, rules: Rules, listing: seq<Meta>, ups: seq<Meta>, dir: Option<string>)
    requires ups == Plan(rows, rules, listing) && !exists x :: UpsertsDirectory(rows, rules, listing, dir, x)
    ensures forall a :: 0 <= a < |ups| ==> dir != Some(ups[a].path)
  {
    forall a | 0 <= a < |ups| ensures dir != Some(ups[a].path) {
      PlanMembers(rows, rules, listing, ups[a]);
      assert !UpsertsDirectory(rows, rules, listing, dir, ups[a]);
    }
  }

  /** Every new or changed entry of a finished poll hangs below its directory: if that
      directory is itself new or changed, below the row now at its path; else below the row
      indexed there before the poll; and below the root only when the directory is unknown. */
  lemma ParentAssigned(d: Db, p: PollInput, m: Meta) returns (i: Inode)
    requires ValidDb(d) && Poll(d, p).1 && Coherent(d.rows, p.rules, p.listing.value)
    requires m in p.listing.value && NeedsUpsert(d.rows, p.rules, m)
    ensures StandsFor(d, p.rules, m, Poll(d, p).0.rows, i)
    ensures Poll(d, p).0.rows[i].parent.Some?
    ensures RightParent(d, p.rules, p.listing.value, Dirname(m.path), Poll(d, p).0.rows,
                        Poll(d, p).0.rows[i].parent.value)
  {
    var listing, after := p.listing.value, Poll(d, p).0.rows;
    var run, parents := FinishedPoll(d, p);
    var ups := Plan(d.rows, p.rules, listing);
    PlanMembers(d.rows, p.rules, listing, m);
    var b :| 0 <= b < |ups| && ups[b] == m;
    i := run.inodes[b];
    PositionStands(d, p.rules, listing, run, parents, after, b);
    RightParentAt(d, p.rules, listing, run, after, b);
  }
}
