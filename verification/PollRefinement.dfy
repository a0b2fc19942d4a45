/** A successful full poll rebuilds the index from the listing. */
module PollRefinement {
  import opened Types
  import opened FileIndex
  import opened PollSpec

  /** `m` is a known item that the remote now reports at another path. */
  ghost predicate Moves(rows: Rows, m: Meta) {
    var i := ById(rows, m.itemId);
    i.Some? && rows[i.value].path != m.path
  }

  /** The upserts tell one consistent story about the indexed rows: no path, item or row
      is meant twice, and an item moves only to a path that no row holds. */
  ghost predicate Settled(rows: Rows, ups: seq<Meta>) {
    && (forall a, b :: 0 <= a < b < |ups| ==> ups[a].path != ups[b].path)
    && (forall a, b :: 0 <= a < b < |ups| && ups[a].itemId.Some? ==> ups[a].itemId != ups[b].itemId)
    && (forall a, b :: 0 <= a < b < |ups| && Claim(rows, ups[a]).Some? ==>
          Claim(rows, ups[a]) != Claim(rows, ups[b]))
    && (forall a :: 0 <= a < |ups| && Moves(rows, ups[a]) ==> At(rows, ups[a].path).None?)
  }

  /** The row that the upsert of `m` leaves behind, in terms of the table before the poll. */
  ghost function Landed(rows: Rows, m: Meta, parent: Inode, generation: nat): Row {
    var c := Claim(rows, m);
    if c.Some? then Refreshed(rows[c.value], parent, m, generation) else Fresh(parent, m, generation)
  }

  /** The parents that the upserts are given, in order. */
  ghost function ParentsOf(d: Db, ups: seq<Meta>, generation: nat): (parents: seq<Inode>)
    requires ValidDb(d)
    ensures |parents| == |ups|
    decreases |ups|
  {
    if ups == [] then []
    else
      var front := ups[..|ups| - 1];
      ParentsOf(d, front, generation)
      + [ParentInode(RunUpserts(d, front, generation).index, ups[|ups| - 1].path)]
  }

  /** The inode for the entry at position `a`: the row it claims, or a new one. */
  ghost predicate InodesMatch(d: Db, ups: seq<Meta>, inodes: seq<Inode>) {
    && |inodes| == |ups|
    && (forall a :: 0 <= a < |ups| ==>
          var c := Claim(d.rows, ups[a]);
          if c.Some? then inodes[a] == c.value else inodes[a] >= d.next)
    && (forall a, b :: 0 <= a < b < |inodes| ==> inodes[a] != inodes[b])
  }

  /** The table after the upserts: every entry landed on its inode, all other rows as before. */
  ghost predicate RowsMatch(d: Db, ups: seq<Meta>, inodes: seq<Inode>, parents: seq<Inode>,
                            generation: nat, rows: Rows)
    requires |inodes| == |ups| == |parents|
  {
    && (forall i :: i in rows <==> i in d.rows || i in inodes)
    && (forall a :: 0 <= a < |ups| ==>
          rows[inodes[a]] == Landed(d.rows, ups[a], parents[a], generation))
    && (forall i :: i in d.rows && i !in inodes ==> rows[i] == d.rows[i])
  }

  ghost predicate Exact(d: Db, ups: seq<Meta>, parents: seq<Inode>, generation: nat, run: Run) {
    && run.ok && ValidDb(run.d) && |parents| == |ups|
    && InodesMatch(d, ups, run.inodes)
    && RowsMatch(d, ups, run.inodes, parents, generation, run.d.rows)
    && run.d.generation == d.generation && run.d.next >= d.next
    && (forall i :: i in run.inodes ==> i < run.d.next)
  }

  /** `m` is none of the entries that have already landed. */
  ghost predicate Distinct(d: Db, done: seq<Meta>, inodes: seq<Inode>, m: Meta)
    requires |inodes| == |done|
  {
    && (forall a :: 0 <= a < |done| ==> done[a].path != m.path)
    && (forall a :: 0 <= a < |done| && m.itemId.Some? ==> done[a].itemId != m.itemId)
    && (Claim(d.rows, m).Some? ==> Claim(d.rows, m).value !in inodes)
  }

  lemma SettledDistinct(d: Db, done: seq<Meta>, inodes: seq<Inode>, m: Meta)
    requires Settled(d.rows, done + [m]) && InodesMatch(d, done, inodes)
    requires forall i :: i in d.rows ==> i < d.next
    ensures Distinct(d, done, inodes, m)
  {
    var all, n := done + [m], |done|;
    assert all[n] == m;
    forall a | 0 <= a < n
      ensures done[a].path != m.path
      ensures m.itemId.Some? ==> done[a].itemId != m.itemId
      ensures Claim(d.rows, m).Some? ==> inodes[a] != Claim(d.rows, m).value
    {
      assert all[a] == done[a];
    }
  }

  lemma LandedHasNoId(d: Db, done: seq<Meta>, inodes: seq<Inode>, parents: seq<Inode>, generation: nat,
                      rows: Rows, m: Meta)
    requires |inodes| == |done| == |parents|
    requires RowsMatch(d, done, inodes, parents, generation, rows) && Distinct(d, done, inodes, m)
    requires m.itemId.Some? && ById(d.rows, m.itemId).None?
    ensures forall k :: k in rows ==> rows[k].itemId != m.itemId
  {
    forall k | k in rows ensures rows[k].itemId != m.itemId {
      if k in inodes {
        var a :| 0 <= a < |inodes| && inodes[a] == k;
        assert rows[inodes[a]] == Landed(d.rows, done[a], parents[a], generation);
      }
    }
  }

  lemma LandedNotAt(d: Db, done: seq<Meta>, inodes: seq<Inode>, parents: seq<Inode>, generation: nat,
                    rows: Rows, m: Meta)
    requires |inodes| == |done| == |parents|
    requires RowsMatch(d, done, inodes, parents, generation, rows) && Distinct(d, done, inodes, m)
    requires At(d.rows, m.path).None?
    ensures forall k :: k in rows ==> rows[k].path != m.path
  {
    forall k | k in rows ensures rows[k].path != m.path {
      if k in inodes {
        var a :| 0 <= a < |inodes| && inodes[a] == k;
        assert rows[inodes[a]] == Landed(d.rows, done[a], parents[a], generation);
      }
    }
  }

  lemma LandedKeepsId(d: Db, done: seq<Meta>, inodes: seq<Inode>, parents: seq<Inode>, generation: nat,
                      rows: Rows, i: Inode)
    requires |inodes| == |done| == |parents|
    requires RowsMatch(d, done, inodes, parents, generation, rows) && InodesMatch(d, done, inodes)
    requires i in d.rows && i < d.next && d.rows[i].itemId.Some?
    ensures i in rows && rows[i].itemId == d.rows[i].itemId
  {
    if i in inodes {
      var a :| 0 <= a < |inodes| && inodes[a] == i;
      assert rows[inodes[a]] == Landed(d.rows, done[a], parents[a], generation);
    }
  }

  /** The next entry still claims the row that it claimed before the poll. */
  lemma ClaimStable(d: Db, done: seq<Meta>, parents: seq<Inode>, generation: nat, run: Run, m: Meta)
    requires ValidDb(d) && Exact(d, done, parents, generation, run)
    requires Distinct(d, done, run.inodes, m)
    ensures ById(run.d.rows, m.itemId) == ById(d.rows, m.itemId)
    ensures ById(d.rows, m.itemId).None? || At(d.rows, m.path).None? ==> At(run.d.rows, m.path) == At(d.rows, m.path)
  {
    var rows := run.d.rows;
    var i, p := ById(d.rows, m.itemId), At(d.rows, m.path);
    if i.Some? {
      LandedKeepsId(d, done, run.inodes, parents, generation, rows, i.value);
      ByIdUnique(rows, i.value);
    } else if m.itemId.Some? {
      LandedHasNoId(d, done, run.inodes, parents, generation, rows, m);
    }
    if p.None? {
      LandedNotAt(d, done, run.inodes, parents, generation, rows, m);
    } else if i.None? {
      assert p.value !in run.inodes;
      assert rows[p.value] == d.rows[p.value];
      AtUnique(rows, p.value);
    }
  }

  /** One successful upsert of an entry that moves onto no other row. */
  lemma UpsertLands(d: Db, parent: Inode, m: Meta, generation: nat)
    requires Upsert(d, parent, m, generation).1.Some?
    requires Moves(d.rows, m) ==> At(d.rows, m.path).None?
    ensures
      var (d', r) := Upsert(d, parent, m, generation);
      var c := Claim(d.rows, m);
      && d'.rows == d.rows[r.value := Landed(d.rows, m, parent, generation)]
      && r.value == (if c.Some? then c.value else d.next)
      && d'.next == (if c.Some? then d.next else d.next + 1)
      && d'.generation == d.generation
  {
  }

  lemma ExactStep(d: Db, done: seq<Meta>, parents: seq<Inode>, generation: nat, run: Run, m: Meta)
    requires ValidDb(d) && Settled(d.rows, done + [m]) && Exact(d, done, parents, generation, run)
    requires UpsertOne(run, m, generation).ok
    ensures Exact(d, done + [m], parents + [ParentInode(run.index, m.path)], generation,
                  UpsertOne(run, m, generation))
  {
    var parent := ParentInode(run.index, m.path);
    var run' := UpsertOne(run, m, generation);
    assert (done + [m])[|done|] == m;
    SettledDistinct(d, done, run.inodes, m);
    ClaimStable(d, done, parents, generation, run, m);
    UpsertLands(run.d, parent, m, generation);
    UpsertKeepsValid(run.d, parent, m, generation);
    var c := Claim(d.rows, m);
    assert c.Some? ==> run.d.rows[c.value] == d.rows[c.value];
    LandStep(d, done, parents, generation, run, m, parent, run');
  }

  lemma LandStep(d: Db, done: seq<Meta>, parents: seq<Inode>, generation: nat, run: Run, m: Meta,
                 parent: Inode, run': Run)
    requires Exact(d, done, parents, generation, run) && Distinct(d, done, run.inodes, m)
    requires forall i :: i in d.rows ==> i < d.next
    requires run'.ok && ValidDb(run'.d) && run'.d.generation == d.generation && run'.d.next >= run.d.next
    requires |run'.inodes| == |done| + 1 && run'.inodes[..|done|] == run.inodes
    requires
      var i := run'.inodes[|done|];
      var c := Claim(d.rows, m);
      && i == (if c.Some? then c.value else run.d.next) && i < run'.d.next
      && run'.d.rows == run.d.rows[i := Landed(d.rows, m, parent, generation)]
    ensures Exact(d, done + [m], parents + [parent], generation, run')
  {
    var i := run'.inodes[|done|];
    assert run'.inodes == run.inodes + [i];
    assert i !in run.inodes;
    InodesStep(d, done, run.inodes, m, i);
    RowsStep(d, done, run.inodes, parents, generation, run.d.rows, m, parent, i);
  }

  lemma InodesStep(d: Db, done: seq<Meta>, inodes: seq<Inode>, m: Meta, i: Inode)
    requires InodesMatch(d, done, inodes) && i !in inodes
    requires if Claim(d.rows, m).Some? then i == Claim(d.rows, m).value else i >= d.next
    ensures InodesMatch(d, done + [m], inodes + [i])
  {
  }

  lemma RowsStep(d: Db, done: seq<Meta>, inodes: seq<Inode>, parents: seq<Inode>, generation: nat, rows: Rows,
                 m: Meta, parent: Inode, i: Inode)
    requires |inodes| == |done| == |parents| && RowsMatch(d, done, inodes, parents, generation, rows) && i !in inodes
    ensures RowsMatch(d, done + [m], inodes + [i], parents + [parent], generation,
                      rows[i := Landed(d.rows, m, parent, generation)])
  {
  }

  lemma ExactStart(d: Db, generation: nat)
    requires ValidDb(d)
    ensures Exact(d, [], [], generation, RunUpserts(d, [], generation))
  {
  }

  /** The upserts of a settled plan, one by one, amount to landing every entry on the row
      it claimed before the poll (or on a new inode) and to nothing else. */
  lemma {:induction false} UpsertsExact(d: Db, ups: seq<Meta>, generation: nat)
    requires ValidDb(d) && Settled(d.rows, ups)
    requires RunUpserts(d, ups, generation).ok
    ensures Exact(d, ups, ParentsOf(d, ups, generation), generation, RunUpserts(d, ups, generation))
    decreases |ups|
  {
    if ups == [] {
      ExactStart(d, generation);
    } else {
      var front, m := ups[..|ups| - 1], ups[|ups| - 1];
      var run := RunUpserts(d, front, generation);
      assert front + [m] == ups;
      SettledFront(d.rows, front, m);
      assert RunUpserts(d, ups, generation) == UpsertOne(run, m, generation);
      UpsertsExact(d, front, generation);
      ExactStep(d, front, ParentsOf(d, front, generation), generation, run, m);
    }
  }

  lemma SettledFront(rows: Rows, front: seq<Meta>, m: Meta)
    requires Settled(rows, front + [m])
    ensures Settled(rows, front)
  {
    var all := front + [m];
    assert forall a :: 0 <= a < |front| ==> all[a] == front[a];
  }
}
