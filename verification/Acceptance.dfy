/** When the schema accepts a statement, and when a whole plan of upserts goes through. */
module Acceptance {
  import opened Types
  import opened FileIndex
  import opened PollSpec
  import opened PollRefinement
  import opened PollParents
  import opened PollTheorem
  import opened PollFinish

  // ------------------------------------------------------------------- one upsert

  /** Some row other than `i` has this name below `parent`. */
  ghost predicate Namesake(rows: Rows, i: Inode, parent: Inode, name: string) {
    exists j :: j in rows && j != i && rows[j].parent == Some(parent) && rows[j].name == name
  }

  /** Row `i` may hang below `parent` under this name. */
  ghost predicate Room(rows: Rows, i: Inode, parent: Inode, name: string) {
    (parent == i || parent in rows) && !Namesake(rows, i, parent, name)
  }

  /** The row that the upsert writes: the claimed one or a new one. */
  ghost function Target(d: Db, m: Meta): Inode {
    if Claim(d.rows, m).Some? then Claim(d.rows, m).value else d.next
  }

  /** A row other than the target holds the path that the upsert wants. */
  ghost predicate Collides(d: Db, m: Meta) {
    var i, holder := ById(d.rows, m.itemId), At(d.rows, m.path);
    i.Some? && d.rows[i.value].path != m.path && holder.Some?
  }

  /** The rows that the update meets: a colliding row is deleted first. */
  ghost function Cleared(d: Db, m: Meta): Rows {
    if Collides(d, m) then d.rows - {At(d.rows, m.path).value} else d.rows
  }

  /** The upsert is acceptable: a colliding row has no children, the parent is there, no other
      row has the name, and unsynced edits have a cache file. */
  ghost predicate Welcome(d: Db, parent: Inode, m: Meta, generation: nat) {
    && (Collides(d, m) ==> !HasChildren(d.rows, At(d.rows, m.path).value))
    && Room(Cleared(d, m), Target(d, m), parent, m.name)
    && CachePathPresent(Landed(d.rows, m, parent, generation))
  }

  /** Of the constraints on the row that an upsert writes, those on path and item id are met
      anyway. */
  lemma RoomIsEnough(d: Db, parent: Inode, m: Meta, generation: nat)
    requires ValidDb(d)
    ensures
      var row := Landed(d.rows, m, parent, generation);
      Admissible(Cleared(d, m), Target(d, m), row)
      <==> Room(Cleared(d, m), Target(d, m), parent, m.name) && CachePathPresent(row)
  {
    var rows, i, row := Cleared(d, m), Target(d, m), Landed(d.rows, m, parent, generation);
    forall j | j in rows && j != i
      ensures Clashes(row, rows[j]) <==> rows[j].parent == Some(parent) && rows[j].name == m.name
    {
      PathAndIdFree(d, parent, m, generation, j);
    }
  }

  lemma PathAndIdFree(d: Db, parent: Inode, m: Meta, generation: nat, j: Inode)
    requires ValidDb(d) && j in Cleared(d, m) && j != Target(d, m)
    ensures d.rows[j].path != m.path
    ensures
      var row := Landed(d.rows, m, parent, generation);
      row.itemId.Some? ==> row.itemId != d.rows[j].itemId
  {
    assert Admissible(d.rows, j, d.rows[j]);
    AtUnique(d.rows, j);
  }

  lemma UpsertIs(d: Db, parent: Inode, m: Meta, generation: nat)
    ensures Upsert(d, parent, m, generation).1.Some? <==>
              && (Collides(d, m) ==> !HasChildren(d.rows, At(d.rows, m.path).value))
              && Admissible(Cleared(d, m), Target(d, m), Landed(d.rows, m, parent, generation))
  {
  }

  /** An upsert goes through if and only if it is welcome. */
  lemma UpsertGoesThrough(d: Db, parent: Inode, m: Meta, generation: nat)
    requires ValidDb(d)
    ensures Upsert(d, parent, m, generation).1.Some? <==> Welcome(d, parent, m, generation)
  {
    UpsertIs(d, parent, m, generation);
    RoomIsEnough(d, parent, m, generation);
  }

  // --------------------------------------------------------------- a plan of upserts

  /** The next entry is welcome after the upserts of `done`. */
  ghost predicate WelcomeAfter(d: Db, done: seq<Meta>, m: Meta, generation: nat)
    requires ValidDb(d)
  {
    var run := RunUpserts(d, done, generation);
    Welcome(run.d, ParentInode(run.index, m.path), m, generation)
  }

  /** Each entry of the plan is welcome after the entries before it. */
  ghost predicate AllWelcome(d: Db, ups: seq<Meta>, generation: nat)
    requires ValidDb(d)
    decreases |ups|
  {
    ups == [] || (AllWelcome(d, ups[..|ups| - 1], generation)
                  && WelcomeAfter(d, ups[..|ups| - 1], ups[|ups| - 1], generation))
  }

  lemma LastUpsert(d: Db, ups: seq<Meta>, generation: nat)
    requires ValidDb(d) && ups != []
    ensures RunUpserts(d, ups, generation).ok
       <==> RunUpserts(d, ups[..|ups| - 1], generation).ok
            && WelcomeAfter(d, ups[..|ups| - 1], ups[|ups| - 1], generation)
  {
    var front, m := ups[..|ups| - 1], ups[|ups| - 1];
    var run := RunUpserts(d, front, generation);
    assert RunUpserts(d, ups, generation) == UpsertOne(run, m, generation);
    UpsertGoesThrough(run.d, ParentInode(run.index, m.path), m, generation);
  }

  /** A plan goes through if and only if each of its entries is welcome at its turn. */
  lemma {:induction false} PlanGoesThrough(d: Db, ups: seq<Meta>, generation: nat)
    requires ValidDb(d)
    ensures RunUpserts(d, ups, generation).ok <==> AllWelcome(d, ups, generation)
    decreases |ups|
  {
    if ups != [] {
      PlanGoesThrough(d, ups[..|ups| - 1], generation);
      LastUpsert(d, ups, generation);
    }
  }

  // ------------------------------------------------------------------- settled plans

  /** The next entry finds no other row of its name below its parent, and a row with unsynced
      edits that it updates has a cache file. */
  ghost predicate FreeAfter(d: Db, done: seq<Meta>, m: Meta, generation: nat)
    requires ValidDb(d)
  {
    var run := RunUpserts(d, done, generation);
    var parent := ParentInode(run.index, m.path);
    !Namesake(run.d.rows, Target(run.d, m), parent, m.name) && CachePathPresent(Landed(d.rows, m, parent, generation))
  }

  ghost predicate AllFree(d: Db, ups: seq<Meta>, generation: nat)
    requires ValidDb(d)
    decreases |ups|
  {
    ups == [] || (AllFree(d, ups[..|ups| - 1], generation)
                  && FreeAfter(d, ups[..|ups| - 1], ups[|ups| - 1], generation))
  }

  /** The parent that the loop picks is always there. */
  lemma ParentPresent(d: Db, done: seq<Meta>, parents: seq<Inode>, generation: nat, run: Run, path: string)
    requires ValidDb(d) && ROOT_INODE in d.rows && Exact(d, done, parents, generation, run)
    requires IndexMatch(d, done, run.index, run.inodes)
    ensures ParentInode(run.index, path) in run.d.rows
  {
    forall q | q in run.index ensures run.index[q] in run.d.rows {
      if a :| 0 <= a < |done| && done[a].path == q { assert run.inodes[a] in run.inodes; }
    }
  }

  /** In a settled plan nothing collides, and every entry still claims its row. */
  lemma SettledEntry(d: Db, done: seq<Meta>, parents: seq<Inode>, generation: nat, run: Run, m: Meta, parent: Inode)
    requires ValidDb(d) && Settled(d.rows, done + [m]) && Exact(d, done, parents, generation, run)
    ensures !Collides(run.d, m) && Landed(run.d.rows, m, parent, generation) == Landed(d.rows, m, parent, generation)
  {
    assert (done + [m])[|done|] == m;
    SettledDistinct(d, done, run.inodes, m);
    ClaimStable(d, done, parents, generation, run, m);
  }

  lemma SettledWelcome(d: Db, done: seq<Meta>, m: Meta, generation: nat)
    requires ValidDb(d) && ROOT_INODE in d.rows && Settled(d.rows, done) && Settled(d.rows, done + [m])
    requires RunUpserts(d, done, generation).ok
    ensures WelcomeAfter(d, done, m, generation) <==> FreeAfter(d, done, m, generation)
  {
    var run, parents := RunUpserts(d, done, generation), ParentsOf(d, done, generation);
    UpsertsExact(d, done, generation);
    IndexExact(d, done, generation);
    ParentPresent(d, done, parents, generation, run, m.path);
    SettledEntry(d, done, parents, generation, run, m, ParentInode(run.index, m.path));
  }

  /** With the root in the table, a settled plan goes through if and only if no entry meets
      another row of its name below the parent that it is given. */
  lemma {:induction false} SettledGoesThrough(d: Db, ups: seq<Meta>, generation: nat)
    requires ValidDb(d) && ROOT_INODE in d.rows && Settled(d.rows, ups)
    ensures RunUpserts(d, ups, generation).ok <==> AllFree(d, ups, generation)
    decreases |ups|
  {
    if ups != [] {
      var front, m := ups[..|ups| - 1], ups[|ups| - 1];
      assert front + [m] == ups;
      SettledFront(d.rows, front, m);
      SettledGoesThrough(d, front, generation);
      LastUpsert(d, ups, generation);
      if RunUpserts(d, front, generation).ok { SettledWelcome(d, front, m, generation); }
    }
  }

  /** For a coherent listing and a table with its root: when a full poll finishes. */
  lemma CoherentPollFinishes(d: Db, p: PollInput, ups: seq<Meta>, marks: seq<Inode>, run: Run)
    requires ValidDb(d) && ROOT_INODE in d.rows && Prepared(d, p, ups, marks, run)
    requires Coherent(d.rows, p.rules, p.listing.value)
    ensures Poll(d, p).1 <==>
              Through(AllFree(d, ups, d.generation + 1), run.d.rows, |ups|, marks, d.generation + 1, p.scan, p.cut)
  {
    CoherentSettles(d.rows, p.rules, p.listing.value);
    SettledGoesThrough(d, ups, d.generation + 1);
    PollFinishes(d, p, ups, marks, run);
  }
}
