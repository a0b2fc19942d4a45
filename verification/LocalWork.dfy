/** Unsynced local work survives every mix of remote-driven statements. */
module LocalWork {
  import opened Types
  import opened Sequences
  import opened FileIndex
  import opened Statements

  datatype Step =
    | SweepStale(scan: Inode -> int, generation: nat)
    | MarkSeen(inodes: seq<Inode>, generation: nat)
    | DropPath(path: string)
    | DropItem(id: string)
    | ListDirectory(parent: Inode, metas: seq<Meta>, generation: nat)
    | UpsertEntry(parent: Inode, meta: Meta, generation: nat)
    | ClearMount(includePinned: bool)
    | Evict(inode: Inode)

  /** Clearing the cache columns of a row that has unsynced edits. */
  ghost predicate EvictsLocalWork(d: Db, i: Inode) { i in d.rows && d.rows[i].status.IsLocalWork() }

  /** The two statements without a status guard: a rename onto a path whose holder has
      unsynced edits, and `set_evicted` on a row that has them. */
  ghost predicate Costs(d: Db, s: Step) {
    match s
    case UpsertEntry(_, m, _) => RenamesOntoLocalWork(d, m)
    case Evict(i) => EvictsLocalWork(d, i)
    case _ => false
  }

  ghost function Do(d: Db, s: Step): Db {
    match s
    case SweepStale(scan, generation) => d.(rows := Sweep(d.rows, StaleOrder(d.rows, generation, scan)).0)
    case MarkSeen(inodes, generation) => d.(rows := Mark(d.rows, inodes, generation))
    case DropPath(path) => d.(rows := DeleteByPath(d.rows, path).0)
    case DropItem(id) => d.(rows := DeleteById(d.rows, id).0)
    case ListDirectory(parent, metas, generation) => BatchUpsert(d, parent, metas, generation).0
    case UpsertEntry(parent, m, generation) => Upsert(d, parent, m, generation).0
    case ClearMount(includePinned) => d.(rows := ClearCache(d.rows, includePinned))
    case Evict(i) => d.(rows := SetEvicted(d.rows, i))
  }

  ghost function DoAll(d: Db, steps: seq<Step>): Db {
    if steps == [] then d else Do(DoAll(d, steps[..|steps| - 1]), steps[|steps| - 1])
  }

  /** No step of the run costs local work. */
  ghost predicate NoneCosts(d: Db, steps: seq<Step>) {
    steps == [] || (NoneCosts(d, steps[..|steps| - 1]) && !Costs(DoAll(d, steps[..|steps| - 1]), steps[|steps| - 1]))
  }

  lemma {:induction false} UpsertAllKeeps(d: Db, parent: Inode, metas: seq<Meta>, generation: nat)
    requires ValidDb(d)
    ensures ValidDb(UpsertAll(d, parent, metas, generation).0)
    ensures KeepsLocalWork(d.rows, UpsertAll(d, parent, metas, generation).0.rows)
    decreases |metas|
  {
    if metas != [] {
      var front, m := metas[..|metas| - 1], metas[|metas| - 1].(itemId := None);
      UpsertAllKeeps(d, parent, front, generation);
      var prev := UpsertAll(d, parent, front, generation).0;
      UpsertKeepsValid(prev, parent, m, generation);
      UpsertLosesLocalWork(prev, parent, m, generation);
    }
  }

  lemma {:induction false} BatchUpsertKeeps(d: Db, parent: Inode, metas: seq<Meta>, generation: nat)
    requires ValidDb(d)
    ensures ValidDb(BatchUpsert(d, parent, metas, generation).0)
    ensures KeepsLocalWork(d.rows, BatchUpsert(d, parent, metas, generation).0.rows)
    decreases |metas|
  {
    if metas != [] {
      var n := if |metas| < CHUNK_SIZE then |metas| else CHUNK_SIZE;
      UpsertAllKeeps(d, parent, metas[..n], generation);
      BatchUpsertKeeps(UpsertAll(d, parent, metas[..n], generation).0, parent, metas[n..], generation);
    }
  }

  lemma SweepKeepsWork(rows: Rows, generation: nat, scan: Inode -> int)
    requires Valid(rows)
    ensures Valid(Sweep(rows, StaleOrder(rows, generation, scan)).0)
    ensures KeepsLocalWork(rows, Sweep(rows, StaleOrder(rows, generation, scan)).0)
  {
    var order := StaleOrder(rows, generation, scan);
    SweepKeepsValid(rows, order);
    SweepRemoves(rows, order);
    assert forall i :: i in order ==> i in ElemsOf(order);
  }

  /** Eviction of a row costs local work exactly when the row has unsynced edits at that very
      moment; the status that the loop read before does not matter. */
  lemma EvictionLosesLocalWork(d: Db, i: Inode)
    ensures KeepsLocalWork(d.rows, SetEvicted(d.rows, i)) <==> !EvictsLocalWork(d, i)
  {
    if EvictsLocalWork(d, i) { assert SetEvicted(d.rows, i)[i].status == Remote; }
  }

  /** Every statement keeps the schema constraints. */
  lemma StepValid(d: Db, s: Step)
    requires ValidDb(d)
    ensures ValidDb(Do(d, s))
  {
    match s
    case SweepStale(scan, generation) =>
      SweepKeepsWork(d.rows, generation, scan);
      SweepRemoves(d.rows, StaleOrder(d.rows, generation, scan));
    case MarkSeen(inodes, generation) => MarkKeepsValid(d.rows, inodes, generation);
    case DropPath(path) =>
      if DeleteByPath(d.rows, path).1.Removed? { DeleteKeepsValid(d.rows, At(d.rows, path).value); }
    case DropItem(id) =>
      if DeleteById(d.rows, id).1.Removed? { DeleteKeepsValid(d.rows, ById(d.rows, Some(id)).value); }
    case ListDirectory(parent, metas, generation) => BatchUpsertKeeps(d, parent, metas, generation);
    case UpsertEntry(parent, m, generation) => UpsertKeepsValid(d, parent, m, generation);
    case ClearMount(includePinned) => EvictedKeepsValid(d.rows, ClearCache(d.rows, includePinned));
    case Evict(i) => EvictedKeepsValid(d.rows, SetEvicted(d.rows, i));
  }

  /** A statement keeps all local work if and only if it is none of the two exceptions. */
  lemma StepKeeps(d: Db, s: Step)
    requires ValidDb(d)
    ensures KeepsLocalWork(d.rows, Do(d, s).rows) <==> !Costs(d, s)
  {
    match s
    case SweepStale(scan, generation) => SweepKeepsWork(d.rows, generation, scan);
    case ListDirectory(parent, metas, generation) => BatchUpsertKeeps(d, parent, metas, generation);
    case UpsertEntry(parent, m, generation) => UpsertLosesLocalWork(d, parent, m, generation);
    case Evict(i) => EvictionLosesLocalWork(d, i);
    case _ =>
  }

  /** Over every run of these statements in which neither exception occurs, each row that is
      dirty or uploading is still there at the end, with the same status and cache file. */
  lemma {:induction false} LocalWorkSurvives(d: Db, steps: seq<Step>)
    requires ValidDb(d) && NoneCosts(d, steps)
    ensures ValidDb(DoAll(d, steps)) && KeepsLocalWork(d.rows, DoAll(d, steps).rows)
    decreases |steps|
  {
    if steps != [] {
      LocalWorkSurvives(d, steps[..|steps| - 1]);
      StepValid(DoAll(d, steps[..|steps| - 1]), steps[|steps| - 1]);
      StepKeeps(DoAll(d, steps[..|steps| - 1]), steps[|steps| - 1]);
    }
  }

  /** The race of eviction with a write: the loop reads that file 2 is cached, a write lands,
      and the eviction then drops the cache file that the write went to. */
  lemma EvictionDropsLateWrite(size: nat) returns (before: Db, written: Db)
    ensures ValidDb(before) && 2 in before.rows && before.rows[2].status == Cached
    ensures written == before.(rows := SetDirtySize(before.rows, 2, size)) && written.rows[2].status == Dirty
    ensures !KeepsLocalWork(written.rows, SetEvicted(written.rows, 2))
  {
    var root := Row(None, "/", "/", Directory, 0, 0, None, Remote, None, None, 0, None, None);
    var used := Some(Lru(0, false));
    var file := Row(Some(1), "b", "b", File, 4, 0, None, Cached, Some("cache/b"), Some(4), 0, None, used);
    var other := Row(Some(1), "a", "a", File, 4, 0, None, Remote, None, None, 0, None, None);
    before := Db(map[1 := root, 2 := file, 3 := other], 4, 0);
    ThreeRowsValid(before.rows, root, file, other);
    written := before.(rows := SetDirtySize(before.rows, 2, size));
    EvictionLosesLocalWork(written, 2);
  }

  /** The holder of a path goes when another item arrives there. */
  lemma CollisionDrops(d: Db, m: Meta, holder: Inode, mover: Inode)
    requires ById(d.rows, m.itemId) == Some(mover) && At(d.rows, m.path) == Some(holder) && holder != mover
    requires d.rows[mover].path != m.path && !HasChildren(d.rows, holder)
    ensures holder !in Upsert(d, ROOT_INODE, m, 1).0.rows
  {
  }

  /** A dirty file 2 at "b", and an item "A", file 3, that the remote reports there. */
  lemma RenameSample() returns (d: Db, m: Meta)
    ensures ValidDb(d) && 2 in d.rows && d.rows[2].status == Dirty && !HasChildren(d.rows, 2)
    ensures ById(d.rows, m.itemId) == Some(3) && At(d.rows, m.path) == Some(2) && d.rows[3].path != m.path
  {
    var root := Row(None, "/", "/", Directory, 0, 0, None, Remote, None, None, 0, None, None);
    var edited := Row(Some(1), "b", "b", File, 4, 0, None, Dirty, Some("cache/b"), Some(4), 0, Some("B"), None);
    var moved := Row(Some(1), "a", "a", File, 4, 0, None, Remote, None, None, 0, Some("A"), None);
    d := Db(map[1 := root, 2 := edited, 3 := moved], 4, 0);
    m := Meta("b", "b", 4, 0, false, None, Some("A"));
    ThreeRowsValid(d.rows, root, edited, moved);
    ByIdUnique(d.rows, 3);
    AtUnique(d.rows, 2);
  }

  /** The exception for renames is real: renaming an item onto a dirty file drops its row. */
  lemma RenameDropsDirtyFile() returns (d: Db, m: Meta)
    ensures ValidDb(d) && 2 in d.rows && d.rows[2].status == Dirty
    ensures 2 !in Upsert(d, ROOT_INODE, m, 1).0.rows
  {
    d, m := RenameSample();
    CollisionDrops(d, m, 2, 3);
  }
}
