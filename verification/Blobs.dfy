/** The content-addressed blob store and the two tables that refer to it: `base_versions`
    (last known-good content per file) and `version_history` (snapshots per file). */
module Blobs {
  import opened Types
  import opened Sequences
  import opened Ordering

  type Hash = string

  datatype Version = Version(inode: Inode, hash: Hash, recordedAt: int)

  /** Blobs on disk, base rows, history rows by id, and the next history id. */
  datatype Store = Store(blobs: map<Hash, Bytes>, bases: map<Inode, Hash>,
                         history: map<nat, Version>, nextId: nat)

  // ------------------------------------------------------------ references

  predicate InHistory(s: Store, h: Hash) {
    exists id :: id in s.history && s.history[id].hash == h
  }

  predicate InBases(s: Store, h: Hash) {
    exists i :: i in s.bases && s.bases[i] == h
  }

  /** Every blob holds content with its own hash. */
  ghost predicate Addressed(s: Store, hash: Bytes -> Hash) {
    forall h :: h in s.blobs ==> hash(s.blobs[h]) == h
  }

  ghost predicate BasesPresent(s: Store) { forall h :: InBases(s, h) ==> h in s.blobs }

  ghost predicate HistoryPresent(s: Store) { forall h :: InHistory(s, h) ==> h in s.blobs }

  // ------------------------------------------------------------ operations

  /** `store_base`: a blob that exists already is left as it is. */
  function StoreBlob(s: Store, hash: Bytes -> Hash, content: Bytes): Store {
    var h := hash(content);
    if h in s.blobs then s else s.(blobs := s.blobs[h := content])
  }

  /** `remove_object` fails on the blobs in `locked`. */
  function RemoveBlobs(s: Store, hashes: seq<Hash>, locked: set<Hash>): Store {
    s.(blobs := map h | h in s.blobs && (h !in hashes || h in locked) :: s.blobs[h])
  }

  function VersionsOf(s: Store, inode: Inode): set<nat> {
    set id | id in s.history && s.history[id].inode == inode
  }

  function Recorded(s: Store): nat -> int {
    id => if id in s.history then s.history[id].recordedAt else 0
  }

  /** History rows of `inode`, oldest first; the query sorts by time and then by id. */
  function Oldest(s: Store, inode: Inode): seq<nat> {
    Ranked(VersionsOf(s, inode), Recorded(s))
  }

  /** The rows beyond the `keep` newest. */
  function Surplus(s: Store, inode: Inode, keep: nat): seq<nat> {
    var ids := Oldest(s, inode);
    if |ids| <= keep then [] else ids[..|ids| - keep]
  }

  function WithoutRows(s: Store, ids: seq<nat>): Store {
    s.(history := map id | id in s.history && id !in ids :: s.history[id])
  }

  /** The hashes of the pruned rows that nothing refers to any more. */
  function Orphans(before: Store, after: Store, ids: seq<nat>): seq<Hash> {
    if ids == [] then []
    else
      var id := ids[|ids| - 1];
      var rest := Orphans(before, after, ids[..|ids| - 1]);
      if id in before.history && !InHistory(after, before.history[id].hash) && !InBases(after, before.history[id].hash)
      then rest + [before.history[id].hash] else rest
  }

  /** Prune the history of `inode` and delete the blobs that this orphans. */
  function Prune(s: Store, inode: Inode, keep: nat, locked: set<Hash>): Store {
    var ids := Surplus(s, inode, keep);
    var pruned := WithoutRows(s, ids);
    RemoveBlobs(pruned, Orphans(s, pruned, ids), locked)
  }

  /** What `capture` is given; `content` is None when the cache file does not exist. */
  datatype Snapshot = Snapshot(inode: Inode, content: Option<Bytes>, size: nat, maxSize: nat,
                               retention: nat, recordedAt: int)

  predicate Skipped(c: Snapshot) {
    c.retention == 0 || c.size > c.maxSize || c.content.None?
  }

  /** Store the content and record it in the history. */
  function AddVersion(s: Store, hash: Bytes -> Hash, c: Snapshot): Store
    requires c.content.Some?
  {
    var stored := StoreBlob(s, hash, c.content.value);
    var row := Version(c.inode, hash(c.content.value), c.recordedAt);
    stored.(history := stored.history[stored.nextId := row], nextId := stored.nextId + 1)
  }

  function Capture(s: Store, hash: Bytes -> Hash, c: Snapshot, locked: set<Hash>): Store {
    if Skipped(c) then s else Prune(AddVersion(s, hash, c), c.inode, c.retention, locked)
  }

  /** Base capture after a hydration or an upload. */
  function SetBase(s: Store, hash: Bytes -> Hash, inode: Inode, content: Bytes): Store {
    var stored := StoreBlob(s, hash, content);
    stored.(bases := stored.bases[inode := hash(content)])
  }

  /** Deleting a file row takes its base and history rows with it. */
  function DropFile(s: Store, inode: Inode): Store {
    s.(bases := s.bases - {inode},
       history := map id | id in s.history && s.history[id].inode != inode :: s.history[id])
  }

  function BaseRefs(s: Store, h: Hash): set<Inode> {
    set i | i in s.bases && s.bases[i] == h
  }

  /** One stale base: the blob goes when this was its last reference in `base_versions`. */
  function EvictBase(s: Store, inode: Inode, locked: set<Hash>): Store {
    if inode !in s.bases then s
    else
      var h := s.bases[inode];
      var dropped := s.(bases := s.bases - {inode});
      if |BaseRefs(s, h)| <= 1 then RemoveBlobs(dropped, [h], locked) else dropped
  }

  // --------------------------------------------------------------- pruning

  lemma OldestListsAll(s: Store, inode: Inode)
    ensures forall id :: id in Oldest(s, inode) <==> id in VersionsOf(s, inode)
    ensures |Oldest(s, inode)| == |VersionsOf(s, inode)|
    ensures Ascending(Recorded(s), Oldest(s, inode))
  {
    RankedAscending(VersionsOf(s, inode), Recorded(s));
    assert forall id :: id in Oldest(s, inode) <==> id in ElemsOf(Oldest(s, inode));
  }

  lemma {:induction false} OrphansUnreferenced(before: Store, after: Store, ids: seq<nat>)
    ensures forall h :: h in Orphans(before, after, ids) ==> !InHistory(after, h) && !InBases(after, h)
  {
    if ids != [] { OrphansUnreferenced(before, after, ids[..|ids| - 1]); }
  }

  /** Rows of `s` except a set of rows `gone` of one file. */
  lemma RemainingVersions(s: Store, s': Store, inode: Inode, ids: seq<nat>, n: nat, key: nat -> int)
    requires n <= |ids| && Ascending(key, ids)
    requires forall id :: id in ids <==> id in VersionsOf(s, inode)
    requires forall id :: id in s'.history <==> id in s.history && id !in ids[..n]
    requires forall id :: id in s'.history ==> s'.history[id] == s.history[id]
    ensures VersionsOf(s', inode) == ElemsOf(ids[n..])
    ensures |VersionsOf(s', inode)| <= |ids| - n
  {
    assert ids == ids[..n] + ids[n..];
    forall id ensures id in VersionsOf(s', inode) <==> id in ids[n..] {
      assert id in ids <==> id in ids[..n] || id in ids[n..];
      assert !(id in ids[..n] && id in ids[n..]);
    }
    ElemsCount(ids[n..]);
  }

  lemma PruneRows(s: Store, inode: Inode, keep: nat, locked: set<Hash>)
    ensures
      var s' := Prune(s, inode, keep, locked);
      && (forall id :: id in s'.history <==> id in s.history && id !in Surplus(s, inode, keep))
      && (forall id :: id in s'.history ==> s'.history[id] == s.history[id])
  {
  }

  lemma PruneSparesOthers(s: Store, inode: Inode, keep: nat, locked: set<Hash>, id: nat)
    requires id in s.history && s.history[id].inode != inode
    ensures id in Prune(s, inode, keep, locked).history && Prune(s, inode, keep, locked).history[id] == s.history[id]
  {
    OldestListsAll(s, inode);
    assert forall x :: x in Surplus(s, inode, keep) ==> x in Oldest(s, inode);
  }

  /** Pruning leaves of the file exactly its `keep` newest rows, or all if there are fewer. */
  lemma PruneKeepsNewest(s: Store, inode: Inode, keep: nat, locked: set<Hash>)
    ensures
      var s', ids := Prune(s, inode, keep, locked), Oldest(s, inode);
      && VersionsOf(s', inode) == ElemsOf(ids[|Surplus(s, inode, keep)|..])
      && |VersionsOf(s', inode)| <= keep
  {
    var s', ids, gone := Prune(s, inode, keep, locked), Oldest(s, inode), Surplus(s, inode, keep);
    OldestListsAll(s, inode);
    PruneRows(s, inode, keep, locked);
    assert gone == ids[..|gone|];
    RemainingVersions(s, s', inode, ids, |gone|, Recorded(s));
  }

  lemma {:induction false} ElemsCount(q: seq<nat>)
    ensures |ElemsOf(q)| <= |q|
  {
    if q != [] {
      var front, last := q[..|q| - 1], q[|q| - 1];
      ElemsCount(front);
      assert ElemsOf(q) == ElemsOf(front) + {last} by { assert q == front + [last]; }
    }
  }

  lemma PruneSafe(s: Store, hash: Bytes -> Hash, inode: Inode, keep: nat, locked: set<Hash>)
    requires Addressed(s, hash)
    ensures Addressed(Prune(s, inode, keep, locked), hash)
    ensures BasesPresent(s) ==> BasesPresent(Prune(s, inode, keep, locked))
    ensures HistoryPresent(s) ==> HistoryPresent(Prune(s, inode, keep, locked))
  {
    var ids := Surplus(s, inode, keep);
    var pruned := WithoutRows(s, ids);
    OrphansUnreferenced(s, pruned, ids);
    var s' := Prune(s, inode, keep, locked);
    assert forall h :: InHistory(s', h) ==> InHistory(pruned, h) && InHistory(s, h);
    assert forall h :: InBases(s', h) ==> InBases(pruned, h) && InBases(s, h);
  }

  // ------------------------------------------------------------------ runs

  datatype Step =
    | BaseCapture(inode: Inode, content: Bytes)
    | VersionCapture(snapshot: Snapshot)
    | PruneFile(inode: Inode, keep: nat)
    | FileDeleted(inode: Inode)
    | BaseEviction(inode: Inode)

  function Do(s: Store, hash: Bytes -> Hash, step: Step, locked: set<Hash>): Store {
    match step
    case BaseCapture(inode, content) => SetBase(s, hash, inode, content)
    case VersionCapture(c) => Capture(s, hash, c, locked)
    case PruneFile(inode, keep) => Prune(s, inode, keep, locked)
    case FileDeleted(inode) => DropFile(s, inode)
    case BaseEviction(inode) => EvictBase(s, inode, locked)
  }

  /** Steps one after the other; `locked(k)` are the blobs that step `k` cannot remove. */
  function DoAll(s: Store, hash: Bytes -> Hash, steps: seq<Step>, locked: nat -> set<Hash>): Store {
    if steps == [] then s
    else Do(DoAll(s, hash, steps[..|steps| - 1], locked), hash, steps[|steps| - 1], locked(|steps| - 1))
  }

  lemma AddVersionSafe(s: Store, hash: Bytes -> Hash, c: Snapshot)
    requires Addressed(s, hash) && c.content.Some?
    ensures Addressed(AddVersion(s, hash, c), hash)
    ensures BasesPresent(s) ==> BasesPresent(AddVersion(s, hash, c))
    ensures HistoryPresent(s) ==> HistoryPresent(AddVersion(s, hash, c))
  {
    var added := AddVersion(s, hash, c);
    assert forall h :: InHistory(added, h) ==> InHistory(s, h) || h == hash(c.content.value);
    assert forall h :: InBases(added, h) ==> InBases(s, h);
  }

  lemma CaptureSafe(s: Store, hash: Bytes -> Hash, c: Snapshot, locked: set<Hash>)
    requires Addressed(s, hash)
    ensures Addressed(Capture(s, hash, c, locked), hash)
    ensures BasesPresent(s) ==> BasesPresent(Capture(s, hash, c, locked))
    ensures HistoryPresent(s) ==> HistoryPresent(Capture(s, hash, c, locked))
  {
    if !Skipped(c) {
      AddVersionSafe(s, hash, c);
      PruneSafe(AddVersion(s, hash, c), hash, c.inode, c.retention, locked);
    }
  }

  lemma EvictBaseSafe(s: Store, hash: Bytes -> Hash, inode: Inode, locked: set<Hash>)
    requires Addressed(s, hash) && BasesPresent(s)
    ensures Addressed(EvictBase(s, inode, locked), hash) && BasesPresent(EvictBase(s, inode, locked))
  {
    if inode in s.bases {
      var h, s' := s.bases[inode], EvictBase(s, inode, locked);
      assert inode in BaseRefs(s, h);
      forall g | InBases(s', g) ensures g in s'.blobs {
        assert InBases(s, g);
        if g == h {
          var i :| i in s'.bases && s'.bases[i] == g;
          assert {i, inode} <= BaseRefs(s, h) && i != inode;
          TwoElements(BaseRefs(s, h), i, inode);
        }
      }
    }
  }

  lemma TwoElements(s: set<Inode>, i: Inode, j: Inode)
    requires i in s && j in s && i != j
    ensures |s| >= 2
  {
    assert s == {i, j} + (s - {i, j});
    assert |s| == |{i, j}| + |s - {i, j}|;
  }

  lemma StepSafe(s: Store, hash: Bytes -> Hash, step: Step, locked: set<Hash>)
    requires Addressed(s, hash) && BasesPresent(s)
    ensures Addressed(Do(s, hash, step, locked), hash) && BasesPresent(Do(s, hash, step, locked))
    ensures HistoryPresent(s) && !step.BaseEviction? ==> HistoryPresent(Do(s, hash, step, locked))
  {
    var s' := Do(s, hash, step, locked);
    match step
    case BaseCapture(inode, content) =>
      assert forall h :: InBases(s', h) ==> InBases(s, h) || h == hash(content);
      assert forall h :: InHistory(s', h) ==> InHistory(s, h);
    case VersionCapture(c) => CaptureSafe(s, hash, c, locked);
    case PruneFile(inode, keep) => PruneSafe(s, hash, inode, keep, locked);
    case FileDeleted(inode) =>
      assert forall h :: InBases(s', h) ==> InBases(s, h);
      assert forall h :: InHistory(s', h) ==> InHistory(s, h);
    case BaseEviction(inode) => EvictBaseSafe(s, hash, inode, locked);
  }

  /** Over every run, no base row dangles, whatever blob removals fail. Without base
      eviction in the run, no history row dangles either. */
  lemma {:induction false} BlobsSafe(s: Store, hash: Bytes -> Hash, steps: seq<Step>, locked: nat -> set<Hash>)
    requires Addressed(s, hash) && BasesPresent(s) && HistoryPresent(s)
    ensures Addressed(DoAll(s, hash, steps, locked), hash) && BasesPresent(DoAll(s, hash, steps, locked))
    ensures (forall step :: step in steps ==> !step.BaseEviction?) ==> HistoryPresent(DoAll(s, hash, steps, locked))
  {
    if steps != [] {
      var front, last := steps[..|steps| - 1], steps[|steps| - 1];
      assert steps == front + [last];
      BlobsSafe(s, hash, front, locked);
      StepSafe(DoAll(s, hash, front, locked), hash, last, locked(|front|));
    }
  }

  /** Under a hash without collisions, a row that refers to captured content finds exactly
      that content. */
  lemma ContentIntact(s: Store, hash: Bytes -> Hash, content: Bytes)
    requires Addressed(s, hash) && BasesPresent(s) && HistoryPresent(s)
    requires forall a, b :: hash(a) == hash(b) ==> a == b
    requires InBases(s, hash(content)) || InHistory(s, hash(content))
    ensures hash(content) in s.blobs && s.blobs[hash(content)] == content
  {
    assert hash(s.blobs[hash(content)]) == hash(content);
  }

  /** A capture that is not skipped leaves at most `retention` history rows for its file. */
  lemma CaptureRetains(s: Store, hash: Bytes -> Hash, c: Snapshot, locked: set<Hash>)
    requires !Skipped(c)
    ensures |VersionsOf(Capture(s, hash, c, locked), c.inode)| <= c.retention
  {
    PruneKeepsNewest(AddVersion(s, hash, c), c.inode, c.retention, locked);
  }

  /** Evicting a base leaves the history intact exactly when the blob survives it: another
      base refers to the blob, its removal fails, or no history row refers to it. */
  lemma EvictionDangles(s: Store, inode: Inode, locked: set<Hash>)
    requires BasesPresent(s) && HistoryPresent(s) && inode in s.bases
    ensures HistoryPresent(EvictBase(s, inode, locked))
            <==> |BaseRefs(s, s.bases[inode])| > 1 || s.bases[inode] in locked || !InHistory(s, s.bases[inode])
  {
    var h, s' := s.bases[inode], EvictBase(s, inode, locked);
    assert forall g :: InHistory(s', g) <==> InHistory(s, g);
    assert InBases(s, h);
  }

  /** It does happen: a file's only base and its only history row share one blob. */
  lemma EvictionCanDangle(hash: Bytes -> Hash, content: Bytes) returns (s: Store, inode: Inode)
    ensures Addressed(s, hash) && BasesPresent(s) && HistoryPresent(s)
    ensures inode in s.bases && s.bases[inode] == hash(content)
    ensures !HistoryPresent(EvictBase(s, inode, {}))
  {
    var h := hash(content);
    s, inode := Store(map[h := content], map[5 := h], map[0 := Version(5, h, 0)], 1), 5;
    assert BaseRefs(s, h) == {5};
    assert InHistory(s, h) by { assert s.history[0].hash == h; }
    EvictionDangles(s, 5, {});
  }

  // -------------------------------------------------------------- base sweeps

  /** Base evictions in order; the first blob that cannot be removed ends the sweep. */
  function EvictBases(s: Store, stale: seq<Inode>, locked: set<Hash>): (r: (Store, bool)) {
    if stale == [] then (s, true)
    else
      var (prev, ok) := EvictBases(s, stale[..|stale| - 1], locked);
      var i := stale[|stale| - 1];
      if !ok then (prev, false)
      else
        var last := i in prev.bases && |BaseRefs(prev, prev.bases[i])| <= 1;
        (EvictBase(prev, i, locked), !(last && prev.bases[i] in locked))
  }

  lemma {:induction false} EvictionStops(s: Store, stale: seq<Inode>, locked: set<Hash>, n: nat)
    requires n <= |stale| && !EvictBases(s, stale[..n], locked).1
    ensures EvictBases(s, stale, locked) == EvictBases(s, stale[..n], locked)
    decreases |stale|
  {
    if n == |stale| {
      assert stale[..n] == stale;
    } else {
      assert stale[..|stale| - 1][..n] == stale[..n];
      EvictionStops(s, stale[..|stale| - 1], locked, n);
    }
  }

  /** A whole eviction sweep keeps every remaining base row backed by its blob. */
  lemma {:induction false} BaseSweepSafe(s: Store, hash: Bytes -> Hash, stale: seq<Inode>, locked: set<Hash>)
    requires Addressed(s, hash) && BasesPresent(s)
    ensures Addressed(EvictBases(s, stale, locked).0, hash) && BasesPresent(EvictBases(s, stale, locked).0)
  {
    if stale != [] {
      BaseSweepSafe(s, hash, stale[..|stale| - 1], locked);
      EvictBaseSafe(EvictBases(s, stale[..|stale| - 1], locked).0, hash, stale[|stale| - 1], locked);
    }
  }
}
