/** What version capture, pruning and base eviction leave, row by row and blob by blob. */
module Versions {
  import opened Types
  import opened Sequences
  import opened Ordering
  import opened Blobs

  // --------------------------------------------------------------------- rows

  /** The history rows of the same file that are newer than row `id`: recorded later, or at the same
      time under a larger id. */
  function Newer(history: map<nat, Version>, id: nat): set<nat>
    requires id in history
  {
    var at := history[id];
    set x | x in history && history[x].inode == at.inode
            && (history[x].recordedAt > at.recordedAt || (history[x].recordedAt == at.recordedAt && x > id))
  }

  /** In a list in ascending order the newer rows are those behind. */
  lemma NewerBehind(s: Store, ids: seq<nat>, k: nat)
    requires k < |ids| && ids[k] in s.history && Ascending(Recorded(s), ids)
    requires forall id :: id in ids <==> id in VersionsOf(s, s.history[ids[k]].inode)
    ensures |Newer(s.history, ids[k])| == |ids| - k - 1
  {
    var behind := ids[k + 1..];
    forall x ensures x in Newer(s.history, ids[k]) <==> x in behind {
      if x in ids {
        var l :| 0 <= l < |ids| && ids[l] == x;
        assert x in behind ==> exists j :: k < j < |ids| && ids[j] == x;
        if l > k { assert behind[l - k - 1] == x; }
      }
    }
    assert Newer(s.history, ids[k]) == ElemsOf(behind);
    AscendingCount(Recorded(s), behind);
  }

  lemma {:induction false} AscendingCount(key: nat -> int, q: seq<nat>)
    requires Ascending(key, q)
    ensures |ElemsOf(q)| == |q|
  {
    if q != [] {
      var front, last := q[..|q| - 1], q[|q| - 1];
      AscendingCount(key, front);
      assert q == front + [last];
      assert last !in front;
      assert ElemsOf(q) == ElemsOf(front) + {last};
    }
  }

  /** Pruning keeps a row of the file exactly when fewer than `keep` rows of the file are newer; it
      touches no other row, no base, and no id. */
  lemma PruneExact(s: Store, inode: Inode, keep: nat, locked: set<Hash>, id: nat)
    ensures
      var s' := Prune(s, inode, keep, locked);
      && s'.bases == s.bases && s'.nextId == s.nextId
      && (id in s'.history <==>
            id in s.history && (s.history[id].inode != inode || |Newer(s.history, id)| < keep))
      && (id in s'.history ==> s'.history[id] == s.history[id])
  {
    PruneRows(s, inode, keep, locked);
    OldestListsAll(s, inode);
    if id in s.history {
      if s.history[id].inode == inode {
        SurplusAt(s, inode, keep, id);
      } else {
        PruneSparesOthers(s, inode, keep, locked, id);
      }
    }
  }

  lemma SurplusAt(s: Store, inode: Inode, keep: nat, id: nat)
    requires id in s.history && s.history[id].inode == inode
    ensures id in Surplus(s, inode, keep) <==> |Newer(s.history, id)| >= keep
  {
    var ids, gone := Oldest(s, inode), Surplus(s, inode, keep);
    OldestListsAll(s, inode);
    assert id in ids;
    var k :| 0 <= k < |ids| && ids[k] == id;
    NewerBehind(s, ids, k);
    assert gone == ids[..|gone|];
    if id in gone {
      var l :| 0 <= l < |gone| && gone[l] == id;
      assert l == k by { assert ids[l] == ids[k]; }
    }
    if k < |gone| { assert gone[k] == id; }
  }

  // -------------------------------------------------------------------- blobs

  lemma {:induction false} OrphansExact(before: Store, after: Store, ids: seq<nat>, h: Hash)
    ensures h in Orphans(before, after, ids) <==>
      && !InHistory(after, h) && !InBases(after, h)
      && exists id :: id in ids && id in before.history && before.history[id].hash == h
  {
    if ids != [] {
      var front, last := ids[..|ids| - 1], ids[|ids| - 1];
      assert ids == front + [last];
      OrphansExact(before, after, front, h);
    }
  }

  /** A row with hash `h` was dropped, and no row of either table refers to `h` any more. */
  ghost predicate Released(before: Store, after: Store, h: Hash) {
    && !InHistory(after, h) && !InBases(after, h)
    && exists id :: id in before.history && id !in after.history && before.history[id].hash == h
  }

  /** Pruning deletes the blob of `h` exactly when it dropped a row with that hash, no row of either
      table refers to it any more, and the file system lets it go. */
  lemma PruneBlobs(s: Store, inode: Inode, keep: nat, locked: set<Hash>, h: Hash)
    ensures
      var s' := Prune(s, inode, keep, locked);
      && (h in s'.blobs <==> h in s.blobs && (h in locked || !Released(s, s', h)))
      && (h in s'.blobs ==> s'.blobs[h] == s.blobs[h])
  {
    var s', ids := Prune(s, inode, keep, locked), Surplus(s, inode, keep);
    var pruned := WithoutRows(s, ids);
    PruneRows(s, inode, keep, locked);
    OrphansExact(s, pruned, ids, h);
    SameReferences(pruned, s', h);
    assert forall id :: id in ids && id in s.history <==> id in s.history && id !in s'.history;
  }

  lemma SameReferences(a: Store, b: Store, h: Hash)
    requires a.history == b.history && a.bases == b.bases
    ensures InHistory(a, h) == InHistory(b, h) && InBases(a, h) == InBases(b, h)
  {
  }

  // ------------------------------------------------------------------ capture

  /** Ids are given out in increasing order. */
  ghost predicate IdsBelow(s: Store) { forall id :: id in s.history ==> id < s.nextId }

  lemma {:induction false} IdsStayBelow(s: Store, hash: Bytes -> Hash, steps: seq<Step>, locked: nat -> set<Hash>)
    requires IdsBelow(s)
    ensures IdsBelow(DoAll(s, hash, steps, locked))
  {
    if steps != [] { IdsStayBelow(s, hash, steps[..|steps| - 1], locked); }
  }

  /** The snapshot is not older than the rows of its file, and its id will be the largest. */
  ghost predicate Latest(s: Store, c: Snapshot) {
    && IdsBelow(s)
    && forall x :: x in s.history && s.history[x].inode == c.inode ==> s.history[x].recordedAt <= c.recordedAt
  }

  /** A capture that is switched off, too large or without a cache file changes nothing. */
  lemma NoCapture(s: Store, hash: Bytes -> Hash, c: Snapshot, locked: set<Hash>)
    requires c.retention == 0 || c.size > c.maxSize || c.content.None?
    ensures Capture(s, hash, c, locked) == s
  {
  }

  lemma AddedRow(s: Store, hash: Bytes -> Hash, c: Snapshot)
    requires c.content.Some?
    ensures
      var added, h := AddVersion(s, hash, c), hash(c.content.value);
      && added.history == s.history[s.nextId := Version(c.inode, h, c.recordedAt)]
      && added.nextId == s.nextId + 1 && added.bases == s.bases
      && added.blobs == if h in s.blobs then s.blobs else s.blobs[h := c.content.value]
  {
  }

  /** Whatever the clock did: the new row competes with the rows of its file, and of all of them the
      `retention` newest stay. */
  lemma CaptureRows(s: Store, hash: Bytes -> Hash, c: Snapshot, locked: set<Hash>, id: nat)
    requires c.retention > 0 && c.size <= c.maxSize && c.content.Some?
    ensures
      var all := s.history[s.nextId := Version(c.inode, hash(c.content.value), c.recordedAt)];
      var s' := Capture(s, hash, c, locked);
      && (id in s'.history <==>
            id in all && (all[id].inode != c.inode || |Newer(all, id)| < c.retention))
      && (id in s'.history ==> s'.history[id] == all[id])
  {
    AddedRow(s, hash, c);
    PruneExact(AddVersion(s, hash, c), c.inode, c.retention, locked, id);
  }

  lemma NewerWithNewest(history: map<nat, Version>, n: nat, v: Version, id: nat)
    requires (forall x :: x in history ==> x < n)
    requires forall x :: x in history && history[x].inode == v.inode ==> history[x].recordedAt <= v.recordedAt
    ensures Newer(history[n := v], n) == {}
    ensures id in history && history[id].inode == v.inode ==>
      n !in Newer(history, id) && Newer(history[n := v], id) == Newer(history, id) + {n}
  {
  }

  /** Any other capture that is not older than the rows of its file records the content under the
      next id, with its blob; of the file's earlier rows it keeps the `retention - 1` newest, and it
      leaves the rows of all other files and every base as they are. */
  lemma CaptureExact(s: Store, hash: Bytes -> Hash, c: Snapshot, locked: set<Hash>, id: nat)
    requires c.retention > 0 && c.size <= c.maxSize && c.content.Some? && Latest(s, c)
    ensures
      var s', n, h := Capture(s, hash, c, locked), s.nextId, hash(c.content.value);
      && s'.nextId == n + 1 && s'.bases == s.bases
      && n in s'.history && s'.history[n] == Version(c.inode, h, c.recordedAt)
      && h in s'.blobs && s'.blobs[h] == (if h in s.blobs then s.blobs[h] else c.content.value)
    ensures
      var s' := Capture(s, hash, c, locked);
      id != s.nextId ==>
        && (id in s'.history <==>
              id in s.history && (s.history[id].inode != c.inode || |Newer(s.history, id)| < c.retention - 1))
        && (id in s'.history ==> s'.history[id] == s.history[id])
  {
    var added, n := AddVersion(s, hash, c), s.nextId;
    AddedRow(s, hash, c);
    NewerWithNewest(s.history, n, Version(c.inode, hash(c.content.value), c.recordedAt), id);
    PruneExact(added, c.inode, c.retention, locked, n);
    PruneExact(added, c.inode, c.retention, locked, id);
    KeptBlob(added, c.inode, c.retention, locked, n);
  }

  lemma KeptBlob(s: Store, inode: Inode, keep: nat, locked: set<Hash>, n: nat)
    requires n in Prune(s, inode, keep, locked).history
    ensures
      var s' := Prune(s, inode, keep, locked);
      var h := s'.history[n].hash;
      (h in s'.blobs <==> h in s.blobs) && (h in s.blobs ==> s'.blobs[h] == s.blobs[h])
  {
    var s' := Prune(s, inode, keep, locked);
    PruneBlobs(s, inode, keep, locked, s'.history[n].hash);
    assert InHistory(s', s'.history[n].hash);
  }

  /** Under a hash without collisions the captured content is in the store. */
  lemma CapturedContent(s: Store, hash: Bytes -> Hash, c: Snapshot, locked: set<Hash>)
    requires c.retention > 0 && c.size <= c.maxSize && c.content.Some? && Latest(s, c) && Addressed(s, hash)
    requires forall a, b :: hash(a) == hash(b) ==> a == b
    ensures
      var s' := Capture(s, hash, c, locked);
      s.nextId in s'.history && s'.history[s.nextId].hash in s'.blobs
      && s'.blobs[s'.history[s.nextId].hash] == c.content.value
  {
    CaptureExact(s, hash, c, locked, s.nextId);
  }

  /** The blobs of other contents after a capture: one goes exactly when a row that the capture
      dropped was the last to refer to it. */
  lemma CaptureBlobs(s: Store, hash: Bytes -> Hash, c: Snapshot, locked: set<Hash>, h: Hash)
    requires c.retention > 0 && c.size <= c.maxSize && c.content.Some? && IdsBelow(s) && h != hash(c.content.value)
    ensures
      var s' := Capture(s, hash, c, locked);
      && (h in s'.blobs <==> h in s.blobs && (h in locked || !Released(s, s', h)))
      && (h in s'.blobs ==> s'.blobs[h] == s.blobs[h])
  {
    var added, s' := AddVersion(s, hash, c), Capture(s, hash, c, locked);
    AddedRow(s, hash, c);
    PruneBlobs(added, c.inode, c.retention, locked, h);
    OneMoreRow(s, added, s', s.nextId, h);
  }

  lemma OneMoreRow(s: Store, added: Store, after: Store, n: nat, h: Hash)
    requires n !in s.history && n in added.history && added.history[n].hash != h
    requires added.history == s.history[n := added.history[n]]
    ensures Released(added, after, h) == Released(s, after, h)
  {
    if Released(added, after, h) {
      var id :| id in added.history && id !in after.history && added.history[id].hash == h;
      assert id in s.history && s.history[id].hash == h;
    }
    if Released(s, after, h) {
      var id :| id in s.history && id !in after.history && s.history[id].hash == h;
      assert id in added.history && added.history[id].hash == h;
    }
  }

  // -------------------------------------------------------------------- bases

  /** A base capture records the hash of the content for the file, and stores the blob. */
  lemma SetBaseExact(s: Store, hash: Bytes -> Hash, inode: Inode, content: Bytes)
    ensures
      var s', h := SetBase(s, hash, inode, content), hash(content);
      && s'.bases == s.bases[inode := h] && s'.history == s.history && s'.nextId == s.nextId
      && s'.blobs.Keys == s.blobs.Keys + {h}
      && (forall g :: g in s.blobs ==> s'.blobs[g] == s.blobs[g])
      && (h !in s.blobs ==> s'.blobs[h] == content)
  {
  }

  /** Deleting a file takes its base row and its history rows, and no blob. */
  lemma DropFileExact(s: Store, inode: Inode)
    ensures
      var s' := DropFile(s, inode);
      && s'.blobs == s.blobs && s'.bases == s.bases - {inode} && s'.nextId == s.nextId
      && (forall id :: id in s'.history <==> id in s.history && s.history[id].inode != inode)
      && (forall id :: id in s'.history ==> s'.history[id] == s.history[id])
  {
  }

  /** The file's base is the only one with its content. */
  ghost predicate OnlyBase(s: Store, inode: Inode) {
    inode in s.bases && forall j :: j in s.bases && s.bases[j] == s.bases[inode] ==> j == inode
  }

  lemma OnlyBaseCounts(s: Store, inode: Inode)
    requires inode in s.bases
    ensures |BaseRefs(s, s.bases[inode])| <= 1 <==> OnlyBase(s, inode)
  {
    var refs := BaseRefs(s, s.bases[inode]);
    assert inode in refs;
    if OnlyBase(s, inode) {
      assert refs == {inode};
    } else {
      var j :| j in s.bases && s.bases[j] == s.bases[inode] && j != inode;
      TwoElements(refs, inode, j);
    }
  }

  /** Evicting a base takes its row, and its blob exactly when no other base has that content and
      the file system lets it go; the history is not looked at. */
  lemma EvictBaseExact(s: Store, inode: Inode, locked: set<Hash>, h: Hash)
    ensures
      var s' := EvictBase(s, inode, locked);
      && s'.bases == s.bases - {inode} && s'.history == s.history && s'.nextId == s.nextId
      && (h in s'.blobs <==>
            h in s.blobs && !(OnlyBase(s, inode) && h == s.bases[inode] && h !in locked))
      && (h in s'.blobs ==> s'.blobs[h] == s.blobs[h])
  {
    if inode in s.bases { OnlyBaseCounts(s, inode); }
  }

  /** The eviction of `i` would end a sweep: its blob should go and does not. */
  ghost predicate Stuck(s: Store, i: Inode, locked: set<Hash>) {
    OnlyBase(s, i) && s.bases[i] in locked
  }

  /** A sweep over stale bases runs to its end exactly when it meets no blob that should go and does
      not. */
  lemma {:induction false} BaseSweepExact(s: Store, stale: seq<Inode>, locked: set<Hash>)
    ensures EvictBases(s, stale, locked).1 <==>
              forall k :: 0 <= k < |stale| ==> !StuckAt(s, stale, locked, k)
  {
    if stale != [] {
      var front := stale[..|stale| - 1];
      BaseSweepExact(s, front, locked);
      BaseSweepStep(s, stale, locked);
      forall k | 0 <= k < |front| ensures StuckAt(s, stale, locked, k) == StuckAt(s, front, locked, k) {
        assert stale[..k] == front[..k];
      }
    }
  }

  /** Its turn comes at position `k`, after the evictions before it. */
  ghost predicate StuckAt(s: Store, stale: seq<Inode>, locked: set<Hash>, k: nat)
    requires k < |stale|
  {
    Stuck(EvictBases(s, stale[..k], locked).0, stale[k], locked)
  }

  lemma BaseSweepStep(s: Store, stale: seq<Inode>, locked: set<Hash>)
    requires stale != []
    ensures
      var prev := EvictBases(s, stale[..|stale| - 1], locked);
      EvictBases(s, stale, locked).1 <==> prev.1 && !StuckAt(s, stale, locked, |stale| - 1)
  {
    var prev, last := EvictBases(s, stale[..|stale| - 1], locked), stale[|stale| - 1];
    if last in prev.0.bases { OnlyBaseCounts(prev.0, last); }
  }

  /** Then the base rows of all the files are gone, and in any case no other base row is, nor any
      history row. */
  lemma {:induction false} BaseSweepRows(s: Store, stale: seq<Inode>, locked: set<Hash>)
    ensures
      var (s', ok) := EvictBases(s, stale, locked);
      && s'.history == s.history && (forall i :: i in s'.bases ==> i in s.bases && s'.bases[i] == s.bases[i])
      && (forall i :: i in s.bases && i !in stale ==> i in s'.bases)
      && (ok ==> forall i :: i in stale ==> i !in s'.bases)
  {
    if stale != [] {
      var front, last := stale[..|stale| - 1], stale[|stale| - 1];
      BaseSweepRows(s, front, locked);
      EvictBaseExact(EvictBases(s, front, locked).0, last, locked, "");
      assert stale == front + [last];
    }
  }

  /** It ends at the first such blob, whose row is gone all the same. */
  lemma BaseSweepEnds(s: Store, stale: seq<Inode>, locked: set<Hash>, k: nat)
    requires k < |stale| && EvictBases(s, stale[..k], locked).1
    requires StuckAt(s, stale, locked, k)
    ensures EvictBases(s, stale, locked) == (EvictBase(EvictBases(s, stale[..k], locked).0, stale[k], locked), false)
  {
    var first := stale[..k + 1];
    assert first[..k] == stale[..k];
    OnlyBaseCounts(EvictBases(s, stale[..k], locked).0, stale[k]);
    EvictionStops(s, stale, locked, k + 1);
  }
}
