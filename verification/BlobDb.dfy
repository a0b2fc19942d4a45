/** The blob store and its two tables as an object: methods that run the steps one after the
    other, each proved to do what the functions on stores say. */
module BlobDb {
  import opened Types
  import opened Blobs
  import opened Versions

  class BlobDb {
    const hash: Bytes -> Hash
    var blobs: map<Hash, Bytes>
    var bases: map<Inode, Hash>
    var history: map<nat, Version>
    var nextId: nat

    ghost function State(): Store
      reads this
    {
      Store(blobs, bases, history, nextId)
    }

    constructor (hash: Bytes -> Hash)
      ensures this.hash == hash && State() == Store(map[], map[], map[], 0)
      ensures Addressed(State(), hash) && BasesPresent(State()) && HistoryPresent(State())
    {
      this.hash := hash;
      blobs, bases, history, nextId := map[], map[], map[], 0;
    }

    method StoreBase(content: Bytes) returns (h: Hash)
      modifies this`blobs
      ensures State() == StoreBlob(old(State()), hash, content) && h == hash(content)
    {
      h := hash(content);
      if h !in blobs { blobs := blobs[h := content]; }
    }

    /** Delete a blob; false when the file system refuses. */
    method RemoveObject(h: Hash, locked: set<Hash>) returns (ok: bool)
      modifies this`blobs
      ensures State() == RemoveBlobs(old(State()), [h], locked) && ok == (h !in locked)
    {
      ok := h !in locked;
      if ok { blobs := blobs - {h}; }
    }

    /** `prune_version_history`: drops the rows and reports the blobs this orphans. */
    method PruneVersionHistory(inode: Inode, keep: nat) returns (orphans: seq<Hash>)
      modifies this`history
      ensures
        var ids := Surplus(old(State()), inode, keep);
        && State() == WithoutRows(old(State()), ids)
        && orphans == Orphans(old(State()), State(), ids)
    {
      var before := Store(blobs, bases, history, nextId);
      var ids := Surplus(before, inode, keep);
      history := map id | id in history && id !in ids :: history[id];
      orphans := [];
      for k := 0 to |ids|
        invariant orphans == Orphans(before, State(), ids[..k])
        invariant State() == WithoutRows(before, ids)
      {
        assert ids[..k + 1][..k] == ids[..k];
        if ids[k] in before.history {
          var h := before.history[ids[k]].hash;
          var inHistory := InHistory(Store(blobs, bases, history, nextId), h);
          var inBases := InBases(Store(blobs, bases, history, nextId), h);
          if !inHistory && !inBases { orphans := orphans + [h]; }
        }
      }
      assert ids[..|ids|] == ids;
    }

    /** `capture`: store, record, prune, then delete the orphaned blobs one by one. */
    method CaptureVersion(c: Snapshot, locked: set<Hash>)
      modifies this`blobs, this`history, this`nextId
      ensures State() == Capture(old(State()), hash, c, locked)
      // in rows: nothing is captured, or the content is recorded under the next id
      ensures c.retention == 0 || c.size > c.maxSize || c.content.None? ==> State() == old(State())
      ensures c.retention > 0 && c.size <= c.maxSize && c.content.Some? && Latest(old(State()), c) ==>
        && nextId == old(nextId) + 1 && old(nextId) in history
        && history[old(nextId)] == Version(c.inode, hash(c.content.value), c.recordedAt)
        && hash(c.content.value) in blobs
    {
      if c.retention > 0 && c.size <= c.maxSize && c.content.Some? && Latest(State(), c) {
        CaptureExact(State(), hash, c, locked, nextId);
      }
      if c.retention == 0 || c.size > c.maxSize { return; }
      if c.content.None? { return; }
      RecordVersion(c);
      var orphans := PruneVersionHistory(c.inode, c.retention);
      RemoveAll(orphans, locked);
    }

    /** Stores the content and inserts the history row. */
    method RecordVersion(c: Snapshot)
      requires c.content.Some?
      modifies this`blobs, this`history, this`nextId
      ensures State() == AddVersion(old(State()), hash, c)
    {
      var h := StoreBase(c.content.value);
      history, nextId := history[nextId := Version(c.inode, h, c.recordedAt)], nextId + 1;
    }

    method RemoveAll(orphans: seq<Hash>, locked: set<Hash>)
      modifies this`blobs
      ensures State() == RemoveBlobs(old(State()), orphans, locked)
    {
      ghost var start := State();
      assert State().blobs == RemoveBlobs(start, [], locked).blobs;
      for k := 0 to |orphans|
        invariant State() == RemoveBlobs(start, orphans[..k], locked)
      {
        assert orphans[..k + 1] == orphans[..k] + [orphans[k]];
        var removed := RemoveObject(orphans[k], locked);
      }
      assert orphans[..|orphans|] == orphans;
    }

    method EvictOneBase(i: Inode, locked: set<Hash>) returns (ok: bool)
      modifies this`blobs, this`bases
      ensures State() == EvictBase(old(State()), i, locked)
      ensures
        var s := old(State());
        ok == !(i in s.bases && |BaseRefs(s, s.bases[i])| <= 1 && s.bases[i] in locked)
    {
      ok := true;
      if i in bases {
        var h := bases[i];
        var refs := |BaseRefs(Store(blobs, bases, history, nextId), h)|;
        bases := bases - {i};
        if refs <= 1 { ok := RemoveObject(h, locked); }
      }
    }

    /** `evict_stale_bases` over the rows that the staleness query returned. */
    method EvictStaleBases(stale: seq<Inode>, locked: set<Hash>) returns (ok: bool)
      modifies this`blobs, this`bases
      ensures (State(), ok) == EvictBases(old(State()), stale, locked)
    {
      ghost var start := State();
      ok := true;
      var k := 0;
      while k < |stale| && ok
        invariant k <= |stale|
        invariant (State(), ok) == EvictBases(start, stale[..k], locked)
      {
        assert stale[..k + 1][..k] == stale[..k];
        ok := EvictOneBase(stale[k], locked);
        k := k + 1;
      }
      if !ok { EvictionStops(start, stale, locked, k); } else { assert stale[..k] == stale; }
    }
  }
}
