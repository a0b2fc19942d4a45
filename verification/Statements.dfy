/** The remaining statements on `file_index`: marking a generation, sweeping stale rows,
    deleting by path or by item id, evicting, clearing the cache, listing a directory. */
module Statements {
  import opened Types
  import opened Ordering
  import opened FileIndex

  // ------------------------------------------------- generation and sweep

  function Mark(rows: Rows, inodes: seq<Inode>, generation: nat): Rows {
    map i | i in rows :: if i in inodes then rows[i].(generation := generation) else rows[i]
  }

  /** The rows that the sweep selects: not seen in this generation, no unsynced edits,
      not the root. */
  function StaleRows(rows: Rows, generation: nat): set<Inode> {
    set i | i in rows && rows[i].generation < generation
            && !rows[i].status.IsLocalWork() && i != ROOT_INODE
  }

  /** The rows that the stale-row query returns, in the order of its scan. */
  function StaleOrder(rows: Rows, generation: nat, scan: Inode -> int): seq<Inode> {
    Ranked(StaleRows(rows, generation), scan)
  }

  /** Deleting the selected rows one statement at a time. The first row that still has
      children stops the sweep; the deletions before it stay in force. */
  function Sweep(rows: Rows, order: seq<Inode>): (r: (Rows, bool)) {
    if order == [] then (rows, true)
    else
      var (prev, ok) := Sweep(rows, order[..|order| - 1]);
      var i := order[|order| - 1];
      if !ok || HasChildren(prev, i) then (prev, false) else (prev - {i}, true)
  }

  lemma MarkKeepsValid(rows: Rows, inodes: seq<Inode>, generation: nat)
    requires Valid(rows)
    ensures Valid(Mark(rows, inodes, generation))
  {
    var after := Mark(rows, inodes, generation);
    forall i | i in after ensures Admissible(after, i, after[i]) {
      assert Admissible(rows, i, rows[i]);
    }
  }

  lemma {:induction false} SweepKeepsValid(rows: Rows, order: seq<Inode>)
    requires Valid(rows)
    ensures Valid(Sweep(rows, order).0)
    decreases |order|
  {
    if order != [] {
      SweepKeepsValid(rows, order[..|order| - 1]);
      var prev := Sweep(rows, order[..|order| - 1]).0;
      if !HasChildren(prev, order[|order| - 1]) { DeleteKeepsValid(prev, order[|order| - 1]); }
    }
  }

  /** A sweep only ever removes selected rows, and a completed one removes them all. */
  lemma {:induction false} SweepRemoves(rows: Rows, order: seq<Inode>)
    ensures
      var (after, ok) := Sweep(rows, order);
      && (forall i :: i in after ==> i in rows && after[i] == rows[i])
      && (forall i :: i in rows && i !in order ==> i in after)
      && (ok ==> forall i :: i in order ==> i !in after)
    decreases |order|
  {
    if order != [] {
      var front, last := order[..|order| - 1], order[|order| - 1];
      SweepRemoves(rows, front);
      assert order == front + [last];
    }
  }

  /** Every child of a swept row is swept before it. */
  ghost predicate ChildrenFirst(rows: Rows, order: seq<Inode>) {
    forall k, c :: 0 <= k < |order| && c in rows && c != order[k] && rows[c].parent == Some(order[k])
      ==> c in order[..k]
  }

  /** A sweep completes exactly when its query returns every row after all of the row's
      children: one surviving child, or a directory listed before its contents, stops it. */
  lemma {:induction false} SweepCompletes(rows: Rows, order: seq<Inode>)
    ensures Sweep(rows, order).1 <==> ChildrenFirst(rows, order)
    decreases |order|
  {
    if order != [] {
      var front, last := order[..|order| - 1], order[|order| - 1];
      assert order == front + [last];
      SweepCompletes(rows, front);
      SweepRemoves(rows, front);
      assert forall k :: 0 <= k < |front| ==> order[..k] == front[..k];
      assert order[..|front|] == front;
      assert order[|front|] == last;
      if ChildrenFirst(rows, order) {
        forall k, c | 0 <= k < |front| && c in rows && c != front[k] && rows[c].parent == Some(front[k])
          ensures c in front[..k]
        { assert front[k] == order[k]; }
      }
    }
  }

  /** A sweep that has stopped stays stopped. */
  lemma {:induction false} SweepStops(rows: Rows, order: seq<Inode>, n: nat)
    requires n <= |order| && !Sweep(rows, order[..n]).1
    ensures Sweep(rows, order) == Sweep(rows, order[..n])
    decreases |order|
  {
    if n == |order| {
      assert order[..n] == order;
    } else {
      assert order[..|order| - 1][..n] == order[..n];
      SweepStops(rows, order[..|order| - 1], n);
    }
  }

  // ------------------------------------------------------ remote deletions

  datatype Deletion = Refused | Nothing | Removed(inode: Inode, cachePath: Option<string>)

  /** Delete the row found, unless it has unsynced edits. */
  function DeleteFound(rows: Rows, found: Option<Inode>): (r: (Rows, Deletion))
    requires found.Some? ==> found.value in rows
  {
    if found.None? || rows[found.value].status.IsLocalWork() then (rows, Nothing)
    else if HasChildren(rows, found.value) then (rows, Refused)
    else (rows - {found.value}, Removed(found.value, rows[found.value].cachePath))
  }

  ghost function DeleteByPath(rows: Rows, path: string): (Rows, Deletion) {
    DeleteFound(rows, At(rows, path))
  }

  ghost function DeleteById(rows: Rows, id: string): (Rows, Deletion) {
    DeleteFound(rows, ById(rows, Some(id)))
  }

  /** What a deletion of row `i`, found by its path or by its id, comes to: nothing for unsynced
      edits, a refusal while rows hang below it, and otherwise the row is gone and its cache file is
      reported. */
  lemma DeletedSpelled(rows: Rows, i: Inode)
    requires Valid(rows) && i in rows
    ensures DeleteByPath(rows, rows[i].path) ==
      if rows[i].status in {Dirty, Uploading} then (rows, Nothing)
      else if exists j :: j in rows && j != i && rows[j].parent == Some(i) then (rows, Refused)
      else (rows - {i}, Removed(i, rows[i].cachePath))
    ensures rows[i].itemId.Some? ==> DeleteById(rows, rows[i].itemId.value) == DeleteByPath(rows, rows[i].path)
  {
    AtUnique(rows, i);
    if rows[i].itemId.Some? { ByIdUnique(rows, i); }
  }

  // ------------------------------------------------------------ cache state

  function Evicted(r: Row): Row {
    r.(status := Remote, cachePath := None, cacheSize := None, lru := None)
  }

  function SetEvicted(rows: Rows, i: Inode): Rows {
    if i in rows then rows[i := Evicted(rows[i])] else rows
  }

  /** The LRU columns after an access at time `now`; a pin stays. */
  function Touched(row: Row, now: int): Option<Lru> {
    Some(Lru(now, row.lru.Some? && row.lru.value.pinned))
  }

  /** `set_cached`. */
  function SetCached(rows: Rows, i: Inode, cachePath: string, cacheSize: nat, etag: Option<string>,
                     mtime: int, size: nat, now: int): Rows
  {
    if i !in rows then rows
    else rows[i := rows[i].(status := Cached, cachePath := Some(cachePath), cacheSize := Some(cacheSize),
                            etag := etag, mtime := mtime, size := size, lru := Touched(rows[i], now))]
  }

  lemma SetCachedKeepsValid(rows: Rows, i: Inode, cachePath: string, cacheSize: nat, etag: Option<string>,
                            mtime: int, size: nat, now: int)
    requires Valid(rows)
    ensures Valid(SetCached(rows, i, cachePath, cacheSize, etag, mtime, size, now))
  {
    if i in rows { SameKeysValid(rows, i, SetCached(rows, i, cachePath, cacheSize, etag, mtime, size, now)[i]); }
  }

  /** A row update that keeps parent, name, path and item id breaks no constraint but the one
      on the cache path. */
  lemma SameKeysValid(rows: Rows, i: Inode, row: Row)
    requires Valid(rows) && i in rows && CachePathPresent(row)
    requires row.parent == rows[i].parent && row.name == rows[i].name
    requires row.path == rows[i].path && row.itemId == rows[i].itemId
    ensures Valid(rows[i := row])
  {
    assert Admissible(rows, i, rows[i]);
    assert Admissible(rows, i, row) by {
      forall j | j in rows && j != i ensures !Clashes(row, rows[j]) { assert !Clashes(rows[i], rows[j]); }
    }
    PutKeepsValid(rows, i, row);
  }

  /** A row after a local write that left `size` bytes in its cache file. */
  function Dirtied(r: Row, size: nat): Row {
    r.(status := Dirty, size := size, cacheSize := Some(size))
  }

  /** `set_dirty_size`; the trigger refuses it for a file without a cache path. */
  function SetDirtySize(rows: Rows, i: Inode, size: nat): Rows {
    if i in rows && CachePathPresent(Dirtied(rows[i], size)) then rows[i := Dirtied(rows[i], size)] else rows
  }

  lemma WriteKeepsValid(rows: Rows, i: Inode, size: nat)
    requires Valid(rows)
    ensures Valid(SetDirtySize(rows, i, size))
  {
    if i in rows && CachePathPresent(Dirtied(rows[i], size)) {
      SameKeysValid(rows, i, Dirtied(rows[i], size));
    }
  }

  predicate Pinned(r: Row) { r.lru.Some? && r.lru.value.pinned }

  predicate Clearable(r: Row, includePinned: bool) {
    && r.kind == File && (r.status.Cached? || r.status.Stale?) && r.cachePath.Some?
    && (includePinned || !Pinned(r))
  }

  function ClearCache(rows: Rows, includePinned: bool): Rows {
    map i | i in rows :: if Clearable(rows[i], includePinned) then Evicted(rows[i]) else rows[i]
  }

  lemma EvictedKeepsValid(before: Rows, after: Rows)
    requires Valid(before) && before.Keys == after.Keys
    requires forall i :: i in before ==> after[i] == before[i] || after[i] == Evicted(before[i])
    ensures Valid(after)
  {
    forall i | i in after ensures Admissible(after, i, after[i]) {
      assert Admissible(before, i, before[i]);
      forall j | j in after && j != i ensures !Clashes(after[i], after[j]) {
        assert !Clashes(before[i], before[j]);
      }
    }
  }

  // ------------------------------------------------- cache state, column by column

  /** The columns that identify a file and describe its remote side. */
  predicate SameFile(a: Row, b: Row) {
    && a.parent == b.parent && a.name == b.name && a.path == b.path && a.kind == b.kind
    && a.itemId == b.itemId && a.generation == b.generation
  }

  /** What eviction of a row leaves: a remote row without cache path, cache size or LRU row, and
      otherwise the same; no other row changes. */
  lemma EvictedSpelled(rows: Rows, i: Inode)
    requires i in rows
    ensures
      var after := SetEvicted(rows, i);
      && after.Keys == rows.Keys && (forall j :: j in rows && j != i ==> after[j] == rows[j])
      && SameFile(rows[i], after[i]) && after[i].status == Remote
      && after[i].cachePath == None && after[i].cacheSize == None && after[i].lru == None
      && after[i].size == rows[i].size && after[i].mtime == rows[i].mtime && after[i].etag == rows[i].etag
  {
  }

  /** What clearing the cache of a mount does to a row: files that are cached or stale and have a
      cache path are evicted, pinned ones on request only; every other row stays as it is. */
  lemma ClearedSpelled(rows: Rows, includePinned: bool, i: Inode)
    requires i in rows
    ensures
      var after, was := ClearCache(rows, includePinned), rows[i];
      && after.Keys == rows.Keys
      && if was.kind == File && was.status in {Cached, Stale} && was.cachePath != None
            && (includePinned || was.lru == None || !was.lru.value.pinned)
         then after[i] == SetEvicted(rows, i)[i] else after[i] == was
  {
  }

  /** What `set_cached` leaves: a cached row with the given columns, used just now, a pin kept. */
  lemma CachedSpelled(rows: Rows, i: Inode, cachePath: string, cacheSize: nat, etag: Option<string>,
                      mtime: int, size: nat, now: int)
    requires i in rows
    ensures
      var after := SetCached(rows, i, cachePath, cacheSize, etag, mtime, size, now);
      && after.Keys == rows.Keys && (forall j :: j in rows && j != i ==> after[j] == rows[j])
      && SameFile(rows[i], after[i]) && after[i].status == Cached
      && after[i].cachePath == Some(cachePath) && after[i].cacheSize == Some(cacheSize)
      && after[i].etag == etag && after[i].mtime == mtime && after[i].size == size
      && after[i].lru == Some(Lru(now, rows[i].lru != None && rows[i].lru.value.pinned))
  {
  }

  /** What a local write leaves: a dirty row with the new size, and nothing at all for a file
      without a cache path. */
  lemma WrittenSpelled(rows: Rows, i: Inode, size: nat)
    requires i in rows
    ensures
      var after := SetDirtySize(rows, i, size);
      && after.Keys == rows.Keys && (forall j :: j in rows && j != i ==> after[j] == rows[j])
      && if rows[i].kind == File && rows[i].cachePath == None then after[i] == rows[i]
         else
           && SameFile(rows[i], after[i]) && after[i].status == Dirty
           && after[i].size == size && after[i].cacheSize == Some(size)
           && after[i].cachePath == rows[i].cachePath && after[i].lru == rows[i].lru
           && after[i].mtime == rows[i].mtime && after[i].etag == rows[i].etag
  {
  }

  // ------------------------------------------------- directory listing

  const CHUNK_SIZE: nat := 1000

  /** One chunk of `batch_upsert_remote_files_gen`; entries are matched by path only. */
  ghost function UpsertAll(d: Db, parent: Inode, metas: seq<Meta>, generation: nat): (r: (Db, bool)) {
    if metas == [] then (d, true)
    else
      var (prev, ok) := UpsertAll(d, parent, metas[..|metas| - 1], generation);
      if !ok then (prev, false)
      else
        var (d', r) := Upsert(prev, parent, metas[|metas| - 1].(itemId := None), generation);
        (d', r.Some?)
  }

  /** Each chunk is one transaction: a refused entry rolls its chunk back and ends the batch. */
  ghost function BatchUpsert(d: Db, parent: Inode, metas: seq<Meta>, generation: nat): (r: (Db, bool))
    decreases |metas|
  {
    if metas == [] then (d, true)
    else
      var n := if |metas| < CHUNK_SIZE then |metas| else CHUNK_SIZE;
      var (d', ok) := UpsertAll(d, parent, metas[..n], generation);
      if ok then BatchUpsert(d', parent, metas[n..], generation) else (d, false)
  }
}
