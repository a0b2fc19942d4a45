/** Conflict resolution after a rejected upload: the remote keeps the canonical path, the
    local bytes go to a conflict file, and any step on the way may fail. */
module Conflict {
  import opened Types
  import opened FileIndex
  import opened Statements
  import ConflictName
  import S = StateDb

  const CHUNK: nat := 65536

  /** `files_equal`: chunks of both files are read and compared until `size` bytes are done;
      a file that ends too early is an error. */
  method FilesEqual(a: Bytes, b: Bytes, size: nat) returns (r: Option<bool>)
    ensures |a| >= size && |b| >= size ==> r == Some(a[..size] == b[..size])
    ensures r == Some(true) ==> |a| >= size && |b| >= size && a[..size] == b[..size]
    ensures r == Some(false) ==> a != b
  {
    var remaining := size;
    while remaining > 0
      invariant 0 <= remaining <= size
      invariant |a| >= size - remaining && |b| >= size - remaining
      invariant a[..size - remaining] == b[..size - remaining]
    {
      var chunk := if remaining < CHUNK then remaining else CHUNK;
      var from := size - remaining;
      if |a| < from + chunk || |b| < from + chunk { return None; }
      if a[from..from + chunk] != b[from..from + chunk] {
        assert a[..from + chunk][from..] == a[from..from + chunk];
        assert b[..from + chunk][from..] == b[from..from + chunk];
        assert |a| >= size ==> a[..size][..from + chunk] == a[..from + chunk];
        assert |b| >= size ==> b[..size][..from + chunk] == b[..from + chunk];
        return Some(false);
      }
      assert a[..from + chunk] == a[..from] + a[from..from + chunk];
      assert b[..from + chunk] == b[..from] + b[from..from + chunk];
      remaining := remaining - chunk;
    }
    r := Some(true);
  }

  datatype RemoteFile = RemoteFile(bytes: Bytes, etag: Option<string>, mtime: int)

  /** How a transfer turns out: the etag and time that the remote gives to an upload, or a failure that
      may leave partial bytes at its destination. */
  datatype Transfer = Success(etag: Option<string>, mtime: int) | Failure(partial: Option<Bytes>)

  /** The outcome of the optional three-way merge, computed by an external program. */
  datatype Merge = NotTried | MergeFailed | Clean(bytes: Bytes) | Markers(bytes: Bytes)

  /** How each step of one resolution turns out. */
  datatype Faults = Faults(firstStat: bool, localMetadata: bool, probe: Transfer, merge: Merge,
                           writeMerged: bool, uploadMerged: Transfer,
                           upload: Transfer, download: Transfer, metadata: bool,
                           stat: bool, update: bool, conflictStat: bool, now: int)

  datatype Entry = Entry(inode: Inode, parent: Inode, name: string, path: string, cachePath: Option<string>)
  {
    predicate InCache(disk: map<string, Bytes>) { cachePath.Some? && cachePath.value in disk }
  }

  /** The two maps agree but for `k`. */
  ghost predicate SameExcept<V>(a: map<string, V>, b: map<string, V>, k: string) {
    forall q :: q != k ==> (q in b <==> q in a) && (q in b ==> b[q] == a[q])
  }

  /** The row inserted for a conflict file. */
  function ConflictRow(entry: Entry, name: string, path: string, size: nat, etag: Option<string>, now: int): Row {
    Row(Some(entry.parent), name, path, File, size, now, etag, SyncStatus.Conflict, None, None, 0, None, None)
  }

  /** The schema has room for the conflict row: its parent is there, no row has its path, and no
      sibling has its name. */
  ghost predicate Accepts(rows: Rows, next: Inode, entry: Entry, name: string) {
    && (entry.parent in rows || entry.parent == next)
    && forall i :: i in rows ==>
         && rows[i].path != ConflictName.RemotePath(entry.path, name)
         && (rows[i].parent != Some(entry.parent) || rows[i].name != name)
  }

  lemma AcceptsExact(rows: Rows, next: Inode, after: Rows, row: Row, entry: Entry, name: string)
    requires next !in rows && after.Keys == rows.Keys
    requires forall i :: i in rows ==>
      after[i].path == rows[i].path && after[i].parent == rows[i].parent && after[i].name == rows[i].name
    requires row.parent == Some(entry.parent) && row.name == name && row.itemId == None
    requires row.path == ConflictName.RemotePath(entry.path, name) && row.status == SyncStatus.Conflict
    ensures Admissible(after, next, row) <==> Accepts(rows, next, entry, name)
  {
    forall i | i in rows
      ensures Clashes(row, after[i]) <==>
        rows[i].path == row.path || (rows[i].parent == row.parent && rows[i].name == name)
    {
    }
    if Admissible(after, next, row) {
      forall i | i in rows
        ensures rows[i].path != row.path && (rows[i].parent != Some(entry.parent) || rows[i].name != name)
      {
        assert !Clashes(row, after[i]);
      }
    }
  }

  lemma PutAndRemoved(rows: Rows, i: Inode, row: Row)
    requires i !in rows
    ensures rows[i := row] - {i} == rows
  {
  }

  lemma PutTwice(files: map<string, Bytes>, k: string, a: Bytes, b: Bytes)
    ensures files[k := a][k := b] == files[k := b]
  {
  }

  /** Every step of keep-both works. */
  predicate StepsWork(f: Faults) {
    f.upload.Success? && f.download.Success? && f.metadata && f.update
  }

  /** The probe works and finds the remote bytes in the cache file. */
  ghost predicate EqualSeen(disk: map<string, Bytes>, remote: map<string, RemoteFile>, cp: string, path: string,
                            f: Faults)
  {
    && f.firstStat && f.localMetadata && f.probe.Success?
    && path in remote && cp in disk && disk[cp] == remote[path].bytes
  }

  /** The remote store, the cache files on disk, and the database. */
  class World {
    var remote: map<string, RemoteFile>
    var disk: map<string, Bytes>
    const db: S.StateDb

    constructor (db: S.StateDb)
      ensures this.db == db && remote == map[] && disk == map[]
    {
      this.db := db;
      remote, disk := map[], map[];
    }

    method Upload(src: string, dst: string, t: Transfer) returns (ok: bool)
      modifies this`remote
      ensures ok == (t.Success? && src in disk)
      ensures SameExcept(old(remote), remote, dst)
      ensures ok ==> remote == old(remote)[dst := RemoteFile(disk[src], t.etag, t.mtime)]
    {
      ok := t.Success? && src in disk;
      if ok {
        remote := remote[dst := RemoteFile(disk[src], t.etag, t.mtime)];
      } else if t.Failure? && t.partial.Some? {
        remote := remote[dst := RemoteFile(t.partial.value, None, 0)];
      }
    }

    method Download(src: string, dst: string, t: Transfer) returns (ok: bool)
      modifies this`disk
      ensures ok == (t.Success? && src in remote)
      ensures SameExcept(old(disk), disk, dst)
      ensures ok ==> disk == old(disk)[dst := remote[src].bytes]
    {
      ok := t.Success? && src in remote;
      if ok {
        disk := disk[dst := remote[src].bytes];
      } else if t.Failure? && t.partial.Some? {
        disk := disk[dst := t.partial.value];
      }
    }

    /** `local_eq_remote`. The probe goes to a temporary file that is removed again. */
    method LocalEqRemote(cachePath: string, path: string, f: Faults) returns (r: Option<bool>)
      ensures r == Some(true) <==> EqualSeen(disk, remote, cachePath, path, f)
      ensures r == Some(false) ==> path in remote && cachePath in disk && disk[cachePath] != remote[path].bytes
      ensures f.firstStat && f.localMetadata && f.probe.Success? && path in remote && cachePath in disk ==> r.Some?
    {
      if !f.firstStat || path !in remote { return None; }
      if !f.localMetadata || cachePath !in disk { return None; }
      var size := |remote[path].bytes|;
      if |disk[cachePath]| != size { return Some(false); }
      if f.probe.Failure? { return None; }
      r := FilesEqual(disk[cachePath], remote[path].bytes, size);
      assert disk[cachePath][..size] == disk[cachePath] && remote[path].bytes[..size] == remote[path].bytes;
    }

    method UpdateCached(i: Inode, cachePath: string, size: nat, etag: Option<string>, mtime: int, remoteSize: nat,
                        now: int)
      requires db.Ok()
      modifies db`rows
      ensures db.Ok() && db.rows == SetCached(old(db.rows), i, cachePath, size, etag, mtime, remoteSize, now)
    {
      SetCachedKeepsValid(db.rows, i, cachePath, size, etag, mtime, remoteSize, now);
      db.rows := SetCached(db.rows, i, cachePath, size, etag, mtime, remoteSize, now);
    }

    method InsertFile(row: Row) returns (ok: bool)
      requires db.Ok()
      modifies db
      ensures db.Ok() && db.generation == old(db.generation)
      ensures ok == Admissible(old(db.rows), old(db.next), row)
      ensures if ok then db.rows == old(db.rows)[old(db.next) := row] && db.next == old(db.next) + 1
              else db.rows == old(db.rows) && db.next == old(db.next)
    {
      ok := Admissible(db.rows, db.next, row);
      if ok {
        PutKeepsValid(db.rows, db.next, row);
        db.rows, db.next := db.rows[db.next := row], db.next + 1;
      }
    }

    /** Steps 2 to 4 of keep-both: upload the local bytes under the conflict name, fetch the
        winning version, update both rows. It succeeds exactly when every step works, there is a
        winning version, and the schema accepts the conflict row. */
    method KeepBoth(entry: Entry, cachePath: string, conflictName: string, f: Faults) returns (ok: bool)
      requires db.Ok() && '/' !in conflictName && cachePath in disk
      modifies this`remote, this`disk, db
      ensures db.Ok()
      ensures ok <==> StepsWork(f) && entry.path in old(remote)
                      && Accepts(old(db.rows), old(db.next), entry, conflictName)
      ensures
        var at := ConflictName.RemotePath(entry.path, conflictName);
        var local := old(disk)[cachePath];
        // the local bytes are in the cache file or in the conflict file
        && ((cachePath in disk && disk[cachePath] == local) || (at in remote && remote[at].bytes == local))
        // the remote changes at the conflict path only, and the disk at the cache path only
        && at != entry.path
        && SameExcept(old(remote), remote, at)
        && SameExcept(old(disk), disk, cachePath)
        // success: both versions are in place, and so are both rows
        && (ok ==>
              BothKept(local, old(disk), old(remote), old(db.rows), old(db.next), this, entry, cachePath,
                       conflictName, f))
      // failure adds no row; only a refused conflict row leaves the canonical one refreshed
      ensures !ok ==> db.next == old(db.next)
      ensures !ok && !(StepsWork(f) && entry.path in old(remote)) ==> db.rows == old(db.rows)
      ensures !ok && StepsWork(f) && entry.path in old(remote) ==>
        CanonicalFresh(old(db.rows), db.rows, entry, cachePath, Winner(old(remote)[entry.path], f), f.now)
    {
      var at := ConflictName.RemotePath(entry.path, conflictName);
      ConflictName.RemotePathElsewhere(entry.path, conflictName);
      ok := Upload(cachePath, at, f.upload);
      if !ok { return; }
      ok := Download(entry.path, cachePath, f.download);
      if !ok { return; }
      if !f.metadata { return false; }
      ok := UpdateRows(entry, cachePath, conflictName, at, f);
    }

    /** Step 4: the canonical row gets the winning version, the conflict file a row of its own. */
    method UpdateRows(entry: Entry, cachePath: string, conflictName: string, at: string, f: Faults) returns (ok: bool)
      requires db.Ok() && cachePath in disk && entry.path in remote && at in remote
      requires at == ConflictName.RemotePath(entry.path, conflictName)
      requires disk[cachePath] == remote[entry.path].bytes
      modifies db
      ensures db.Ok()
      ensures ok <==> f.update && Accepts(old(db.rows), old(db.next), entry, conflictName)
      ensures ok ==>
        && db.next == old(db.next) + 1 && old(db.next) in db.rows && old(db.next) !in old(db.rows)
        && CanonicalFresh(old(db.rows), db.rows - {old(db.next)}, entry, cachePath, Winner(remote[entry.path], f),
                          f.now)
        && FreshConflict(db.rows[old(db.next)], entry, conflictName, remote[at], remote[entry.path], f)
      ensures !ok ==> db.next == old(db.next)
      ensures !ok && !f.update ==> db.rows == old(db.rows)
      ensures !ok && f.update ==>
        CanonicalFresh(old(db.rows), db.rows, entry, cachePath, Winner(remote[entry.path], f), f.now)
    {
      var size := |disk[cachePath]|;
      var etag := if f.stat then remote[entry.path].etag else None;
      if !f.update { return false; }
      var mtime := if f.stat then remote[entry.path].mtime else f.now;
      UpdateCached(entry.inode, cachePath, size, etag, mtime, size, f.now);
      var conflictSize := if f.conflictStat then |remote[at].bytes| else size;
      var conflictEtag := if f.conflictStat then remote[at].etag else None;
      var row := ConflictRow(entry, conflictName, at, conflictSize, conflictEtag, f.now);
      AcceptsExact(old(db.rows), db.next, db.rows, row, entry, conflictName);
      PutAndRemoved(db.rows, db.next, row);
      ok := InsertFile(row);
    }

    /** The merge branch: a clean merge settles the conflict one way or the other, a merge with
        markers leaves the marked text in the cache file, and without a merge nothing happens. */
    method TryMerge(entry: Entry, cp: string, f: Faults) returns (settled: Option<bool>)
      requires db.Ok()
      modifies this`remote, this`disk, db`rows
      ensures db.Ok()
      ensures f.merge in {NotTried, MergeFailed} ==>
        settled == None && remote == old(remote) && disk == old(disk) && db.rows == old(db.rows)
      ensures f.merge.Markers? ==>
        && settled == (if f.writeMerged then None else Some(false))
        && remote == old(remote) && db.rows == old(db.rows)
        && (f.writeMerged ==> disk == old(disk)[cp := f.merge.bytes])
      ensures f.merge.Clean? ==> settled == Some(f.writeMerged && f.uploadMerged.Success? && f.update)
      ensures settled == Some(false) ==> db.rows == old(db.rows)
      ensures f.merge.Clean? && settled == Some(true) ==>
        Merged(old(disk), old(remote), old(db.rows), this, entry, cp, f)
    {
      match f.merge {
        case Clean(merged) =>
          if !f.writeMerged { return Some(false); }
          disk := disk[cp := merged];
          var ok := Upload(cp, entry.path, f.uploadMerged);
          if !ok || !f.update { return Some(false); }
          var uploaded := remote[entry.path];
          UpdateCached(entry.inode, cp, |merged|, uploaded.etag, uploaded.mtime, |merged|, f.now);
          return Some(true);
        case Markers(merged) =>
          if !f.writeMerged { return Some(false); }
          disk := disk[cp := merged];
        case _ =>
      }
      return None;
    }

    /** `resolve`. It answers true exactly when every step on the branch it takes works. */
    method Resolve(entry: Entry, ts: string, hash: string, f: Faults) returns (ok: bool)
      requires db.Ok() && '/' !in entry.name && '/' !in ts && '/' !in hash
      modifies this`remote, this`disk, db
      ensures db.Ok()
      ensures entry.cachePath.None? ==>
        ok && remote == old(remote) && disk == old(disk) && db.State() == old(db.State())
      // equal contents: the canonical row is refreshed, and nothing else happens
      ensures entry.cachePath.Some? && EqualSeen(old(disk), old(remote), entry.cachePath.value, entry.path, f) ==>
        && ok == f.update && remote == old(remote) && disk == old(disk) && db.next == old(db.next)
        && if ok then CanonicalFresh(old(db.rows), db.rows, entry, entry.cachePath.value, remote[entry.path], f.now)
           else db.rows == old(db.rows)
      // keep-both without a merge: exactly when it succeeds, and what it leaves
      ensures entry.cachePath.Some? && f.merge in {NotTried, MergeFailed} ==>
        var cp, name := entry.cachePath.value, ConflictName.Make(entry.name, ts, hash);
        !EqualSeen(old(disk), old(remote), cp, entry.path, f) ==>
        && (ok <==> cp in old(disk) && StepsWork(f) && entry.path in old(remote)
                    && Accepts(old(db.rows), old(db.next), entry, name))
        && (ok ==>
              BothKept(old(disk)[cp], old(disk), old(remote), old(db.rows), old(db.next), this, entry, cp, name, f))
      // and whatever fails, no byte is lost
      ensures entry.InCache(old(disk)) && f.merge in {NotTried, MergeFailed} ==>
        var cp := entry.cachePath.value;
        var at := ConflictName.RemotePath(entry.path, ConflictName.Make(entry.name, ts, hash));
        var local := old(disk)[cp];
        && ((cp in disk && disk[cp] == local) || (at in remote && remote[at].bytes == local))
        && SameExcept(old(remote), remote, at)
        && at != entry.path
      // a clean merge replaces both versions by the merged one
      ensures entry.cachePath.Some? && f.merge.Clean? ==>
        var cp := entry.cachePath.value;
        !EqualSeen(old(disk), old(remote), cp, entry.path, f) ==>
        && ok == (f.writeMerged && f.uploadMerged.Success? && f.update) && db.next == old(db.next)
        && if ok then Merged(old(disk), old(remote), old(db.rows), this, entry, cp, f)
           else db.rows == old(db.rows)
      // a merge with markers keeps the marked text, not the local bytes, in the conflict file
      ensures entry.cachePath.Some? && f.merge.Markers? ==>
        var cp, name := entry.cachePath.value, ConflictName.Make(entry.name, ts, hash);
        !EqualSeen(old(disk), old(remote), cp, entry.path, f) ==>
        && (ok <==> f.writeMerged && StepsWork(f) && entry.path in old(remote)
                    && Accepts(old(db.rows), old(db.next), entry, name))
        && (ok ==>
              BothKept(f.merge.bytes, old(disk), old(remote), old(db.rows), old(db.next), this, entry, cp, name, f))
      // failure adds no row
      ensures !ok ==> db.next == old(db.next) && db.rows.Keys == old(db.rows).Keys
    {
      if entry.cachePath.None? { return true; }
      var cp := entry.cachePath.value;
      var conflictName := ConflictName.Make(entry.name, ts, hash);
      ConflictName.MadeNameHasNoSlash(entry.name, ts, hash);
      ConflictName.RemotePathElsewhere(entry.path, conflictName);
      var equal := LocalEqRemote(cp, entry.path, f);
      if equal == Some(true) {
        if !f.update { return false; }
        var theirs := remote[entry.path];
        UpdateCached(entry.inode, cp, |disk[cp]|, theirs.etag, theirs.mtime, |theirs.bytes|, f.now);
        return true;
      }
      var settled := TryMerge(entry, cp, f);
      if settled.Some? { return settled.value; }
      if cp !in disk { return false; }
      if entry.path in remote { PutTwice(old(disk), cp, disk[cp], remote[entry.path].bytes); }
      ok := KeepBoth(entry, cp, conflictName, f);
    }
  }

  /** The canonical row is cached with the bytes, etag and time of `version`; the rest of the table
      is unchanged. */
  ghost predicate CanonicalFresh(before: Rows, after: Rows, entry: Entry, cachePath: string, version: RemoteFile,
                                 now: int)
  {
    && after.Keys == before.Keys
    && (forall i :: i in before && i != entry.inode ==> after[i] == before[i])
    && (entry.inode in before ==>
          var was, row := before[entry.inode], after[entry.inode];
          && SameFile(was, row) && row.status == Cached && row.cachePath == Some(cachePath)
          && row.cacheSize == Some(|version.bytes|) && row.size == |version.bytes|
          && row.etag == version.etag && row.mtime == version.mtime
          && row.lru == Some(Lru(now, was.lru.Some? && was.lru.value.pinned)))
  }

  /** The winning version as the database learns it: without a working stat, no etag and the
      present time. */
  function Winner(theirs: RemoteFile, f: Faults): RemoteFile {
    if f.stat then theirs else RemoteFile(theirs.bytes, None, f.now)
  }

  /** The row of the conflict file: a remote sibling of the canonical file without cache file. Its
      size is that of the uploaded copy, or, when its stat fails, that of the winning version. */
  ghost predicate FreshConflict(row: Row, entry: Entry, name: string, copy: RemoteFile, theirs: RemoteFile,
                                f: Faults)
  {
    && row.status == SyncStatus.Conflict && row.kind == File && row.name == name
    && row.parent == Some(entry.parent) && row.path == ConflictName.RemotePath(entry.path, name)
    && row.size == (if f.conflictStat then |copy.bytes| else |theirs.bytes|)
    && row.etag == (if f.conflictStat then copy.etag else None)
    && row.mtime == f.now && row.generation == 0
    && row.cachePath == None && row.cacheSize == None && row.itemId == None && row.lru == None
  }

  /** Keep-both is done: the conflict file holds `kept`, the cache file the remote bytes; the
      canonical row is fresh and the conflict row is the only new one. */
  ghost predicate BothKept(kept: Bytes, disk: map<string, Bytes>, remote: map<string, RemoteFile>, rows: Rows,
                           next: Inode, w: World, entry: Entry, cachePath: string, name: string, f: Faults)
    reads w, w.db
  {
    var at := ConflictName.RemotePath(entry.path, name);
    && f.upload.Success? && entry.path in remote
    && var copy, theirs := RemoteFile(kept, f.upload.etag, f.upload.mtime), remote[entry.path];
    && w.remote == remote[at := copy]
    && w.disk == disk[cachePath := theirs.bytes]
    && next !in rows && w.db.next == next + 1 && next in w.db.rows
    && CanonicalFresh(rows, w.db.rows - {next}, entry, cachePath, Winner(theirs, f), f.now)
    && FreshConflict(w.db.rows[next], entry, name, copy, theirs, f)
  }

  /** A clean merge is done: the merged bytes are in the cache file and under the canonical path. */
  ghost predicate Merged(disk: map<string, Bytes>, remote: map<string, RemoteFile>, rows: Rows, w: World,
                         entry: Entry, cachePath: string, f: Faults)
    reads w, w.db
  {
    && f.merge.Clean? && f.uploadMerged.Success?
    && var merged := RemoteFile(f.merge.bytes, f.uploadMerged.etag, f.uploadMerged.mtime);
    && w.disk == disk[cachePath := merged.bytes] && w.remote == remote[entry.path := merged]
    && CanonicalFresh(rows, w.db.rows, entry, cachePath, merged, f.now)
  }
}
