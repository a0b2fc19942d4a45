/** Domain types shared by every part of the model: inodes, row statuses, and the
    metadata a backend reports for a remote entry. */
module Types {

  type Inode = nat

  /** Inode 1 is the root directory of a mount; every mount has its own database. */
  const ROOT_INODE: Inode := 1

  /** Remote directory that holds the losing side of every conflict. */
  const CONFLICT_PREFIX: string := ".stratosync-conflicts/"

  type Byte = x: int | 0 <= x < 256

  type Bytes = seq<Byte>

  datatype Option<+T> = None | Some(value: T)

  datatype FileKind = File | Directory | Symlink

  datatype SyncStatus = Remote | Hydrating | Cached | Dirty | Uploading | Stale | Conflict
  {
    /** True when the row stands for local edits that the remote does not have yet. */
    predicate IsLocalWork() { Dirty? || Uploading? }
  }

  lemma LocalWorkSpelled(s: SyncStatus)
    ensures s.IsLocalWork() <==> s in {Dirty, Uploading}
  {
  }

  /** What the backend reports about one remote entry. */
  datatype Meta = Meta(path: string, name: string, size: nat, mtime: int, isDir: bool,
                       etag: Option<string>, itemId: Option<string>)
  {
    function Kind(): FileKind { if isDir then Directory else File }
  }

  function Coalesce<T>(a: Option<T>, b: Option<T>): Option<T> {
    if a.Some? then a else b
  }
}
