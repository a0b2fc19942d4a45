/** The `file_index` table of one mount, with `cache_lru` joined in as an optional column
    group (its rows are keyed by inode and disappear with the file row).

    Every SQL statement is one atomic step that either takes effect or is refused by the
    schema: unique remote path, unique item id, unique name within a parent, a parent that
    exists, no deletion of a row that still has children (foreign keys are on and
    `parent_inode` does not cascade), and no cached, dirty or uploading file without a
    cache path. */
module FileIndex {
  import opened Types

  datatype Lru = Lru(lastAccess: int, pinned: bool)

  datatype Row = Row(parent: Option<Inode>, name: string, path: string, kind: FileKind,
                     size: nat, mtime: int, etag: Option<string>, status: SyncStatus,
                     cachePath: Option<string>, cacheSize: Option<nat>,
                     generation: nat, itemId: Option<string>, lru: Option<Lru>)

  type Rows = map<Inode, Row>

  /** One database: the rows, the next autoincrement value, the stored poll generation. */
  datatype Db = Db(rows: Rows, next: Inode, generation: nat)

  // ---------------------------------------------------------------- schema

  /** Two rows that one of the unique indexes keeps apart. */
  predicate Clashes(a: Row, b: Row) {
    || a.path == b.path
    || (a.itemId.Some? && a.itemId == b.itemId)
    || (a.parent.Some? && a.parent == b.parent && a.name == b.name)
  }

  predicate CachePathPresent(r: Row) {
    r.kind == File && (r.status.Cached? || r.status.IsLocalWork()) ==> r.cachePath.Some?
  }

  /** The schema accepts `r` as the contents of row `i`. */
  predicate Admissible(rows: Rows, i: Inode, r: Row) {
    && CachePathPresent(r)
    && (r.parent.Some? ==> r.parent.value == i || r.parent.value in rows)
    && forall j :: j in rows && j != i ==> !Clashes(r, rows[j])
  }

  predicate HasChildren(rows: Rows, i: Inode) {
    exists j :: j in rows && j != i && rows[j].parent == Some(i)
  }

  ghost predicate Valid(rows: Rows) {
    forall i {:trigger Admissible(rows, i, rows[i])} :: i in rows ==> Admissible(rows, i, rows[i])
  }

  ghost predicate ValidDb(d: Db) {
    Valid(d.rows) && forall i :: i in d.rows ==> i < d.next
  }

  /** The constraints of the schema, column by column. */
  lemma ValidSpelled(rows: Rows)
    ensures Valid(rows) <==>
      && (forall i :: i in rows ==>
            rows[i].kind == File && rows[i].status in {Cached, Dirty, Uploading} ==> rows[i].cachePath != None)
      && (forall i :: i in rows && rows[i].parent.Some? ==> rows[i].parent.value in rows)
      && (forall i, j :: i in rows && j in rows && i != j ==>
            && rows[i].path != rows[j].path
            && (rows[i].itemId.Some? ==> rows[i].itemId != rows[j].itemId)
            && (rows[i].parent.Some? && rows[i].parent == rows[j].parent ==> rows[i].name != rows[j].name))
  {
    forall i | i in rows
      ensures Admissible(rows, i, rows[i]) <==>
        && (rows[i].kind == File && rows[i].status in {Cached, Dirty, Uploading} ==> rows[i].cachePath != None)
        && (rows[i].parent.Some? ==> rows[i].parent.value in rows)
        && (forall j :: j in rows && j != i ==>
              && rows[i].path != rows[j].path
              && (rows[i].itemId.Some? ==> rows[i].itemId != rows[j].itemId)
              && (rows[i].parent.Some? && rows[i].parent == rows[j].parent ==> rows[i].name != rows[j].name))
    {
    }
  }

  lemma PutKeepsValid(rows: Rows, i: Inode, r: Row)
    requires Valid(rows) && Admissible(rows, i, r)
    ensures Valid(rows[i := r])
  {
    var after := rows[i := r];
    forall k | k in after ensures Admissible(after, k, after[k]) {
      if k != i {
        assert Admissible(rows, k, rows[k]);
        assert !Clashes(r, rows[k]);
      }
    }
  }

  lemma DeleteKeepsValid(rows: Rows, i: Inode)
    requires Valid(rows) && !HasChildren(rows, i)
    ensures Valid(rows - {i})
  {
    var after := rows - {i};
    forall k | k in after ensures Admissible(after, k, after[k]) {
      assert Admissible(rows, k, rows[k]);
    }
  }

  /** A small table: the root and two rows below it. */
  lemma ThreeRowsValid(rows: Rows, root: Row, x: Row, y: Row)
    requires rows == map[1 := root, 2 := x, 3 := y]
    requires !Clashes(root, x) && !Clashes(root, y) && !Clashes(x, y)
    requires !Clashes(x, root) && !Clashes(y, root) && !Clashes(y, x)
    requires CachePathPresent(root) && CachePathPresent(x) && CachePathPresent(y)
    requires root.parent == None && x.parent == Some(1) && (y.parent == Some(1) || y.parent == Some(2))
    ensures Valid(rows)
  {
    forall i | i in rows ensures Admissible(rows, i, rows[i]) {
      assert i == 1 || i == 2 || i == 3;
    }
  }

  // --------------------------------------------------------------- queries

  ghost function At(rows: Rows, path: string): (r: Option<Inode>)
    ensures r.Some? ==> r.value in rows && rows[r.value].path == path
    ensures r.None? ==> forall i :: i in rows ==> rows[i].path != path
  {
    if exists i :: i in rows && rows[i].path == path then
      var i :| i in rows && rows[i].path == path; Some(i)
    else None
  }

  ghost function ById(rows: Rows, id: Option<string>): (r: Option<Inode>)
    ensures r.Some? ==> id.Some? && r.value in rows && rows[r.value].itemId == id
    ensures r.None? && id.Some? ==> forall i :: i in rows ==> rows[i].itemId != id
  {
    if id.Some? && exists i :: i in rows && rows[i].itemId == id then
      var i :| i in rows && rows[i].itemId == id; Some(i)
    else None
  }

  lemma AtUnique(rows: Rows, i: Inode)
    requires Valid(rows) && i in rows
    ensures At(rows, rows[i].path) == Some(i)
  {
    var a := At(rows, rows[i].path);
    assert Admissible(rows, i, rows[i]);
  }

  lemma ByIdUnique(rows: Rows, i: Inode)
    requires Valid(rows) && i in rows && rows[i].itemId.Some?
    ensures ById(rows, rows[i].itemId) == Some(i)
  {
    var a := ById(rows, rows[i].itemId);
    assert Admissible(rows, i, rows[i]);
  }

  // ------------------------------------------------------------ statements

  function AfterRemoteChange(s: SyncStatus): SyncStatus {
    if s.IsLocalWork() then s else Stale
  }

  /** A row after the remote reported `m` for it. */
  function Refreshed(row: Row, parent: Inode, m: Meta, generation: nat): Row {
    row.(parent := Some(parent), name := m.name, path := m.path, kind := m.Kind(),
         size := m.size, mtime := m.mtime, etag := m.etag, generation := generation,
         itemId := Coalesce(row.itemId, m.itemId), status := AfterRemoteChange(row.status))
  }

  /** The row inserted for an entry seen for the first time. */
  function Fresh(parent: Inode, m: Meta, generation: nat): Row {
    Row(Some(parent), m.name, m.path, m.Kind(), m.size, m.mtime, m.etag, Remote,
        None, None, generation, m.itemId, None)
  }

  /** `upsert_remote_file_by_id_or_path`: the statements run outside a transaction, so
      the deletion of a colliding row stays in force when the update is then refused. */
  ghost function Upsert(d: Db, parent: Inode, m: Meta, generation: nat): (r: (Db, Option<Inode>))
  {
    match ById(d.rows, m.itemId)
    case Some(i) =>
      var holder := At(d.rows, m.path);
      var collides := d.rows[i].path != m.path && holder.Some?;
      if collides && HasChildren(d.rows, holder.value) then (d, None)
      else
        var rows := if collides then d.rows - {holder.value} else d.rows;
        var row := Refreshed(d.rows[i], parent, m, generation);
        if Admissible(rows, i, row) then (d.(rows := rows[i := row]), Some(i))
        else (d.(rows := rows), None)
    case None =>
      match At(d.rows, m.path)
      case Some(i) =>
        var row := Refreshed(d.rows[i], parent, m, generation);
        if Admissible(d.rows, i, row) then (d.(rows := d.rows[i := row]), Some(i)) else (d, None)
      case None =>
        var row := Fresh(parent, m, generation);
        if Admissible(d.rows, d.next, row)
        then (d.(rows := d.rows[d.next := row], next := d.next + 1), Some(d.next))
        else (d, None)
  }

  // ---------------------------------------------------------- row identity

  lemma UpsertKeepsValid(d: Db, parent: Inode, m: Meta, generation: nat)
    requires ValidDb(d)
    ensures ValidDb(Upsert(d, parent, m, generation).0)
  {
    var (d', r) := Upsert(d, parent, m, generation);
    match ById(d.rows, m.itemId)
    case Some(i) =>
      var holder := At(d.rows, m.path);
      var collides := d.rows[i].path != m.path && holder.Some?;
      if collides && !HasChildren(d.rows, holder.value) {
        DeleteKeepsValid(d.rows, holder.value);
      }
      if r.Some? {
        var rows := if collides then d.rows - {holder.value} else d.rows;
        PutKeepsValid(rows, i, Refreshed(d.rows[i], parent, m, generation));
      }
    case None =>
      if r.Some? { PutKeepsValid(d.rows, r.value, d'.rows[r.value]); }
  }

  /** The row that an upsert of `m` means: the item's own row, else the row at its path. */
  ghost function Claim(rows: Rows, m: Meta): Option<Inode> {
    if ById(rows, m.itemId).Some? then ById(rows, m.itemId) else At(rows, m.path)
  }

  /** What a successful upsert guarantees: it answers with the only row at the target
      path; that row is the claimed one, or a new inode; local work keeps its status and
      its cache file; nothing is left at the item's old path; and of the other rows at most
      the former holder of the target path is gone, all the rest being unchanged. */
  lemma UpsertIdentity(d: Db, parent: Inode, m: Meta, generation: nat)
    requires ValidDb(d)
    requires Upsert(d, parent, m, generation).1.Some?
    ensures
      var (d', r) := Upsert(d, parent, m, generation);
      var i := r.value;
      && ValidDb(d')
      && i in d'.rows && d'.rows[i].path == m.path
      && d'.rows[i].size == m.size && d'.rows[i].etag == m.etag
      && (forall j :: j in d'.rows && d'.rows[j].path == m.path ==> j == i)
      && i == (if Claim(d.rows, m).Some? then Claim(d.rows, m).value else d.next)
      && (i in d.rows && d.rows[i].status.IsLocalWork() ==>
            d'.rows[i].status == d.rows[i].status && d'.rows[i].cachePath == d.rows[i].cachePath)
      && (i in d.rows && d.rows[i].path != m.path ==> At(d'.rows, d.rows[i].path).None?)
      && (forall j :: j in d.rows && j != i && d.rows[j].path != m.path ==>
            j in d'.rows && d'.rows[j] == d.rows[j])
      && (forall j :: j in d'.rows ==> j == i || (j in d.rows && d'.rows[j] == d.rows[j]))
  {
    UpsertKeepsValid(d, parent, m, generation);
    var (d', r) := Upsert(d, parent, m, generation);
    var i := r.value;
    AtUnique(d'.rows, i);
    if i in d.rows && d.rows[i].path != m.path {
      assert Admissible(d.rows, i, d.rows[i]);
    }
    if ById(d.rows, m.itemId).Some? && d.rows[i].path != m.path && At(d.rows, m.path).Some? {
      AtUnique(d.rows, At(d.rows, m.path).value);
    }
  }

  /** The columns of the row that a successful upsert leaves: everything the remote reports; for
      a known row unsynced edits keep their status and anything else becomes stale, while the
      cache columns and a known item id stay; a new row starts as remote. */
  lemma UpsertColumns(d: Db, parent: Inode, m: Meta, generation: nat)
    requires ValidDb(d) && Upsert(d, parent, m, generation).1.Some?
    ensures
      var (d', r) := Upsert(d, parent, m, generation);
      var i := r.value;
      && i in d'.rows
      && var now := d'.rows[i];
      && now.parent == Some(parent) && now.name == m.name && now.path == m.path && now.size == m.size
      && now.mtime == m.mtime && now.etag == m.etag && now.generation == generation
      && now.kind == (if m.isDir then Directory else File)
      && if i in d.rows then
           var was := d.rows[i];
           && now.status == (if was.status == Dirty || was.status == Uploading then was.status else Stale)
           && now.cachePath == was.cachePath && now.cacheSize == was.cacheSize && now.lru == was.lru
           && now.itemId == (if was.itemId.Some? then was.itemId else m.itemId)
         else
           && now.status == Remote && now.itemId == m.itemId
           && now.cachePath == None && now.cacheSize == None && now.lru == None
  {
  }

  /** A refused upsert changes nothing, except that a rename may already have removed the
      childless row that held the target path. */
  lemma UpsertRefused(d: Db, parent: Inode, m: Meta, generation: nat)
    requires ValidDb(d)
    requires Upsert(d, parent, m, generation).1.None?
    ensures
      var d' := Upsert(d, parent, m, generation).0;
      && ValidDb(d')
      && (d' == d || exists h :: At(d.rows, m.path) == Some(h) && !HasChildren(d.rows, h)
                            && ById(d.rows, m.itemId).Some? && d' == d.(rows := d.rows - {h}))
  {
    UpsertKeepsValid(d, parent, m, generation);
  }

  /** When an upsert costs local work: exactly when it renames an item onto a path whose
      childless holder has unsynced edits. */
  ghost predicate RenamesOntoLocalWork(d: Db, m: Meta) {
    var byId := ById(d.rows, m.itemId);
    var holder := At(d.rows, m.path);
    && byId.Some? && d.rows[byId.value].path != m.path
    && holder.Some? && d.rows[holder.value].status.IsLocalWork()
    && !HasChildren(d.rows, holder.value)
  }

  /** Every row with unsynced edits is still there, with its status and cache file. */
  ghost predicate KeepsLocalWork(before: Rows, after: Rows) {
    forall i :: i in before && before[i].status.IsLocalWork() ==>
      i in after && after[i].status == before[i].status && after[i].cachePath == before[i].cachePath
  }

  lemma UpsertLosesLocalWork(d: Db, parent: Inode, m: Meta, generation: nat)
    requires ValidDb(d)
    ensures KeepsLocalWork(d.rows, Upsert(d, parent, m, generation).0.rows)
       <==> !RenamesOntoLocalWork(d, m)
  {
    var d' := Upsert(d, parent, m, generation).0;
    if RenamesOntoLocalWork(d, m) {
      var h := At(d.rows, m.path).value;
      assert h !in d'.rows;
    } else {
      var holder := At(d.rows, m.path);
      if holder.Some? { AtUnique(d.rows, holder.value); }
    }
  }
}
