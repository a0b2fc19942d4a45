/** Which parent a reported change is given. A delta poll takes the changes in the order of the
    provider and keeps the paths of deleted folders, so the parent can be the wrong one. */
module DeltaParents {
  import opened Types
  import opened Text
  import opened FileIndex
  import opened PollSpec
  import opened PollParents
  import opened Acceptance
  import opened Delta

  /** The change reports an entry at `path` that passes the filters. */
  predicate Reports(rules: Rules, c: Change, path: string) {
    c.Reported? && Accepted(rules, c.meta) && c.meta.path == path
  }

  /** The inode that the change at position `j` was answered with. */
  ghost function Answer(d: Db, rules: Rules, changes: seq<Change>, j: nat): Option<Inode>
    requires ValidDb(d) && j < |changes| && changes[j].Reported?
  {
    var run, m := ApplyChanges(d, rules, changes[..j]), changes[j].meta;
    Upsert(run.d, ParentInode(run.index, m.path), m, 0).1
  }

  /** The folder at `path`, as the loop knows it: the inode of the last report of that path, else
      the row that was there before the poll. */
  ghost function Known(d: Db, rules: Rules, changes: seq<Change>, path: string): Option<Inode>
    requires ValidDb(d)
    decreases |changes|
  {
    if changes == [] then At(d.rows, path)
    else
      var n := |changes| - 1;
      if Reports(rules, changes[n], path) then Answer(d, rules, changes, n) else Known(d, rules, changes[..n], path)
  }

  lemma KnownStart(d: Db, path: string)
    requires ValidDb(d)
    ensures path in PathIndex(d.rows) <==> At(d.rows, path).Some?
    ensures path in PathIndex(d.rows) ==> At(d.rows, path) == Some(PathIndex(d.rows)[path])
  {
    if path in PathIndex(d.rows) { AtUnique(d.rows, PathIndex(d.rows)[path]); }
  }

  /** Deletions leave no trace in what the loop knows. */
  lemma {:induction false} IndexIsKnown(d: Db, rules: Rules, changes: seq<Change>, path: string)
    requires ValidDb(d) && ApplyChanges(d, rules, changes).ok
    ensures
      var index := ApplyChanges(d, rules, changes).index;
      Known(d, rules, changes, path) == if path in index then Some(index[path]) else None
    decreases |changes|
  {
    if changes == [] {
      KnownStart(d, path);
    } else {
      var front, last := changes[..|changes| - 1], changes[|changes| - 1];
      assert ApplyChanges(d, rules, changes) == ApplyChange(ApplyChanges(d, rules, front), rules, last);
      IndexIsKnown(d, rules, front, path);
    }
  }

  /** The parent that the next change is given: the folder as the loop knows it, else the
      root. */
  lemma DeltaParentGiven(d: Db, rules: Rules, changes: seq<Change>, path: string)
    requires ValidDb(d) && ApplyChanges(d, rules, changes).ok
    ensures
      var dir := Dirname(path);
      ParentInode(ApplyChanges(d, rules, changes).index, path)
      == if dir.Some? && Known(d, rules, changes, dir.value).Some? then Known(d, rules, changes, dir.value).value
         else ROOT_INODE
  {
    if Dirname(path).Some? { IndexIsKnown(d, rules, changes, Dirname(path).value); }
  }

  /** A known folder is the right parent if and only if its row still holds the folder's path;
      otherwise it was moved or deleted in the meantime. */
  lemma KnownParentRight(d: Db, rules: Rules, changes: seq<Change>, path: string, parent: Inode)
    requires ValidDb(d) && ApplyChanges(d, rules, changes).ok && Dirname(path).Some?
    requires Known(d, rules, changes, Dirname(path).value) == Some(parent)
    ensures
      var rows := ApplyChanges(d, rules, changes).d.rows;
      && ParentInode(ApplyChanges(d, rules, changes).index, path) == parent
      && (At(rows, Dirname(path).value) == Some(parent) <==> parent in rows && rows[parent].path == Dirname(path).value)
  {
    var rows := ApplyChanges(d, rules, changes).d.rows;
    DeltaParentGiven(d, rules, changes, path);
    if parent in rows && rows[parent].path == Dirname(path).value { AtUnique(rows, parent); }
  }

  /** A new entry in a folder that the loop knows and that has been deleted is refused, and so
      is the whole list. */
  lemma DeletedFolderRefuses(d: Db, rules: Rules, changes: seq<Change>, m: Meta, parent: Inode)
    requires ValidDb(d) && Accepted(rules, m) && Dirname(m.path).Some?
    requires ApplyChanges(d, rules, changes).ok && parent !in ApplyChanges(d, rules, changes).d.rows
    requires Known(d, rules, changes, Dirname(m.path).value) == Some(parent)
    requires parent != Target(ApplyChanges(d, rules, changes).d, m)
    ensures !ApplyChanges(d, rules, changes + [Reported(m)]).ok
  {
    var run, all := ApplyChanges(d, rules, changes), changes + [Reported(m)];
    assert all[..|all| - 1] == changes;
    assert ApplyChanges(d, rules, all) == ApplyChange(run, rules, Reported(m));
    DeltaParentGiven(d, rules, changes, m.path);
    UpsertGoesThrough(run.d, parent, m, 0);
  }

  // ------------------------------------------------------------- a child before its folder

  /** Inserting an entry of which nothing is known yet. */
  lemma Inserts(d: Db, parent: Inode, m: Meta)
    requires ValidDb(d) && Claim(d.rows, m).None? && parent in d.rows && !Namesake(d.rows, d.next, parent, m.name)
    ensures
      var d' := d.(rows := d.rows[d.next := Fresh(parent, m, 0)], next := d.next + 1);
      Upsert(d, parent, m, 0) == (d', Some(d.next))
  {
    UpsertGoesThrough(d, parent, m, 0);
  }

  /** A table with nothing but its root. */
  lemma RootOnly() returns (d: Db)
    ensures ValidDb(d) && d.next == 2 && d.rows.Keys == {1} && d.rows[1].path == "/" && d.rows[1].itemId.None?
    ensures d.rows[1].parent == None
  {
    d := Db(map[1 := Row(None, "/", "/", Directory, 0, 0, None, Remote, None, None, 0, None, None)], 2, 0);
  }

  /** The smallest case: file "a/b" is reported before its new folder "a". The file hangs below
      the root, and the folder is there too. */
  lemma ChildBeforeFolder(rules: Rules) returns (d: Db, changes: seq<Change>)
    requires rules.tombstones == [] && forall path :: !rules.ignore(path)
    ensures ValidDb(d) && |changes| == 2 && changes[0].Reported? && changes[1].Reported?
    ensures changes[0].meta.path == "a/b" && changes[1].meta.path == "a"
    ensures
      var run := ApplyChanges(d, rules, changes);
      && run.ok && 2 in run.d.rows && run.d.rows[2].path == "a/b" && run.d.rows[2].parent == Some(ROOT_INODE)
      && At(run.d.rows, "a") == Some(3)
  {
    d := RootOnly();
    var file := Meta("a/b", "b", 4, 0, false, None, Some("F"));
    var dir := Meta("a", "a", 0, 0, true, None, Some("D"));
    changes := [Reported(file), Reported(dir)];
    SampleAccepted(rules, file, dir);
    FirstReport(d, rules, file);
    SecondReport(d, rules, file, dir);
    assert changes[..1] == [Reported(file)];
  }

  lemma SampleAccepted(rules: Rules, file: Meta, dir: Meta)
    requires rules.tombstones == [] && forall path :: !rules.ignore(path)
    requires file.path == "a/b" && file.name == "b" && dir.path == "a" && dir.name == "a"
    ensures Accepted(rules, file) && Accepted(rules, dir)
  {
    assert file.path[0] != CONFLICT_PREFIX[0] && dir.path[0] != CONFLICT_PREFIX[0];
  }

  lemma FirstReport(d: Db, rules: Rules, file: Meta)
    requires ValidDb(d) && d.next == 2 && d.rows.Keys == {1} && d.rows[1].path == "/" && d.rows[1].itemId.None?
    requires d.rows[1].parent == None && Accepted(rules, file) && file.path == "a/b" && file.itemId == Some("F")
    ensures
      var run := ApplyChanges(d, rules, [Reported(file)]);
      && run.ok && run.d.next == 3 && run.d.rows == d.rows[2 := Fresh(1, file, 0)]
      && run.index == PathIndex(d.rows)["a/b" := 2]
  {
    var changes := [Reported(file)];
    assert changes[..|changes| - 1] == [];
    LastIndexUnique(file.path, '/', 1);
    KnownStart(d, "a");
    assert ParentInode(PathIndex(d.rows), file.path) == ROOT_INODE;
    Inserts(d, ROOT_INODE, file);
  }

  lemma SecondReport(d: Db, rules: Rules, file: Meta, dir: Meta)
    requires ValidDb(d) && d.next == 2 && d.rows.Keys == {1} && d.rows[1].path == "/" && d.rows[1].itemId.None?
    requires d.rows[1].parent == None && file.path == "a/b" && file.itemId == Some("F") && file.name == "b"
    requires Accepted(rules, dir) && dir.path == "a" && dir.name == "a" && dir.itemId == Some("D")
    requires
      var run := ApplyChanges(d, rules, [Reported(file)]);
      run.ok && run.d.next == 3 && run.d.rows == d.rows[2 := Fresh(1, file, 0)]
    ensures
      var run := ApplyChanges(d, rules, [Reported(file), Reported(dir)]);
      && run.ok && run.d.rows == d.rows[2 := Fresh(1, file, 0)][3 := Fresh(1, dir, 0)] && At(run.d.rows, "a") == Some(3)
  {
    var changes, run := [Reported(file), Reported(dir)], ApplyChanges(d, rules, [Reported(file)]);
    assert changes[..|changes| - 1] == [Reported(file)];
    assert ApplyChanges(d, rules, changes) == ApplyChange(run, rules, Reported(dir));
    assert '/' !in dir.path;
    Inserts(run.d, ROOT_INODE, dir);
    AtUnique(ApplyChanges(d, rules, changes).d.rows, 3);
  }
}
