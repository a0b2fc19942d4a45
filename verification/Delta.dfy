/** Delta polling: applying a provider's change list to the index refines a plain fold over
    a map from item id to metadata. */
module Delta {
  import opened Types
  import opened FileIndex
  import opened Statements
  import opened PollSpec
  import S = StateDb

  /** Added and Modified events are handled alike. */
  datatype Change = Reported(meta: Meta) | Deleted(path: string, itemId: Option<string>)

  // ---------------------------------------------------------- the poller's loop

  datatype Progress = Progress(d: Db, index: map<string, Inode>, ok: bool)

  /** A delete event: by item id first, then by path when no unprotected row has that id. */
  ghost function ApplyDeletion(rows: Rows, path: string, itemId: Option<string>): (Rows, Deletion) {
    if itemId.Some? && DeleteById(rows, itemId.value).1 != Nothing then DeleteById(rows, itemId.value)
    else DeleteByPath(rows, path)
  }

  ghost function ApplyChange(run: Progress, rules: Rules, c: Change): Progress {
    if !run.ok then run
    else match c
      case Reported(m) =>
        if !Accepted(rules, m) then run
        else
          var (d', r) := Upsert(run.d, ParentInode(run.index, m.path), m, 0);
          if r.Some? then Progress(d', run.index[m.path := r.value], true)
          else run.(d := d', ok := false)
      case Deleted(path, itemId) =>
        var (rows, r) := ApplyDeletion(run.d.rows, path, itemId);
        Progress(run.d.(rows := rows), run.index, r != Refused)
  }

  ghost function ApplyChanges(d: Db, rules: Rules, changes: seq<Change>): (run: Progress)
    requires ValidDb(d)
    ensures ValidDb(run.d)
    decreases |changes|
  {
    if changes == [] then Progress(d, PathIndex(d.rows), true)
    else
      var run := ApplyChanges(d, rules, changes[..|changes| - 1]);
      ChangeKeepsValid(run, rules, changes[|changes| - 1]);
      ApplyChange(run, rules, changes[|changes| - 1])
  }

  lemma ChangeKeepsValid(run: Progress, rules: Rules, c: Change)
    requires ValidDb(run.d)
    ensures ValidDb(ApplyChange(run, rules, c).d)
  {
    match c
    case Reported(m) => UpsertKeepsValid(run.d, ParentInode(run.index, m.path), m, 0);
    case Deleted(path, itemId) =>
      var (rows, r) := ApplyDeletion(run.d.rows, path, itemId);
      if r.Removed? { DeleteKeepsValid(run.d.rows, r.inode); }
  }

  /** The change loop of `poll_once_delta`. */
  method ApplyAll(db: S.StateDb, rules: Rules, changes: seq<Change>) returns (ok: bool)
    requires db.Ok()
    modifies db
    ensures db.Ok()
    ensures
      var run := ApplyChanges(old(db.State()), rules, changes);
      db.State() == run.d && ok == run.ok
  {
    var index := PathIndex(db.rows);
    ghost var start := db.State();
    var k := 0;
    ok := true;
    while k < |changes| && ok
      invariant k <= |changes| && db.Ok()
      invariant
        var run := ApplyChanges(start, rules, changes[..k]);
        db.State() == run.d && ok == run.ok && (ok ==> index == run.index)
    {
      assert changes[..k + 1][..k] == changes[..k];
      ok, index := ApplyOne(db, rules, changes[k], index);
      k := k + 1;
    }
    if !ok { ChangesStop(start, rules, changes, k); } else { assert changes[..k] == changes; }
  }

  /** One round of the loop. */
  method ApplyOne(db: S.StateDb, rules: Rules, c: Change, index0: map<string, Inode>)
    returns (ok: bool, index: map<string, Inode>)
    requires db.Ok()
    modifies db
    ensures db.Ok()
    ensures
      var run := ApplyChange(Progress(old(db.State()), index0, true), rules, c);
      db.State() == run.d && ok == run.ok && index == run.index
  {
    ok, index := true, index0;
    match c {
      case Reported(m) =>
        if Accepted(rules, m) {
          var inode := db.UpsertRemoteFile(ParentInode(index, m.path), m, 0);
          if inode.Some? { index := index[m.path := inode.value]; } else { ok := false; }
        }
      case Deleted(path, itemId) =>
        var r := Nothing;
        if itemId.Some? { r := db.DeleteRemoteEntryByItemId(itemId.value); }
        if r == Nothing { r := db.DeleteRemoteEntryByPath(path); }
        ok := r != Refused;
    }
  }

  lemma {:induction false} ChangesStop(d: Db, rules: Rules, changes: seq<Change>, n: nat)
    requires ValidDb(d) && n <= |changes| && !ApplyChanges(d, rules, changes[..n]).ok
    ensures ApplyChanges(d, rules, changes) == ApplyChanges(d, rules, changes[..n])
    decreases |changes|
  {
    if n == |changes| {
      assert changes[..n] == changes;
    } else {
      assert changes[..|changes| - 1][..n] == changes[..n];
      ChangesStop(d, rules, changes[..|changes| - 1], n);
    }
  }

  // --------------------------------------------------------- the reference fold

  /** An item: its inode and its row without the tree columns (parent, generation). */
  datatype Item = Item(inode: Inode, row: Row)

  type Items = map<string, Item>

  function Plain(row: Row): Row {
    row.(parent := None, generation := 0)
  }

  /** Items keyed by id, and the next inode. */
  datatype Catalog = Catalog(items: Items, next: Inode)

  function WithoutPath(items: Items, path: string, except: string): Items {
    map id | id in items && (id == except || items[id].row.path != path) :: items[id]
  }

  function FoldChange(c: Catalog, rules: Rules, change: Change): Catalog {
    match change
    case Reported(m) =>
      if !Accepted(rules, m) || m.itemId.None? then c
      else if m.itemId.value in c.items then
        var item := c.items[m.itemId.value];
        var updated := Item(item.inode, Plain(Refreshed(item.row, ROOT_INODE, m, 0)));
        c.(items := WithoutPath(c.items, m.path, m.itemId.value)[m.itemId.value := updated])
      else
        Catalog(c.items[m.itemId.value := Item(c.next, Plain(Fresh(ROOT_INODE, m, 0)))], c.next + 1)
    case Deleted(path, itemId) =>
      if itemId.Some? && itemId.value in c.items && !c.items[itemId.value].row.status.IsLocalWork()
      then c.(items := c.items - {itemId.value}) else c
  }

  function FoldChanges(c: Catalog, rules: Rules, changes: seq<Change>): Catalog {
    if changes == [] then c
    else FoldChange(FoldChanges(c, rules, changes[..|changes| - 1]), rules, changes[|changes| - 1])
  }

  /** The change is one that ids alone can explain: it carries an id, stays away from the
      root, introduces a new item only at a free path, and deletes no path of another item. */
  ghost predicate Regular(c: Catalog, rules: Rules, rootPath: string, change: Change) {
    match change
    case Reported(m) =>
      Accepted(rules, m) ==>
        && m.itemId.Some? && m.path != rootPath
        && (m.itemId.value !in c.items ==> forall id :: id in c.items ==> c.items[id].row.path != m.path)
    case Deleted(path, itemId) =>
      && itemId.Some? && path != rootPath
      && forall id :: id in c.items && c.items[id].row.path == path ==> id == itemId.value
  }

  ghost predicate AllRegular(c: Catalog, rules: Rules, rootPath: string, changes: seq<Change>) {
    changes == []
    || (&& AllRegular(c, rules, rootPath, changes[..|changes| - 1])
        && Regular(FoldChanges(c, rules, changes[..|changes| - 1]), rules, rootPath, changes[|changes| - 1]))
  }

  // ------------------------------------------------------------------ abstraction

  /** The table holds the root, which has no item id, and otherwise only identified rows. */
  ghost predicate Identified(rows: Rows, rootPath: string) {
    && ROOT_INODE in rows && rows[ROOT_INODE].path == rootPath && rows[ROOT_INODE].itemId.None?
    && forall i :: i in rows && i != ROOT_INODE ==> rows[i].itemId.Some?
  }

  ghost predicate Represents(items: Items, rows: Rows) {
    && (forall i :: i in rows && rows[i].itemId.Some? ==>
          rows[i].itemId.value in items && items[rows[i].itemId.value] == Item(i, Plain(rows[i])))
    && (forall id :: id in items ==> items[id].inode in rows && rows[items[id].inode].itemId == Some(id))
  }

  /** At most one catalog represents a table. */
  lemma RepresentsUnique(a: Items, b: Items, rows: Rows)
    requires Represents(a, rows) && Represents(b, rows)
    ensures a == b
  {
    assert forall id :: id in a ==> id in b && a[id] == b[id];
    assert forall id :: id in b ==> id in a;
  }

  lemma ReportRefines(d: Db, c: Catalog, rules: Rules, rootPath: string, parent: Inode, m: Meta)
    requires ValidDb(d) && Identified(d.rows, rootPath) && Represents(c.items, d.rows) && c.next == d.next
    requires Accepted(rules, m) && Regular(c, rules, rootPath, Reported(m))
    requires Upsert(d, parent, m, 0).1.Some?
    ensures
      var d', c' := Upsert(d, parent, m, 0).0, FoldChange(c, rules, Reported(m));
      Identified(d'.rows, rootPath) && Represents(c'.items, d'.rows) && c'.next == d'.next
  {
    var id := m.itemId.value;
    var byId, holder := ById(d.rows, m.itemId), At(d.rows, m.path);
    if byId.Some? {
      assert c.items[id] == Item(byId.value, Plain(d.rows[byId.value]));
      if holder.Some? { AtUnique(d.rows, holder.value); }
      KnownItemRefines(d, c, rules, rootPath, parent, m, byId.value);
    } else {
      assert id !in c.items;
      assert holder.None?;
    }
  }

  /** The rows after item `i` moved to `m.path`: whoever else was there is gone. */
  ghost predicate MovedOnto(rows: Rows, i: Inode, parent: Inode, m: Meta, rows': Rows)
    requires i in rows
  {
    && (forall k :: k in rows' <==> k in rows && (k == i || rows[k].path != m.path))
    && (forall k :: k in rows' && k != i ==> rows'[k] == rows[k])
    && i in rows' && rows'[i] == Refreshed(rows[i], parent, m, 0)
  }

  lemma KnownItemMoves(d: Db, parent: Inode, m: Meta, i: Inode)
    requires ValidDb(d) && m.itemId.Some? && ById(d.rows, m.itemId) == Some(i) && Upsert(d, parent, m, 0).1.Some?
    ensures var d' := Upsert(d, parent, m, 0).0; MovedOnto(d.rows, i, parent, m, d'.rows) && d'.next == d.next
  {
    UpsertIdentity(d, parent, m, 0);
  }

  /** The catalog follows such a move. */
  lemma MoveListed(items: Items, rows: Rows, i: Inode, parent: Inode, m: Meta, rows': Rows, items': Items)
    requires Valid(rows) && Represents(items, rows) && i in rows && m.itemId.Some? && rows[i].itemId == m.itemId
    requires MovedOnto(rows, i, parent, m, rows')
    requires
      var moved := Item(i, Plain(Refreshed(Plain(rows[i]), ROOT_INODE, m, 0)));
      items' == WithoutPath(items, m.path, m.itemId.value)[m.itemId.value := moved]
    ensures Represents(items', rows')
  {
    forall k | k in rows' && rows'[k].itemId.Some?
      ensures rows'[k].itemId.value in items' && items'[rows'[k].itemId.value] == Item(k, Plain(rows'[k]))
    {
      if k != i { assert Admissible(rows, k, rows[k]) && !Clashes(rows[k], rows[i]); }
    }
    forall x | x in items' ensures items'[x].inode in rows' && rows'[items'[x].inode].itemId == Some(x) {
      if x != m.itemId.value { assert x in items && items[x].row.path != m.path; }
    }
  }

  lemma KnownItemRefines(d: Db, c: Catalog, rules: Rules, rootPath: string, parent: Inode, m: Meta, i: Inode)
    requires ValidDb(d) && Identified(d.rows, rootPath) && Represents(c.items, d.rows) && c.next == d.next
    requires Accepted(rules, m) && m.itemId.Some? && m.path != rootPath && ById(d.rows, m.itemId) == Some(i)
    requires Upsert(d, parent, m, 0).1.Some?
    ensures
      var d', c' := Upsert(d, parent, m, 0).0, FoldChange(c, rules, Reported(m));
      Identified(d'.rows, rootPath) && Represents(c'.items, d'.rows) && c'.next == d'.next
  {
    KnownItemMoves(d, parent, m, i);
    FoldMoves(c, rules, m, Item(i, Plain(d.rows[i])));
    MoveListed(c.items, d.rows, i, parent, m, Upsert(d, parent, m, 0).0.rows, FoldChange(c, rules, Reported(m)).items);
  }

  /** What the fold does with a known item. */
  lemma FoldMoves(c: Catalog, rules: Rules, m: Meta, item: Item)
    requires Accepted(rules, m) && m.itemId.Some? && m.itemId.value in c.items && c.items[m.itemId.value] == item
    ensures
      var moved := Item(item.inode, Plain(Refreshed(item.row, ROOT_INODE, m, 0)));
      var c' := FoldChange(c, rules, Reported(m));
      c'.next == c.next && c'.items == WithoutPath(c.items, m.path, m.itemId.value)[m.itemId.value := moved]
  {
  }

  lemma DeletionRefines(d: Db, c: Catalog, rules: Rules, rootPath: string, path: string, itemId: Option<string>)
    requires ValidDb(d) && Identified(d.rows, rootPath) && Represents(c.items, d.rows)
    requires Regular(c, rules, rootPath, Deleted(path, itemId))
    requires ApplyDeletion(d.rows, path, itemId).1 != Refused
    ensures
      var rows, c' := ApplyDeletion(d.rows, path, itemId).0, FoldChange(c, rules, Deleted(path, itemId));
      Identified(rows, rootPath) && Represents(c'.items, rows)
  {
    var byId, holder := ById(d.rows, itemId), At(d.rows, path);
    if holder.Some? {
      assert holder.value != ROOT_INODE;
      ByIdUnique(d.rows, holder.value);
      assert byId == holder;
    }
    if byId.Some? { assert c.items[itemId.value] == Item(byId.value, Plain(d.rows[byId.value])); }
  }

  /** Applying a change list that runs through without a refused statement gives exactly the
      rows that the fold over ids gives: known items are updated in place under their inode
      and push out whoever held their new path, new items get new inodes, clean items are
      deleted under their id whatever path the event carries, and unsynced ones are kept. */
  lemma {:induction false} DeltaRefinesFold(d: Db, items: Items, rules: Rules, rootPath: string, changes: seq<Change>)
    requires ValidDb(d) && Identified(d.rows, rootPath) && Represents(items, d.rows)
    requires ApplyChanges(d, rules, changes).ok
    requires AllRegular(Catalog(items, d.next), rules, rootPath, changes)
    ensures
      var run, c := ApplyChanges(d, rules, changes), FoldChanges(Catalog(items, d.next), rules, changes);
      Identified(run.d.rows, rootPath) && Represents(c.items, run.d.rows) && c.next == run.d.next
    decreases |changes|
  {
    if changes != [] {
      var front, last := changes[..|changes| - 1], changes[|changes| - 1];
      var start := Catalog(items, d.next);
      assert ApplyChanges(d, rules, changes) == ApplyChange(ApplyChanges(d, rules, front), rules, last);
      DeltaRefinesFold(d, items, rules, rootPath, front);
      var run, c := ApplyChanges(d, rules, front), FoldChanges(start, rules, front);
      match last
      case Reported(m) =>
        if Accepted(rules, m) { ReportRefines(run.d, c, rules, rootPath, ParentInode(run.index, m.path), m); }
      case Deleted(path, itemId) => DeletionRefines(run.d, c, rules, rootPath, path, itemId);
    }
  }

  /** An item that is in the catalog after every step of the fold keeps its inode. */
  lemma {:induction false} SurvivorKeepsInode(c: Catalog, rules: Rules, changes: seq<Change>, id: string)
    requires forall k :: 0 <= k <= |changes| ==> id in FoldChanges(c, rules, changes[..k]).items
    ensures id in c.items && id in FoldChanges(c, rules, changes).items
    ensures FoldChanges(c, rules, changes).items[id].inode == c.items[id].inode
    decreases |changes|
  {
    assert changes[..|changes|] == changes;
    assert changes[..0] == [];
    assert id in FoldChanges(c, rules, changes[..0]).items;
    if changes != [] {
      var front := changes[..|changes| - 1];
      forall k | 0 <= k <= |front| ensures id in FoldChanges(c, rules, front[..k]).items {
        assert front[..k] == changes[..k];
      }
      SurvivorKeepsInode(c, rules, front, id);
      assert front[..|front|] == front;
    }
  }

  /** Unsynced work is never deleted by the fold: an item can only leave while it is clean,
      or because another item moved onto its path. */
  lemma FoldKeepsLocalWork(c: Catalog, rules: Rules, change: Change, id: string)
    requires id in c.items && c.items[id].row.status.IsLocalWork()
    ensures id in FoldChange(c, rules, change).items
            <==> !(&& change.Reported? && Accepted(rules, change.meta) && change.meta.itemId.Some?
                   && change.meta.itemId.value != id && change.meta.itemId.value in c.items
                   && c.items[id].row.path == change.meta.path)
  {
  }
}
