/** When a change list runs through, and how a list of deletions is a sweep. */
module DeltaFinish {
  import opened Types
  import opened FileIndex
  import opened Statements
  import opened PollSpec
  import opened Delta
  import opened Acceptance

  // ------------------------------------------------------------------- one deletion

  /** The row found, if it has no unsynced edits. */
  function Clean(rows: Rows, found: Option<Inode>): Option<Inode> {
    if found.Some? && found.value in rows && !rows[found.value].status.IsLocalWork() then found else None
  }

  /** The row that a deletion is after: the clean row with the item id, else the clean row at
      the path. */
  ghost function Doomed(rows: Rows, path: string, itemId: Option<string>): Option<Inode> {
    if itemId.Some? && Clean(rows, ById(rows, itemId)).Some? then Clean(rows, ById(rows, itemId))
    else Clean(rows, At(rows, path))
  }

  /** A deletion is refused if and only if the row it is after has children; otherwise that row
      goes, and nothing else changes. */
  lemma DeletionExact(rows: Rows, path: string, itemId: Option<string>)
    ensures
      var doomed, r := Doomed(rows, path, itemId), ApplyDeletion(rows, path, itemId);
      && (r.1 == Refused <==> doomed.Some? && HasChildren(rows, doomed.value))
      && r.0 == (if doomed.None? || HasChildren(rows, doomed.value) then rows else rows - {doomed.value})
  {
  }

  // ------------------------------------------------------------------ a change list

  /** The schema accepts what the change asks for. */
  ghost predicate Fits(run: Progress, rules: Rules, c: Change) {
    match c
    case Reported(m) => Accepted(rules, m) ==> Welcome(run.d, ParentInode(run.index, m.path), m, 0)
    case Deleted(path, itemId) =>
      var doomed := Doomed(run.d.rows, path, itemId);
      doomed.Some? ==> !HasChildren(run.d.rows, doomed.value)
  }

  /** Each change of the list fits after the changes before it. */
  ghost predicate AllFit(d: Db, rules: Rules, changes: seq<Change>)
    requires ValidDb(d)
    decreases |changes|
  {
    changes == [] || (AllFit(d, rules, changes[..|changes| - 1])
                      && Fits(ApplyChanges(d, rules, changes[..|changes| - 1]), rules, changes[|changes| - 1]))
  }

  lemma ChangeGoesThrough(run: Progress, rules: Rules, c: Change)
    requires ValidDb(run.d) && run.ok
    ensures ApplyChange(run, rules, c).ok <==> Fits(run, rules, c)
  {
    match c
    case Reported(m) => UpsertGoesThrough(run.d, ParentInode(run.index, m.path), m, 0);
    case Deleted(path, itemId) => DeletionExact(run.d.rows, path, itemId);
  }

  /** A change list runs through if and only if each of its changes fits at its turn. */
  lemma {:induction false} ListGoesThrough(d: Db, rules: Rules, changes: seq<Change>)
    requires ValidDb(d)
    ensures ApplyChanges(d, rules, changes).ok <==> AllFit(d, rules, changes)
    decreases |changes|
  {
    if changes != [] {
      var front, last := changes[..|changes| - 1], changes[|changes| - 1];
      var run := ApplyChanges(d, rules, front);
      ListGoesThrough(d, rules, front);
      assert ApplyChanges(d, rules, changes) == ApplyChange(run, rules, last);
      if run.ok { ChangeGoesThrough(run, rules, last); }
    }
  }

  // -------------------------------------------------------------- a list of deletions

  /** The change deletes `row`, by its item id, or by its path if it carries no id. */
  predicate Names(c: Change, row: Row) {
    c.Deleted? && if c.itemId.Some? then c.itemId == row.itemId else c.path == row.path
  }

  /** The list deletes the clean rows `order`, one by one. */
  ghost predicate DeletesRows(rows: Rows, changes: seq<Change>, order: seq<Inode>) {
    && |changes| == |order|
    && (forall a, b :: 0 <= a < b < |order| ==> order[a] != order[b])
    && (forall k :: 0 <= k < |order| ==> order[k] in rows && !rows[order[k]].status.IsLocalWork())
    && (forall k :: 0 <= k < |order| ==> Names(changes[k], rows[order[k]]))
  }

  lemma DeletesFront(rows: Rows, changes: seq<Change>, order: seq<Inode>)
    requires DeletesRows(rows, changes, order) && order != []
    ensures DeletesRows(rows, changes[..|changes| - 1], order[..|order| - 1])
    ensures order[|order| - 1] !in order[..|order| - 1]
  {
  }

  /** A deletion that names a clean row is after that row. */
  lemma NamedIsDoomed(rows: Rows, c: Change, i: Inode)
    requires Valid(rows) && i in rows && !rows[i].status.IsLocalWork() && Names(c, rows[i])
    ensures Doomed(rows, c.path, c.itemId) == Some(i)
  {
    if c.itemId.Some? { ByIdUnique(rows, i); } else { AtUnique(rows, i); }
  }

  lemma DeletionSweeps(run: Progress, rules: Rules, c: Change, i: Inode)
    requires ValidDb(run.d) && run.ok && i in run.d.rows
    requires !run.d.rows[i].status.IsLocalWork() && Names(c, run.d.rows[i])
    ensures
      var run' := ApplyChange(run, rules, c);
      && run'.ok == !HasChildren(run.d.rows, i)
      && run'.d.rows == if HasChildren(run.d.rows, i) then run.d.rows else run.d.rows - {i}
  {
    NamedIsDoomed(run.d.rows, c, i);
    DeletionExact(run.d.rows, c.path, c.itemId);
  }

  lemma SweepUnfold(rows: Rows, order: seq<Inode>, prev: (Rows, bool))
    requires order != [] && prev == Sweep(rows, order[..|order| - 1])
    ensures
      var i, r := order[|order| - 1], Sweep(rows, order);
      && r.1 == (prev.1 && !HasChildren(prev.0, i))
      && r.0 == if r.1 then prev.0 - {i} else prev.0
  {
  }

  /** Such a list does exactly what the sweep does with these rows. */
  lemma {:induction false} DeletionsSweep(d: Db, rules: Rules, changes: seq<Change>, order: seq<Inode>)
    requires ValidDb(d) && DeletesRows(d.rows, changes, order)
    ensures
      var run := ApplyChanges(d, rules, changes);
      run.d.rows == Sweep(d.rows, order).0 && run.ok == Sweep(d.rows, order).1
    decreases |order|
  {
    if order != [] {
      var front, last := changes[..|changes| - 1], changes[|changes| - 1];
      var done, i := order[..|order| - 1], order[|order| - 1];
      var run := ApplyChanges(d, rules, front);
      DeletesFront(d.rows, changes, order);
      DeletionsSweep(d, rules, front, done);
      SweepRemoves(d.rows, done);
      SweepUnfold(d.rows, order, Sweep(d.rows, done));
      assert ApplyChanges(d, rules, changes) == ApplyChange(run, rules, last);
      if run.ok { DeletionSweeps(run, rules, last, i); }
    }
  }

  /** A list of deletions of clean rows runs through if and only if it names every row after
      all of the row's children. */
  lemma DeletionsGoThrough(d: Db, rules: Rules, changes: seq<Change>, order: seq<Inode>)
    requires ValidDb(d) && DeletesRows(d.rows, changes, order)
    ensures ApplyChanges(d, rules, changes).ok <==> ChildrenFirst(d.rows, order)
  {
    DeletionsSweep(d, rules, changes, order);
    SweepCompletes(d.rows, order);
  }

  /** Such a list, children first, gives the rows that the fold over ids gives. */
  lemma DeletionsRefineFold(d: Db, items: Items, rules: Rules, rootPath: string, changes: seq<Change>,
                            order: seq<Inode>)
    requires ValidDb(d) && Identified(d.rows, rootPath) && Represents(items, d.rows)
    requires DeletesRows(d.rows, changes, order) && ChildrenFirst(d.rows, order)
    requires AllRegular(Catalog(items, d.next), rules, rootPath, changes)
    ensures
      var run, c := ApplyChanges(d, rules, changes), FoldChanges(Catalog(items, d.next), rules, changes);
      Represents(c.items, run.d.rows) && c.next == run.d.next
  {
    DeletionsGoThrough(d, rules, changes, order);
    DeltaRefinesFold(d, items, rules, rootPath, changes);
  }
}
