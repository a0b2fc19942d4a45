/** A change list that deletes a folder before its contents: the deletion is refused, the
    change token is not stored, and every later poll starts from the same place. */
module DeltaStuck {
  import opened Types
  import opened FileIndex
  import opened PollSpec
  import opened Delta
  import opened DeltaFinish
  import C = PollConvergence

  /** The change speaks neither of the path nor of the item of `row`. */
  ghost predicate Foreign(c: Change, row: Row) {
    match c
    case Reported(m) => C.Foreign(m, row)
    case Deleted(path, itemId) => path != row.path && (itemId.Some? ==> itemId != row.itemId)
  }

  lemma DeletionLeaves(rows: Rows, path: string, itemId: Option<string>, i: Inode)
    requires i in rows && Foreign(Deleted(path, itemId), rows[i])
    ensures var after := ApplyDeletion(rows, path, itemId).0; i in after && after[i] == rows[i]
  {
  }

  /** Row `i` is as it was. */
  ghost predicate Same(d: Db, d': Db, i: Inode) { i in d.rows && i in d'.rows && d'.rows[i] == d.rows[i] }

  lemma ChangeLeaves(run: Progress, rules: Rules, c: Change, i: Inode)
    requires ValidDb(run.d) && i in run.d.rows && Foreign(c, run.d.rows[i])
    ensures Same(run.d, ApplyChange(run, rules, c).d, i)
  {
    match c
    case Reported(m) => C.UpsertLeaves(run.d, ParentInode(run.index, m.path), m, 0, i);
    case Deleted(path, itemId) => DeletionLeaves(run.d.rows, path, itemId, i);
  }

  lemma {:induction false} ChangesLeave(d: Db, rules: Rules, changes: seq<Change>, i: Inode)
    requires ValidDb(d) && i in d.rows && forall c :: c in changes ==> Foreign(c, d.rows[i])
    ensures Same(d, ApplyChanges(d, rules, changes).d, i)
    decreases |changes|
  {
    if changes != [] {
      var front, last := changes[..|changes| - 1], changes[|changes| - 1];
      ChangesLeave(d, rules, front, i);
      assert ApplyChanges(d, rules, changes) == ApplyChange(ApplyChanges(d, rules, front), rules, last);
      ChangeLeaves(ApplyChanges(d, rules, front), rules, last, i);
    }
  }

  /** A clean folder with a child. */
  ghost predicate Occupied(d: Db, dir: Inode, child: Inode) {
    && ValidDb(d) && dir in d.rows && child in d.rows && dir != child && d.rows[child].parent == Some(dir)
    && !d.rows[dir].status.IsLocalWork() && d.rows[dir].itemId.Some?
  }

  /** The list deletes the folder at position `k`, and nothing before that speaks of the folder
      or of its child. What comes later does not matter. */
  ghost predicate DeletesFolderFirst(changes: seq<Change>, k: nat, dir: Row, child: Row) {
    && k < |changes| && changes[k].Deleted? && changes[k].itemId.Some? && changes[k].itemId == dir.itemId
    && forall c :: c in changes[..k] ==> Foreign(c, dir) && Foreign(c, child)
  }

  /** Deleting an occupied folder is refused. */
  lemma FolderRefused(run: Progress, rules: Rules, path: string, itemId: Option<string>, dir: Inode, child: Inode)
    requires Occupied(run.d, dir, child) && itemId == run.d.rows[dir].itemId && run.ok
    ensures
      var run' := ApplyChange(run, rules, Deleted(path, itemId));
      !run'.ok && run'.d == run.d
  {
    ByIdUnique(run.d.rows, dir);
    assert HasChildren(run.d.rows, dir);
  }

  lemma OccupiedStays(d: Db, d': Db, dir: Inode, child: Inode)
    requires Occupied(d, dir, child) && ValidDb(d') && Same(d, d', dir) && Same(d, d', child)
    ensures Occupied(d', dir, child)
  {
  }

  /** Such a poll fails, and leaves the folder and its child as they were. */
  lemma StuckDelta(d: Db, rules: Rules, changes: seq<Change>, k: nat, dir: Inode, child: Inode)
    requires Occupied(d, dir, child) && DeletesFolderFirst(changes, k, d.rows[dir], d.rows[child])
    ensures
      var run := ApplyChanges(d, rules, changes);
      !run.ok && Occupied(run.d, dir, child) && Same(d, run.d, dir) && Same(d, run.d, child)
  {
    var run := ApplyChanges(d, rules, changes[..k]);
    ChangesLeave(d, rules, changes[..k], dir);
    ChangesLeave(d, rules, changes[..k], child);
    OccupiedStays(d, run.d, dir, child);
    if run.ok {
      FolderRefused(run, rules, changes[k].path, changes[k].itemId, dir, child);
      assert changes[..k + 1][..k] == changes[..k];
      ChangesStop(d, rules, changes, k + 1);
    } else {
      ChangesStop(d, rules, changes, k);
    }
  }

  // ------------------------------------------------------------------- the token

  /** The database and the position in the provider's log that the stored token stands for. */
  datatype Mount = Mount(d: Db, token: nat)

  /** A delta poll, with the filters in force and the provider's log at that time; or anything
      else that changes the database meanwhile. */
  datatype Event = Fetch(rules: Rules, log: seq<Change>) | Meanwhile(after: Db)

  /** The provider answers with everything after the token. */
  function ChangesSince(log: seq<Change>, token: nat): seq<Change> { if token <= |log| then log[token..] else [] }

  ghost predicate Legal(s: Mount, e: Event) {
    ValidDb(s.d) && (e.Meanwhile? ==> ValidDb(e.after))
  }

  /** `poll_once_delta`: the changes are applied, and the token is stored only when all of them
      went through. */
  ghost function Next(s: Mount, e: Event): (s': Mount)
    requires Legal(s, e)
    ensures ValidDb(s'.d)
  {
    match e
    case Fetch(rules, log) =>
      var run := ApplyChanges(s.d, rules, ChangesSince(log, s.token));
      Mount(run.d, if run.ok && s.token <= |log| then |log| else s.token)
    case Meanwhile(after) => s.(d := after)
  }

  /** A poll brings the token to the end of the log if and only if every change fits. */
  lemma TokenAdvances(s: Mount, rules: Rules, log: seq<Change>)
    requires ValidDb(s.d) && s.token <= |log|
    ensures Next(s, Fetch(rules, log)).token == (if AllFit(s.d, rules, log[s.token..]) then |log| else s.token)
  {
    ListGoesThrough(s.d, rules, log[s.token..]);
  }

  ghost predicate LegalRun(s: Mount, events: seq<Event>)
    decreases |events|
  {
    events == [] || (Legal(s, events[0]) && LegalRun(Next(s, events[0]), events[1..]))
  }

  ghost function After(s: Mount, events: seq<Event>): Mount
    requires LegalRun(s, events)
    decreases |events|
  {
    if events == [] then s else After(Next(s, events[0]), events[1..])
  }

  /** The provider's log only grows from `log` on, and nothing else touches the two rows. */
  ghost predicate Undisturbed(s: Mount, events: seq<Event>, log: seq<Change>, dir: Inode, child: Inode)
    requires LegalRun(s, events)
    decreases |events|
  {
    events != [] ==>
      && (events[0].Fetch? ==> log <= events[0].log)
      && (events[0].Meanwhile? ==> Same(s.d, events[0].after, dir) && Same(s.d, events[0].after, child))
      && Undisturbed(Next(s, events[0]), events[1..], log, dir, child)
  }

  /** What the token has yet to pass begins with the deletion of an occupied folder. */
  ghost predicate Trapped(s: Mount, log: seq<Change>, k: nat, dir: Inode, child: Inode) {
    && Occupied(s.d, dir, child) && s.token <= |log|
    && DeletesFolderFirst(log[s.token..], k, s.d.rows[dir], s.d.rows[child])
  }

  lemma TrapGrows(changes: seq<Change>, more: seq<Change>, k: nat, dir: Row, child: Row)
    requires DeletesFolderFirst(changes, k, dir, child) && changes <= more
    ensures DeletesFolderFirst(more, k, dir, child)
  {
    assert more[..k] == changes[..k];
  }

  lemma StaysTrapped(s: Mount, e: Event, log: seq<Change>, k: nat, dir: Inode, child: Inode)
    requires Trapped(s, log, k, dir, child) && Legal(s, e)
    requires e.Fetch? ==> log <= e.log
    requires e.Meanwhile? ==> Same(s.d, e.after, dir) && Same(s.d, e.after, child)
    ensures Next(s, e).token == s.token && Trapped(Next(s, e), log, k, dir, child)
  {
    match e
    case Fetch(rules, log') =>
      assert log[s.token..] <= log'[s.token..];
      TrapGrows(log[s.token..], log'[s.token..], k, s.d.rows[dir], s.d.rows[child]);
      StuckDelta(s.d, rules, log'[s.token..], k, dir, child);
    case Meanwhile(after) => OccupiedStays(s.d, after, dir, child);
  }

  /** However often the daemon polls, whatever the provider adds to its log and whatever else
      happens in the database: as long as the two rows stay, the token never moves. */
  lemma {:induction false} TokenNeverMoves(s: Mount, events: seq<Event>, log: seq<Change>, k: nat, dir: Inode,
                                           child: Inode)
    requires LegalRun(s, events) && Trapped(s, log, k, dir, child) && Undisturbed(s, events, log, dir, child)
    ensures After(s, events).token == s.token && Trapped(After(s, events), log, k, dir, child)
    decreases |events|
  {
    if events != [] {
      StaysTrapped(s, events[0], log, k, dir, child);
      TokenNeverMoves(Next(s, events[0]), events[1..], log, k, dir, child);
    }
  }

  /** The smallest case: a folder with one file, reported as deleted together, the folder
      first, and a token that stands before both. */
  lemma FolderBeforeFile() returns (s: Mount, log: seq<Change>)
    ensures ValidDb(s.d) && log == [Deleted("a", Some("D")), Deleted("a/b", Some("F"))] && s.token == 0
    ensures 2 in s.d.rows && s.d.rows[2].itemId == Some("D") && 3 in s.d.rows && s.d.rows[3].itemId == Some("F")
    ensures Trapped(s, log, 0, 2, 3)
    ensures forall rules: Rules {:trigger Fetch(rules, log)} :: Next(s, Fetch(rules, log)).token == 0
  {
    var root := Row(None, "/", "/", Directory, 0, 0, None, Remote, None, None, 0, None, None);
    var dir := Row(Some(1), "a", "a", Directory, 0, 0, None, Remote, None, None, 0, Some("D"), None);
    var file := Row(Some(2), "b", "a/b", File, 4, 0, None, Remote, None, None, 0, Some("F"), None);
    s := Mount(Db(map[1 := root, 2 := dir, 3 := file], 4, 0), 0);
    log := [Deleted("a", Some("D")), Deleted("a/b", Some("F"))];
    ThreeRowsValid(s.d.rows, root, dir, file);
    assert log[s.token..] == log;
    forall rules: Rules ensures Next(s, Fetch(rules, log)).token == 0 {
      StaysTrapped(s, Fetch(rules, log), log, 0, 2, 3);
    }
  }
}
