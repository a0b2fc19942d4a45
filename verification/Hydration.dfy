/** Hydration: downloading a file on open, with the self-healing prune and the tracker that
    the dashboard reads. One hydration at a time per inode. */
module Hydration {
  import opened Types
  import opened FileIndex
  import opened Statements

  datatype SyncError = NotFound | PermissionDenied | EtagConflict | QuotaExceeded | Network | Transient
                     | TokenExpired | NotSupported | Fatal | Io | Other
  {
    predicate IsRetryable() { Network? || Transient? || QuotaExceeded? }
  }

  datatype Outcome = Done | Error(e: SyncError)

  /** Answer of the confirming stat. */
  datatype Stat = Present(itemId: Option<string>) | Absent | Unanswered

  /** How one call turns out, step by step: where the file goes and how large it is, whether
      the path is safe, and whether the download, the move into place, the statement that
      records it, the confirming stat, the deletion and the roll-back work. */
  datatype Attempt = Attempt(inode: Inode, now: int, cachePath: string, bytes: nat, safePath: bool,
                             download: Outcome, placed: bool, recorded: bool, stat: Stat,
                             deleted: bool, reset: bool)

  datatype Active = Active(startedAt: int, firstStarted: int, attempt: nat)

  datatype Tracker = Tracker(inFlight: map<Inode, Active>, firstStarted: map<Inode, int>, attempts: map<Inode, nat>)

  // ------------------------------------------------------------- one call

  /** What the download block answers: the download, then moving the file into place, then
      recording it as cached. */
  function Fetched(a: Attempt): Outcome {
    if a.download.Error? then a.download
    else if !a.placed then Error(Io)
    else if !a.recorded then Error(Fatal)
    else Done
  }

  /** The row was dropped: the download and the confirming stat both say it is gone. */
  predicate Prunes(a: Attempt) {
    Fetched(a) == Error(NotFound) && a.stat.Absent? && a.deleted
  }

  /** The call ends the series of attempts. */
  predicate Terminal(a: Attempt) {
    match Fetched(a)
    case Done => true
    case Error(e) => if e.NotFound? then Prunes(a) else !e.IsRetryable()
  }

  /** A row that still has children cannot be deleted. */
  function Effective(rows: Rows, a: Attempt): Attempt {
    a.(deleted := a.deleted && !HasChildren(rows, a.inode))
  }

  function SetStatus(rows: Rows, i: Inode, status: SyncStatus): Rows {
    if i in rows then rows[i := rows[i].(status := status)] else rows
  }

  /** Records the downloaded file; etag, time and remote size stay as the index had them. */
  function Recorded(rows: Rows, a: Attempt): Rows
    requires a.inode in rows
  {
    var row := rows[a.inode];
    SetCached(rows, a.inode, a.cachePath, a.bytes, row.etag, row.mtime, row.size, a.now)
  }

  /** `set_item_id_if_absent`: an unknown id is filled in, a known one stays, and an id that
      another row holds is refused. */
  function Backfill(rows: Rows, i: Inode, id: Option<string>): Rows
    requires i in rows
  {
    if id.Some? && rows[i].itemId.None? && Admissible(rows, i, rows[i].(itemId := id))
    then rows[i := rows[i].(itemId := id)] else rows
  }

  /** The self-healing step after a failed download: stat the path when the download said it
      is not there, and drop the row when that is confirmed. */
  function Healed(rows: Rows, a: Attempt): Rows
    requires a.inode in rows
  {
    if Fetched(a) != Error(NotFound) then rows
    else if a.stat.Absent? && a.deleted then rows - {a.inode}
    else if a.stat.Present? then Backfill(rows, a.inode, a.stat.itemId)
    else rows
  }

  /** Puts the row back to remote after a failure, unless it was dropped. */
  function RolledBack(rows: Rows, a: Attempt): Rows {
    if a.reset then SetStatus(rows, a.inode, Remote) else rows
  }

  function RowAfter(rows: Rows, a: Attempt): Rows
    requires a.inode in rows
  {
    if Fetched(a).Done? then Recorded(rows, a)
    else RolledBack(Healed(rows, a), a)
  }

  function TrackerAfter(t: Tracker, a: Attempt): Tracker {
    var i := a.inode;
    var first := if i in t.firstStarted then t.firstStarted[i] else a.now;
    var n := (if i in t.attempts then t.attempts[i] else 0) + 1;
    Tracker(t.inFlight - {i},
            if Terminal(a) then t.firstStarted - {i} else t.firstStarted[i := first],
            if Terminal(a) then t.attempts - {i} else t.attempts[i := n])
  }

  /** Rows, tracker, and the calls that started a download, oldest first. */
  datatype System = System(rows: Rows, tracker: Tracker, log: seq<Attempt>)

  predicate Hydrates(s: SyncStatus) { s.Remote? || s.Stale? || s.Hydrating? }

  /** `hydrate_if_needed` followed by `do_hydrate`. A row that is stuck in Hydrating is
      hydrated after the wait for it has timed out. An unsafe path ends the call before
      anything is tracked, with the row left in Hydrating. */
  function Open(s: System, a: Attempt): (r: (System, Outcome)) {
    if a.inode !in s.rows then (s, Error(NotFound))
    else if !Hydrates(s.rows[a.inode].status) then (s, Done)
    else
      var rows := SetStatus(s.rows, a.inode, Hydrating);
      if !a.safePath then (s.(rows := rows), Error(Fatal))
      else
        var b := Effective(rows, a);
        (System(RowAfter(rows, b), TrackerAfter(s.tracker, b), s.log + [b]), Fetched(b))
  }

  /** The call finds its row in need of hydration. */
  predicate Touches(s: System, a: Attempt) {
    a.inode in s.rows && s.rows[a.inode].status in {Remote, Stale, Hydrating}
  }

  /** And it gets as far as a download. */
  predicate Starts(s: System, a: Attempt) { Touches(s, a) && a.safePath }

  /** The download and the confirming stat of `a` both said that the path is gone, and the row
      was deleted. */
  predicate ConfirmedGone(a: Attempt) { a.download == Error(NotFound) && a.stat == Absent && a.deleted }

  /** The status that a call leaves behind in a row that it touched and did not delete. */
  function Verdict(a: Attempt): SyncStatus {
    if !a.safePath then Hydrating
    else if Fetched(a).Done? then Cached
    else if a.reset then Remote
    else Hydrating
  }

  /** What a call does to its row, and that it touches no other row. */
  lemma RowOutcome(s: System, a: Attempt)
    requires Touches(s, a)
    ensures
      var s', b := Open(s, a).0, Effective(s.rows, a);
      && (a.inode !in s'.rows <==> a.safePath && ConfirmedGone(b))
      && (a.inode in s'.rows ==> s'.rows[a.inode].status == Verdict(b))
      && (forall i :: i != a.inode ==> (i in s'.rows <==> i in s.rows) && (i in s.rows ==> s'.rows[i] == s.rows[i]))
  {
    SameChildren(s.rows, a.inode, Hydrating);
    var rows := SetStatus(s.rows, a.inode, Hydrating);
    if a.safePath { StartOutcome(rows, Effective(rows, a)); }
  }

  lemma StartOutcome(rows: Rows, b: Attempt)
    requires b.inode in rows && rows[b.inode].status == Hydrating && b.safePath
    ensures
      var after := RowAfter(rows, b);
      && (b.inode !in after <==> ConfirmedGone(b))
      && (b.inode in after ==> after[b.inode].status == Verdict(b))
      && (forall i :: i != b.inode ==> (i in after <==> i in rows) && (i in rows ==> after[i] == rows[i]))
  {
  }

  lemma SameChildren(rows: Rows, i: Inode, status: SyncStatus)
    ensures HasChildren(SetStatus(rows, i, status), i) == HasChildren(rows, i)
  {
    var after := SetStatus(rows, i, status);
    forall j | j in rows ensures j in after && after[j].parent == rows[j].parent {}
  }

  // ------------------------------------------------------------- one call, by status

  /** The rows but for `i`. */
  ghost predicate OthersKept(before: Rows, after: Rows, i: Inode) {
    after.Keys == before.Keys && forall j :: j in before && j != i ==> after[j] == before[j]
  }

  /** Rows with a usable cache file, or a conflict row, are answered at once; a missing row is an
      error; an unsafe path ends the call with the row in Hydrating. */
  lemma OpenWithoutDownload(s: System, a: Attempt)
    ensures a.inode !in s.rows ==> Open(s, a) == (s, Error(NotFound))
    ensures a.inode in s.rows && s.rows[a.inode].status in {Cached, Dirty, Uploading, Conflict} ==>
      Open(s, a) == (s, Done)
    ensures a.inode in s.rows && s.rows[a.inode].status in {Remote, Stale, Hydrating} && !a.safePath ==>
      Open(s, a) == (s.(rows := s.rows[a.inode := s.rows[a.inode].(status := Hydrating)]), Error(Fatal))
  {
  }

  /** A download that works leaves the row cached with the new file; what the index knew of the
      remote side stays, and so do all other rows. */
  lemma OpenDownloads(s: System, a: Attempt)
    requires Starts(s, a) && a.download == Done && a.placed && a.recorded
    ensures
      var (s', r) := Open(s, a);
      && r == Done && OthersKept(s.rows, s'.rows, a.inode)
      && var was, now := s.rows[a.inode], s'.rows[a.inode];
      && SameFile(was, now) && now.status == Cached
      && now.cachePath == Some(a.cachePath) && now.cacheSize == Some(a.bytes)
      && now.etag == was.etag && now.size == was.size && now.mtime == was.mtime
      && now.lru == Some(Lru(a.now, was.lru.Some? && was.lru.value.pinned))
  {
  }

  /** The error of a call whose download, move or statement fails. */
  function Failure(a: Attempt): SyncError {
    if a.download.Error? then a.download.e else if !a.placed then Io else Fatal
  }

  /** The row is dropped: download and stat both say that the path is gone, and nothing is below
      it that would keep the schema from deleting it. */
  predicate Dropped(s: System, a: Attempt) {
    a.download == Error(NotFound) && a.stat == Absent && a.deleted && !HasChildren(s.rows, a.inode)
  }

  /** A download that fails drops the row or puts it back to remote, with its cache columns and its
      identity; an unknown item id is filled in when the path is there after all and no other row
      has that id. */
  lemma OpenFails(s: System, a: Attempt)
    requires Valid(s.rows) && Starts(s, a) && !(a.download == Done && a.placed && a.recorded)
    ensures
      var (s', r) := Open(s, a);
      && r == Error(Failure(a))
      && s'.rows == if Dropped(s, a) then s.rows - {a.inode}
                    else s.rows[a.inode := s.rows[a.inode].(status := if a.reset then Remote else Hydrating,
                                                            itemId := IdAfter(s, a))]
  {
    SameChildren(s.rows, a.inode, Hydrating);
    var rows := SetStatus(s.rows, a.inode, Hydrating);
    FailedRow(s.rows, rows, Effective(rows, a), FillsIn(s, a)) by {
      if a.stat.Present? { BackfillSpelled(s.rows, rows, a.inode, a.stat.itemId); }
    }
  }

  /** The item id that a failed call leaves. */
  function IdAfter(s: System, a: Attempt): Option<string>
    requires a.inode in s.rows
  {
    if FillsIn(s, a) then a.stat.itemId else s.rows[a.inode].itemId
  }

  lemma FailedRow(before: Rows, rows: Rows, b: Attempt, fills: bool)
    requires b.inode in before && rows == before[b.inode := before[b.inode].(status := Hydrating)]
    requires Fetched(b).Error?
    requires Fetched(b) == Error(NotFound) && b.stat.Present? ==>
      Backfill(rows, b.inode, b.stat.itemId)
      == if fills then rows[b.inode := rows[b.inode].(itemId := b.stat.itemId)] else rows
    requires fills ==> Fetched(b) == Error(NotFound) && b.stat.Present?
    ensures RowAfter(rows, b) ==
      if Fetched(b) == Error(NotFound) && b.stat.Absent? && b.deleted then before - {b.inode}
      else before[b.inode := before[b.inode].(status := if b.reset then Remote else Hydrating,
                                              itemId := if fills then b.stat.itemId else before[b.inode].itemId)]
  {
  }

  predicate FillsIn(s: System, a: Attempt)
    requires a.inode in s.rows
  {
    && a.download == Error(NotFound) && a.stat.Present? && a.stat.itemId.Some? && s.rows[a.inode].itemId == None
    && forall j :: j in s.rows ==> s.rows[j].itemId != a.stat.itemId
  }

  lemma BackfillSpelled(before: Rows, rows: Rows, i: Inode, id: Option<string>)
    requires Valid(before) && i in before && rows == before[i := before[i].(status := Hydrating)]
    ensures Backfill(rows, i, id) ==
      if id.Some? && before[i].itemId == None && (forall j :: j in before ==> before[j].itemId != id)
      then rows[i := rows[i].(itemId := id)] else rows
  {
    assert Admissible(before, i, before[i]);
    var row := rows[i].(itemId := id);
    forall j | j in before && j != i
      ensures id.Some? && before[i].itemId == None ==> (Clashes(row, rows[j]) <==> before[j].itemId == id)
    {
      assert !Clashes(before[i], before[j]);
    }
  }

  /** What the dashboard is told: every download is logged and nothing is left in flight; the
      series goes on, with one more attempt and its first time, only after an error that a retry may
      cure, or a missing path whose row is still there. */
  lemma DownloadTracked(s: System, a: Attempt)
    requires Starts(s, a)
    ensures
      var s', i := Open(s, a).0, a.inode;
      var t, t' := s.tracker, s'.tracker;
      && s'.log == s.log + [a.(deleted := a.deleted && !HasChildren(s.rows, i))]
      && i !in t'.inFlight
      && (forall j :: j != i ==>
            && (j in t'.attempts <==> j in t.attempts) && (j in t.attempts ==> t'.attempts[j] == t.attempts[j]))
      && if !(a.download == Done && a.placed && a.recorded)
            && Failure(a) in {Network, Transient, QuotaExceeded, NotFound} && !Dropped(s, a)
         then
           && i in t'.attempts && t'.attempts[i] == (if i in t.attempts then t.attempts[i] else 0) + 1
           && i in t'.firstStarted
           && t'.firstStarted[i] == (if i in t.firstStarted then t.firstStarted[i] else a.now)
         else i !in t'.attempts && i !in t'.firstStarted
  {
    SameChildren(s.rows, a.inode, Hydrating);
  }

  // ----------------------------------------------------------------- runs

  function Run(s: System, calls: seq<Attempt>): System {
    if calls == [] then s else Open(Run(s, calls[..|calls| - 1]), calls[|calls| - 1]).0
  }

  /** Started calls for `i` since the last one that ended its series. */
  function Since(log: seq<Attempt>, i: Inode): seq<Attempt> {
    if log == [] then []
    else
      var last := log[|log| - 1];
      if last.inode != i then Since(log[..|log| - 1], i)
      else if Terminal(last) then [] else Since(log[..|log| - 1], i) + [last]
  }

  /** The tracker tells the truth about the log. */
  ghost predicate Truthful(t: Tracker, log: seq<Attempt>) {
    && t.inFlight == map[]
    && t.firstStarted.Keys == t.attempts.Keys
    && (forall i :: i in t.attempts <==> Since(log, i) != [])
    && (forall i :: i in t.attempts ==>
          t.attempts[i] == |Since(log, i)| && t.firstStarted[i] == Since(log, i)[0].now)
  }

  ghost predicate Faithful(s: System) { Truthful(s.tracker, s.log) }

  lemma SinceAppend(log: seq<Attempt>, b: Attempt, i: Inode)
    ensures Since(log + [b], i) == if i != b.inode then Since(log, i)
                                   else if Terminal(b) then [] else Since(log, i) + [b]
  {
    assert (log + [b])[..|log|] == log;
  }

  lemma StartTruthful(t: Tracker, log: seq<Attempt>, b: Attempt)
    requires Truthful(t, log)
    ensures Truthful(TrackerAfter(t, b), log + [b])
  {
    forall i ensures Since(log + [b], i) == if i != b.inode then Since(log, i)
                                           else if Terminal(b) then [] else Since(log, i) + [b]
    {
      SinceAppend(log, b, i);
    }
  }

  /** What a call does to the tracker and to the log. */
  lemma OpenTracks(s: System, a: Attempt)
    ensures
      var s', b := Open(s, a).0, Effective(SetStatus(s.rows, a.inode, Hydrating), a);
      if Starts(s, a) then s'.tracker == TrackerAfter(s.tracker, b) && s'.log == s.log + [b]
      else s'.tracker == s.tracker && s'.log == s.log
  {
  }

  lemma OpenFaithful(s: System, a: Attempt)
    requires Faithful(s)
    ensures Faithful(Open(s, a).0)
  {
    OpenTracks(s, a);
    StartTruthful(s.tracker, s.log, Effective(SetStatus(s.rows, a.inode, Hydrating), a));
  }

  /** Between calls nothing is in flight, `first_started` and `attempts` have the same keys,
      and they hold exactly the number of calls, and the time of the first call, since the
      last call for that file that ended its series. */
  lemma {:induction false} TrackerFaithful(s: System, calls: seq<Attempt>)
    requires Faithful(s)
    ensures Faithful(Run(s, calls))
  {
    if calls != [] {
      TrackerFaithful(s, calls[..|calls| - 1]);
      OpenFaithful(Run(s, calls[..|calls| - 1]), calls[|calls| - 1]);
    }
  }

  /** The calls of a run that touched a row, oldest first, with the effect of the schema on
      their deletions. */
  function Touching(s: System, calls: seq<Attempt>): seq<Attempt> {
    if calls == [] then []
    else
      var before, last := Run(s, calls[..|calls| - 1]), calls[|calls| - 1];
      Touching(s, calls[..|calls| - 1]) + if Touches(before, last) then [Effective(before.rows, last)] else []
  }

  /** Over every run: a row disappears if and only if one of the calls that touched it had a
      safe path, and both its download and its confirming stat said that the path is gone; and
      no call brings a row back. */
  lemma {:induction false} PrunedOnlyWhenConfirmed(s: System, calls: seq<Attempt>, i: Inode)
    ensures i !in Run(s, calls).rows <==>
              i !in s.rows || exists a :: a in Touching(s, calls) && a.inode == i && a.safePath && ConfirmedGone(a)
  {
    if calls != [] {
      var front := calls[..|calls| - 1];
      var before, a := Run(s, front), calls[|calls| - 1];
      PrunedOnlyWhenConfirmed(s, front, i);
      if Touches(before, a) {
        RowOutcome(before, a);
        assert Touching(s, calls) == Touching(s, front) + [Effective(before.rows, a)];
      } else {
        assert Touching(s, calls) == Touching(s, front);
      }
    }
  }

  function For(log: seq<Attempt>, i: Inode): seq<Attempt> {
    if log == [] then []
    else For(log[..|log| - 1], i) + if log[|log| - 1].inode == i then [log[|log| - 1]] else []
  }

  lemma ForAppend(log: seq<Attempt>, a: Attempt, i: Inode)
    ensures For(log + [a], i) == For(log, i) + if a.inode == i then [a] else []
  {
    assert (log + [a])[..|log|] == log;
  }

  /** The status of a row after the calls `mine` that touched it. */
  function StatusAfter(status: SyncStatus, mine: seq<Attempt>): SyncStatus {
    if mine == [] then status else Verdict(mine[|mine| - 1])
  }

  lemma OpenNeverAdds(s: System, a: Attempt, i: Inode)
    requires i in Open(s, a).0.rows
    ensures i in s.rows
  {
    if Touches(s, a) { RowOutcome(s, a); }
  }

  lemma StatusStep(start: SyncStatus, before: System, a: Attempt, mine: seq<Attempt>, i: Inode)
    requires Touches(before, a) && i in before.rows && before.rows[i].status == StatusAfter(start, mine)
    requires i in Open(before, a).0.rows
    ensures Open(before, a).0.rows[i].status
         == StatusAfter(start, mine + if a.inode == i then [Effective(before.rows, a)] else [])
  {
    RowOutcome(before, a);
    assert mine + [] == mine;
  }

  /** Over every run, whatever fails: a row that is still there has the status that the last
      call which touched it left behind, or the one it started with if there was none. */
  lemma {:induction false} StatusTellsLastCall(s: System, calls: seq<Attempt>, i: Inode)
    requires i in Run(s, calls).rows
    ensures i in s.rows
    ensures Run(s, calls).rows[i].status == StatusAfter(s.rows[i].status, For(Touching(s, calls), i))
  {
    if calls != [] {
      var front := calls[..|calls| - 1];
      var before, a := Run(s, front), calls[|calls| - 1];
      OpenNeverAdds(before, a, i);
      StatusTellsLastCall(s, front, i);
      if Touches(before, a) {
        ForAppend(Touching(s, front), Effective(before.rows, a), i);
        assert Touching(s, calls) == Touching(s, front) + [Effective(before.rows, a)];
        StatusStep(s.rows[i].status, before, a, For(Touching(s, front), i), i);
      } else {
        assert Touching(s, calls) == Touching(s, front);
      }
    }
  }

  /** A row ends a run in Hydrating if and only if the last call that touched it had an unsafe
      path, or failed with its roll-back failing too; or if no call touched it and it started
      there. */
  lemma StuckInHydrating(s: System, calls: seq<Attempt>, i: Inode)
    requires i in Run(s, calls).rows
    ensures i in s.rows
    ensures
      var mine := For(Touching(s, calls), i);
      Run(s, calls).rows[i].status == Hydrating <==>
        if mine == [] then s.rows[i].status == Hydrating
        else
          var last := mine[|mine| - 1];
          !last.safePath || (Fetched(last).Error? && !last.reset)
  {
    StatusTellsLastCall(s, calls, i);
  }

  /** The smallest case: file "a/b", whose path is unsafe because the cache directory of "a" is a
      symbolic link that leads out of the cache. No call is tracked, and the row stays in
      Hydrating however often the file is opened again. */
  lemma UnsafePathSticks(a: Attempt, calls: seq<Attempt>) returns (s: System)
    requires !a.safePath && a.inode == 3 && calls != [] && forall k :: 0 <= k < |calls| ==> calls[k] == a
    ensures Valid(s.rows) && 3 in s.rows && s.rows[3].path == "a/b" && s.rows[3].status == Remote && Faithful(s)
    ensures 3 in Run(s, calls).rows && Run(s, calls).rows[3].status == Hydrating
    ensures Run(s, calls).log == [] && Run(s, calls).tracker == s.tracker
  {
    var root := Row(None, "/", "/", Directory, 0, 0, None, Remote, None, None, 0, None, None);
    var dir := Row(Some(1), "a", "a", Directory, 0, 0, None, Remote, None, None, 0, None, None);
    var file := Row(Some(2), "b", "a/b", File, 4, 0, None, Remote, None, None, 0, None, None);
    s := System(map[1 := root, 2 := dir, 3 := file], Tracker(map[], map[], map[]), []);
    ThreeRowsValid(s.rows, root, dir, file);
    UnsafeCalls(s, a, calls);
  }

  lemma {:induction false} UnsafeCalls(s: System, a: Attempt, calls: seq<Attempt>)
    requires !a.safePath && Touches(s, a) && calls != [] && forall k :: 0 <= k < |calls| ==> calls[k] == a
    ensures
      var s' := Run(s, calls);
      && a.inode in s'.rows && s'.rows[a.inode].status == Hydrating
      && s'.log == s.log && s'.tracker == s.tracker
    decreases |calls|
  {
    var front := calls[..|calls| - 1];
    assert calls[|calls| - 1] == a;
    assert Run(s, []) == s;
    if front != [] { UnsafeCalls(s, a, front); }
  }

  // -------------------------------------------------------------- the schema over runs

  lemma BackfillValid(rows: Rows, i: Inode, id: Option<string>)
    requires Valid(rows) && i in rows
    ensures Valid(Backfill(rows, i, id))
  {
    if id.Some? && rows[i].itemId.None? && Admissible(rows, i, rows[i].(itemId := id)) {
      PutKeepsValid(rows, i, rows[i].(itemId := id));
    }
  }

  lemma StatusValid(rows: Rows, i: Inode, status: SyncStatus)
    requires Valid(rows) && (status.Remote? || status.Hydrating?)
    ensures Valid(SetStatus(rows, i, status))
  {
    if i in rows { SameKeysValid(rows, i, rows[i].(status := status)); }
  }

  lemma RowAfterValid(rows: Rows, a: Attempt)
    requires Valid(rows) && a.inode in rows && (a.deleted ==> !HasChildren(rows, a.inode))
    ensures Valid(RowAfter(rows, a))
  {
    if Fetched(a).Done? {
      var row := rows[a.inode];
      SetCachedKeepsValid(rows, a.inode, a.cachePath, a.bytes, row.etag, row.mtime, row.size, a.now);
    } else {
      if a.deleted { DeleteKeepsValid(rows, a.inode); }
      if a.stat.Present? { BackfillValid(rows, a.inode, a.stat.itemId); }
      StatusValid(Healed(rows, a), a.inode, Remote);
    }
  }

  /** Columns that identify a row never change; an unknown item id may be filled in. */
  predicate SameIdentity(a: Row, b: Row) {
    a.parent == b.parent && a.name == b.name && a.path == b.path && (a.itemId.Some? ==> b.itemId == a.itemId)
  }

  lemma OpenKeepsIdentity(s: System, a: Attempt)
    requires Valid(s.rows)
    ensures Valid(Open(s, a).0.rows)
    ensures forall i :: i in Open(s, a).0.rows ==> i in s.rows && SameIdentity(s.rows[i], Open(s, a).0.rows[i])
  {
    if Touches(s, a) {
      StatusValid(s.rows, a.inode, Hydrating);
      var rows := SetStatus(s.rows, a.inode, Hydrating);
      RowAfterValid(rows, Effective(rows, a));
    }
  }

  /** Over every run hydration keeps all schema constraints, unique item ids included; it leaves
      parent, name and path of every row alone and never replaces a known item id. */
  lemma {:induction false} ItemIdSticks(s: System, calls: seq<Attempt>)
    requires Valid(s.rows)
    ensures Valid(Run(s, calls).rows)
    ensures forall i :: i in Run(s, calls).rows ==> i in s.rows && SameIdentity(s.rows[i], Run(s, calls).rows[i])
  {
    if calls != [] {
      ItemIdSticks(s, calls[..|calls| - 1]);
      OpenKeepsIdentity(Run(s, calls[..|calls| - 1]), calls[|calls| - 1]);
    }
  }

  // ------------------------------------------------------------ the object

  lemma ReregisteredGone<T>(m: map<Inode, T>, i: Inode, v: T)
    ensures m[i := v] - {i} == m - {i}
  {
  }

  class Hydrator {
    var rows: Rows
    var inFlight: map<Inode, Active>
    var firstStarted: map<Inode, int>
    var attempts: map<Inode, nat>
    /** Senders waiting for the hydration of an inode. */
    var waiters: map<Inode, nat>
    ghost var log: seq<Attempt>

    ghost function State(): System
      reads this
    {
      System(rows, Tracker(inFlight, firstStarted, attempts), log)
    }

    constructor (rows: Rows)
      ensures this.rows == rows && log == [] && Faithful(State())
    {
      this.rows, log := rows, [];
      inFlight, firstStarted, attempts, waiters := map[], map[], map[], map[];
    }

    /** `hydrate_if_needed`. */
    method HydrateIfNeeded(a: Attempt) returns (r: Outcome)
      modifies this
      ensures (State(), r) == Open(old(State()), a)
      // by status: served at once, or downloaded
      ensures a.inode in old(rows) && old(rows)[a.inode].status in {Cached, Dirty, Uploading, Conflict} ==>
        r == Done && State() == old(State())
      ensures Starts(old(State()), a) && a.download == Done && a.placed && a.recorded ==>
        && r == Done && a.inode in rows && rows[a.inode].status == Cached
        && rows[a.inode].cachePath == Some(a.cachePath) && rows[a.inode].cacheSize == Some(a.bytes)
      ensures Starts(old(State()), a) ==> a.inode !in waiters
      ensures forall i :: i != a.inode ==> (i in waiters <==> i in old(waiters))
    {
      OpenWithoutDownload(State(), a);
      if Starts(State(), a) && a.download == Done && a.placed && a.recorded { OpenDownloads(State(), a); }
      if a.inode !in rows { return Error(NotFound); }
      if !Hydrates(rows[a.inode].status) { return Done; }
      rows := SetStatus(rows, a.inode, Hydrating);
      if !a.safePath { return Error(Fatal); }
      r := DoHydrate(Effective(rows, a));
    }

    /** `do_hydrate` past the path check. */
    method DoHydrate(a: Attempt) returns (r: Outcome)
      requires a.inode in rows
      modifies this
      ensures rows == RowAfter(old(rows), a) && r == Fetched(a) && log == old(log) + [a]
      ensures Tracker(inFlight, firstStarted, attempts) == TrackerAfter(old(State()).tracker, a)
      ensures waiters == old(waiters) - {a.inode}
    {
      log := log + [a];
      Register(a);
      var pruned;
      r, pruned := FetchOrHeal(a);
      LeaveTracker(a.inode, r, pruned);
      ReregisteredGone(old(inFlight), a.inode, Active(a.now, old(FirstStart(a)), old(Count(a.inode)) + 1));
      ReregisteredGone(old(firstStarted), a.inode, old(FirstStart(a)));
      ReregisteredGone(old(attempts), a.inode, old(Count(a.inode)) + 1);
      waiters := waiters - {a.inode};
    }

    function FirstStart(a: Attempt): int
      reads this
    {
      if a.inode in firstStarted then firstStarted[a.inode] else a.now
    }

    function Count(i: Inode): nat
      reads this
    {
      if i in attempts then attempts[i] else 0
    }

    /** The download and, when it failed, the clean-up of the row. */
    method FetchOrHeal(a: Attempt) returns (r: Outcome, pruned: bool)
      requires a.inode in rows
      modifies this`rows
      ensures r == Fetched(a) && pruned == Prunes(a) && rows == RowAfter(old(rows), a)
    {
      pruned := false;
      r := Fetch(a);
      if r.Error? {
        if r == Error(NotFound) { pruned := SelfHeal(a); }
        if !pruned && a.reset { rows := SetStatus(rows, a.inode, Remote); }
      }
    }

    method Register(a: Attempt)
      modifies this`firstStarted, this`attempts, this`inFlight
      ensures firstStarted == old(firstStarted)[a.inode := old(FirstStart(a))]
      ensures attempts == old(attempts)[a.inode := old(Count(a.inode)) + 1]
      ensures inFlight == old(inFlight)[a.inode := Active(a.now, old(FirstStart(a)), old(Count(a.inode)) + 1)]
    {
      if a.inode !in firstStarted { firstStarted := firstStarted[a.inode := a.now]; }
      attempts := attempts[a.inode := Count(a.inode) + 1];
      inFlight := inFlight[a.inode := Active(a.now, firstStarted[a.inode], attempts[a.inode])];
    }

    /** Downloads, moves the file into place and records it as cached. */
    method Fetch(a: Attempt) returns (r: Outcome)
      requires a.inode in rows
      modifies this`rows
      ensures r == Fetched(a)
      ensures rows == if r.Done? then Recorded(old(rows), a) else old(rows)
    {
      if a.download.Error? { return a.download; }
      if !a.placed { return Error(Io); }
      if !a.recorded { return Error(Fatal); }
      rows := Recorded(rows, a);
      return Done;
    }

    /** Confirms a missing path before dropping its row; fills in an unknown item id when the
        path is there after all. */
    method SelfHeal(a: Attempt) returns (pruned: bool)
      requires a.inode in rows && Fetched(a) == Error(NotFound)
      modifies this`rows
      ensures pruned == Prunes(a) && rows == Healed(old(rows), a)
    {
      pruned := false;
      if a.stat.Absent? && a.deleted {
        rows := rows - {a.inode};
        pruned := true;
      } else if a.stat.Present? {
        rows := Backfill(rows, a.inode, a.stat.itemId);
      }
    }

    method LeaveTracker(i: Inode, r: Outcome, pruned: bool)
      modifies this`firstStarted, this`attempts, this`inFlight
      ensures inFlight == old(inFlight) - {i}
      ensures var terminal := r.Done? || (if r.e.NotFound? then pruned else !r.e.IsRetryable());
              && firstStarted == (if terminal then old(firstStarted) - {i} else old(firstStarted))
              && attempts == (if terminal then old(attempts) - {i} else old(attempts))
    {
      inFlight := inFlight - {i};
      if r.Done? || (if r.e.NotFound? then pruned else !r.e.IsRetryable()) {
        firstStarted, attempts := firstStarted - {i}, attempts - {i};
      }
    }
  }
}
