/** One full-listing poll as a function of the database and of what the poll meets: the
    listing, the filters in force, the order in which the stale-row query scans, and how
    many statements complete before the poll is cut short. */
module PollSpec {
  import opened Types
  import opened Sequences
  import opened Text
  import opened Ordering
  import opened FileIndex
  import opened Statements

  const MAX_POLL_ENTRIES: nat := 500_000

  /** Tombstoned paths and the compiled ignore patterns. */
  datatype Rules = Rules(tombstones: seq<string>, ignore: string -> bool)

  /** `listing` is None when the remote listing failed. `cut` bounds the number of
      statements that complete; `torn` says that a poll cut between two upserts dies after
      the collision delete of the second one. */
  datatype PollInput = PollInput(listing: Option<seq<Meta>>, rules: Rules, scan: Inode -> int,
                                 cut: nat, torn: bool)

  // ------------------------------------------------------------- filters

  predicate ContainsDotDot(s: string) {
    exists k :: 0 <= k < |s| - 1 && s[k] == '.' && s[k + 1] == '.'
  }

  predicate Unsafe(m: Meta) {
    ContainsDotDot(m.path) || '\0' in m.path || '/' in m.name
  }

  predicate Tombstoned(tombstones: seq<string>, path: string) {
    exists t :: t in tombstones && (path == t || StartsWith(path, t + "/"))
  }

  /** The entry counts as present on the remote. */
  predicate Considered(rules: Rules, m: Meta) {
    !Unsafe(m) && !StartsWith(m.path, CONFLICT_PREFIX) && !Tombstoned(rules.tombstones, m.path)
  }

  /** The entry may be indexed. */
  predicate Accepted(rules: Rules, m: Meta) {
    Considered(rules, m) && !rules.ignore(m.path)
  }

  // ---------------------------------------------------------------- diff

  ghost predicate SameContent(rows: Rows, m: Meta) {
    var i := At(rows, m.path);
    i.Some? && rows[i.value].etag == m.etag && rows[i.value].size == m.size
  }

  ghost predicate NeedsUpsert(rows: Rows, rules: Rules, m: Meta) {
    Accepted(rules, m) && !SameContent(rows, m)
  }

  ghost predicate NeedsMark(rows: Rows, rules: Rules, m: Meta) {
    && Considered(rules, m) && At(rows, m.path).Some?
    && (rules.ignore(m.path) || SameContent(rows, m))
  }

  ghost function ToUpsert(rows: Rows, rules: Rules, listing: seq<Meta>): seq<Meta> {
    if listing == [] then []
    else
      var m := listing[|listing| - 1];
      ToUpsert(rows, rules, listing[..|listing| - 1]) + (if NeedsUpsert(rows, rules, m) then [m] else [])
  }

  ghost function ToMark(rows: Rows, rules: Rules, listing: seq<Meta>): seq<Inode> {
    if listing == [] then []
    else
      var m := listing[|listing| - 1];
      ToMark(rows, rules, listing[..|listing| - 1])
      + (if NeedsMark(rows, rules, m) then [At(rows, m.path).value] else [])
  }

  // ---------------------------------------------------------------- sort

  /** Insert after every entry whose path is not longer: a stable sort by path length. */
  function InsertByLength(s: seq<Meta>, m: Meta): seq<Meta> {
    if s == [] || |s[|s| - 1].path| <= |m.path| then s + [m]
    else InsertByLength(s[..|s| - 1], m) + [s[|s| - 1]]
  }

  function SortByLength(s: seq<Meta>): seq<Meta> {
    if s == [] then [] else InsertByLength(SortByLength(s[..|s| - 1]), s[|s| - 1])
  }

  ghost predicate ByLength(s: seq<Meta>) {
    forall a, b :: 0 <= a < b < |s| ==> |s[a].path| <= |s[b].path|
  }

  lemma {:induction false} InsertPermutes(s: seq<Meta>, m: Meta)
    ensures multiset(InsertByLength(s, m)) == multiset(s) + multiset{m}
  {
    if s == [] || |s[|s| - 1].path| <= |m.path| {
    } else {
      assert s == s[..|s| - 1] + [s[|s| - 1]];
      InsertPermutes(s[..|s| - 1], m);
    }
  }

  lemma ByLengthSnoc(s: seq<Meta>, last: Meta)
    requires ByLength(s) && forall x :: x in multiset(s) ==> |x.path| <= |last.path|
    ensures ByLength(s + [last])
  {
    forall a | 0 <= a < |s| ensures |s[a].path| <= |last.path| { assert s[a] in multiset(s); }
  }

  lemma {:induction false} InsertSorts(s: seq<Meta>, m: Meta)
    requires ByLength(s)
    ensures ByLength(InsertByLength(s, m))
  {
    if s == [] || |s[|s| - 1].path| <= |m.path| {
    } else {
      var front, last := s[..|s| - 1], s[|s| - 1];
      InsertSorts(front, m);
      InsertPermutes(front, m);
      ByLengthSnoc(InsertByLength(front, m), last);
    }
  }

  lemma {:induction false} SortByLengthSorts(s: seq<Meta>)
    ensures ByLength(SortByLength(s))
    ensures multiset(SortByLength(s)) == multiset(s)
  {
    if s != [] {
      assert s == s[..|s| - 1] + [s[|s| - 1]];
      SortByLengthSorts(s[..|s| - 1]);
      InsertSorts(SortByLength(s[..|s| - 1]), s[|s| - 1]);
      InsertPermutes(SortByLength(s[..|s| - 1]), s[|s| - 1]);
    }
  }

  /** The entries whose paths have length `n`, in the order of `s`. */
  function WithLength(s: seq<Meta>, n: nat): seq<Meta> {
    if s == [] then []
    else WithLength(s[..|s| - 1], n) + (if |s[|s| - 1].path| == n then [s[|s| - 1]] else [])
  }

  lemma WithLengthSnoc(s: seq<Meta>, m: Meta, n: nat)
    ensures WithLength(s + [m], n) == WithLength(s, n) + (if |m.path| == n then [m] else [])
  {
    assert (s + [m])[..|s|] == s;
  }

  lemma {:induction false} InsertStable(s: seq<Meta>, m: Meta, n: nat)
    ensures WithLength(InsertByLength(s, m), n) == WithLength(s, n) + (if |m.path| == n then [m] else [])
  {
    if s == [] || |s[|s| - 1].path| <= |m.path| {
      WithLengthSnoc(s, m, n);
    } else {
      var front, last := s[..|s| - 1], s[|s| - 1];
      InsertStable(front, m, n);
      WithLengthSnoc(InsertByLength(front, m), last, n);
      assert WithLength(s, n) == WithLength(front, n) + (if |last.path| == n then [last] else []);
      assert |last.path| > |m.path|;
    }
  }

  /** The sort is stable: entries whose paths are equally long keep their order. */
  lemma {:induction false} SortByLengthStable(s: seq<Meta>, n: nat)
    ensures WithLength(SortByLength(s), n) == WithLength(s, n)
  {
    if s != [] {
      SortByLengthStable(s[..|s| - 1], n);
      InsertStable(SortByLength(s[..|s| - 1]), s[|s| - 1], n);
    }
  }

  /** What the poll upserts, in the order in which it does so. */
  ghost function Plan(rows: Rows, rules: Rules, listing: seq<Meta>): seq<Meta> {
    SortByLength(ToUpsert(rows, rules, listing))
  }

  // --------------------------------------------------------------- apply

  function ParentInode(index: map<string, Inode>, path: string): Inode {
    var k := LastIndexOf(path, '/');
    if k >= 0 && path[..k] in index then index[path[..k]] else ROOT_INODE
  }

  /** Path to inode, for every indexed path. */
  function PathIndex(rows: Rows): map<string, Inode>
    requires Valid(rows)
  {
    assert forall i, j :: i in rows && j in rows && rows[i].path == rows[j].path ==> i == j by {
      forall i, j | i in rows && j in rows && rows[i].path == rows[j].path ensures i == j {
        AtUnique(rows, i); AtUnique(rows, j);
      }
    }
    map i | i in rows :: rows[i].path := i
  }

  /** Progress of the upsert loop: the database, the path index it keeps, the inodes
      answered so far, and whether a statement was refused. */
  datatype Run = Run(d: Db, index: map<string, Inode>, inodes: seq<Inode>, ok: bool)

  ghost function UpsertOne(run: Run, m: Meta, generation: nat): Run {
    if !run.ok then run
    else
      var (d', r) := Upsert(run.d, ParentInode(run.index, m.path), m, generation);
      if r.Some? then Run(d', run.index[m.path := r.value], run.inodes + [r.value], true)
      else run.(d := d', ok := false)
  }

  ghost function RunUpserts(d: Db, ups: seq<Meta>, generation: nat): (run: Run)
    requires ValidDb(d)
    ensures ValidDb(run.d)
    ensures run.ok ==> |run.inodes| == |ups|
    decreases |ups|
  {
    if ups == [] then Run(d, PathIndex(d.rows), [], true)
    else
      var run := RunUpserts(d, ups[..|ups| - 1], generation);
      var m := ups[|ups| - 1];
      UpsertKeepsValid(run.d, ParentInode(run.index, m.path), m, generation);
      UpsertOne(run, m, generation)
  }

  /** A run of upserts that went through is the run before it plus one answered upsert. */
  lemma RunGrows(d: Db, ups: seq<Meta>, generation: nat)
    requires ValidDb(d) && ups != [] && RunUpserts(d, ups, generation).ok
    ensures
      var before, after := RunUpserts(d, ups[..|ups| - 1], generation), RunUpserts(d, ups, generation);
      var i := after.inodes[|ups| - 1];
      && before.ok && after.inodes == before.inodes + [i]
      && after.index == before.index[ups[|ups| - 1].path := i]
  {
  }

  /** The effect of an upsert of `m` that dies after its collision delete. */
  ghost function Torn(d: Db, m: Meta): Db {
    var byId := ById(d.rows, m.itemId);
    var holder := At(d.rows, m.path);
    if byId.Some? && d.rows[byId.value].path != m.path && holder.Some? && !HasChildren(d.rows, holder.value)
    then d.(rows := d.rows - {holder.value}) else d
  }

  /** What an upsert leaves that dies after its first statement: the childless row at the target path
      of a rename is gone; in every other case, and for every other row, nothing has happened. */
  lemma TornSpelled(d: Db, m: Meta, i: Inode, h: Inode)
    requires ValidDb(d)
    requires i in d.rows && m.itemId.Some? && d.rows[i].itemId == m.itemId && d.rows[i].path != m.path
    requires h in d.rows && d.rows[h].path == m.path
    ensures Torn(d, m) == (if HasChildren(d.rows, h) then d else d.(rows := d.rows - {h}))
  {
    ByIdUnique(d.rows, i);
    AtUnique(d.rows, h);
  }

  lemma NothingTorn(d: Db, m: Meta)
    requires m.itemId == None || (forall i :: i in d.rows && d.rows[i].itemId == m.itemId ==> d.rows[i].path == m.path)
             || (forall h :: h in d.rows ==> d.rows[h].path != m.path)
    ensures Torn(d, m) == d
  {
  }

  lemma TornKeepsValid(d: Db, m: Meta)
    requires ValidDb(d)
    ensures ValidDb(Torn(d, m))
  {
    if Torn(d, m) != d { DeleteKeepsValid(d.rows, At(d.rows, m.path).value); }
  }

  /** Sweep, then store the generation; `left` statements remain before the cut. */
  ghost function SweepPhase(d: Db, generation: nat, scan: Inode -> int, left: nat): (r: (Db, bool))
    requires ValidDb(d)
    ensures ValidDb(r.0)
  {
    var order := Ranked(StaleRows(d.rows, generation), scan);
    var part := Take(order, left);
    var (swept, ok) := Sweep(d.rows, part);
    SweepKeepsValid(d.rows, part);
    SweepRemoves(d.rows, part);
    if !ok || left <= |order| then (d.(rows := swept), false)
    else (Db(swept, d.next, generation), true)
  }

  ghost function MarkPhase(d: Db, marks: seq<Inode>, generation: nat, scan: Inode -> int, left: nat): (r: (Db, bool))
    requires ValidDb(d)
    ensures ValidDb(r.0)
  {
    var part := Take(marks, left);
    MarkKeepsValid(d.rows, part, generation);
    var marked := d.(rows := Mark(d.rows, part, generation));
    if left < |marks| then (marked, false)
    else SweepPhase(marked, generation, scan, left - |marks|)
  }

  /** The upserts before the cut; `true` when all of them went through. */
  ghost function UpsertPhase(d: Db, ups: seq<Meta>, p: PollInput): (r: (Db, bool))
    requires ValidDb(d)
    ensures ValidDb(r.0) && (r.1 ==> p.cut >= |ups|)
  {
    var run := RunUpserts(d, Take(ups, p.cut), d.generation + 1);
    if run.ok && p.cut < |ups| && p.torn then
      TornKeepsValid(run.d, ups[p.cut]);
      (Torn(run.d, ups[p.cut]), false)
    else (run.d, run.ok && p.cut >= |ups|)
  }

  /** How a poll goes on from `mid` once its upserts are through, or ends there. */
  ghost function Finish(mid: Db, ok: bool, marks: seq<Inode>, generation: nat, scan: Inode -> int,
                        left: nat): (r: (Db, bool))
    requires ValidDb(mid)
    ensures ValidDb(r.0)
  {
    if ok then MarkPhase(mid, marks, generation, scan, left) else (mid, false)
  }

  /** Upserts, marks, sweep, then the stored generation; `true` for a poll that finished. */
  ghost function Apply(d: Db, ups: seq<Meta>, marks: seq<Inode>, p: PollInput): (r: (Db, bool))
    requires ValidDb(d)
    ensures ValidDb(r.0)
  {
    var r := UpsertPhase(d, ups, p);
    Finish(r.0, r.1, marks, d.generation + 1, p.scan, Less(p.cut, |ups|))
  }

  ghost function Poll(d: Db, p: PollInput): (r: (Db, bool))
    requires ValidDb(d)
    ensures ValidDb(r.0)
  {
    if p.listing.None? || |p.listing.value| > MAX_POLL_ENTRIES then (d, false)
    else Apply(d, Plan(d.rows, p.rules, p.listing.value), ToMark(d.rows, p.rules, p.listing.value), p)
  }

  /** Whatever holds after the phases one after the other holds after the poll. */
  lemma PhasesGive(d: Db, ups: seq<Meta>, marks: seq<Inode>, p: PollInput, good: ((Db, bool)) -> bool)
    requires ValidDb(d)
    requires
      var r := UpsertPhase(d, ups, p);
      good(Finish(r.0, r.1, marks, d.generation + 1, p.scan, Less(p.cut, |ups|)))
    ensures good(Apply(d, ups, marks, p))
  {
  }
}
