/** The startup reconciler: a stack walk over the cache directory that removes regular files
    no row knows about, followed by a wipe of left-over partial downloads. */
module OrphanWalk {
  import opened Sequences

  /** Components below the cache directory; [] is the cache directory itself. */
  type Path = seq<string>

  /** What one path names. `Other` is anything that is neither directory nor regular file. */
  datatype Node = Dir | File(size: nat) | Other

  type Disk = map<Path, Node>

  /** Which system calls fail: listing a directory, telling the type of an entry, reading the
      size of a file, removing a file. */
  datatype Faults = Faults(unreadable: set<Path>, blind: set<Path>, unsized: set<Path>, stuck: set<Path>)

  datatype ReconcileStats = ReconcileStats(filesExamined: nat, orphansRemoved: nat, partialsWiped: nat,
                                           bytesFreed: nat, removeErrors: nat)

  const BASES: string := ".bases"
  const META: string := ".meta"
  const PARTIAL: Path := [META, "partial"]

  function Parent(p: Path): Path
    requires p != []
  {
    p[..|p| - 1]
  }

  /** `is_reserved_subdir`. */
  predicate IsReserved(p: Path) { |p| == 1 && (p[0] == BASES || p[0] == META) }

  predicate CanRead(disk: Disk, f: Faults, d: Path) { d in disk && disk[d].Dir? && d !in f.unreadable }

  /** `p` shows up when directory `d` is listed. */
  predicate ListedIn(disk: Disk, f: Faults, d: Path, p: Path) {
    p != [] && p in disk && Parent(p) == d && p !in f.blind
  }

  // -------------------------------------------------------- what the walk should reach

  /** The walk enters `d` and can list it. */
  predicate Entered(disk: Disk, f: Faults, d: Path)
    decreases |d|, 1
  {
    CanRead(disk, f, d) && (d == [] || (Reached(disk, f, d) && !IsReserved(d)))
  }

  /** The walk meets entry `p`. */
  predicate Reached(disk: Disk, f: Faults, p: Path)
    decreases |p|, 0
  {
    p != [] && ListedIn(disk, f, Parent(p), p) && Entered(disk, f, Parent(p))
  }

  function AllReached(disk: Disk, f: Faults): set<Path> { set p | p in disk && Reached(disk, f, p) }

  // ------------------------------------------------------------ effect on a set of entries

  function FilesIn(disk: Disk, seen: set<Path>): set<Path> { set p | p in seen && p in disk && disk[p].File? }

  function Removable(disk: Disk, f: Faults, keep: set<Path>, seen: set<Path>): set<Path> {
    FilesIn(disk, seen) - keep - f.stuck
  }

  function Failing(disk: Disk, f: Faults, keep: set<Path>, seen: set<Path>): set<Path> {
    (FilesIn(disk, seen) - keep) * f.stuck
  }

  /** The size that is credited for removing `p`. */
  function Credit(disk: Disk, f: Faults, p: Path): nat {
    if p in disk && disk[p].File? && p !in f.unsized then disk[p].size else 0
  }

  ghost function Sum(disk: Disk, f: Faults, s: set<Path>): nat
    decreases s
  {
    if s == {} then 0
    else
      var p :| p in s;
      Credit(disk, f, p) + Sum(disk, f, s - {p})
  }

  lemma {:induction false} SumAdd(disk: Disk, f: Faults, s: set<Path>, p: Path)
    requires p !in s
    ensures Sum(disk, f, s + {p}) == Sum(disk, f, s) + Credit(disk, f, p)
    decreases s
  {
    var t := s + {p};
    var q :| q in t && Sum(disk, f, t) == Credit(disk, f, q) + Sum(disk, f, t - {q});
    if q == p {
      assert t - {p} == s;
    } else {
      SumAdd(disk, f, s - {q}, p);
      SumPick(disk, f, s, q);
      assert t - {q} == (s - {q}) + {p};
    }
  }

  /** The sum does not depend on which element is taken first. */
  lemma {:induction false} SumPick(disk: Disk, f: Faults, s: set<Path>, q: Path)
    requires q in s
    ensures Sum(disk, f, s) == Credit(disk, f, q) + Sum(disk, f, s - {q})
    decreases s
  {
    var r :| r in s && Sum(disk, f, s) == Credit(disk, f, r) + Sum(disk, f, s - {r});
    if r != q {
      SumPick(disk, f, s - {r}, q);
      SumPick(disk, f, s - {q}, r);
      assert s - {r} - {q} == s - {q} - {r};
    }
  }

  /** The walk's account after it has dealt with the entries `seen`. */
  ghost predicate Tidied(disk0: Disk, f: Faults, known: set<Path>, seen: set<Path>, disk: Disk, st: ReconcileStats) {
    && st.partialsWiped == 0 && st.filesExamined == |FilesIn(disk0, seen)|
    && Settle(disk0, f, known, seen) == Account(disk, st.orphansRemoved, st.bytesFreed, st.removeErrors)
  }

  /** A disk with the files removed, bytes credited and failed removals on the way to it. */
  datatype Account = Account(disk: Disk, removed: nat, bytes: nat, errors: nat)

  /** Removes what can be removed of the files in `seen`, except for `keep`. */
  ghost function Settle(disk0: Disk, f: Faults, keep: set<Path>, seen: set<Path>): Account {
    var gone := Removable(disk0, f, keep, seen);
    Account(disk0 - gone, |gone|, Sum(disk0, f, gone), |Failing(disk0, f, keep, seen)|)
  }

  /** One more file. */
  ghost function SettleFile(disk0: Disk, f: Faults, keep: set<Path>, p: Path, a: Account): Account {
    if p in keep then a
    else if p in f.stuck then a.(errors := a.errors + 1)
    else Account(a.disk - {p}, a.removed + 1, a.bytes + Credit(disk0, f, p), a.errors)
  }

  lemma MinusTwice(disk: Disk, s: set<Path>, t: set<Path>)
    ensures disk - s - t == disk - (s + t)
  {
    assert (disk - s - t).Keys == (disk - (s + t)).Keys;
  }

  lemma SettleMore(disk0: Disk, f: Faults, keep: set<Path>, seen: set<Path>, p: Path)
    requires p in disk0 && disk0[p].File? && p !in seen
    ensures Settle(disk0, f, keep, seen + {p}) == SettleFile(disk0, f, keep, p, Settle(disk0, f, keep, seen))
  {
    SeenFile(disk0, f, keep, seen, p);
    if Unlinks(f, keep, p) {
      var gone := Removable(disk0, f, keep, seen);
      SumAdd(disk0, f, gone, p);
      MinusTwice(disk0, gone, {p});
    }
  }

  lemma SettleSame(disk0: Disk, f: Faults, keep: set<Path>, seen: set<Path>, p: Path)
    requires p in disk0 && !disk0[p].File?
    ensures Settle(disk0, f, keep, seen + {p}) == Settle(disk0, f, keep, seen)
  {
    SeenNonFile(disk0, seen, p);
  }

  lemma SettleNothing(disk0: Disk, f: Faults, keep: set<Path>)
    ensures Settle(disk0, f, keep, {}) == Account(disk0, 0, 0, 0)
  {
    assert Removable(disk0, f, keep, {}) == {} && Failing(disk0, f, keep, {}) == {};
    assert disk0 - {} == disk0;
  }

  predicate Unlinks(f: Faults, keep: set<Path>, p: Path) { p !in keep && p !in f.stuck }

  lemma SeenNonFile(disk0: Disk, seen: set<Path>, p: Path)
    requires p in disk0 && !disk0[p].File?
    ensures FilesIn(disk0, seen + {p}) == FilesIn(disk0, seen)
  {
  }

  lemma SeenFile(disk0: Disk, f: Faults, keep: set<Path>, seen: set<Path>, p: Path)
    requires p in disk0 && disk0[p].File? && p !in seen
    ensures FilesIn(disk0, seen + {p}) == FilesIn(disk0, seen) + {p}
    ensures p !in FilesIn(disk0, seen) && p !in Removable(disk0, f, keep, seen) && p !in Failing(disk0, f, keep, seen)
    ensures p in keep ==>
              Removable(disk0, f, keep, seen + {p}) == Removable(disk0, f, keep, seen) &&
              Failing(disk0, f, keep, seen + {p}) == Failing(disk0, f, keep, seen)
    ensures p !in keep && p in f.stuck ==>
              Removable(disk0, f, keep, seen + {p}) == Removable(disk0, f, keep, seen) &&
              Failing(disk0, f, keep, seen + {p}) == Failing(disk0, f, keep, seen) + {p}
    ensures p !in keep && p !in f.stuck ==>
              Removable(disk0, f, keep, seen + {p}) == Removable(disk0, f, keep, seen) + {p} &&
              Failing(disk0, f, keep, seen + {p}) == Failing(disk0, f, keep, seen)
  {
    assert FilesIn(disk0, seen + {p}) == FilesIn(disk0, seen) + {p};
  }

  lemma NoFileTidied(disk0: Disk, f: Faults, known: set<Path>, seen: set<Path>, p: Path, disk: Disk, st: ReconcileStats)
    requires Tidied(disk0, f, known, seen, disk, st) && p in disk0 && !disk0[p].File?
    ensures Tidied(disk0, f, known, seen + {p}, disk, st)
  {
    SeenNonFile(disk0, seen, p);
    SettleSame(disk0, f, known, seen, p);
  }

  /** The walk's statistics after one more file. */
  ghost function StatsAfter(disk0: Disk, f: Faults, known: set<Path>, p: Path, disk: Disk,
                            st: ReconcileStats): ReconcileStats {
    var a := SettleFile(disk0, f, known, p, Account(disk, st.orphansRemoved, st.bytesFreed, st.removeErrors));
    ReconcileStats(st.filesExamined + 1, a.removed, 0, a.bytes, a.errors)
  }

  lemma FileTidied(disk0: Disk, f: Faults, known: set<Path>, seen: set<Path>, p: Path, disk: Disk, st: ReconcileStats)
    requires Tidied(disk0, f, known, seen, disk, st) && p in disk0 && disk0[p].File? && p !in seen
    ensures Tidied(disk0, f, known, seen + {p}, if Unlinks(f, known, p) then disk - {p} else disk,
                   StatsAfter(disk0, f, known, p, disk, st))
  {
    SeenFile(disk0, f, known, seen, p);
    SettleMore(disk0, f, known, seen, p);
  }

  // ------------------------------------------------------------------------- the walk

  /** Non-blind entries of the readable directories in `dirs`. */
  function Below(disk: Disk, f: Faults, dirs: set<Path>): set<Path> {
    set p | p in disk && p != [] && p !in f.blind && Parent(p) in dirs && CanRead(disk, f, Parent(p))
  }

  /** Directories among `seen` that the walk descends into. */
  function Descents(disk: Disk, seen: set<Path>): set<Path> {
    set p | p in seen && p in disk && disk[p].Dir? && !IsReserved(p)
  }

  ghost predicate Distinct(s: seq<Path>) { forall i, j :: 0 <= i < j < |s| ==> s[i] != s[j] }

  /** Every directory met so far is either done or waits on the stack, once. */
  ghost predicate StackFits(disk: Disk, seen: set<Path>, done: set<Path>, stack: seq<Path>) {
    && Distinct(stack)
    && done !! ElemsOf(stack)
    && done + ElemsOf(stack) == Descents(disk, seen) + {[]}
  }

  lemma Pushes(disk: Disk, seen: set<Path>, done: set<Path>, stack: seq<Path>, p: Path)
    requires StackFits(disk, seen, done, stack) && p in disk && disk[p].Dir? && p !in seen && p != []
    ensures StackFits(disk, seen + {p}, done, if IsReserved(p) then stack else stack + [p])
  {
    if IsReserved(p) {
      assert Descents(disk, seen + {p}) == Descents(disk, seen);
    } else {
      assert ElemsOf(stack + [p]) == ElemsOf(stack) + {p};
      assert Descents(disk, seen + {p}) == Descents(disk, seen) + {p};
      assert p !in done + ElemsOf(stack);
      forall i | 0 <= i < |stack| ensures stack[i] != p { assert stack[i] in ElemsOf(stack); }
    }
  }

  lemma Pops(disk: Disk, seen: set<Path>, done: set<Path>, stack: seq<Path>)
    requires StackFits(disk, seen, done, stack) && stack != []
    ensures var d := stack[|stack| - 1];
            d !in done && (d == [] || d in disk) && StackFits(disk, seen, done + {d}, stack[..|stack| - 1])
  {
    var d, rest := stack[|stack| - 1], stack[..|stack| - 1];
    assert ElemsOf(stack) == ElemsOf(rest) + {d};
    assert d in ElemsOf(stack) && d in Descents(disk, seen) + {[]};
  }

  function Children(disk: Disk, f: Faults, d: Path): set<Path> { set p | p in disk && ListedIn(disk, f, d, p) }

  lemma BelowMore(disk: Disk, f: Faults, done: set<Path>, d: Path)
    requires d !in done
    ensures Below(disk, f, done + {d})
         == Below(disk, f, done) + (if CanRead(disk, f, d) then Children(disk, f, d) else {})
    ensures Below(disk, f, done) !! Children(disk, f, d)
  {
  }

  /** Removing files that were seen before leaves other directories as they were. */
  lemma SameListing(disk0: Disk, f: Faults, gone: set<Path>, d: Path)
    requires forall p :: p in gone && p in disk0 ==> disk0[p].File?
    ensures CanRead(disk0 - gone, f, d) == CanRead(disk0, f, d)
    ensures gone !! Children(disk0, f, d) ==> Children(disk0 - gone, f, d) == Children(disk0, f, d)
  {
  }

  /** When nothing waits any more, the walk has met exactly the reachable entries. */
  lemma {:induction false} WalkComplete(disk: Disk, f: Faults, seen: set<Path>, done: set<Path>, p: Path)
    requires StackFits(disk, seen, done, []) && seen == Below(disk, f, done)
    ensures p in seen <==> Reached(disk, f, p)
    decreases |p|
  {
    assert ElemsOf<Path>([]) == {};
    assert done == Descents(disk, seen) + {[]};
    if p != [] { WalkComplete(disk, f, seen, done, Parent(p)); }
  }

  /** Between two entries. */
  ghost predicate Midway(disk0: Disk, f: Faults, known: set<Path>, seen: set<Path>, done: set<Path>, stack: seq<Path>,
                         disk: Disk, st: ReconcileStats)
  {
    Tidied(disk0, f, known, seen, disk, st) && StackFits(disk0, seen, done, stack)
  }

  lemma TakeNext(all: set<Path>, todo: set<Path>, p: Path)
    requires todo <= all && p in todo
    ensures all - (todo - {p}) == all - todo + {p} && p !in all - todo && p in all
  {
  }

  lemma TakeOne(seen0: set<Path>, all: set<Path>, todo: set<Path>, p: Path)
    requires todo <= all && seen0 !! all && p in todo
    ensures seen0 + (all - (todo - {p})) == seen0 + (all - todo) + {p} && p !in seen0 + (all - todo) && p in all
  {
  }

  /** Between two rounds of the outer loop. */
  ghost predicate Walking(disk0: Disk, f: Faults, known: set<Path>, seen: set<Path>, done: set<Path>, stack: seq<Path>,
                          disk: Disk, st: ReconcileStats)
  {
    Midway(disk0, f, known, seen, done, stack, disk, st) && seen == Below(disk0, f, done)
  }

  lemma NothingSeen(disk: Disk, f: Faults, known: set<Path>)
    ensures Walking(disk, f, known, {}, {}, [[]], disk, ReconcileStats(0, 0, 0, 0, 0))
  {
    SettleNothing(disk, f, known);
    assert FilesIn(disk, {}) == {};
    assert Descents(disk, {}) == {} && ElemsOf<Path>([[]]) == {[]} && Below(disk, f, {}) == {};
  }

  lemma PopReady(disk0: Disk, f: Faults, known: set<Path>, seen: set<Path>, done: set<Path>, stack: seq<Path>,
                 disk: Disk, st: ReconcileStats)
    requires Walking(disk0, f, known, seen, done, stack, disk, st) && stack != []
    ensures var d, rest := stack[|stack| - 1], stack[..|stack| - 1];
            d in disk0.Keys + {[]} - done && Midway(disk0, f, known, seen, done + {d}, rest, disk, st)
  {
    Pops(disk0, seen, done, stack);
  }

  lemma ListingReady(disk0: Disk, f: Faults, known: set<Path>, seen: set<Path>, done: set<Path>, d: Path, disk: Disk,
                     st: ReconcileStats)
    requires Tidied(disk0, f, known, seen, disk, st) && seen == Below(disk0, f, done) && d !in done
    ensures seen !! Children(disk0, f, d) && Children(disk, f, d) == Children(disk0, f, d)
    ensures CanRead(disk, f, d) ==> Below(disk0, f, done + {d}) == seen + Children(disk0, f, d)
    ensures !CanRead(disk, f, d) ==> Below(disk0, f, done + {d}) == seen
  {
    var gone := Removable(disk0, f, known, seen);
    BelowMore(disk0, f, done, d);
    assert disk == disk0 - gone && gone <= seen;
    SameListing(disk0, f, gone, d);
  }

  lemma WalkEnds(disk0: Disk, f: Faults, known: set<Path>, seen: set<Path>, done: set<Path>, disk: Disk,
                 st: ReconcileStats)
    requires Walking(disk0, f, known, seen, done, [], disk, st)
    ensures Tidied(disk0, f, known, AllReached(disk0, f), disk, st)
  {
    forall p ensures p in seen <==> p in AllReached(disk0, f) {
      WalkComplete(disk0, f, seen, done, p);
    }
    assert seen == AllReached(disk0, f);
  }

  /** What was not seen yet is still there. */
  lemma Untouched(disk0: Disk, f: Faults, known: set<Path>, seen: set<Path>, p: Path, disk: Disk, st: ReconcileStats)
    requires Tidied(disk0, f, known, seen, disk, st) && p in disk0 && p !in seen
    ensures p in disk && disk[p] == disk0[p]
  {
  }

  class CacheDir {
    var disk: Disk

    constructor (disk: Disk)
      ensures this.disk == disk
    {
      this.disk := disk;
    }

    /** `walk_and_remove_orphans`: removes exactly the reachable unknown regular files whose
        removal works, and accounts for them; nothing else on disk changes. */
    method WalkAndRemoveOrphans(known: set<Path>, f: Faults) returns (st: ReconcileStats)
      modifies this
      ensures Tidied(old(disk), f, known, AllReached(old(disk), f), disk, st)
    {
      st := ReconcileStats(0, 0, 0, 0, 0);
      var stack: seq<Path> := [[]];
      ghost var disk0, seen, done := disk, {}, {};
      NothingSeen(disk0, f, known);
      while stack != []
        invariant Walking(disk0, f, known, seen, done, stack, disk, st)
        decreases disk0.Keys + {[]} - done
      {
        st, stack, seen, done := WalkOne(known, f, st, stack, disk0, seen, done);
      }
      WalkEnds(disk0, f, known, seen, done, disk, st);
    }

    /** One round of the outer loop. */
    method WalkOne(known: set<Path>, f: Faults, st0: ReconcileStats, stack0: seq<Path>,
                   ghost disk0: Disk, ghost seen0: set<Path>, ghost done0: set<Path>)
      returns (st: ReconcileStats, stack: seq<Path>, ghost seen: set<Path>, ghost done: set<Path>)
      requires Walking(disk0, f, known, seen0, done0, stack0, disk, st0) && stack0 != []
      modifies this
      ensures Walking(disk0, f, known, seen, done, stack, disk, st)
      ensures var d := stack0[|stack0| - 1]; d in disk0.Keys + {[]} - done0 && done == done0 + {d}
    {
      var d := stack0[|stack0| - 1];
      st, stack, seen, done := st0, stack0[..|stack0| - 1], seen0, done0 + {d};
      PopReady(disk0, f, known, seen0, done0, stack0, disk, st0);
      ListingReady(disk0, f, known, seen0, done0, d, disk, st0);
      if CanRead(disk, f, d) {
        st, stack, seen := WalkDirectory(known, f, d, st, stack, disk0, seen, done);
      }
    }

    /** The inner loop: every entry of one directory, in any order. */
    method WalkDirectory(known: set<Path>, f: Faults, d: Path, st0: ReconcileStats, stack0: seq<Path>,
                         ghost disk0: Disk, ghost seen0: set<Path>, ghost done: set<Path>)
      returns (st: ReconcileStats, stack: seq<Path>, ghost seen: set<Path>)
      requires Midway(disk0, f, known, seen0, done, stack0, disk, st0)
      requires seen0 !! Children(disk0, f, d) && Children(disk, f, d) == Children(disk0, f, d)
      modifies this
      ensures seen == seen0 + Children(disk0, f, d)
      ensures Midway(disk0, f, known, seen, done, stack, disk, st)
    {
      st, stack, seen := st0, stack0, seen0;
      var todo := Children(disk, f, d);
      ghost var all := todo;
      while todo != {}
        invariant todo <= all && seen == seen0 + (all - todo)
        invariant Midway(disk0, f, known, seen, done, stack, disk, st)
        decreases todo
      {
        var p :| p in todo;
        TakeOne(seen0, all, todo, p);
        todo := todo - {p};
        st, stack := WalkEntry(known, f, p, st, stack, disk0, seen, done);
        seen := seen + {p};
      }
    }

    /** One entry: directories wait on the stack, reserved ones excepted; regular files are
        handled; anything else is left alone. */
    method WalkEntry(known: set<Path>, f: Faults, p: Path, st0: ReconcileStats, stack0: seq<Path>,
                     ghost disk0: Disk, ghost seen: set<Path>, ghost done: set<Path>)
      returns (st: ReconcileStats, stack: seq<Path>)
      requires Midway(disk0, f, known, seen, done, stack0, disk, st0)
      requires p in disk0 && p !in seen && p != []
      modifies this
      ensures Midway(disk0, f, known, seen + {p}, done, stack, disk, st)
    {
      st, stack := st0, stack0;
      Untouched(disk0, f, known, seen, p, disk, st);
      if disk[p].Dir? {
        Pushes(disk0, seen, done, stack, p);
        NoFileTidied(disk0, f, known, seen, p, disk, st);
        if !IsReserved(p) { stack := stack + [p]; }
        return;
      }
      NoPush(disk0, seen, done, stack, p);
      if disk[p].File? {
        st := HandleFile(known, f, p, st, disk0, seen);
      } else {
        NoFileTidied(disk0, f, known, seen, p, disk, st);
      }
    }

    /** One regular file: known ones stay, others are removed if that works. */
    method HandleFile(known: set<Path>, f: Faults, p: Path, st0: ReconcileStats, ghost disk0: Disk,
                      ghost seen: set<Path>)
      returns (st: ReconcileStats)
      requires Tidied(disk0, f, known, seen, disk, st0) && p in disk0 && p !in seen
      requires p in disk && disk[p] == disk0[p] && disk[p].File?
      modifies this
      ensures Tidied(disk0, f, known, seen + {p}, disk, st)
    {
      FileTidied(disk0, f, known, seen, p, disk, st0);
      st := st0.(filesExamined := st0.filesExamined + 1);
      if p in known { return; }
      var size := if p in f.unsized then 0 else disk[p].size;
      if p in f.stuck {
        st := st.(removeErrors := st.removeErrors + 1);
      } else {
        disk := disk - {p};
        st := st.(orphansRemoved := st.orphansRemoved + 1, bytesFreed := st.bytesFreed + size);
      }
    }

    /** `wipe_partial_hydrations`. */
    method WipePartialHydrations(f: Faults, st0: ReconcileStats) returns (st: ReconcileStats)
      modifies this
      ensures Wiped(old(disk), f, Partials(old(disk), f), st0, disk, st)
    {
      if CanRead(disk, f, PARTIAL) {
        st := WipeEntries(f, Children(disk, f, PARTIAL), st0);
      } else {
        NothingWiped(disk, f, st0);
        st := st0;
      }
    }

    method WipeEntries(f: Faults, entries: set<Path>, st0: ReconcileStats) returns (st: ReconcileStats)
      requires entries <= disk.Keys
      modifies this
      ensures Wiped(old(disk), f, entries, st0, disk, st)
    {
      st := st0;
      ghost var disk0, seen := disk, {};
      NothingWiped(disk0, f, st0);
      var todo := entries;
      while todo != {}
        invariant todo <= entries && seen == entries - todo
        invariant Wiped(disk0, f, seen, st0, disk, st)
        decreases todo
      {
        var p :| p in todo;
        TakeNext(entries, todo, p);
        todo := todo - {p};
        st := WipeEntry(f, p, st, st0, disk0, seen);
        seen := seen + {p};
      }
      assert seen == entries;
    }

    method WipeEntry(f: Faults, p: Path, st1: ReconcileStats, ghost st0: ReconcileStats, ghost disk0: Disk,
                     ghost seen: set<Path>)
      returns (st: ReconcileStats)
      requires Wiped(disk0, f, seen, st0, disk, st1) && p in disk0 && p !in seen
      modifies this
      ensures Wiped(disk0, f, seen + {p}, st0, disk, st)
    {
      StillThere(disk0, f, seen, st0, p, disk, st1);
      st := st1;
      if disk[p].File? {
        st := WipeFile(f, p, st, st0, disk0, seen);
      } else {
        SettleSame(disk0, f, {}, seen, p);
      }
    }

    method WipeFile(f: Faults, p: Path, st1: ReconcileStats, ghost st0: ReconcileStats, ghost disk0: Disk,
                    ghost seen: set<Path>)
      returns (st: ReconcileStats)
      requires Wiped(disk0, f, seen, st0, disk, st1) && p in disk0 && p !in seen
      requires p in disk && disk[p] == disk0[p] && disk[p].File?
      modifies this
      ensures Wiped(disk0, f, seen + {p}, st0, disk, st)
    {
      var size := if p in f.unsized then 0 else disk[p].size;
      if p in f.stuck {
        FileNotWiped(disk0, f, seen, st0, p, disk, st1);
        st := st1.(removeErrors := st1.removeErrors + 1);
      } else {
        FileWiped(disk0, f, seen, st0, p, disk, st1);
        disk := disk - {p};
        st := st1.(partialsWiped := st1.partialsWiped + 1, bytesFreed := st1.bytesFreed + size);
      }
    }

    /** `reconcile_orphans`: the walk, then the wipe. */
    method Reconcile(known: set<Path>, f: Faults) returns (st: ReconcileStats)
      modifies this
      ensures disk == old(disk) - Lost(old(disk), f, known)
      ensures st.bytesFreed == Sum(old(disk), f, Lost(old(disk), f, known))
      ensures st.orphansRemoved + st.partialsWiped == |Lost(old(disk), f, known)|
    {
      var walked := WalkAndRemoveOrphans(known, f);
      ghost var between := disk;
      st := WipePartialHydrations(f, walked);
      WalkThenWipe(old(disk), f, known, between, walked, disk, st);
    }
  }

  lemma NoPush(disk: Disk, seen: set<Path>, done: set<Path>, stack: seq<Path>, p: Path)
    requires StackFits(disk, seen, done, stack) && p in disk && !disk[p].Dir?
    ensures StackFits(disk, seen + {p}, done, stack)
  {
    assert Descents(disk, seen + {p}) == Descents(disk, seen);
  }

  // ------------------------------------------------------------------ partial downloads

  /** What the wipe meets. */
  function Partials(disk: Disk, f: Faults): set<Path> {
    if CanRead(disk, f, PARTIAL) then Children(disk, f, PARTIAL) else {}
  }

  ghost predicate Wiped(disk0: Disk, f: Faults, seen: set<Path>, st0: ReconcileStats, disk: Disk, st: ReconcileStats) {
    disk == Settle(disk0, f, {}, seen).disk && st == WipeStats(st0, Settle(disk0, f, {}, seen))
  }

  function WipeStats(st: ReconcileStats, a: Account): ReconcileStats {
    ReconcileStats(st.filesExamined, st.orphansRemoved, st.partialsWiped + a.removed,
                   st.bytesFreed + a.bytes, st.removeErrors + a.errors)
  }

  lemma NothingWiped(disk0: Disk, f: Faults, st0: ReconcileStats)
    ensures Wiped(disk0, f, {}, st0, disk0, st0)
  {
    SettleNothing(disk0, f, {});
  }

  lemma WipeStatsStep(st0: ReconcileStats, a: Account, b: Account, credit: nat)
    requires b.removed == a.removed + 1 && b.bytes == a.bytes + credit && b.errors == a.errors
    ensures var st := WipeStats(st0, a);
            WipeStats(st0, b) == ReconcileStats(st.filesExamined, st.orphansRemoved, st.partialsWiped + 1,
                                                st.bytesFreed + credit, st.removeErrors)
  {
  }

  lemma FileWiped(disk0: Disk, f: Faults, seen: set<Path>, st0: ReconcileStats, p: Path, disk: Disk, st: ReconcileStats)
    requires Wiped(disk0, f, seen, st0, disk, st) && p in disk0 && disk0[p].File? && p !in seen && p !in f.stuck
    ensures Wiped(disk0, f, seen + {p}, st0, disk - {p},
                  ReconcileStats(st.filesExamined, st.orphansRemoved, st.partialsWiped + 1,
                                 st.bytesFreed + Credit(disk0, f, p), st.removeErrors))
  {
    SettleMore(disk0, f, {}, seen, p);
    WipeStatsStep(st0, Settle(disk0, f, {}, seen), Settle(disk0, f, {}, seen + {p}), Credit(disk0, f, p));
  }

  lemma FileNotWiped(disk0: Disk, f: Faults, seen: set<Path>, st0: ReconcileStats, p: Path, disk: Disk,
                     st: ReconcileStats)
    requires Wiped(disk0, f, seen, st0, disk, st) && p in disk0 && disk0[p].File? && p !in seen && p in f.stuck
    ensures Wiped(disk0, f, seen + {p}, st0, disk, st.(removeErrors := st.removeErrors + 1))
  {
    SettleMore(disk0, f, {}, seen, p);
  }

  lemma StillThere(disk0: Disk, f: Faults, seen: set<Path>, st0: ReconcileStats, p: Path, disk: Disk,
                   st: ReconcileStats)
    requires Wiped(disk0, f, seen, st0, disk, st) && p in disk0 && p !in seen
    ensures p in disk && disk[p] == disk0[p]
  {
  }

  /** Every path that a reconciliation removes. */
  function Lost(disk: Disk, f: Faults, known: set<Path>): set<Path> {
    Removable(disk, f, known, AllReached(disk, f)) + Removable(disk, f, {}, Partials(disk, f))
  }

  /** The walk stays out of the reserved directories. */
  lemma {:induction false} ReservedUnreached(disk: Disk, f: Faults, p: Path)
    requires |p| >= 2 && IsReserved(p[..1])
    ensures !Reached(disk, f, p)
    decreases |p|
  {
    if |p| > 2 {
      assert Parent(p)[..1] == p[..1];
      ReservedUnreached(disk, f, Parent(p));
    }
  }

  /** So the wipe meets the partial downloads as they were before the walk. */
  lemma PartialsUnreached(disk: Disk, f: Faults, known: set<Path>)
    ensures var orphans := Removable(disk, f, known, AllReached(disk, f));
            var partials := Removable(disk, f, {}, Partials(disk, f));
            && orphans !! partials
            && Removable(disk - orphans, f, {}, Partials(disk - orphans, f)) == partials
            && Sum(disk - orphans, f, partials) == Sum(disk, f, partials)
  {
    var orphans := Removable(disk, f, known, AllReached(disk, f));
    forall p | p in Children(disk, f, PARTIAL) ensures p !in orphans {
      assert p[..1] == PARTIAL[..1];
      ReservedUnreached(disk, f, p);
    }
    SameListing(disk, f, orphans, PARTIAL);
    SumSame(disk, disk - orphans, f, Removable(disk, f, {}, Partials(disk, f)));
  }

  lemma {:induction false} SumSame(disk: Disk, disk': Disk, f: Faults, s: set<Path>)
    requires forall p :: p in s ==> Credit(disk, f, p) == Credit(disk', f, p)
    ensures Sum(disk, f, s) == Sum(disk', f, s)
    decreases s
  {
    if s != {} {
      var p :| p in s;
      SumPick(disk, f, s, p);
      SumPick(disk', f, s, p);
      SumSame(disk, disk', f, s - {p});
    }
  }

  lemma {:induction false} SumUnion(disk: Disk, f: Faults, s: set<Path>, t: set<Path>)
    requires s !! t
    ensures Sum(disk, f, s + t) == Sum(disk, f, s) + Sum(disk, f, t) && |s + t| == |s| + |t|
    decreases t
  {
    if t == {} {
      assert s + t == s;
    } else {
      var p :| p in t;
      SumPick(disk, f, t, p);
      SumUnion(disk, f, s, t - {p});
      SumAdd(disk, f, s + (t - {p}), p);
      assert s + t == s + (t - {p}) + {p};
    }
  }

  lemma WalkThenWipe(disk0: Disk, f: Faults, known: set<Path>, disk1: Disk, st1: ReconcileStats, disk: Disk,
                     st: ReconcileStats)
    requires Tidied(disk0, f, known, AllReached(disk0, f), disk1, st1)
    requires Wiped(disk1, f, Partials(disk1, f), st1, disk, st)
    ensures disk == disk0 - Lost(disk0, f, known)
    ensures st.bytesFreed == Sum(disk0, f, Lost(disk0, f, known))
    ensures st.orphansRemoved + st.partialsWiped == |Lost(disk0, f, known)|
  {
    var orphans := Removable(disk0, f, known, AllReached(disk0, f));
    assert disk1 == disk0 - orphans;
    PartialsUnreached(disk0, f, known);
    var partials := Removable(disk1, f, {}, Partials(disk1, f));
    SumUnion(disk0, f, orphans, partials);
    MinusTwice(disk0, orphans, partials);
  }

  // ------------------------------------------------------------------------- theorems

  /** A directory tree: every path has a directory above it. */
  ghost predicate Tree(disk: Disk) {
    forall p :: p in disk && p != [] ==> Parent(p) in disk && disk[Parent(p)].Dir?
  }

  /** Inside one of the daemon's own directories. */
  predicate InReserved(p: Path) { |p| >= 2 && IsReserved(p[..1]) }

  /** With every listing answered, the walk meets all of a tree outside the daemon's own
      directories. */
  lemma {:induction false} ReachedExactly(disk: Disk, f: Faults, p: Path)
    requires Tree(disk) && f.unreadable == {} && f.blind == {} && p in disk && p != []
    ensures Reached(disk, f, p) <==> !InReserved(p)
    decreases |p|
  {
    if |p| >= 2 {
      assert Parent(p)[..1] == p[..1];
      ReachedExactly(disk, f, Parent(p));
      assert |p| == 2 ==> Parent(p) == p[..1];
    }
  }

  /** What is left after a reconciliation of a tree whose listings were all answered: known
      files and failed removals in the user's area, failed removals among the partial
      downloads, everything else below `.bases` and `.meta`, and everything that is not a
      regular file. */
  lemma SurvivorsExact(disk: Disk, f: Faults, known: set<Path>, p: Path)
    requires Tree(disk) && f.unreadable == {} && f.blind == {} && p in disk
    ensures p in disk - Lost(disk, f, known) <==>
              (disk[p].File? && p != [] ==>
                if |p| == 3 && p[0] == ".meta" && p[1] == "partial" then p in f.stuck
                else if |p| >= 2 && p[0] in {".bases", ".meta"} then true
                else p in known || p in f.stuck)
  {
    if p != [] {
      ReachedExactly(disk, f, p);
      PartialSpelled(p);
    }
  }

  lemma PartialSpelled(p: Path)
    requires p != []
    ensures Parent(p) == PARTIAL <==> |p| == 3 && p[0] == ".meta" && p[1] == "partial"
    ensures InReserved(p) <==> |p| >= 2 && p[0] in {".bases", ".meta"}
  {
    if |p| == 3 { assert Parent(p) == [p[0], p[1]]; }
  }

  /** Whatever fails: only regular files are lost; nothing below `.bases`; below `.meta` only
      what lies directly in `.meta/partial`; elsewhere never a known file. */
  lemma NeverLost(disk: Disk, f: Faults, known: set<Path>, p: Path)
    requires p in Lost(disk, f, known)
    ensures p in disk && disk[p].File? && p !in f.stuck && p != []
    ensures |p| >= 2 ==> p[0] != ".bases"
    ensures |p| >= 2 && p[0] == ".meta" ==> |p| == 3 && p[1] == "partial"
    ensures p in known ==> |p| == 3 && p[0] == ".meta" && p[1] == "partial"
  {
    PartialSpelled(p);
    if InReserved(p) { ReservedUnreached(disk, f, p); }
  }

  /** The bytes on disk drop by what was freed when every size could be read. */
  lemma BytesAddUp(disk: Disk, f: Faults, known: set<Path>)
    requires f.unsized == {}
    ensures
      var lost := Lost(disk, f, known);
      Sum(disk, f, disk.Keys) == Sum(disk - lost, f, (disk - lost).Keys) + Sum(disk, f, lost)
  {
    var lost := Lost(disk, f, known);
    assert lost <= disk.Keys;
    SumWithout(disk, f, lost);
  }

  lemma SumWithout(disk: Disk, f: Faults, lost: set<Path>)
    requires lost <= disk.Keys
    ensures Sum(disk, f, disk.Keys) == Sum(disk - lost, f, (disk - lost).Keys) + Sum(disk, f, lost)
  {
    var left := disk - lost;
    assert left.Keys == disk.Keys - lost && left.Keys + lost == disk.Keys;
    SumUnion(disk, f, left.Keys, lost);
    SumSame(disk, left, f, left.Keys);
  }
}
