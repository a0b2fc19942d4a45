/** The statement of the full-poll refinement in terms of the listing, and its proof. */
module PollTheorem {
  import opened Types
  import opened Sequences
  import opened Ordering
  import opened FileIndex
  import opened Statements
  import opened PollSpec
  import opened PollRefinement

  /** What the remote has to report for one poll to settle: no path twice, no item at two
      paths, and an item that changed its path went to a path that no row holds and left
      its old path unlisted. Listings without renames qualify whenever paths and ids are
      distinct. */
  ghost predicate Coherent(rows: Rows, rules: Rules, listing: seq<Meta>) {
    && (forall a, b :: 0 <= a < b < |listing| ==> listing[a].path != listing[b].path)
    && (forall x, y :: x in listing && y in listing && x.path != y.path && x.itemId.Some? ==>
          x.itemId != y.itemId)
    && (forall x :: x in listing && NeedsUpsert(rows, rules, x) && Moves(rows, x) ==>
          && At(rows, x.path).None?
          && forall y :: y in listing && Considered(rules, y) ==> y.path != rows[ById(rows, x.itemId).value].path)
  }

  // ------------------------------------------------- the plan and the listing

  lemma {:induction false} ToUpsertMembers(rows: Rows, rules: Rules, listing: seq<Meta>, m: Meta)
    ensures m in ToUpsert(rows, rules, listing) <==> m in listing && NeedsUpsert(rows, rules, m)
  {
    if listing != [] {
      assert listing == listing[..|listing| - 1] + [listing[|listing| - 1]];
      ToUpsertMembers(rows, rules, listing[..|listing| - 1], m);
    }
  }

  lemma {:induction false} ToMarkMembers(rows: Rows, rules: Rules, listing: seq<Meta>, i: Inode)
    ensures i in ToMark(rows, rules, listing) <==>
            exists m :: m in listing && NeedsMark(rows, rules, m) && At(rows, m.path) == Some(i)
  {
    if listing != [] {
      var front, last := listing[..|listing| - 1], listing[|listing| - 1];
      assert forall m :: m in listing <==> m in front || m == last by {
        assert listing == front + [last];
      }
      ToMarkMembers(rows, rules, front, i);
    }
  }

  lemma {:induction false} ToUpsertOnce(rows: Rows, rules: Rules, listing: seq<Meta>, m: Meta)
    requires forall a, b :: 0 <= a < b < |listing| ==> listing[a].path != listing[b].path
    ensures multiset(ToUpsert(rows, rules, listing))[m] <= 1
  {
    if listing != [] {
      var front, last := listing[..|listing| - 1], listing[|listing| - 1];
      ToUpsertOnce(rows, rules, front, m);
      ToUpsertMembers(rows, rules, front, m);
    }
  }

  lemma OnceMeansDistinct(s: seq<Meta>, a: nat, b: nat)
    requires a < b < |s| && multiset(s)[s[b]] <= 1
    ensures s[a] != s[b]
  {
    assert s == s[..b] + [s[b]] + s[b + 1..];
    assert a < |s[..b]| && s[..b][a] == s[a];
    assert multiset(s) == multiset(s[..b]) + multiset([s[b]]) + multiset(s[b + 1..]);
    assert s[a] in multiset(s[..b]);
  }

  lemma PlanMembers(rows: Rows, rules: Rules, listing: seq<Meta>, m: Meta)
    ensures m in Plan(rows, rules, listing) <==> m in listing && NeedsUpsert(rows, rules, m)
  {
    var up := ToUpsert(rows, rules, listing);
    SortByLengthSorts(up);
    assert m in Plan(rows, rules, listing) <==> m in multiset(Plan(rows, rules, listing));
    assert m in up <==> m in multiset(up);
    ToUpsertMembers(rows, rules, listing, m);
  }

  lemma PlanDistinct(rows: Rows, rules: Rules, listing: seq<Meta>, a: nat, b: nat)
    requires forall a, b :: 0 <= a < b < |listing| ==> listing[a].path != listing[b].path
    requires a < b < |Plan(rows, rules, listing)|
    ensures Plan(rows, rules, listing)[a].path != Plan(rows, rules, listing)[b].path
  {
    var ups := Plan(rows, rules, listing);
    SortByLengthSorts(ToUpsert(rows, rules, listing));
    ToUpsertOnce(rows, rules, listing, ups[b]);
    OnceMeansDistinct(ups, a, b);
    PlanMembers(rows, rules, listing, ups[a]);
    PlanMembers(rows, rules, listing, ups[b]);
  }

  lemma ClaimsApart(rows: Rows, rules: Rules, listing: seq<Meta>, x: Meta, y: Meta)
    requires Coherent(rows, rules, listing)
    requires x in listing && NeedsUpsert(rows, rules, x)
    requires y in listing && NeedsUpsert(rows, rules, y)
    requires x.path != y.path && Claim(rows, x).Some?
    ensures Claim(rows, x) != Claim(rows, y)
  {
  }

  lemma CoherentSettles(rows: Rows, rules: Rules, listing: seq<Meta>)
    requires Coherent(rows, rules, listing)
    ensures Settled(rows, Plan(rows, rules, listing))
  {
    var ups := Plan(rows, rules, listing);
    forall a | 0 <= a < |ups| ensures ups[a] in listing && NeedsUpsert(rows, rules, ups[a]) {
      PlanMembers(rows, rules, listing, ups[a]);
    }
    forall a, b | 0 <= a < b < |ups|
      ensures ups[a].path != ups[b].path
      ensures ups[a].itemId.Some? ==> ups[a].itemId != ups[b].itemId
      ensures Claim(rows, ups[a]).Some? ==> Claim(rows, ups[a]) != Claim(rows, ups[b])
    {
      PlanDistinct(rows, rules, listing, a, b);
      if Claim(rows, ups[a]).Some? { ClaimsApart(rows, rules, listing, ups[a], ups[b]); }
    }
  }

  // ------------------------------------------------------ after a finished poll

  lemma SweepFinished(d: Db, generation: nat, scan: Inode -> int, left: nat)
    requires ValidDb(d) && SweepPhase(d, generation, scan, left).1
    ensures
      var d' := SweepPhase(d, generation, scan, left).0;
      && d'.generation == generation && d'.next == d.next
      && (forall i :: i in d'.rows <==> i in d.rows && i !in StaleRows(d.rows, generation))
      && (forall i :: i in d'.rows ==> d'.rows[i] == d.rows[i])
  {
    var order := Ranked(StaleRows(d.rows, generation), scan);
    SweepRemoves(d.rows, order);
    assert forall i :: i in order <==> i in ElemsOf(order);
  }

  /** `after` is `marked` without its stale rows. */
  ghost predicate SweptClean(marked: Rows, generation: nat, after: Rows) {
    && (forall i :: i in after <==> i in marked && i !in StaleRows(marked, generation))
    && (forall i :: i in after ==> after[i] == marked[i])
  }

  lemma MarkPhaseFinished(d: Db, marks: seq<Inode>, generation: nat, scan: Inode -> int, left: nat)
    requires ValidDb(d) && MarkPhase(d, marks, generation, scan, left).1
    ensures
      var d' := MarkPhase(d, marks, generation, scan, left).0;
      && d'.generation == generation && d'.next == d.next
      && SweptClean(Mark(d.rows, marks, generation), generation, d'.rows)
  {
    MarkKeepsValid(d.rows, marks, generation);
    SweepFinished(d.(rows := Mark(d.rows, marks, generation)), generation, scan, left - |marks|);
  }

  /** A finished poll got through all of its upserts. */
  lemma FinishedUpserts(d: Db, ups: seq<Meta>, marks: seq<Inode>, p: PollInput)
    requires ValidDb(d) && Apply(d, ups, marks, p).1
    ensures p.cut >= |ups|
    ensures RunUpserts(d, ups, d.generation + 1).ok
    ensures Apply(d, ups, marks, p)
         == MarkPhase(RunUpserts(d, ups, d.generation + 1).d, marks, d.generation + 1, p.scan, Less(p.cut, |ups|))
  {
  }

  /** The row at the entry's path has its size and etag already. */
  ghost predicate UpToDate(rows: Rows, m: Meta) {
    exists i :: i in rows && rows[i].path == m.path && rows[i].size == m.size && rows[i].etag == m.etag
  }

  lemma UpToDateExact(rows: Rows, m: Meta)
    requires Valid(rows)
    ensures UpToDate(rows, m) <==> SameContent(rows, m)
  {
    if i :| i in rows && rows[i].path == m.path && rows[i].size == m.size && rows[i].etag == m.etag {
      AtUnique(rows, i);
    }
  }

  /** After the upserts and marks, `i` is the row that a listed entry stands for. */
  ghost predicate StandsFor(d: Db, rules: Rules, m: Meta, marked: Rows, i: Inode) {
    && i in marked && marked[i].path == m.path && marked[i].generation == d.generation + 1
    && (if At(d.rows, m.path).Some? then i == At(d.rows, m.path).value
        else if ById(d.rows, m.itemId).Some? then i == ById(d.rows, m.itemId).value
        else i >= d.next)
    && (if rules.ignore(m.path) || UpToDate(d.rows, m)
        then i in d.rows && marked[i] == d.rows[i].(generation := d.generation + 1)
        else marked[i].parent.Some? && marked[i] == Reported(d.rows, i, marked[i].parent.value, m, d.generation + 1))
  }

  /** The row for a new or changed entry: an indexed row keeps its inode, item id, cache file
      and unsynced status, and takes everything else from the listing. */
  ghost function Reported(rows: Rows, i: Inode, parent: Inode, m: Meta, generation: nat): Row {
    if i in rows then Refreshed(rows[i], parent, m, generation) else Fresh(parent, m, generation)
  }

  /** The entry is to have a row: it passes every filter, or it is ignored but was indexed. */
  ghost predicate Indexable(rows: Rows, rules: Rules, m: Meta) {
    Considered(rules, m) && (!rules.ignore(m.path) || At(rows, m.path).Some?)
  }

  lemma UpsertedStands(d: Db, rules: Rules, m: Meta, rows: Rows, marks: seq<Inode>, parent: Inode, i: Inode)
    requires NeedsUpsert(d.rows, rules, m) && (Moves(d.rows, m) ==> At(d.rows, m.path).None?)
    requires i in rows && rows[i] == Landed(d.rows, m, parent, d.generation + 1)
    requires if Claim(d.rows, m).Some? then i == Claim(d.rows, m).value else i >= d.next
    requires ValidDb(d)
    ensures StandsFor(d, rules, m, Mark(rows, marks, d.generation + 1), i)
  {
    UpToDateExact(d.rows, m);
    if ById(d.rows, m.itemId).Some? && !Moves(d.rows, m) { AtUnique(d.rows, i); }
  }

  lemma MarkedStands(d: Db, rules: Rules, m: Meta, rows: Rows, marks: seq<Inode>, i: Inode)
    requires NeedsMark(d.rows, rules, m) && At(d.rows, m.path) == Some(i)
    requires i in rows && rows[i] == d.rows[i] && i in marks && Valid(d.rows)
    ensures StandsFor(d, rules, m, Mark(rows, marks, d.generation + 1), i)
  {
    UpToDateExact(d.rows, m);
  }

  /** A row that the poll only marks is claimed by none of its upserts. */
  lemma MarkedUntouched(d: Db, rules: Rules, listing: seq<Meta>, inodes: seq<Inode>, m: Meta, i: Inode)
    requires Coherent(d.rows, rules, listing) && forall k :: k in d.rows ==> k < d.next
    requires InodesMatch(d, Plan(d.rows, rules, listing), inodes)
    requires m in listing && NeedsMark(d.rows, rules, m) && At(d.rows, m.path) == Some(i)
    ensures i !in inodes
  {
    var ups := Plan(d.rows, rules, listing);
    forall a | 0 <= a < |ups| ensures inodes[a] != i {
      PlanMembers(d.rows, rules, listing, ups[a]);
      ListedApart(listing, m, ups[a]);
    }
  }

  lemma ListedApart(listing: seq<Meta>, x: Meta, y: Meta)
    requires forall a, b :: 0 <= a < b < |listing| ==> listing[a].path != listing[b].path
    requires x in listing && y in listing && x != y
    ensures x.path != y.path
  {
  }

  /** Everything a finished poll of a coherent listing did, phase by phase. */
  ghost predicate Polled(d: Db, rules: Rules, listing: seq<Meta>, run: Run, parents: seq<Inode>, after: Rows) {
    && Exact(d, Plan(d.rows, rules, listing), parents, d.generation + 1, run)
    && SweptClean(Mark(run.d.rows, ToMark(d.rows, rules, listing), d.generation + 1), d.generation + 1, after)
  }

  lemma FinishedPoll(d: Db, p: PollInput) returns (run: Run, parents: seq<Inode>)
    requires ValidDb(d) && Poll(d, p).1 && Coherent(d.rows, p.rules, p.listing.value)
    ensures p.listing.Some? && Poll(d, p).0.generation == d.generation + 1
    ensures Polled(d, p.rules, p.listing.value, run, parents, Poll(d, p).0.rows)
    ensures run == RunUpserts(d, Plan(d.rows, p.rules, p.listing.value), d.generation + 1)
    ensures parents == ParentsOf(d, Plan(d.rows, p.rules, p.listing.value), d.generation + 1)
  {
    var ups, marks := Plan(d.rows, p.rules, p.listing.value), ToMark(d.rows, p.rules, p.listing.value);
    FinishedUpserts(d, ups, marks, p);
    run, parents := RunUpserts(d, ups, d.generation + 1), ParentsOf(d, ups, d.generation + 1);
    CoherentSettles(d.rows, p.rules, p.listing.value);
    UpsertsExact(d, ups, d.generation + 1);
    MarkPhaseFinished(run.d, marks, d.generation + 1, p.scan, Less(p.cut, |ups|));
  }

  lemma UpsertedEntry(d: Db, rules: Rules, listing: seq<Meta>, run: Run, parents: seq<Inode>, marks: seq<Inode>,
                      m: Meta) returns (i: Inode)
    requires ValidDb(d) && Coherent(d.rows, rules, listing)
    requires Exact(d, Plan(d.rows, rules, listing), parents, d.generation + 1, run)
    requires m in listing && NeedsUpsert(d.rows, rules, m)
    ensures StandsFor(d, rules, m, Mark(run.d.rows, marks, d.generation + 1), i)
  {
    var ups := Plan(d.rows, rules, listing);
    PlanMembers(d.rows, rules, listing, m);
    var a :| 0 <= a < |ups| && ups[a] == m;
    i := run.inodes[a];
    assert i in run.inodes;
    UpsertedStands(d, rules, m, run.d.rows, marks, parents[a], i);
  }

  lemma MarkedEntry(d: Db, rules: Rules, listing: seq<Meta>, run: Run, parents: seq<Inode>, m: Meta) returns (i: Inode)
    requires ValidDb(d) && Coherent(d.rows, rules, listing)
    requires Exact(d, Plan(d.rows, rules, listing), parents, d.generation + 1, run)
    requires m in listing && NeedsMark(d.rows, rules, m)
    ensures StandsFor(d, rules, m, Mark(run.d.rows, ToMark(d.rows, rules, listing), d.generation + 1), i)
  {
    i := At(d.rows, m.path).value;
    ToMarkMembers(d.rows, rules, listing, i);
    MarkedUntouched(d, rules, listing, run.inodes, m, i);
    MarkedStands(d, rules, m, run.d.rows, ToMark(d.rows, rules, listing), i);
  }

  lemma StandsAfterSweep(d: Db, rules: Rules, m: Meta, marked: Rows, after: Rows, i: Inode)
    requires StandsFor(d, rules, m, marked, i) && SweptClean(marked, d.generation + 1, after)
    ensures StandsFor(d, rules, m, after, i)
  {
  }

  lemma EntryStands(d: Db, rules: Rules, listing: seq<Meta>, run: Run, parents: seq<Inode>, after: Rows,
                    m: Meta) returns (i: Inode)
    requires ValidDb(d) && Coherent(d.rows, rules, listing) && Polled(d, rules, listing, run, parents, after)
    requires m in listing && Indexable(d.rows, rules, m)
    ensures StandsFor(d, rules, m, after, i)
  {
    var marks := ToMark(d.rows, rules, listing);
    if NeedsUpsert(d.rows, rules, m) {
      i := UpsertedEntry(d, rules, listing, run, parents, marks, m);
    } else {
      i := MarkedEntry(d, rules, listing, run, parents, m);
    }
    StandsAfterSweep(d, rules, m, Mark(run.d.rows, marks, d.generation + 1), after, i);
  }

  /** Why a row is in the index after a finished poll. */
  ghost predicate Accounted(d: Db, rules: Rules, listing: seq<Meta>, i: Inode, row: Row) {
    || i == ROOT_INODE
    || (i in d.rows && d.rows[i].status.IsLocalWork())
    || (exists m :: && m in listing && Considered(rules, m) && m.path == row.path
                    && (rules.ignore(m.path) ==> i in d.rows))
  }

  lemma RowAccounted(d: Db, rules: Rules, listing: seq<Meta>, run: Run, parents: seq<Inode>, after: Rows, i: Inode)
    requires ValidDb(d) && Coherent(d.rows, rules, listing) && Polled(d, rules, listing, run, parents, after)
    requires forall k :: k in d.rows ==> d.rows[k].generation <= d.generation
    requires i in after
    ensures Accounted(d, rules, listing, i, after[i])
  {
    if i in run.inodes {
      UpsertedAccounted(d, rules, listing, run, parents, after, i);
    } else {
      ToMarkMembers(d.rows, rules, listing, i);
    }
  }

  lemma UpsertedAccounted(d: Db, rules: Rules, listing: seq<Meta>, run: Run, parents: seq<Inode>, after: Rows, i: Inode)
    requires ValidDb(d) && Polled(d, rules, listing, run, parents, after)
    requires i in after && i in run.inodes
    ensures Accounted(d, rules, listing, i, after[i])
  {
    var ups := Plan(d.rows, rules, listing);
    var a :| 0 <= a < |ups| && run.inodes[a] == i;
    PlanMembers(d.rows, rules, listing, ups[a]);
    assert after[i].path == ups[a].path;
  }

  lemma LocalWorkStays(d: Db, rules: Rules, listing: seq<Meta>, run: Run, parents: seq<Inode>, after: Rows, i: Inode)
    requires ValidDb(d) && Polled(d, rules, listing, run, parents, after)
    requires i in d.rows && (i == ROOT_INODE || d.rows[i].status.IsLocalWork())
    ensures i in after
    ensures d.rows[i].status.IsLocalWork() ==>
              after[i].status == d.rows[i].status && after[i].cachePath == d.rows[i].cachePath
  {
    if i in run.inodes {
      var a :| 0 <= a < |run.inodes| && run.inodes[a] == i;
      assert run.d.rows[i] == Landed(d.rows, Plan(d.rows, rules, listing)[a], parents[a], d.generation + 1);
    }
  }

  // --------------------------------------------------------------- the theorem

  /** A poll that finishes on a coherent listing rebuilds the index from that listing.
      Every listed entry that passes the filters has exactly one row, at its path, with the
      listing's size and etag: the row already at that path, else the item's own row moved
      there, else a new inode. An ignored entry that was indexed keeps its row. The root and
      all unsynced local work stay. And no other row is left. */
  lemma FullPollRebuilds(d: Db, p: PollInput)
    requires ValidDb(d) && forall k :: k in d.rows ==> d.rows[k].generation <= d.generation
    requires Poll(d, p).1 && Coherent(d.rows, p.rules, p.listing.value)
    ensures ValidDb(Poll(d, p).0) && Poll(d, p).0.generation == d.generation + 1
    ensures forall m :: m in p.listing.value && Indexable(d.rows, p.rules, m) ==>
              exists i :: StandsFor(d, p.rules, m, Poll(d, p).0.rows, i)
    ensures KeepsLocalWork(d.rows, Poll(d, p).0.rows)
    ensures ROOT_INODE in d.rows ==> ROOT_INODE in Poll(d, p).0.rows
    ensures forall i :: i in Poll(d, p).0.rows ==>
              Accounted(d, p.rules, p.listing.value, i, Poll(d, p).0.rows[i])
  {
    var run, parents := FinishedPoll(d, p);
    var listing, after := p.listing.value, Poll(d, p).0.rows;
    forall m | m in listing && Indexable(d.rows, p.rules, m)
      ensures exists i :: StandsFor(d, p.rules, m, after, i)
    {
      var i := EntryStands(d, p.rules, listing, run, parents, after, m);
    }
    forall i | i in after ensures Accounted(d, p.rules, listing, i, after[i]) {
      RowAccounted(d, p.rules, listing, run, parents, after, i);
    }
    forall i | i in d.rows && (i == ROOT_INODE || d.rows[i].status.IsLocalWork())
      ensures i in after
      ensures d.rows[i].status.IsLocalWork() ==>
                after[i].status == d.rows[i].status && after[i].cachePath == d.rows[i].cachePath
    {
      LocalWorkStays(d, p.rules, listing, run, parents, after, i);
    }
  }
}
