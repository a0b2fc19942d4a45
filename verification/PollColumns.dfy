/** What a finished poll leaves in the columns of the table, row by row, without any of the
    terms in which the poll itself is described. */
module PollColumns {
  import opened Types
  import opened Text
  import opened FileIndex
  import opened PollSpec
  import opened PollTheorem

  // ---------------------------------------------------------------- the filters

  /** The listing entries that a poll counts as present, letter by letter. */
  ghost predicate Present(rules: Rules, m: Meta) {
    && (forall k :: 0 <= k < |m.path| - 1 ==> !(m.path[k] == '.' && m.path[k + 1] == '.'))
    && '\0' !in m.path && '/' !in m.name
    && !(|m.path| >= 22 && m.path[..22] == ".stratosync-conflicts/")
    && (forall t :: t in rules.tombstones ==>
          m.path != t && !(|m.path| > |t| && m.path[..|t|] == t && m.path[|t|] == '/'))
  }

  lemma BelowTombstone(path: string, t: string)
    ensures StartsWith(path, t + "/") <==> |path| > |t| && path[..|t|] == t && path[|t|] == '/'
  {
    if |path| > |t| { assert path[..|t| + 1] == path[..|t|] + [path[|t|]]; }
    if StartsWith(path, t + "/") { assert path[..|t|] == (t + "/")[..|t|] && path[|t|] == (t + "/")[|t|]; }
  }

  lemma NoDotDot(path: string)
    ensures !ContainsDotDot(path) <==> forall k :: 0 <= k < |path| - 1 ==> !(path[k] == '.' && path[k + 1] == '.')
  {
  }

  lemma NotTombstoned(tombstones: seq<string>, path: string)
    ensures !Tombstoned(tombstones, path) <==>
      forall t :: t in tombstones ==> path != t && !(|path| > |t| && path[..|t|] == t && path[|t|] == '/')
  {
    forall t ensures StartsWith(path, t + "/") <==> |path| > |t| && path[..|t|] == t && path[|t|] == '/' {
      BelowTombstone(path, t);
    }
  }

  lemma NotInNamespace(path: string)
    ensures StartsWith(path, CONFLICT_PREFIX) <==> |path| >= 22 && path[..22] == ".stratosync-conflicts/"
  {
    assert |CONFLICT_PREFIX| == 22;
  }

  /** The filters of full and delta polls: those conditions, and for new rows the ignore
      patterns on top. */
  lemma FiltersSpelled(rules: Rules, m: Meta)
    ensures Considered(rules, m) <==> Present(rules, m)
    ensures Accepted(rules, m) <==> Present(rules, m) && !rules.ignore(m.path)
  {
    NoDotDot(m.path);
    NotTombstoned(rules.tombstones, m.path);
    NotInNamespace(m.path);
  }

  // -------------------------------------------------------------------- the diff

  /** What the diff decides: an entry that passes the filters is upserted, unless the row at its path
      has its size and etag already; such rows, and the rows of ignored entries, are marked. */
  ghost predicate Decided(rows: Rows, rules: Rules, listing: seq<Meta>, ups: seq<Meta>, marks: seq<Inode>) {
    && (forall m :: m in ups <==>
          m in listing && Present(rules, m) && !rules.ignore(m.path) && !UpToDate(rows, m))
    && (forall i :: i in marks <==> exists m :: m in listing && Present(rules, m) && MarkedFor(rows, rules, m, i))
  }

  ghost predicate MarkedFor(rows: Rows, rules: Rules, m: Meta, i: Inode) {
    && i in rows && rows[i].path == m.path
    && (rules.ignore(m.path) || (rows[i].size == m.size && rows[i].etag == m.etag))
  }

  lemma DiffSpelled(rows: Rows, rules: Rules, listing: seq<Meta>)
    requires Valid(rows)
    ensures Decided(rows, rules, listing, ToUpsert(rows, rules, listing), ToMark(rows, rules, listing))
  {
    forall m ensures m in ToUpsert(rows, rules, listing) <==>
      m in listing && Present(rules, m) && !rules.ignore(m.path) && !UpToDate(rows, m)
    {
      ToUpsertMembers(rows, rules, listing, m);
      FiltersSpelled(rules, m);
      UpToDateExact(rows, m);
    }
    forall i ensures i in ToMark(rows, rules, listing) <==>
      exists m :: m in listing && Present(rules, m) && MarkedFor(rows, rules, m, i)
    {
      ToMarkMembers(rows, rules, listing, i);
      forall m ensures NeedsMark(rows, rules, m) && At(rows, m.path) == Some(i) <==>
        Present(rules, m) && MarkedFor(rows, rules, m, i)
      {
        FiltersSpelled(rules, m);
        if i in rows { AtUnique(rows, i); }
      }
    }
  }

  // ------------------------------------------------------------------- the rows

  /** `row` says of the remote what `m` says. */
  predicate AsListed(row: Row, m: Meta) {
    && row.path == m.path && row.name == m.name && row.size == m.size && row.mtime == m.mtime && row.etag == m.etag
    && row.kind == (if m.isDir then Directory else File)
  }

  /** `now` is the row `was` after the remote changed: unsynced edits keep their status, anything
      else becomes stale; the cache columns stay, and a known item id. */
  predicate Updated(was: Row, now: Row, m: Meta) {
    && AsListed(now, m)
    && now.status == (if was.status == Dirty || was.status == Uploading then was.status else Stale)
    && now.cachePath == was.cachePath && now.cacheSize == was.cacheSize && now.lru == was.lru
    && now.itemId == (if was.itemId.Some? then was.itemId else m.itemId)
  }

  /** `now` is a row for an entry seen for the first time. */
  predicate Created(now: Row, m: Meta) {
    && AsListed(now, m) && now.status == Remote && now.itemId == m.itemId
    && now.cachePath == None && now.cacheSize == None && now.lru == None
  }

  /** Row `i` is what a poll of generation `generation` makes of the accepted entry `m`. */
  ghost predicate Settles(before: Rows, after: Rows, m: Meta, generation: nat, i: Inode) {
    && i in after && after[i].path == m.path && after[i].generation == generation
    && after[i].size == m.size && after[i].etag == m.etag
    && (forall j :: j in after && after[j].path == m.path ==> j == i)
    && (forall j :: j in before && before[j].path == m.path ==> j == i)
    && if i !in before then Created(after[i], m)
       else if before[i].path == m.path && before[i].size == m.size && before[i].etag == m.etag
       then after[i] == before[i].(generation := generation)
       else Updated(before[i], after[i], m)
  }

  lemma StandsSettles(d: Db, rules: Rules, m: Meta, after: Rows, i: Inode)
    requires ValidDb(d) && Valid(after) && Present(rules, m) && !rules.ignore(m.path)
    requires StandsFor(d, rules, m, after, i)
    ensures Settles(d.rows, after, m, d.generation + 1, i)
  {
    AtUnique(after, i);
    forall j | j in after && after[j].path == m.path ensures j == i { AtUnique(after, j); }
    forall j | j in d.rows && d.rows[j].path == m.path ensures j == i { AtUnique(d.rows, j); }
  }

  /** Every entry that passes the filters has exactly one row at its path, with the listing's size
      and etag. If the row that was there had both already, only its generation has changed;
      otherwise the row, old or moved there, was updated from the listing, or it is new. */
  lemma AcceptedEntry(d: Db, p: PollInput, m: Meta) returns (i: Inode)
    requires ValidDb(d) && Poll(d, p).1 && Coherent(d.rows, p.rules, p.listing.value)
    requires m in p.listing.value && Present(p.rules, m) && !p.rules.ignore(m.path)
    ensures Settles(d.rows, Poll(d, p).0.rows, m, d.generation + 1, i)
  {
    var run, parents := FinishedPoll(d, p);
    FiltersSpelled(p.rules, m);
    i := EntryStands(d, p.rules, p.listing.value, run, parents, Poll(d, p).0.rows, m);
    StandsSettles(d, p.rules, m, Poll(d, p).0.rows, i);
  }

  /** An ignored entry that has a row keeps it; only its generation changes. */
  lemma IgnoredEntry(d: Db, p: PollInput, m: Meta, i: Inode)
    requires ValidDb(d) && Poll(d, p).1 && Coherent(d.rows, p.rules, p.listing.value)
    requires m in p.listing.value && Present(p.rules, m) && p.rules.ignore(m.path)
    requires i in d.rows && d.rows[i].path == m.path
    ensures i in Poll(d, p).0.rows && Poll(d, p).0.rows[i] == d.rows[i].(generation := d.generation + 1)
  {
    var run, parents := FinishedPoll(d, p);
    FiltersSpelled(p.rules, m);
    AtUnique(d.rows, i);
    var j := EntryStands(d, p.rules, p.listing.value, run, parents, Poll(d, p).0.rows, m);
  }

  /** And every other row is the root, unsynced local work, or gone. */
  lemma OtherRows(d: Db, p: PollInput, i: Inode)
    requires ValidDb(d) && forall k :: k in d.rows ==> d.rows[k].generation <= d.generation
    requires Poll(d, p).1 && Coherent(d.rows, p.rules, p.listing.value)
    requires i in Poll(d, p).0.rows
    ensures
      || i == ROOT_INODE
      || (i in d.rows && (d.rows[i].status == Dirty || d.rows[i].status == Uploading))
      || (exists m :: && m in p.listing.value && Present(p.rules, m) && m.path == Poll(d, p).0.rows[i].path
                      && (p.rules.ignore(m.path) ==> i in d.rows))
  {
    var after := Poll(d, p).0.rows;
    var run, parents := FinishedPoll(d, p);
    RowAccounted(d, p.rules, p.listing.value, run, parents, after, i);
    if m :| && m in p.listing.value && Considered(p.rules, m) && m.path == after[i].path
            && (p.rules.ignore(m.path) ==> i in d.rows)
    {
      FiltersSpelled(p.rules, m);
    }
  }

  /** Dirty and uploading rows stay, with their status and their cache file. */
  lemma UnsyncedRow(d: Db, p: PollInput, i: Inode)
    requires ValidDb(d) && forall k :: k in d.rows ==> d.rows[k].generation <= d.generation
    requires Poll(d, p).1 && Coherent(d.rows, p.rules, p.listing.value)
    requires i in d.rows && (d.rows[i].status == Dirty || d.rows[i].status == Uploading)
    ensures i in Poll(d, p).0.rows && Poll(d, p).0.rows[i].status == d.rows[i].status
    ensures Poll(d, p).0.rows[i].cachePath == d.rows[i].cachePath
  {
    FullPollRebuilds(d, p);
  }

  /** A listing that fails or is too long changes nothing. */
  lemma NoListing(d: Db, p: PollInput)
    requires ValidDb(d) && (p.listing == None || |p.listing.value| > 500_000)
    ensures Poll(d, p) == (d, false)
  {
  }
}
