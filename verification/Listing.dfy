/** Listing a directory: what the batch upsert leaves, entry by entry and chunk by chunk. */
module Listing {
  import opened Types
  import opened FileIndex
  import opened Statements

  /** The last entry listed for `path`. */
  function LastEntry(metas: seq<Meta>, path: string): Option<Meta> {
    if metas == [] then None
    else if metas[|metas| - 1].path == path then Some(metas[|metas| - 1])
    else LastEntry(metas[..|metas| - 1], path)
  }

  /** `row` is what a listing reported as `m`, below `parent`. */
  predicate ListedAs(row: Row, parent: Inode, m: Meta, generation: nat) {
    && row.parent == Some(parent) && row.name == m.name && row.path == m.path && row.size == m.size
    && row.mtime == m.mtime && row.etag == m.etag && row.generation == generation
    && row.kind == (if m.isDir then Directory else File)
  }

  /** Every listed path has its row, with the columns of the last entry for it; all other rows
      are the old ones, unchanged; no row is gone and none has another path. */
  ghost predicate Listed(before: Rows, parent: Inode, metas: seq<Meta>, generation: nat, after: Rows) {
    && (forall m :: m in metas ==> exists i :: i in after && after[i].path == m.path)
    && (forall i :: i in after ==>
          var m := LastEntry(metas, after[i].path);
          if m.Some? then ListedAs(after[i], parent, m.value, generation)
          else i in before && after[i] == before[i])
    && (forall i :: i in before ==> i in after && after[i].path == before[i].path)
  }

  /** What one upsert by path leaves. */
  ghost predicate OneListed(before: Rows, parent: Inode, m: Meta, generation: nat, after: Rows) {
    && (exists i :: i in after && after[i].path == m.path)
    && (forall i :: i in after ==>
          if after[i].path == m.path then ListedAs(after[i], parent, m, generation)
          else i in before && after[i] == before[i])
    && (forall i :: i in before ==> i in after && after[i].path == before[i].path)
  }

  lemma UpsertLists(d: Db, parent: Inode, m: Meta, generation: nat)
    requires ValidDb(d) && Upsert(d, parent, m.(itemId := None), generation).1.Some?
    ensures OneListed(d.rows, parent, m, generation, Upsert(d, parent, m.(itemId := None), generation).0.rows)
  {
    UpsertColumns(d, parent, m.(itemId := None), generation);
    UpsertIdentity(d, parent, m.(itemId := None), generation);
  }

  lemma MoreListed(before: Rows, parent: Inode, metas: seq<Meta>, generation: nat, mid: Rows, after: Rows)
    requires metas != [] && Listed(before, parent, metas[..|metas| - 1], generation, mid)
    requires OneListed(mid, parent, metas[|metas| - 1], generation, after)
    ensures Listed(before, parent, metas, generation, after)
  {
    var front, last := metas[..|metas| - 1], metas[|metas| - 1];
    assert metas == front + [last];
    forall m | m in metas ensures exists i :: i in after && after[i].path == m.path {
      if m in front {
        var i :| i in mid && mid[i].path == m.path;
        assert after[i].path == m.path;
      }
    }
  }

  /** An accepted list of entries gives every listed path its row. */
  lemma {:induction false} UpsertAllLists(d: Db, parent: Inode, metas: seq<Meta>, generation: nat)
    requires ValidDb(d)
    ensures ValidDb(UpsertAll(d, parent, metas, generation).0)
    ensures UpsertAll(d, parent, metas, generation).1 ==>
              Listed(d.rows, parent, metas, generation, UpsertAll(d, parent, metas, generation).0.rows)
    decreases |metas|
  {
    if metas != [] {
      var front, last := metas[..|metas| - 1], metas[|metas| - 1];
      var mid := UpsertAll(d, parent, front, generation);
      UpsertAllLists(d, parent, front, generation);
      UpsertKeepsValid(mid.0, parent, last.(itemId := None), generation);
      var step := Upsert(mid.0, parent, last.(itemId := None), generation);
      if mid.1 && step.1.Some? {
        UpsertLists(mid.0, parent, last, generation);
        MoreListed(d.rows, parent, metas, generation, mid.0.rows, step.0.rows);
      }
    }
  }

  // ------------------------------------------------------------------ chunks

  /** A list that runs through can be cut anywhere. */
  lemma {:induction false} UpsertAllSplits(d: Db, parent: Inode, a: seq<Meta>, b: seq<Meta>, generation: nat)
    requires UpsertAll(d, parent, a, generation).1
    ensures UpsertAll(d, parent, a + b, generation)
         == UpsertAll(UpsertAll(d, parent, a, generation).0, parent, b, generation)
    decreases |b|
  {
    if b == [] {
      assert a + b == a;
    } else {
      UpsertAllSplits(d, parent, a, b[..|b| - 1], generation);
      assert (a + b)[..|a + b| - 1] == a + b[..|b| - 1];
    }
  }

  /** What is refused stays refused when more follows. */
  lemma {:induction false} UpsertAllStops(d: Db, parent: Inode, metas: seq<Meta>, n: nat, generation: nat)
    requires n <= |metas| && !UpsertAll(d, parent, metas[..n], generation).1
    ensures !UpsertAll(d, parent, metas, generation).1
    decreases |metas|
  {
    if n == |metas| {
      assert metas[..n] == metas;
    } else {
      assert metas[..|metas| - 1][..n] == metas[..n];
      UpsertAllStops(d, parent, metas[..|metas| - 1], n, generation);
    }
  }

  /** A batch from `d` to `d'` went through the entries before `n`: all of them when it was
      accepted, else those of the chunks of 1000 before the first chunk the schema refuses. */
  ghost predicate Through(d: Db, parent: Inode, metas: seq<Meta>, generation: nat, d': Db, ok: bool, n: nat) {
    && n <= |metas| && UpsertAll(d, parent, metas[..n], generation) == (d', true)
    && if ok then n == |metas|
       else n % 1000 == 0 && !UpsertAll(d, parent, metas[..ChunkEnd(|metas|, n)], generation).1
  }

  /** The end of the chunk that starts at `n`. */
  function ChunkEnd(length: nat, n: nat): nat
    requires n <= length
  {
    if length - n < 1000 then length else n + 1000
  }

  /** A batch is accepted exactly when the whole list is, and then every listed path has its row.
      A refused one leaves what the chunks before the refused chunk leave, and nothing of that
      chunk. */
  lemma BatchExact(d: Db, parent: Inode, metas: seq<Meta>, generation: nat)
    requires ValidDb(d)
    ensures
      var (d', ok) := BatchUpsert(d, parent, metas, generation);
      && ok == UpsertAll(d, parent, metas, generation).1
      && (ok ==> Listed(d.rows, parent, metas, generation, d'.rows))
      && exists n: nat :: Through(d, parent, metas, generation, d', ok, n)
                          && Listed(d.rows, parent, metas[..n], generation, d'.rows)
  {
    var (d', ok) := BatchUpsert(d, parent, metas, generation);
    var n := BatchStops(d, parent, metas, generation);
    UpsertAllLists(d, parent, metas[..n], generation);
    if ok {
      assert metas[..n] == metas;
    } else {
      UpsertAllStops(d, parent, metas, ChunkEnd(|metas|, n), generation);
    }
  }

  lemma {:induction false} BatchStops(d: Db, parent: Inode, metas: seq<Meta>, generation: nat) returns (n: nat)
    ensures
      var (d', ok) := BatchUpsert(d, parent, metas, generation);
      Through(d, parent, metas, generation, d', ok, n)
    decreases |metas|
  {
    n := 0;
    if metas != [] {
      var c := if |metas| < CHUNK_SIZE then |metas| else CHUNK_SIZE;
      var chunk := UpsertAll(d, parent, metas[..c], generation);
      if chunk.1 {
        var k := BatchStops(chunk.0, parent, metas[c..], generation);
        var (d', ok) := BatchUpsert(chunk.0, parent, metas[c..], generation);
        LaterThrough(d, parent, metas, generation, c, d', ok, k);
        n := c + k;
      }
    }
  }

  /** The first chunk in front of a batch. */
  lemma LaterThrough(d: Db, parent: Inode, metas: seq<Meta>, generation: nat, c: nat, d': Db, ok: bool, k: nat)
    requires c <= |metas| && (c == 1000 || c == |metas|) && UpsertAll(d, parent, metas[..c], generation).1
    requires Through(UpsertAll(d, parent, metas[..c], generation).0, parent, metas[c..], generation, d', ok, k)
    ensures Through(d, parent, metas, generation, d', ok, c + k)
  {
    var rest := metas[c..];
    LaterCut(d, parent, metas, c, k, generation);
    if !ok {
      LaterCut(d, parent, metas, c, ChunkEnd(|rest|, k), generation);
      assert ChunkEnd(|rest|, k) != k;
      LaterEnd(|metas|, c, k);
    }
  }

  lemma LaterEnd(length: nat, c: nat, k: nat)
    requires c == 1000 && c + k <= length && k % 1000 == 0
    ensures (c + k) % 1000 == 0 && ChunkEnd(length, c + k) == c + ChunkEnd(length - c, k)
  {
  }

  lemma LaterCut(d: Db, parent: Inode, metas: seq<Meta>, c: nat, k: nat, generation: nat)
    requires c + k <= |metas| && UpsertAll(d, parent, metas[..c], generation).1
    ensures UpsertAll(d, parent, metas[..c + k], generation)
         == UpsertAll(UpsertAll(d, parent, metas[..c], generation).0, parent, metas[c..][..k], generation)
  {
    assert metas[..c + k] == metas[..c] + metas[c..][..k];
    UpsertAllSplits(d, parent, metas[..c], metas[c..][..k], generation);
  }
}
