/** How many bytes the cache holds according to the table, and what local writes do to it. */
module CacheUse {
  import opened Types
  import opened FileIndex
  import opened Statements
  import opened EvictionPlan

  function CacheBytes(r: Row): nat {
    if r.cacheSize.Some? then r.cacheSize.value else 0
  }

  // ---------------------------------------------------------------- total bytes

  ghost function BytesOver(rows: Rows, s: set<Inode>): nat
    requires s <= rows.Keys
  {
    if s == {} then 0
    else var i :| i in s; CacheBytes(rows[i]) + BytesOver(rows, s - {i})
  }

  ghost function TotalBytes(rows: Rows): nat { BytesOver(rows, rows.Keys) }

  lemma {:induction false} BytesPick(rows: Rows, s: set<Inode>, i: Inode)
    requires s <= rows.Keys && i in s
    ensures BytesOver(rows, s) == CacheBytes(rows[i]) + BytesOver(rows, s - {i})
    decreases s
  {
    var j :| j in s && BytesOver(rows, s) == CacheBytes(rows[j]) + BytesOver(rows, s - {j});
    if j != i {
      BytesPick(rows, s - {j}, i);
      BytesPick(rows, s - {i}, j);
      assert s - {j} - {i} == s - {i} - {j};
    }
  }

  lemma {:induction false} BytesSame(a: Rows, b: Rows, s: set<Inode>)
    requires s <= a.Keys && s <= b.Keys
    requires forall i :: i in s ==> CacheBytes(a[i]) == CacheBytes(b[i])
    ensures BytesOver(a, s) == BytesOver(b, s)
    decreases s
  {
    if s != {} {
      var i :| i in s;
      BytesPick(a, s, i);
      BytesPick(b, s, i);
      BytesSame(a, b, s - {i});
    }
  }

  lemma BytesUpdate(rows: Rows, i: Inode, r: Row)
    requires i in rows
    ensures TotalBytes(rows[i := r]) + CacheBytes(rows[i]) == TotalBytes(rows) + CacheBytes(r)
  {
    var after := rows[i := r];
    assert after.Keys == rows.Keys;
    BytesPick(rows, rows.Keys, i);
    BytesPick(after, rows.Keys, i);
    BytesSame(rows, after, rows.Keys - {i});
  }

  // ---------------------------------------------------------------- sizes of rows

  function SizeIn(rows: Rows, i: Inode): nat { if i in rows then CacheBytes(rows[i]) else 0 }

  ghost function Sizes(rows: Rows, inodes: seq<Inode>): seq<nat> {
    seq(|inodes|, k requires 0 <= k < |inodes| => SizeIn(rows, inodes[k]))
  }

  lemma SizesTake(rows: Rows, q: seq<Inode>, n: nat)
    requires n <= |q|
    ensures Sizes(rows, q[..n]) == Sizes(rows, q)[..n]
  {
  }

  lemma SizesDrop(before: Rows, after: Rows, q: seq<Inode>, n: nat)
    requires n <= |q|
    requires forall k :: n <= k < |q| ==> q[k] in before && q[k] in after && after[q[k]] == before[q[k]]
    ensures Sizes(after, q[n..]) == Sizes(before, q)[n..]
  {
  }

  lemma SizesSnoc(rows: Rows, inodes: seq<Inode>, i: Inode)
    ensures Sum(Sizes(rows, inodes + [i])) == Sum(Sizes(rows, inodes)) + SizeIn(rows, i)
  {
    var all := Sizes(rows, inodes + [i]);
    assert all[..|all| - 1] == Sizes(rows, inodes);
  }

  lemma SizesJoin(a: Rows, b: Rows, first: seq<Inode>, more: seq<Inode>)
    requires forall i :: i in more ==> i in a && i in b && a[i] == b[i]
    ensures Sum(Sizes(a, first + more)) == Sum(Sizes(a, first)) + Sum(Sizes(b, more))
  {
    assert Sizes(a, first + more) == Sizes(a, first) + Sizes(b, more);
    SumSplit(Sizes(a, first), Sizes(b, more));
  }

  // ------------------------------------------------------------------ local writes

  /** A local write: the row it hits and the size of the file afterwards. */
  datatype Write = Write(inode: Inode, size: nat)

  /** Local writes, one after the other. */
  function WriteAll(rows: Rows, ws: seq<Write>): Rows {
    if ws == [] then rows
    else SetDirtySize(WriteAll(rows, ws[..|ws| - 1]), ws[|ws| - 1].inode, ws[|ws| - 1].size)
  }

  /** How much one write adds to, or takes from, the cached bytes. */
  function GrowthOf(rows: Rows, w: Write): int {
    SizeIn(SetDirtySize(rows, w.inode, w.size), w.inode) - SizeIn(rows, w.inode)
  }

  function Growth(rows: Rows, ws: seq<Write>): int {
    if ws == [] then 0
    else Growth(rows, ws[..|ws| - 1]) + GrowthOf(WriteAll(rows, ws[..|ws| - 1]), ws[|ws| - 1])
  }

  predicate Hits(ws: seq<Write>, i: Inode) { exists k :: 0 <= k < |ws| && ws[k].inode == i }

  lemma HitsFront(ws: seq<Write>, i: Inode)
    requires ws != []
    ensures Hits(ws, i) <==> Hits(ws[..|ws| - 1], i) || ws[|ws| - 1].inode == i
  {
    var front := ws[..|ws| - 1];
    if k :| 0 <= k < |ws| && ws[k].inode == i { assert k < |front| ==> front[k].inode == i; }
    if k :| 0 <= k < |front| && front[k].inode == i { assert ws[k].inode == i; }
    assert ws[|ws| - 1].inode == i ==> Hits(ws, i);
  }

  /** `b` is `a` after a write to it. */
  predicate Rewritten(a: Row, b: Row) { b == Dirtied(a, b.size) && CachePathPresent(b) }

  /** What a row can become through writes alone. */
  predicate Stays(a: Row, b: Row, written: bool) { b == a || (written && Rewritten(a, b)) }

  /** Writes touch only the rows they hit, and those only as writes do. */
  lemma {:induction false} WritesTouch(rows: Rows, ws: seq<Write>)
    ensures WriteAll(rows, ws).Keys == rows.Keys
    ensures forall i :: i in rows ==> Stays(rows[i], WriteAll(rows, ws)[i], Hits(ws, i))
  {
    if ws != [] {
      WritesTouch(rows, ws[..|ws| - 1]);
      forall i | i in rows ensures Stays(rows[i], WriteAll(rows, ws)[i], Hits(ws, i)) { HitsFront(ws, i); }
    }
  }

  /** The cached bytes change by exactly the growth. */
  lemma {:induction false} WritesGrow(rows: Rows, ws: seq<Write>)
    ensures TotalBytes(WriteAll(rows, ws)) == TotalBytes(rows) + Growth(rows, ws)
  {
    if ws != [] {
      var mid, w := WriteAll(rows, ws[..|ws| - 1]), ws[|ws| - 1];
      WritesGrow(rows, ws[..|ws| - 1]);
      if w.inode in mid { BytesUpdate(mid, w.inode, Dirtied(mid[w.inode], w.size)); }
    }
  }
}
