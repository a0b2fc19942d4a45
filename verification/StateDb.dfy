/** The state database as an object: methods that run the statements one after the other,
    each proved to do what the statement functions say. */
module StateDb {
  import opened Types
  import opened Sequences
  import opened Ordering
  import opened FileIndex
  import opened Statements
  import Listing

  class StateDb {
    var rows: Rows
    var next: Inode
    var generation: nat

    ghost function State(): Db
      reads this
    {
      Db(rows, next, generation)
    }

    ghost predicate Ok()
      reads this
    {
      ValidDb(State())
    }

    /** A new database; inode 1 is kept for the root. */
    constructor ()
      ensures Ok() && State() == Db(map[], ROOT_INODE + 1, 0)
    {
      rows, next, generation := map[], ROOT_INODE + 1, 0;
    }

    method FindById(id: Option<string>) returns (r: Option<Inode>)
      requires Ok()
      ensures r == ById(rows, id)
    {
      var hits := set i | i in rows && rows[i].itemId == id;
      if id.Some? && hits != {} {
        var i :| i in hits;
        ByIdUnique(rows, i);
        r := Some(i);
      } else {
        r := None;
        assert forall i :: i in rows && rows[i].itemId == id ==> i in hits;
      }
    }

    method FindByPath(path: string) returns (r: Option<Inode>)
      requires Ok()
      ensures r == At(rows, path)
    {
      var hits := set i | i in rows && rows[i].path == path;
      if hits != {} {
        var i :| i in hits;
        AtUnique(rows, i);
        r := Some(i);
      } else {
        r := None;
        assert forall i :: i in rows && rows[i].path == path ==> i in hits;
      }
    }

    /** One DELETE by inode; refused while other rows name `i` as their parent. */
    method DeleteRow(i: Inode) returns (ok: bool)
      requires Ok()
      modifies this`rows
      ensures Ok() && ok == !HasChildren(old(rows), i)
      ensures rows == if ok then old(rows) - {i} else old(rows)
    {
      ok := !HasChildren(rows, i);
      if ok {
        DeleteKeepsValid(rows, i);
        rows := rows - {i};
      }
    }

    /** One INSERT or UPDATE of a whole row; refused when the schema does not accept it. */
    method PutRow(i: Inode, row: Row) returns (ok: bool)
      requires Ok() && i < next
      modifies this`rows
      ensures Ok() && ok == Admissible(old(rows), i, row)
      ensures rows == if ok then old(rows)[i := row] else old(rows)
    {
      ok := Admissible(rows, i, row);
      if ok {
        PutKeepsValid(rows, i, row);
        rows := rows[i := row];
      }
    }

    method UpsertRemoteFile(parent: Inode, m: Meta, pollGeneration: nat) returns (r: Option<Inode>)
      requires Ok()
      modifies this
      ensures Ok()
      ensures (State(), r) == Upsert(old(State()), parent, m, pollGeneration)
    {
      var byId := FindById(m.itemId);
      var holder := FindByPath(m.path);
      if byId.Some? {
        var i := byId.value;
        var row := Refreshed(rows[i], parent, m, pollGeneration);
        if rows[i].path != m.path && holder.Some? {
          var deleted := DeleteRow(holder.value);
          if !deleted { return None; }
        }
        var ok := PutRow(i, row);
        r := if ok then Some(i) else None;
      } else if holder.Some? {
        var i := holder.value;
        var ok := PutRow(i, Refreshed(rows[i], parent, m, pollGeneration));
        r := if ok then Some(i) else None;
      } else {
        var row := Fresh(parent, m, pollGeneration);
        if Admissible(rows, next, row) {
          PutKeepsValid(rows, next, row);
          rows := rows[next := row];
          r, next := Some(next), next + 1;
        } else {
          r := None;
        }
      }
    }

    /** `batch_upsert_remote_files_gen`: chunk by chunk, a refused entry rolling its chunk back. */
    method BatchUpsertRemoteFiles(parent: Inode, metas: seq<Meta>, pollGeneration: nat) returns (ok: bool)
      requires Ok()
      modifies this
      ensures Ok()
      ensures (State(), ok) == BatchUpsert(old(State()), parent, metas, pollGeneration)
    {
      var rest := metas;
      ok := true;
      while rest != []
        invariant Ok()
        invariant BatchUpsert(old(State()), parent, metas, pollGeneration)
               == BatchUpsert(State(), parent, rest, pollGeneration)
        decreases |rest|
      {
        var n := if |rest| < CHUNK_SIZE then |rest| else CHUNK_SIZE;
        ok := UpsertChunk(parent, rest[..n], pollGeneration);
        if !ok { return; }
        rest := rest[n..];
      }
    }

    /** One transaction. */
    method UpsertChunk(parent: Inode, chunk: seq<Meta>, pollGeneration: nat) returns (ok: bool)
      requires Ok()
      modifies this
      ensures Ok()
      ensures
        var r := UpsertAll(old(State()), parent, chunk, pollGeneration);
        ok == r.1 && State() == if ok then r.0 else old(State())
    {
      var rows0, next0, generation0 := rows, next, generation;
      ok := true;
      var k := 0;
      while k < |chunk|
        invariant k <= |chunk| && Ok()
        invariant (State(), true) == UpsertAll(old(State()), parent, chunk[..k], pollGeneration)
      {
        assert chunk[..k + 1][..k] == chunk[..k];
        var r := UpsertRemoteFile(parent, chunk[k].(itemId := None), pollGeneration);
        if r.None? {
          Listing.UpsertAllStops(old(State()), parent, chunk, k + 1, pollGeneration);
          rows, next, generation := rows0, next0, generation0;
          return false;
        }
        k := k + 1;
      }
      assert chunk[..k] == chunk;
    }

    /** `batch_mark_generation`. */
    method MarkGeneration(inodes: seq<Inode>, pollGeneration: nat)
      requires Ok()
      modifies this`rows
      ensures Ok() && rows == Mark(old(rows), inodes, pollGeneration)
    {
      MarkKeepsValid(rows, inodes, pollGeneration);
      var k := 0;
      while k < |inodes|
        invariant k <= |inodes|
        invariant rows == Mark(old(rows), inodes[..k], pollGeneration)
      {
        assert inodes[..k + 1] == inodes[..k] + [inodes[k]];
        if inodes[k] in rows {
          rows := rows[inodes[k] := rows[inodes[k]].(generation := pollGeneration)];
        }
        k := k + 1;
      }
      assert inodes[..k] == inodes;
    }

    /** The loop of `delete_stale_entries` over the selected rows. */
    method DeleteAll(order: seq<Inode>) returns (ok: bool)
      requires Ok()
      modifies this`rows
      ensures Ok() && (rows, ok) == Sweep(old(rows), order)
    {
      var k := 0;
      ok := true;
      while k < |order| && ok
        invariant k <= |order| && Ok()
        invariant (rows, ok) == Sweep(old(rows), order[..k])
      {
        assert order[..k + 1][..k] == order[..k];
        ok := DeleteRow(order[k]);
        k := k + 1;
      }
      if !ok { SweepStops(old(rows), order, k); } else { assert order[..k] == order; }
    }

    /** The rows that the stale-row query returns, in its order. */
    method SelectStale(pollGeneration: nat, scan: Inode -> int) returns (order: seq<Inode>)
      ensures forall i :: i in order <==>
        i in rows && rows[i].generation < pollGeneration && !rows[i].status.IsLocalWork() && i != ROOT_INODE
      ensures forall a, b :: 0 <= a < b < |order| ==> order[a] != order[b]
      ensures Ascending(scan, order)
    {
      order := Ranked(StaleRows(rows, pollGeneration), scan);
      RankedAscending(StaleRows(rows, pollGeneration), scan);
      assert forall i :: i in order <==> i in ElemsOf(order);
    }

    method SetPollGeneration(pollGeneration: nat)
      requires Ok()
      modifies this`generation
      ensures Ok() && State() == old(State()).(generation := pollGeneration)
    {
      generation := pollGeneration;
    }

    /** The common part of the two remote deletions. */
    method DeleteUnlessLocalWork(found: Option<Inode>) returns (r: Deletion)
      requires Ok() && (found.Some? ==> found.value in rows)
      modifies this`rows
      ensures Ok() && (rows, r) == DeleteFound(old(rows), found)
    {
      if found.None? || rows[found.value].status.IsLocalWork() { return Nothing; }
      var cachePath := rows[found.value].cachePath;
      var ok := DeleteRow(found.value);
      r := if ok then Removed(found.value, cachePath) else Refused;
    }

    method DeleteRemoteEntryByPath(path: string) returns (r: Deletion)
      requires Ok()
      modifies this`rows
      ensures Ok() && (rows, r) == DeleteByPath(old(rows), path)
    {
      var found := FindByPath(path);
      r := DeleteUnlessLocalWork(found);
    }

    method DeleteRemoteEntryByItemId(id: string) returns (r: Deletion)
      requires Ok()
      modifies this`rows
      ensures Ok() && (rows, r) == DeleteById(old(rows), id)
    {
      var found := FindById(Some(id));
      r := DeleteUnlessLocalWork(found);
    }
  }
}
