# Stratosync: a verified model of the sync core

Stratosync mounts a remote store as a file system. Every mount has a table of files
(`file_index`), a disk cache, a content-addressed blob store and a poller that keeps the
table in step with the remote. This project models how the loops and step sequences of the
daemon treat that state, and proves what they keep, what they compute and where they fail.

`dafny verify dfyconfig.toml` checks all of it.

## How the model is built

- `FileIndex` and `Statements` give the table and its SQL statements as functions on a finite
  map, with the constraints of the migrations: unique remote path, unique item id, unique name
  within a parent, an existing parent, no deletion of a row that still has children (foreign
  keys are on, `parent_inode` has no cascade), a cache path for every cached, dirty or
  uploading file. A statement that violates a constraint is refused. The daemon opens one
  database per mount, so the mount id is left out of the rows.
- `Listing` says what a directory listing, upserted in chunks of 1000, leaves.
- `StateDb` is the database as an object; every method is proved to compute its statement
  function.
- `PollSpec` describes one full poll as a function of the database, the listing, the filters,
  the order in which the stale-row query scans, and the number of statements that complete
  before the poll is cut short. `Poller.PollOnce` is the loop as the daemon runs it, proved
  equal to that function. `PollRefinement`, `PollTheorem`, `PollParents`, `PollFinish`,
  `Acceptance` and `PollConvergence` prove what a poll and what whole runs of polls achieve,
  and when a poll finishes; `PollColumns` says what a finished poll leaves in the columns of
  the table, in none of the terms in which the poll is described.
- `Delta` does the same for change lists, against a fold over a plain map from item id to
  metadata; `DeltaFinish`, `DeltaParents` and `DeltaStuck` say when a list runs through, which
  parents it assigns, and when the change token can never move. `LocalWork` covers arbitrary mixes of statements.
- `EvictionRun` describes a run of cache eviction with failing removals and local writes
  (`CacheUse`), `Eviction` is the loop as the daemon runs it, and `EvictionPlan` and
  `EvictionRefinement` relate it to a single pass.
- `Blobs` models `base_versions`, `version_history` and the blobs they share, `Versions` says
  row by row and blob by blob what each step leaves, and `BlobDb` is the store as an object.
- `ConflictName`, `Conflict` and `Hydration` model conflict names, conflict resolution and
  hydration; every step may fail.
- `Base64`, `Hashes`, `DrivePath`, `OrphanWalk` and `TransferWindow` model the algorithmic
  pieces. `Ordering`, `Sequences`, `Text` and `Types` are shared.

Clocks, random numbers, the outcome of every system call and of every remote call, the order
of query results, and the outcome of `git merge-file` are inputs, chosen freely for every
step. Strings stand for byte sequences where the source compares bytes; integers are
unbounded.

## What the code does not keep

Each of these has its exact condition and a smallest case.

- **Remote deletion of a directory, full polls.** The sweep deletes stale rows one by one in
  query order, and a row that still has children is refused by the parent foreign key. The
  documentation says that remote deletions are swept; in the code this holds if and only if
  the query returns every stale row after all of its children (`Statements.SweepCompletes`,
  and for a whole poll `PollFinish.PollFinishes`). A directory returned before its child, as
  with a scan by inode, makes this poll and every later one fail
  (`PollConvergence.PollingNeverFinishes`, smallest case `VanishedDirectoryBlocks`).
- **Remote deletion of a directory, delta polls.** A list of deletions runs through if and only
  if it names every row after all of the row's children (`DeltaFinish.DeletionsGoThrough`; any
  list: `ListGoesThrough`). A folder deleted before its contents is refused, the token is not
  stored, and it never moves again (`DeltaStuck.TokenNeverMoves`, smallest case
  `FolderBeforeFile`).
- **Parents in delta polls.** The changes are taken in the provider's order and deleted folders
  stay in the path index, so an entry can hang below the root or be refused
  (`DeltaParents.DeltaParentGiven` and `KnownParentRight` say exactly when the parent is right;
  `DeletedFolderRefuses`; smallest case `ChildBeforeFolder`).
- **Rename onto a dirty file.** The collision delete has no status guard
  (`FileIndex.UpsertLosesLocalWork`, smallest case `LocalWork.RenameDropsDirtyFile`).
- **Eviction racing with a write.** The loop reads the status, unlinks the file and clears the
  row in three steps, and the last one has no status guard. An edit is lost if and only if a
  write hits a candidate in the middle of the turn that evicts it (`EvictionRun.TurnLosesEdits`
  for a turn, `EditsLostExactly` for a run); the freed bytes are then off by its growth.
  Smallest cases `LocalWork.EvictionDropsLateWrite` and `EvictionRefinement.LateWriteIsLost`.
- **Conflict rows.** The diff skips the conflict namespace without bumping generations, so the
  next finished poll removes those rows (`PollFinish.ConflictRowsSwept`, smallest case
  `ListedConflictRowGoes`).
- **Batches of empty files.** A pass that evicts only empty files frees nothing and ends the
  loop early (`EvictionRefinement.EvictionRefinesSinglePass`, smallest case
  `EmptyFilesStopEviction`).
- **Base eviction.** References are counted in `base_versions` only, so evicting a base can
  leave a history row without its blob (`Blobs.EvictionDangles`, smallest case
  `EvictionCanDangle`).
- **Conflict names without extension.** The command line tool takes the content hash for the
  extension (`ConflictName.RoundTrip`, smallest cases `BareNameNotRecovered` and
  `MarkedStemNotRecovered`).
- **Base64 that looks like hex** (`Hashes.Base64Reads`, smallest case `Base64ReadAsHex`).
- **Hydration of an unsafe path** ends the call after the row was set to Hydrating and before
  anything is tracked, so the row stays in that status (`Hydration.StuckInHydrating`, smallest
  case `UnsafePathSticks`).

The conflict documentation promises a SHA-256 prefix in the file name where the code computes
an FNV-1a hash; the model takes the hash text as an input.

## Model

| member | source | states |
|---|---|---|
| `FileIndex.UpsertIdentity` | crates/stratosync-core/src/state/mod.rs:953-1052 | a successful upsert answers with the only row at the target path; that row is the one with the item id, else the one at the path, else a new inode; dirty and uploading rows keep status and cache file; nothing stays at the item's old path; of the other rows at most the former holder of the target path is gone, and path and id uniqueness hold afterwards |
| `FileIndex.UpsertColumns` | crates/stratosync-core/src/state/mod.rs:990-1052 | the row after a successful upsert, column by column: parent, name, path, kind, size, mtime, etag and generation are the reported ones; a known row stays Dirty or Uploading or else becomes Stale, and keeps its cache columns and a known item id; a new row is Remote without cache columns |
| `FileIndex.UpsertRefused` | crates/stratosync-core/src/state/mod.rs:979-1012 | an upsert that the schema refuses changes nothing, except that the childless row holding the target path of a rename may already be gone (the statements are not one transaction) |
| `FileIndex.UpsertLosesLocalWork` | crates/stratosync-core/src/state/mod.rs:979-1037 | an upsert keeps every dirty or uploading row with its status and cache file if and only if it does not rename an item onto a childless row with unsynced edits |
| `FileIndex.UpsertKeepsValid` | crates/stratosync-core/src/state/mod.rs:953-1052 | every upsert, refused or not, preserves all schema constraints and the inode bound |
| `FileIndex.DeleteKeepsValid` | crates/stratosync-core/src/state/migrations/0001_initial.sql:16-36 | deleting a row preserves every constraint provided that no row names it as its parent |
| `FileIndex.ValidSpelled` | crates/stratosync-core/src/state/migrations/0010_file_cache_path_invariant.sql:51-69 | the modelled constraints in terms of columns: cache path of cached, dirty and uploading files, existing parents, unique path, item id and name within a parent |
| `Statements.SweepCompletes` | crates/stratosync-core/src/state/mod.rs:2702-2733 | the deletion loop runs through if and only if the query returns every row after all of the row's children; otherwise the parent foreign key stops it |
| `Statements.SweepRemoves` | crates/stratosync-core/src/state/mod.rs:2702-2733 | a sweep only removes selected rows, changes no other row, and removes all selected rows when it completes |
| `Statements.SweepStops` | crates/stratosync-core/src/state/mod.rs:2702-2733 | once a deletion is refused the rows stay as they were at that point |
| `Statements.SweepKeepsValid` | crates/stratosync-core/src/state/mod.rs:2702-2733 | a sweep, completed or not, preserves the schema constraints |
| `Statements.MarkKeepsValid` | crates/stratosync-core/src/state/mod.rs:2670-2700 | bumping generations preserves the schema constraints |
| `Statements.EvictedKeepsValid` | crates/stratosync-core/src/state/mod.rs:427-440 | clearing the cache columns of any set of rows preserves the schema constraints |
| `Statements.EvictedSpelled` | crates/stratosync-core/src/state/mod.rs:427-440 | an evicted row is Remote without cache path, cache size and LRU row; every other column and row stays |
| `Statements.ClearedSpelled` | crates/stratosync-core/src/state/mod.rs:655-720 | clearing a mount evicts exactly the cached and stale files with a cache path, pinned ones on request only |
| `Statements.CachedSpelled` | crates/stratosync-core/src/state/mod.rs:358-425 | `set_cached` leaves a Cached row with the given columns and a fresh access time; a pin stays |
| `Statements.WrittenSpelled` | crates/stratosync-core/src/state/mod.rs:329-336 | a local write leaves a Dirty row with the new size and cache size, and nothing happens to a file without a cache path |
| `Statements.DeletedSpelled` | crates/stratosync-core/src/state/mod.rs:2993-3022 | a deletion by path or by item id does nothing to unsynced edits, is refused while a row has children, and otherwise removes the row and reports its cache path |
| `Listing.BatchExact` | crates/stratosync-core/src/state/mod.rs:184-230 | a batch is accepted if and only if the schema accepts the whole list, and then every listed path has its row with the columns of the last entry for it and no other row changes; a refused batch leaves exactly that for the full chunks of 1000 before the first refused chunk, and nothing of that chunk |
| `Listing.UpsertAllLists` | crates/stratosync-core/src/state/mod.rs:195-222 | an accepted list of entries gives every listed path its row; all other rows stay as they were |
| `StateDb.StateDb.UpsertRemoteFile` | crates/stratosync-core/src/state/mod.rs:953-1052 | the statement sequence computes the upsert specification on every input and keeps the schema constraints |
| `StateDb.StateDb.BatchUpsertRemoteFiles` | crates/stratosync-core/src/state/mod.rs:184-230 | the chunk loop with its roll-back computes the batch of `Listing.BatchExact` |
| `StateDb.StateDb.MarkGeneration` | crates/stratosync-core/src/state/mod.rs:2670-2700 | the update loop gives exactly the listed existing rows the new generation |
| `StateDb.StateDb.DeleteAll` | crates/stratosync-core/src/state/mod.rs:2725-2733 | the deletion loop computes the sweep specification, including where it stops |
| `StateDb.StateDb.SelectStale` | crates/stratosync-core/src/state/mod.rs:2707-2723 | a row is returned if and only if its generation is older, it is neither dirty nor uploading, and it is not the root; no row twice, and in the order of the scan |
| `StateDb.StateDb.DeleteRemoteEntryByPath` | crates/stratosync-core/src/state/mod.rs:2993-3025 | removes the row at the path unless it is dirty, uploading or has children, and reports its cache file |
| `StateDb.StateDb.DeleteRemoteEntryByItemId` | crates/stratosync-core/src/state/mod.rs:3026-3051 | the same by item id |
| `StateDb.StateDb.FindById` | crates/stratosync-core/src/state/mod.rs:968-977 | the lookup by item id finds the one row that has it, or none when no row does |
| `PollSpec.SortByLengthSorts` | crates/stratosync-daemon/src/sync/poller.rs:272-273 | the upsert order is a permutation of the changed entries by increasing path length |
| `PollSpec.SortByLengthStable` | crates/stratosync-daemon/src/sync/poller.rs:272-273 | the sort is stable: entries whose paths are equally long keep their order |
| `PollSpec.TornSpelled` | crates/stratosync-core/src/state/mod.rs:979-1012 | an upsert that dies after its first statement has removed the childless row at the target path of a rename |
| `PollRefinement.ClaimStable` | crates/stratosync-daemon/src/sync/poller.rs:281-312 | after any number of upserts of the same poll, the next entry still finds the row it would have found before the poll |
| `PollRefinement.UpsertsExact` | crates/stratosync-daemon/src/sync/poller.rs:281-312 | the upsert loop as a whole amounts to landing every entry on the row it claimed before the poll (or on a new inode) and to nothing else |
| `PollTheorem.FullPollRebuilds` | crates/stratosync-daemon/src/sync/poller.rs:158-365 | a finished full poll rebuilds the index from the listing: each accepted entry has its row with the listing's size and etag under its old inode if it had one, ignored entries keep their rows, the root and all local work stay, and no other row is left |
| `PollTheorem.EntryStands` | crates/stratosync-daemon/src/sync/poller.rs:187-239 | each indexable entry of the listing has exactly one row: the old one with a new generation if it had the listing's size and etag or is ignored, else one with the listing's columns |
| `PollTheorem.RowAccounted` | crates/stratosync-daemon/src/sync/poller.rs:314-332 | every row left after a finished poll is the root, local work, or listed |
| `PollColumns.AcceptedEntry` | crates/stratosync-daemon/src/sync/poller.rs:187-239 | in columns: after a finished poll every entry that passes the filters has exactly one row at its path, with the listing's size and etag; a row that had both before has changed in its generation only; any other was updated from the listing or is new |
| `PollColumns.IgnoredEntry` | crates/stratosync-daemon/src/sync/poller.rs:204-213 | the row of an ignored entry changes in its generation only |
| `PollColumns.OtherRows` | crates/stratosync-daemon/src/sync/poller.rs:314-332 | every row that is left is the root, was Dirty or Uploading, or has the path of an entry that passes the filters |
| `PollColumns.UnsyncedRow` | crates/stratosync-daemon/src/sync/poller.rs:314-332 | a Dirty or Uploading row outlives a finished poll with its status and cache file |
| `PollColumns.FiltersSpelled` | crates/stratosync-daemon/src/sync/poller.rs:187-213 | the filters letter by letter: no two dots in a row and no NUL in the path, no slash in the name, not in the conflict namespace, not at or below a tombstone, and not ignored |
| `PollColumns.DiffSpelled` | crates/stratosync-daemon/src/sync/poller.rs:187-239 | an entry is upserted if and only if it passes the filters and no row at its path has its size and etag; a row is marked if and only if it has, or its entry is ignored |
| `PollColumns.NoListing` | crates/stratosync-daemon/src/sync/poller.rs:162-171 | a failed listing, or one of more than 500000 entries, changes nothing |
| `PollParents.ParentAssigned` | crates/stratosync-daemon/src/sync/poller.rs:272-312 | every upserted entry hangs below the row at its parent path when that path was indexed before or upserted in the same poll, and below the root otherwise |
| `PollParents.IndexExact` | crates/stratosync-daemon/src/sync/poller.rs:276-312 | the path index that the loop maintains agrees with the table for every old and every upserted path |
| `PollConvergence.PollBounds` | crates/stratosync-daemon/src/sync/poller.rs:173-332 | a poll, cut short anywhere, stores its generation exactly when it finishes, reuses no inode and takes no row beyond stored + 1 |
| `PollConvergence.PollLeaves` | crates/stratosync-daemon/src/sync/poller.rs:158-332 | a poll leaves a row that its listing does not speak of unchanged, or removes it; a finished poll removes it if it is clean and of an old generation |
| `PollConvergence.GenerationsBounded` | crates/stratosync-core/src/state/mod.rs:2735-2754 | in every run of polls, finished or aborted, and local activity, no row is more than one generation ahead of the stored one |
| `PollConvergence.TwoFinishedPollsSuffice` | crates/stratosync-daemon/src/sync/poller.rs:173-332 | a row that stays unlisted and clean is gone after at most two finished polls, whatever polls abort before, between or after them |
| `PollConvergence.VanishedRowGoes` | crates/stratosync-daemon/src/sync/poller.rs:173-332 | one finished poll suffices when the row's generation is not ahead of the stored one |
| `PollConvergence.StuckPoll` | crates/stratosync-core/src/state/mod.rs:2702-2733 | with a vanished directory returned before a child of it the poll fails, wherever it is cut, and leaves both rows as they were |
| `PollConvergence.PollingNeverFinishes` | crates/stratosync-daemon/src/sync/poller.rs:316-332 | and so does every later poll, for ever |
| `PollConvergence.VanishedDirectoryBlocks` | crates/stratosync-core/src/state/migrations/0001_initial.sql:16-36 | the smallest database and listing for which this happens, however many statements the poll may run |
| `PollFinish.PollFinishes` | crates/stratosync-daemon/src/sync/poller.rs:158-332 | a poll whose listing arrived finishes if and only if every upsert goes through, enough statements complete, and the stale-row query returns every row after all of the row's children |
| `Acceptance.UpsertGoesThrough` | crates/stratosync-core/src/state/mod.rs:953-1052 | an upsert goes through if and only if a row that holds the wanted path has no children, the parent is there, no other row has the name below that parent, and unsynced edits have a cache file |
| `Acceptance.PlanGoesThrough` | crates/stratosync-daemon/src/sync/poller.rs:281-312 | the upserts of a poll go through if and only if each is acceptable after those before it |
| `Acceptance.SettledGoesThrough` | crates/stratosync-daemon/src/sync/poller.rs:281-312 | for a plan that tells one consistent story, and a table with its root, the only obstacle is another row of the same name below the parent that the loop picks |
| `Acceptance.CoherentPollFinishes` | crates/stratosync-daemon/src/sync/poller.rs:158-332 | for a coherent listing: a poll finishes if and only if no such name is taken, enough statements complete, and the stale rows come children first |
| `PollFinish.UnlistedRowExact` | crates/stratosync-daemon/src/sync/poller.rs:314-332 | after a finished poll, any listing, a row the listing does not speak of is gone if and only if it is clean, not the root and of an old generation; else it is unchanged |
| `PollFinish.PollSpares` | crates/stratosync-daemon/src/sync/poller.rs:158-332 | such a row that is dirty, uploading, the root or ahead of the stored generation outlives every poll unchanged, finished or not |
| `PollFinish.ConflictRowsSwept` | crates/stratosync-daemon/src/sync/poller.rs:194-199 | for any listing, a finished poll removes the row of a conflict file if and only if it is clean and of an old generation, because the diff skips the conflict namespace without bumping generations |
| `PollFinish.ListedConflictRowGoes` | crates/stratosync-daemon/src/sync/poller.rs:194-199 | a database and a listing that names the conflict file for which the poll deletes its row |
| `Poller.DiffListing` | crates/stratosync-daemon/src/sync/poller.rs:181-239 | the diff loop sorts the listing into upserts, marks and the three skip counters; in columns: exactly the accepted entries whose size or etag differs from the row at their path are upserted, and exactly the rows of unchanged or ignored entries are marked |
| `Poller.UpsertLoop` | crates/stratosync-daemon/src/sync/poller.rs:276-312 | the upsert loop with its growing path index computes the specified run and stops at the first refused statement |
| `Poller.PollOnce` | crates/stratosync-daemon/src/sync/poller.rs:158-365 | a poll computes the specification on every database, listing, scan order and abort point |
| `Poller.MarkAndSweep` | crates/stratosync-daemon/src/sync/poller.rs:314-332 | marks, sweeps and stores the generation only after a complete sweep |
| `Delta.ApplyAll` | crates/stratosync-daemon/src/sync/poller.rs:444-565 | the change loop computes the specified run: filtered upserts, deletes by id then by path, stop at the first refused statement |
| `Delta.DeltaRefinesFold` | crates/stratosync-daemon/src/sync/poller.rs:444-565 | a regular change list that runs through gives exactly the rows that a fold over a plain map from item id to metadata gives, inodes included |
| `DeltaFinish.ListGoesThrough` | crates/stratosync-daemon/src/sync/poller.rs:444-566 | a change list runs through if and only if each change is acceptable after those before it: a reported entry is welcome, a deletion is not after a row with children |
| `DeltaFinish.DeletionExact` | crates/stratosync-core/src/state/mod.rs:2993-3051 | for any table a deletion is refused if and only if the row it is after, the clean row with the id, else the clean row at the path, has children; otherwise exactly that row goes |
| `DeltaFinish.DeletionsSweep` | crates/stratosync-daemon/src/sync/poller.rs:527-563 | a list that deletes distinct clean rows by id, or by path without an id, does to the table exactly what the sweep of full polls does to these rows in that order |
| `DeltaFinish.DeletionsGoThrough` | crates/stratosync-daemon/src/sync/poller.rs:527-563 | so it runs through if and only if it names every row after all of the row's children |
| `DeltaFinish.DeletionsRefineFold` | crates/stratosync-daemon/src/sync/poller.rs:527-563 | and then gives the rows of the fold |
| `DeltaParents.DeltaParentGiven` | crates/stratosync-daemon/src/sync/poller.rs:497-524 | a reported entry is given the inode of the last report of its folder's path in the same list, else the row that was there before the poll, else the root |
| `DeltaParents.KnownParentRight` | crates/stratosync-daemon/src/sync/poller.rs:497-524 | a known folder is the right parent if and only if its row still holds the folder's path |
| `DeltaParents.DeletedFolderRefuses` | crates/stratosync-daemon/src/sync/poller.rs:497-524 | a new entry in a folder deleted earlier in the list is given the deleted inode and refused |
| `DeltaParents.ChildBeforeFolder` | crates/stratosync-daemon/src/sync/poller.rs:497-524 | a list that reports a file before its new folder leaves the file below the root |
| `Delta.SurvivorKeepsInode` | crates/stratosync-daemon/src/sync/poller.rs:444-528 | an item that survives every change keeps its inode |
| `Delta.FoldKeepsLocalWork` | crates/stratosync-core/src/state/mod.rs:3026-3051 | a change removes an unsynced item if and only if it moves another known item onto its path |
| `Delta.RepresentsUnique` | crates/stratosync-daemon/src/sync/poller.rs:444-565 | the table determines the map it represents |
| `DeltaStuck.TokenAdvances` | crates/stratosync-daemon/src/sync/poller.rs:408-569 | a delta poll brings the token to the end of the provider's log if and only if every change after the token is acceptable |
| `DeltaStuck.TokenNeverMoves` | crates/stratosync-daemon/src/sync/poller.rs:408-569 | while the first change about an occupied folder or its child is the deletion of the folder, the token never moves, however often the daemon polls, whatever the log grows by and whatever else happens in the database |
| `DeltaStuck.FolderBeforeFile` | crates/stratosync-daemon/src/sync/poller.rs:527-569 | a folder with one file, both in the log as deleted, the folder first, and the token before them |
| `DeltaStuck.StuckDelta` | crates/stratosync-daemon/src/sync/poller.rs:527-563 | a change list that deletes a folder before anything speaks of its child fails, whatever follows, and leaves both rows as they were |
| `LocalWork.LocalWorkSurvives` | crates/stratosync-core/src/state/mod.rs:655-720 | over every mix of sweeps, marks, deletes by path or id, batch and single upserts, cache clears and evictions in which no item is renamed onto a row with unsynced edits and no row is cleared while it has some, each dirty or uploading row stays with its status and cache file |
| `LocalWork.StepKeeps` | crates/stratosync-core/src/state/mod.rs:2702-2733 | a statement keeps all local work if and only if it is neither of these two exceptions |
| `LocalWork.EvictionLosesLocalWork` | crates/stratosync-core/src/state/mod.rs:427-440 | `set_evicted` costs local work if and only if the row has unsynced edits at that moment, for it has no status guard |
| `LocalWork.EvictionDropsLateWrite` | crates/stratosync-daemon/src/cache/mod.rs:131-150 | a database for which a write between the status check and `set_evicted` is lost |
| `LocalWork.BatchUpsertKeeps` | crates/stratosync-core/src/state/mod.rs:184-230 | a directory listing upserted in chunks never costs local work, wherever a chunk fails |
| `LocalWork.RenameDropsDirtyFile` | crates/stratosync-core/src/state/mod.rs:986-990 | a database and an event for which a rename drops the row of a dirty file |
| `EvictionPlan.SinglePassIsShortest` | crates/stratosync-daemon/src/cache/mod.rs:101-193 | one unbatched pass takes the shortest prefix whose sizes reach the target, or everything |
| `EvictionPlan.BatchedIsSinglePass` | crates/stratosync-daemon/src/cache/mod.rs:115-193 | the batched loop takes the same number of files as the unbatched pass if and only if it meets no batch of empty files while bytes are still needed |
| `EvictionPlan.PositiveSizesSuffice` | crates/stratosync-daemon/src/cache/mod.rs:115-193 | with positive sizes it always does |
| `Eviction.TotalCacheBytes` | crates/stratosync-core/src/state/mod.rs:581-590 | the sum of the cache sizes of all rows |
| `EvictionRun.EvictionAccounts` | crates/stratosync-daemon/src/cache/mod.rs:82-203 | whatever removals fail and whatever writes land on whatever rows, before a query, before a turn or in the middle of one: the loop ends; only rows that were cached and unpinned at the start lose their cache, all others are as they were or as a write left them; the credited bytes are what the evicted rows held; cached bytes before plus growth by writes equal cached bytes after plus credited bytes plus bytes lost to writes in mid-turn; nothing is evicted after enough was freed; and the exit reason is true, a failed query included |
| `EvictionRun.EvictedWereUnpinned` | crates/stratosync-core/src/state/mod.rs:610-634 | over every run each evicted row was Cached with an LRU row and not pinned at the start; a pinned row, and any row that was not cached, keeps its cache columns or is as a write left it |
| `EvictionRun.QueueSpelled` | crates/stratosync-core/src/state/mod.rs:618-626 | the candidates are exactly the cached unpinned rows, each once, by increasing access time |
| `EvictionRun.VisitSpelled` | crates/stratosync-daemon/src/cache/mod.rs:131-177 | a candidate's turn: cleared, with the size of the query credited, if and only if the row is still cached and its file is unlinked or missing; else skipped |
| `EvictionRun.NoCandidatesSpelled` | crates/stratosync-daemon/src/cache/mod.rs:123-126 | a run that ends for lack of candidates leaves no cached unpinned row |
| `EvictionRun.TurnLosesEdits` | crates/stratosync-daemon/src/cache/mod.rs:131-150 | a turn whose status check finds the row cached costs local work if and only if the removal works and a write has hit the row since the check |
| `EvictionRun.EditsLostExactly` | crates/stratosync-daemon/src/cache/mod.rs:82-203 | over a whole run the rows that lose edits are exactly the evicted candidates that a write hit in the middle of the turn that evicted them; when there are none no byte is lost, so that the cached bytes fall by exactly what is credited, but for the growth by writes |
| `EvictionRun.RaceFreeLosesNothing` | crates/stratosync-daemon/src/cache/mod.rs:131-173 | in particular nothing is lost when no write lands in the middle of the turn of its own row |
| `EvictionRun.NoProgressMeansFruitless` | crates/stratosync-daemon/src/cache/mod.rs:176-192 | a run that gives up without progress is the run up to its last query followed by one pass over the whole batch which that query returned; all freed bytes stem from before it, and every row of the batch could not be removed, had become dirty, or was empty |
| `EvictionRun.SkippedIsDirty` | crates/stratosync-daemon/src/cache/mod.rs:133-139 | a candidate that the status check skips has become dirty by a write since the query |
| `CacheUse.WritesGrow` | crates/stratosync-core/src/state/mod.rs:328-337 | local writes change the cached bytes by exactly the sum of their growths |
| `CacheUse.WritesTouch` | crates/stratosync-daemon/src/fuse/write_ops.rs:56-89 | local writes make the rows they hit dirty with the new size, and touch no other row |
| `Statements.WriteKeepsValid` | crates/stratosync-core/src/state/mod.rs:328-337 | recording a write, or refusing it for a file without a cache path, keeps the schema constraints |
| `EvictionRefinement.EvictionRefinesSinglePass` | crates/stratosync-daemon/src/cache/mod.rs:101-193 | without failures and writes, what the loop evicts is a prefix of the least-recently-used order, and it is the shortest sufficient one if and only if no batch of empty files is in the way |
| `EvictionRefinement.EvictionFollowsPlan` | crates/stratosync-core/src/state/mod.rs:610-634 | each new query returns the rest of the same order, so that the passes join up |
| `EvictionRefinement.EmptyBatchStops` | crates/stratosync-daemon/src/cache/mod.rs:176-192 | when the oldest batch is made of empty files the loop ends after it with nothing freed |
| `EvictionRefinement.EmptyFilesStopEviction` | crates/stratosync-daemon/src/cache/mod.rs:115-193 | a table with the root, a thousand empty files and one younger file of five bytes, for which the loop stops with that file still evictable |
| `EvictionRefinement.LateWriteIsLost` | crates/stratosync-daemon/src/cache/mod.rs:133-150 | a write in the middle of a turn is lost with the cache file, and the bytes are off by the growth of the file |
| `Eviction.Candidates` | crates/stratosync-core/src/state/mod.rs:610-634 | the candidate query fails if and only if one of the rows it would return lacks its cache path or size; it returns only rows that are Cached, have an LRU row and are not pinned, each once, by increasing access time, with their cache sizes; fewer than the limit only when these are all of them |
| `Eviction.EvictCandidate` | crates/stratosync-daemon/src/cache/mod.rs:131-173 | one turn: the row's status is read again and a row that is not cached is skipped, a failed removal is skipped, a missing file counts as removed, and the size of the query is credited |
| `Eviction.EvictLoop` | crates/stratosync-daemon/src/cache/mod.rs:118-193 | the nested loop computes the specified run with its freed bytes and skipped candidates, and terminates |
| `Eviction.MaybeEvict` | crates/stratosync-daemon/src/cache/mod.rs:82-203 | does nothing at or below the high mark; above it the cached bytes obey the balance with the growth by writes and the bytes lost in mid-turn, the latter being none without such a race; only rows that were cached and unpinned lose their cache |
| `Blobs.BlobsSafe` | crates/stratosync-daemon/src/sync/versioning.rs:27-69 | over every run of base captures, version captures, prunes and file deletions no reference in either table dangles, whatever blob removals fail; with base evictions in the run no base reference dangles |
| `Blobs.ContentIntact` | crates/stratosync-core/src/base_store.rs:38-70 | a reference to captured content finds exactly that content, for a hash without collisions |
| `Blobs.PruneKeepsNewest` | crates/stratosync-core/src/state/mod.rs:2937-2987 | pruning leaves exactly the newest rows of the file, ties broken by row id |
| `Blobs.PruneSparesOthers` | crates/stratosync-core/src/state/mod.rs:2937-2987 | and every row of every other file |
| `Blobs.EvictionDangles` | crates/stratosync-core/src/state/mod.rs:2842-2850 | evicting a base leaves the history intact if and only if the blob has another base reference, cannot be removed, or is not in the history |
| `Blobs.EvictionCanDangle` | crates/stratosync-daemon/src/cache/mod.rs:251-281 | for every hash and content, a store whose blobs are addressed by that hash for which it does not |
| `Blobs.BaseSweepSafe` | crates/stratosync-daemon/src/cache/mod.rs:251-281 | a whole base sweep leaves every remaining base backed by its blob |
| `Versions.CaptureExact` | crates/stratosync-daemon/src/sync/versioning.rs:27-69 | a capture that is not skipped and not older than its file's rows records the content's hash under the next id, with its blob; of the file's earlier rows exactly the `retention - 1` newest stay; rows of other files and all bases stay |
| `Versions.CaptureRows` | crates/stratosync-daemon/src/sync/versioning.rs:57-61 | whatever the clock did, of the new row and the rows of its file exactly the `retention` newest stay |
| `Versions.CapturedContent` | crates/stratosync-daemon/src/sync/versioning.rs:27-69 | under a hash without collisions the new row finds the captured content |
| `Versions.CaptureBlobs` | crates/stratosync-daemon/src/sync/versioning.rs:60-67 | the blob of another content goes if and only if the capture dropped a row with its hash, no row of either table refers to it any more, and its removal works |
| `Versions.NoCapture` | crates/stratosync-daemon/src/sync/versioning.rs:39-48 | a capture with retention 0, above the size limit or without a cache file changes nothing |
| `Versions.PruneExact` | crates/stratosync-core/src/state/mod.rs:2937-2987 | pruning keeps a row of the file if and only if fewer than `keep` rows of the file are newer, by time and then by id |
| `Versions.PruneBlobs` | crates/stratosync-core/src/state/mod.rs:2967-2987 | pruning deletes a blob if and only if it dropped a row with that hash, no row of either table refers to it any more, and its removal works |
| `Versions.EvictBaseExact` | crates/stratosync-daemon/src/cache/mod.rs:263-272 | evicting a base removes its row, and its blob if and only if no other base has that content and its removal works |
| `Versions.BaseSweepExact` | crates/stratosync-daemon/src/cache/mod.rs:262-275 | a sweep over stale bases runs to its end if and only if it meets no blob that should go and does not |
| `Versions.SetBaseExact` | crates/stratosync-core/src/state/mod.rs:2795-2814 | a base capture records the content's hash for the file and stores the blob; existing blobs and the history stay |
| `Versions.DropFileExact` | crates/stratosync-core/src/state/migrations/0005_version_history.sql:9-26 | deleting a file takes its base row and its history rows, and no blob |
| `BlobDb.BlobDb.StoreBase` | crates/stratosync-core/src/base_store.rs:38-70 | an existing blob is left alone, a new one is stored under its hash |
| `BlobDb.BlobDb.PruneVersionHistory` | crates/stratosync-core/src/state/mod.rs:2937-2987 | the prune loop drops the surplus rows and reports exactly the hashes nothing refers to any more |
| `BlobDb.BlobDb.CaptureVersion` | crates/stratosync-daemon/src/sync/versioning.rs:27-69 | nothing is captured with retention 0, above the size limit or without a cache file; else the content is recorded under the next id with its blob, and store, record, prune and delete leave what `Versions.CaptureExact` says |
| `BlobDb.BlobDb.EvictStaleBases` | crates/stratosync-daemon/src/cache/mod.rs:251-281 | the eviction loop computes its specification and stops at the first blob that cannot be removed |
| `ConflictName.RoundTrip` | crates/stratosync-cli/src/commands/conflicts.rs:230-238 | for every name, timestamp and dot-free hash the parser recovers the original name if and only if the name has a non-empty extension that its stem does not end in and a stem that neither contains nor runs into the mark (without an extension: only for a dot followed by the hash) |
| `ConflictName.CutPoint` | crates/stratosync-cli/src/commands/conflicts.rs:230-238 | the parser cuts at the end of the stem if and only if the stem neither contains the mark nor ends in its first part |
| `ConflictName.BareNameNotRecovered` | crates/stratosync-daemon/src/sync/conflict.rs:284-296 | a name without extension for which the round trip fails |
| `ConflictName.MarkedStemNotRecovered` | crates/stratosync-daemon/src/sync/conflict.rs:284-296 | a name that contains the mark for which it fails |
| `ConflictName.RemotePathElsewhere` | crates/stratosync-daemon/src/sync/conflict.rs:345-355 | the conflict path is in the conflict namespace and never equals the original path |
| `ConflictName.RemotePathSpelled` | crates/stratosync-daemon/src/sync/conflict.rs:345-355 | the conflict path of `dir/name` is `.stratosync-conflicts/dir/` and the conflict name; without a directory the namespace and the conflict name |
| `ConflictName.RemotePathsApart` | crates/stratosync-daemon/src/sync/conflict.rs:345-355 | two conflict paths are equal if and only if directory and conflict name are |
| `ConflictName.MadeNameHasNoSlash` | crates/stratosync-daemon/src/sync/conflict.rs:284-296 | a conflict name is a single path component |
| `ConflictName.MadeSpelled` | crates/stratosync-daemon/src/sync/conflict.rs:284-296 | the made names: stem, `.conflict.`, time, dot, hash, and the last extension; nothing behind the hash for a name without one |
| `ConflictName.MadeNamesApart` | crates/stratosync-daemon/src/sync/conflict.rs:284-296 | two different names that can be recovered never make the same conflict name |
| `Conflict.FilesEqual` | crates/stratosync-core/src/content.rs:126-142 | the chunked comparison answers equality of the first `size` bytes, and an error only when a file ends early |
| `Conflict.World.LocalEqRemote` | crates/stratosync-core/src/content.rs:25-47 | answers true if and only if stat, local metadata and probe work and the cache file has the remote bytes; answers false only when the bytes differ |
| `Conflict.World.KeepBoth` | crates/stratosync-daemon/src/sync/conflict.rs:180-258 | succeeds if and only if upload, download, metadata and update work, the winning version exists and the schema accepts the conflict row; whichever step fails, the local bytes are in the cache file or at the conflict path and nothing else on the remote or on disk changes; success leaves the local bytes in the conflict file, the remote bytes in the cache, a canonical row with the winner's size, etag and time, and exactly one new row, for the conflict file; failure adds no row |
| `Conflict.World.UpdateRows` | crates/stratosync-daemon/src/sync/conflict.rs:203-258 | succeeds if and only if the update works and the schema accepts the conflict row; the canonical row gets size, etag and time of the winner and one Conflict row is added; a failure adds none |
| `Conflict.AcceptsExact` | crates/stratosync-core/src/state/migrations/0001_initial.sql:16-36 | the schema accepts the conflict row if and only if its parent exists, no row has its path and no sibling its name |
| `Statements.SetCachedKeepsValid` | crates/stratosync-core/src/state/mod.rs:358-389 | recording a cached file preserves the schema constraints |
| `Conflict.World.TryMerge` | crates/stratosync-daemon/src/sync/conflict.rs:88-178 | a clean merge settles the conflict, successfully if and only if write, upload and update work, and then replaces both versions; a merge with markers changes the cache file only; without a merge nothing changes |
| `Conflict.World.Resolve` | crates/stratosync-daemon/src/sync/conflict.rs:42-277 | when it succeeds, for each branch: equal contents with a working probe, if and only if the update works; no merge, if and only if the cache file is there and every keep-both step works; a clean merge, if and only if write, upload and update work; a merge with markers, if and only if the write and every keep-both step work. What success leaves is stated column by column; without a merge no local byte is lost on any exit; failure adds no row |
| `Hydration.PrunedOnlyWhenConfirmed` | crates/stratosync-daemon/src/fuse/mod.rs:368-462 | over every run a row disappears if and only if some call that found it in need of hydration had a safe path, a download and a confirming stat that both report the path gone, and an accepted deletion |
| `Hydration.StatusTellsLastCall` | crates/stratosync-daemon/src/fuse/mod.rs:464-500 | over every run, whatever fails, a row has the status that the last call which found it in need of hydration left: Cached after success, Remote after a failure that was rolled back, Hydrating after an unsafe path or a failed roll-back |
| `Hydration.OpenDownloads` | crates/stratosync-daemon/src/fuse/mod.rs:243-247 | by status: a call on a Remote, Stale or Hydrating row with a safe path whose download, move and update work answers success and leaves the row Cached with the new cache path and size; its other columns and all other rows stay |
| `Hydration.OpenWithoutDownload` | crates/stratosync-daemon/src/fuse/mod.rs:238-242 | a Cached, Dirty, Uploading or Conflict row is answered at once with nothing changed; a missing row is an error; an unsafe path leaves the row in Hydrating |
| `Hydration.OpenFails` | crates/stratosync-daemon/src/fuse/mod.rs:377-488 | a failed call answers its error; the row is deleted if and only if download and stat report it gone, the deletion works and nothing is below it; else it goes back to Remote, or stays Hydrating when the roll-back fails, with its other columns, an unknown item id being filled in when the stat finds a free one |
| `Hydration.DownloadTracked` | crates/stratosync-daemon/src/fuse/mod.rs:295-532 | each download is logged; attempts and first time are kept if and only if it failed with a network, transient, quota or not-found error and the row is still there |
| `Hydration.StuckInHydrating` | crates/stratosync-daemon/src/fuse/mod.rs:277-285 | a row ends a run in Hydrating if and only if that last call had an unsafe path, or failed and failed to roll back; or if there was no such call and it started there |
| `Hydration.UnsafePathSticks` | crates/stratosync-daemon/src/fuse/mod.rs:277-285 | a file whose cache directory is a symbolic link out of the cache stays in Hydrating, untracked, however often it is opened |
| `Hydration.ItemIdSticks` | crates/stratosync-core/src/state/mod.rs:1078-1089 | over every run hydration keeps all schema constraints, leaves parent, name and path alone, and never replaces a known item id |
| `Hydration.TrackerFaithful` | crates/stratosync-daemon/src/fuse/mod.rs:295-532 | between calls nothing is in flight, `first_started` and `attempts` have the same keys, and they hold exactly the time of the first and the number of the calls since the last terminal one |
| `Hydration.OpenFaithful` | crates/stratosync-daemon/src/fuse/mod.rs:295-532 | one call keeps the tracker faithful |
| `Hydration.Hydrator.HydrateIfNeeded` | crates/stratosync-daemon/src/fuse/mod.rs:227-275 | the call computes its specification; by status: served at once, or downloaded and Cached with the new path and size; it wakes the waiters of its inode only |
| `Hydration.Hydrator.DoHydrate` | crates/stratosync-daemon/src/fuse/mod.rs:277-532 | register, fetch, heal and leave compute row, result and tracker as specified |
| `Hashes.NormalisesExactly` | crates/stratosync-core/src/hashes.rs:18-30 | for every text and every byte string: the text normalises to the bytes' lowercase hex if and only if it denotes them, as hex or else as base64 |
| `Hashes.MatchesExactly` | crates/stratosync-core/src/hashes.rs:36-41 | the etag test holds if and only if some listed hash denotes the same bytes as the stored one |
| `Hashes.Idempotent` | crates/stratosync-core/src/hashes.rs:18-30 | normalising twice changes nothing |
| `Hashes.HexReads` | crates/stratosync-core/src/hashes.rs:23-25 | hex in any case, with white space around it, normalises to lowercase hex |
| `Hashes.DigitsSpelled` | crates/stratosync-core/src/hashes.rs:23-25 | the sixteen digits, in either case, and no others (section 8 of RFC 4648) |
| `Hashes.Base64Reads` | crates/stratosync-core/src/hashes.rs:26-29 | a base64 spelling in either alphabet, padded or not, normalises to its own bytes if and only if it cannot be read as hex |
| `Hashes.PaddedAlwaysReads` | crates/stratosync-core/src/hashes.rs:26-29 | padded base64 of any byte string whose length is not a multiple of three always does |
| `Hashes.Base64ReadAsHex` | crates/stratosync-core/src/hashes.rs:23-25 | three bytes whose base64 form is taken for hex |
| `Hashes.FirstDecodingExact` | crates/stratosync-core/src/hashes.rs:26-29 | trying the four engines in order recognises exactly the texts that some engine encodes |
| `Base64.DecodesExactly` | crates/stratosync-core/src/hashes.rs:26-29 | an engine decodes exactly what it encodes (sections 4 and 5 of RFC 4648, canonical padding, zero trailing bits) |
| `Base64.AlphabetSpelled` | crates/stratosync-core/src/hashes.rs:26-29 | the symbols of both alphabets are those of tables 1 and 2 of RFC 4648, and an engine accepts no others |
| `Base64.GroupSpelled` | crates/stratosync-core/src/hashes.rs:26-29 | a group of bytes is the same number in base 64, most significant digit first, shorter groups being filled with zero bits (section 4 of RFC 4648) |
| `Base64.EnginesAgree` | crates/stratosync-core/src/hashes.rs:26-29 | engines that accept the same text agree on the bytes |
| `DrivePath.ResolvePath` | crates/stratosync-core/src/backend/delta.rs:137-182 | for every id map, cyclic or not: the walk returns the joined names if and only if the first-parent chain meets the root within 100 checks |
| `DrivePath.NamesSpelled` | crates/stratosync-core/src/backend/delta.rs:149-173 | the components run from the folder below the root down |
| `DrivePath.FirstParentCounts` | crates/stratosync-core/src/backend/delta.rs:137-173 | of several parents, of the file or of a folder, the first one counts |
| `DrivePath.PathsDistinct` | crates/stratosync-core/src/backend/delta.rs:137-182 | with slash-free names and distinct sibling names two ids never resolve to the same path |
| `DrivePath.ChainUnique` | crates/stratosync-core/src/backend/delta.rs:153-173 | the chain from a folder is unique |
| `DrivePath.LadderByNames` | crates/stratosync-core/src/backend/delta.rs:149-173 | a chain to the root is determined by its names |
| `OrphanWalk.CacheDir.WalkAndRemoveOrphans` | crates/stratosync-daemon/src/cache/reconcile.rs:142-203 | the stack walk terminates on every tree and removes exactly the reachable unknown regular files whose removal works; examined, removed and failed files and freed bytes are counted exactly |
| `OrphanWalk.CacheDir.WipePartialHydrations` | crates/stratosync-daemon/src/cache/reconcile.rs:101-137 | removes exactly the regular files directly in the partial directory whose removal works, and counts them |
| `OrphanWalk.CacheDir.Reconcile` | crates/stratosync-daemon/src/cache/reconcile.rs:54-84 | walk and wipe together remove a set known beforehand, and their counts and bytes add up to it |
| `OrphanWalk.SurvivorsExact` | crates/stratosync-daemon/src/cache/reconcile.rs:142-219 | when every listing is answered, for literal paths: the surviving regular files are the failed removals directly in `.meta/partial`, everything else below `.bases` and `.meta`, and elsewhere the known files and the failed removals |
| `OrphanWalk.NeverLost` | crates/stratosync-daemon/src/cache/reconcile.rs:205-219 | whatever fails: only regular files go, nothing below `.bases`, below `.meta` only files directly in `.meta/partial`, elsewhere never a known file |
| `OrphanWalk.ReachedExactly` | crates/stratosync-daemon/src/cache/reconcile.rs:205-219 | the walk reaches an entry of a tree if and only if it is not inside a reserved directory of the root |
| `OrphanWalk.WalkComplete` | crates/stratosync-daemon/src/cache/reconcile.rs:142-203 | an empty stack means that exactly the reachable entries were met |
| `OrphanWalk.BytesAddUp` | crates/stratosync-daemon/src/cache/reconcile.rs:180-195 | the bytes on disk drop by what is reported when every size could be read |
| `TransferWindow.SecondsUntilOpen` | crates/stratosync-core/src/config/mod.rs:430-443 | the window is open after the wait and closed at every second before it, windows across midnight included; the wait is less than a day |
| `TransferWindow.OpenIsScheduled` | crates/stratosync-core/src/config/mod.rs:417-428 | the minute test is the schedule that opens daily at the start and stays open for the window's length |

## Left out

- Upload queue, write-back and the FUSE operations other than hydration: no end-to-end claim about lost updates is made.
- rclone, HTTP, OAuth, WebDAV, JSON and XML parsing, SQLite and locking: only their effect on the maps is modelled.
- `git merge-file`: its outcome is an input; the marker branch overwrites the cache file before the conflict upload, so the no-loss claim does not cover it.
- Snapshots that a poll takes before it overwrites a cached file: they are modelled in `Blobs`, not as a phase of `PollSpec.Poll`.
- Removal of cache files and cached headers after a sweep, expired tombstones and the directory-listed flags: clean-up without effect on the modelled columns.
- PollSpec.Poll: a cut may fall between any two marks, which is finer than the chunked transactions of the source; the outcomes of the source are among the modelled ones.
- Delta mode shares its token row with the poll generation, so generation claims are made for full-listing mode only. Of the token only its position in the provider's log is modelled; expiry and the first full listing are not.
- PollTheorem.FullPollRebuilds: assumes distinct paths and ids in the listing and that a moved item goes to an unoccupied path and leaves its old path unlisted; other listings are covered by `PollFinish`, `PollConvergence` and `LocalWork`.
- Conflict: temporary files of the comparison and of the merge are not on the modelled disk, and the base captured after a clean merge is not modelled here.
- Conflict.World.TryMerge: what a failed write of the merged text leaves in the cache file is not stated.
- Blobs: the store-then-record pair of a capture and a concurrent prune are single steps, so their race is not modelled.
- Hydration.Hydrator.HydrateIfNeeded: one hydration at a time per inode; a row found in Hydrating is one whose wait timed out. Real interleavings of waiters, the race between reading a status and setting it, and a failure of the statement that sets Hydrating are not modelled.
- Eviction.MaybeEvict: high mark and target are byte counts; the floating-point marks are not modelled. Local activity other than writes during a run (finished uploads, hydrations, accesses that change the order) is not modelled.
- OneDrive sub-root filtering: the prefix test has no separator check, so items of a sibling folder can pass; not modelled.
- DrivePath: the lookup of missing parents over HTTP that fills the id map beforehand.
- TransferWindow: parsing of the window text; windows are given by minutes of the day.
- OrphanWalk: `.meta/partial` reached through a symbolic link, and entries that appear or disappear during the walk.
- Header prefetch, metrics, dashboard, tray, file-manager plugins and command line printing: latency and user-interface code with easy properties only.
