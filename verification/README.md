# LevelDB storage engine: a verified model

This project models the storage engine under `db/leveldb` and proves what it promises about
its data: that no step of the log-structured merge tree changes what a read returns, that no
acknowledged write is lost in a stop, and that the concurrent, iterating, encoding and caching
parts below it do what that argument needs. `dafny verify dfyconfig.toml` checks everything.

Every file is one component:

- `Keys.dfy`, `Versions.dfy`: internal keys, what a read means, lookup through the levels.
- `Compaction.dfy`, `Picking.dfy`, `Builder.dfy`, `LevelEdits.dfy`: the compaction loop, the
  choice of its inputs, and the edited version.
- `Database.dfy`: the store as a state machine of writes, memtable switches, flushes, trivial
  moves, compactions and snapshots, and its run theorem.
- `Operations.dfy`: what a run means in puts and deletions: the last one on a key decides.
- `Background.dfy`: the procedures of the background thread, run together, take those steps.
- `TrivialMove.dfy`, `Exposure.dfy`: when exactly a trivial move and a compaction keep every
  answer. `CutRun.dfy`: a run after which they do not.
- `Durability.dfy`, `Crashes.dfy`, `Opening.dfy`: the disk beside the store, stops, recovery
  and opening, and the run theorem over all of them.
- `SkipList.dfy`: the lock-free readers of the memtable. `WriterQueue.dfy`: group commit.
- `UserIterator.dfy`, `Merging.dfy`, `TwoLevel.dfy`: the iterator stack.
- `ManifestRun.dfy`: what replaying the edits of a run rebuilds.
- `Table.dfy`, `FilteredTable.dfy`, `Block.dfy`, `InternalBlock.dfy`, `Filter.dfy`, `Log.dfy`,
  `Coding.dfy`, `Manifest.dfy`, `Crc.dfy`: the formats on disk. `Damage.dfy`: what is still
  read from a log with a damaged block. `Cache.dfy`: the LRU cache.

A user key is a position in the comparator's order where only comparisons matter
(`Bytewise.RankOrder` gives byte strings such positions), and a byte string where bytes do.
A store is read as a set of entries: a read at a snapshot is the newest entry of the key at or
below it. Objects that the source updates in place are classes, with a ghost field for what
they stand for; protocols between threads are state machines whose steps are single loads,
stores or critical sections; calls out of the code (random heights, block sizes, which thread
runs) are any value.

What the theorems need, and the code does not ensure by itself:

- **No version of a key left behind.** Two versions of one user key may be put in neighbouring
  tables (`db/leveldb/db/db_impl.cc:929-1007`), and the choice of inputs below the first level
  does not look for that. If such a cut runs between an input and a table that stays, an older
  version can end up above the newer one, or without the tombstone that hid it. `CutRuns`
  gives a run that makes such a cut and the two answers before and after the next move or
  compaction. `TrivialMoves` and `Exposures` prove exactly when a move and a compaction keep
  every answer. The steps of the run theorems are the moves and compactions that leave no cut
  at their upper inputs and drop no tombstone over an older version in a table that stays; a
  cut in the next level is otherwise allowed. In the first level the inputs are proved closed.
- Flush and compaction are separate steps, sequence numbers stay below the maximum, and no two
  entries share a user key and sequence number.
- **No fragment typed as the end of the file.** The log reader marks the end of its input with
  a type value that a fragment can carry as well (`db/leveldb/db/log_reader.h:81-90`). A damaged
  block that holds such a fragment with a good checksum, or with checksums off, hides all that
  follows. `LogDamage` proves that this is the only way one damaged block loses records outside
  it.
- An append to a file succeeds or the process stops. The log reader starts at offset 0.
- Children of a merging iterator have pairwise distinct internal keys.

## Model

| member | source | states |
|---|---|---|
| `Lookups.SeekGetNewest` | db/leveldb/db/memtable.cc:108-143 | Seeking to (key, snapshot) and looking at one entry finds the newest entry visible at the snapshot, or there is none. |
| `Lookups.NewestFirst` | db/leveldb/db/db_impl.cc:1125-1143 | Reading the newer of two stores first and the older only on a miss finds the newest entry of both. |
| `Bytewise.RankOrder` | db/leveldb/util/comparator.cc:25-27 | A position on the real line keeps and reflects the bytewise order of keys and determines the key. |
| `Versions.FindFile` | db/leveldb/db/version_set.cc:77-96 | The binary search returns the first table whose largest key is not before the target. |
| `Versions.GetFromLevel` | db/leveldb/db/version_set.cc:355-381 | Probing the one table that the search selects finds the newest visible entry of a whole sorted level. |
| `Versions.GetFromLevel0` | db/leveldb/db/version_set.cc:337-354 | Probing the overlapping first-level tables from the newest file down finds the newest visible entry of the level. |
| `Versions.Get` | db/leveldb/db/version_set.cc:323-420 | The first level with a visible entry answers with its newest one, whatever the levels are to each other; where shallower levels are newer, that is the newest visible entry of all levels, and a miss means there is none. |
| `Compactions.Compaction.IsBaseLevelForKey` | db/leveldb/db/version_set.cc:1472-1491 | Over nondecreasing keys the one-pass scan answers exactly whether no table at level + 2 or deeper covers the key. |
| `Compactions.Compaction.ShouldStopBefore` | db/leveldb/db/version_set.cc:1493-1513 | The scan moves exactly past the grandparents that end before the key, and stops exactly when the bytes passed since the last stop exceed the limit. |
| `Compactions.Compaction.ShouldDrop` | db/leveldb/db/db_impl.cc:936-985 | The decision from the previous entry of the key alone is exactly: hidden at every live snapshot, or an obsolete tombstone. |
| `Compactions.HiddenByPrevious` | db/leveldb/db/db_impl.cc:949-957 | In sorted input an entry is hidden by some newer entry if and only if the one just before it hides it. |
| `Compactions.SurvivorsMembers` | db/leveldb/db/db_impl.cc:936-1007 | The survivors of the loop are exactly the entries the drop rules keep. |
| `Compactions.SurvivesExactlyWhenSeen` | db/leveldb/db/db_impl.cc:936-985 | An entry survives if and only if a reader at some snapshot still in use would be given it among the inputs, and it is not a tombstone with nothing deeper. |
| `Compactions.Compaction.DoCompactionWork` | db/leveldb/db/db_impl.cc:886-1045 | The outputs are valid tables in order whose concatenation is exactly the surviving entries. None goes on after it has reached the size limit, none spans more grandparent bytes than their limit, and of those that end early all but one have together that many grandparent bytes each to account for them. |
| `Compactions.DroppingKeepsReads` | db/leveldb/db/db_impl.cc:949-985 | Dropping entries hidden by newer inputs, and tombstones with nothing older left to hide, changes no read at or above the smallest snapshot. |
| `Database.UntouchedIsNewerOrDeeper` | db/leveldb/db/version_set.cc:1335-1378 | What a compaction with uncut upper inputs leaves in place is newer than its inputs in every shared key, beside them in the next level, or deeper. |
| `Database.CompactionKeepsReads` | db/leveldb/db/db_impl.cc:899-1007 | A compaction that leaves no older version in its own level, nor one beside a dropped tombstone, changes no read at any snapshot from its smallest one up. |
| `Database.CompactKeepsInv` | db/leveldb/db/db_impl.cc:865-884 | Such a compaction, with a smallest snapshot taken when its work began, keeps levels sorted and disjoint, shallower levels newer, and file numbers fresh. |
| `Database.MoveKeepsInv` | db/leveldb/db/db_impl.cc:716-733 | So does a closed trivial move. |
| `Database.FlushKeepsInv` | db/leveldb/db/db_impl.cc:487-564 | So does a flush to the level that is chosen for it. |
| `Database.WriteKeepsInv` | db/leveldb/db/db_impl.cc:1212-1243 | A write keeps the invariant and adds exactly the entries of its batch. |
| `Database.InsertAllSorted` | db/leveldb/db/write_batch.cc:111-138 | Inserting a batch entry by entry keeps the memtable sorted and adds exactly the batch, under consecutive numbers. |
| `Database.SnapshotsStayOrdered` | db/leveldb/db/snapshot.h:39-58 | The list of live snapshots stays ordered, so its first is the smallest sequence number any reader may use. |
| `Database.StepKeepsInv` | db/leveldb/db/version_set.cc:698-763 | Every step of the store keeps all of the invariant. |
| `Database.StepKeepsReads` | db/leveldb/db/db_impl.cc:685-768 | Every step keeps the store reading as the set of everything written. |
| `Database.RunsReadWhatWasWritten` | db/leveldb/db/db_impl.cc:1108-1153 | In every state of every run of writes, memtable switches, flushes, moves and compactions that bring nothing back, and snapshots taken and released at any time, every read at a live snapshot is that of the set of everything written. |
| `Database.Get` | db/leveldb/db/db_impl.cc:1108-1153 | Memtable, then immutable memtable, then tables: the value read is the one the whole store determines. |
| `Operations.GetAfterRun` | db/leveldb/db/db_impl.cc:1108-1153 | Get in any state of any run of writes, flushes, moves, compactions and snapshots answers, at a live snapshot, by the last operation on the key among the first so many operations of the run: the value after a put, not found after a deletion or without one. |
| `Operations.AnswerIsLastPut` | db/leveldb/include/leveldb/write_batch.h:5-19 | That answer is a value exactly when some put of it has no later operation on its key. |
| `Operations.ReadIsAnswer` | db/leveldb/db/write_batch.cc:111-138 | Reading the newest entry of numbered operations at any snapshot gives that answer over the operations up to the snapshot. |
| `Operations.LastOperationDecides` | db/leveldb/db/write_batch.cc:117-124 | The newest entry of a key, value or deletion mark, is that of the last operation on it. |
| `Operations.BatchIsSeen` | db/leveldb/db/write_batch.cc:111-138 | After a batch, a key in it answers by its last operation there, and every other key as before. |
| `Operations.RunWritesOps` | db/leveldb/db/db_impl.cc:1193-1262 | What a run has written are its operations in order, numbered from one on, and the last sequence number is their count. |
| `AcknowledgedOperations.RunAcknowledgesOps` | db/leveldb/db/db_impl.cc:1218-1243 | Over stops and recoveries, what was acknowledged are operations in order, numbered from one on without gaps. |
| `AcknowledgedOperations.GetAfterStops` | db/leveldb/db/db_impl.cc:1108-1153 | Get on a database opened again after any stops answers by the last operation on the key among the acknowledged ones up to the snapshot. |
| `Picking.GetOverlappingInputs` | db/leveldb/db/version_set.cc:522-563 | The restarting scan of the first level terminates and returns exactly the tables meeting the least overlap-closed range around the query; on other levels, those meeting the query. |
| `Picking.GetRange` | db/leveldb/db/version_set.cc:1211-1234 | The keys found are the least and the greatest internal keys of the tables, and so span their user-key hull. |
| `Picking.SetupOtherInputs` | db/leveldb/db/version_set.cc:1335-1400 | The next level contributes exactly the tables meeting the hull of the inputs; the inputs grow to all that meet the whole range exactly when that adds some, adds none below, and stays under the byte limit; grandparents and the new compaction pointer are those of the final inputs. |
| `Picking.TotalSizeIsSum` | db/leveldb/db/version_set.cc:49-55 | The size of some tables is the sum over any two parts of them, down to single tables. |
| `Picking.PickCompaction` | db/leveldb/db/version_set.cc:1281-1333 | Inputs, grandparents and pointer are set up around the table a seek compaction named, or the first table past the compaction pointer with wrap-around: that table alone, or in the first level all that its range leads to. |
| `Picking.CompactRange` | db/leveldb/db/version_set.cc:1402-1435 | Inputs, grandparents and pointer are set up, exactly when some table meets the range, around all that meet it in the first level, and below it around the shortest beginning of those that reaches the size limit. |
| `Picking.CutShort` | db/leveldb/db/version_set.cc:1412-1428 | The tables kept are the shortest beginning whose sizes together reach the limit, or all. |
| `Picking.SomeFileOverlapsRange` | db/leveldb/db/version_set.cc:112-147 | One binary search on a disjoint level, or a scan of the first level, decides exactly whether some table meets the range. |
| `Picking.PickLevelForMemTableOutput` | db/leveldb/db/version_set.cc:493-519 | The level is 0, or no table of it or above it meets the memtable's range; and one deeper would meet a table, too many bytes after it, or the depth limit. |
| `Picking.UncutNewer` | db/leveldb/db/version_set.cc:1289-1333 | Where no chosen table ends on the user key its unchosen successor begins with, what is left in the level is newer than what is taken. |
| `Picking.PickedLeavesNewer` | db/leveldb/db/version_set.cc:1335-1378 | With uncut upper inputs, the tables left in their level are newer than the inputs in every shared key. |
| `Picking.LeftInNext` | db/leveldb/db/version_set.cc:1335-1345 | What is left in the next level shares no user key with the inputs of the upper one, cut or not. |
| `VersionBuilder.UpperBound` | db/leveldb/db/version_set.cc:720-722 | The binary search splits the base files at the added file. |
| `VersionBuilder.SaveTo` | db/leveldb/db/version_set.cc:702-764 | Merging the added files into the base files gives, in order, exactly the files of either that were not deleted. |
| `VersionBuilder.SortedListingUnique` | db/leveldb/db/version_set.cc:596-611 | A set of files has one listing in the order of the builder. |
| `LevelEdits.ReshapedValid` | db/leveldb/db/version_set.cc:702-764 | An edit that takes uncut inputs out and puts sorted outputs one level down leaves every level valid, also where the next level is cut. |
| `LevelEdits.ReshapedEntries` | db/leveldb/db/version_set.cc:702-764 | The edited version holds exactly the entries that were not taken and those of the outputs. |
| `TrivialMoves.MoveKeepsLookupsExactlyWhenUncut` | db/leveldb/db/version_set.cc:1455-1462 | A trivial move below the first level keeps every lookup at every snapshot if and only if the level is not cut between two versions of a key right after the moved table. |
| `TrivialMoves.CutMoveIsSeen` | db/leveldb/db/db_impl.cc:716-733 | Moving a table whose last user key goes on in the next table changes a lookup. |
| `TrivialMoves.CutIsPicked` | db/leveldb/db/version_set.cc:1335-1345 | Two tables with one version of a key each make a valid version whose first table may be picked and moved, and which is cut there. |
| `TrivialMoves.GetIsLookup` | db/leveldb/db/version_set.cc:323-420 | On versions whose levels each are in order, also those a cut move leaves, the level-by-level lookup is what these statements say of lookups. |
| `TrivialMoves.CutMoveUncoversOldValue` | db/leveldb/db/db_impl.cc:716-733 | Before the move the lookup answers with the newer version, after it with the older one, at every snapshot that sees the newer. |
| `Exposures.CompactionKeepsAnswersExactlyWhenNothingComesBack` | db/leveldb/db/db_impl.cc:886-1045 | For a compaction picked and worked as in the code, with no condition on cuts: what callers see at every snapshot from its smallest one up is unchanged if and only if no input is taken from above an older version that stays in its level with no newer one over it at the smallest snapshot, and no tombstone of the next level is dropped from above a value that stays there. |
| `Exposures.NothingBackKeepsAnswers` | db/leveldb/db/db_impl.cc:936-1007 | If there is no such entry, a lookup through memtables and levels gives callers the same before and after. |
| `Exposures.BroughtBackIsSeen` | db/leveldb/db/db_impl.cc:936-1007 | If there is one, some lookup at or above the smallest snapshot changes. |
| `Exposures.CoveredBringsNothingBack` | db/leveldb/db/version_set.cc:1335-1378 | The compactions that are steps of the store are among those that bring nothing back. |
| `Exposures.KeptIs` | db/leveldb/db/db_impl.cc:936-985 | The entries the loop keeps, said without its order: chosen, not hidden by a newer chosen one at the smallest snapshot, and not a tombstone at its base level. |
| `CutRuns.RunCutsAKey` | db/leveldb/db/db_impl.cc:929-1007 | A run of the store, by two writes, a snapshot, a flush, a compaction with two outputs and the release of the snapshot, ends in a version that is cut inside a key. |
| `CutRuns.CompactsIntoTwo` | db/leveldb/db/db_impl.cc:985-1007 | The compaction loop makes exactly those two outputs as soon as the newer value fills a table. |
| `CutRuns.FlushesToTwo` | db/leveldb/db/version_set.cc:493-519 | The flush of the run can go to no shallower level. |
| `CutRuns.PicksFirst` | db/leveldb/db/version_set.cc:1281-1333 | Over an empty next level the picker, with no compaction pointer, takes the first table alone. |
| `CutRuns.RangePicksFirst` | db/leveldb/db/version_set.cc:1402-1435 | So does a compaction of the whole range, if that table is as big as an output. |
| `CutRuns.OverwrittenValueComesBack` | db/leveldb/db/db_impl.cc:716-768 | After that run the move of the first table, and likewise its compaction, turns the answer from the newer value to the overwritten one at every snapshot that saw the newer. |
| `CutRuns.DeletedKeyComesBack` | db/leveldb/db/db_impl.cc:957-985 | A valid version on which a picked compaction drops a tombstone and the answer turns from deleted to the deleted value. |
| `Durability.StopLeavesGoodDisk` | db/leveldb/db/db_impl.cc:1354-1374 | A stop at any point leaves a disk fit to recover from. |
| `Durability.StopKeepsReads` | db/leveldb/db/db_impl.cc:1193-1243 | The tables of the manifest and the logs from its log number on hold every acknowledged write; a batch in flight is there wholly or not at all. |
| `Durability.RecoverLogFile` | db/leveldb/db/db_impl.cc:364-485 | Replaying one log into memtables and tables keeps all its entries, in ascending pieces, and a last sequence number no smaller than any of them. |
| `Durability.RecoverLogs` | db/leveldb/db/db_impl.cc:273-362 | Replaying the logs in number order rebuilds exactly their entries, and the last sequence number found bounds every recovered entry. |
| `Durability.RecoveredValid` | db/leveldb/db/db_impl.cc:487-531 | Adding the rebuilt tables to the manifest's version gives a valid version that holds both. |
| `Durability.RecoverKeepsInv` | db/leveldb/db/db_impl.cc:1489-1540 | A database opened from a fit disk is in order, with a last sequence number that is at least every entry's. |
| `Durability.RecoverKeepsReads` | db/leveldb/db/db_impl.cc:1489-1540 | It reads as the set of everything acknowledged. |
| `Opening.Open` | db/leveldb/db/db_impl.cc:1489-1531 | Every fit disk can be opened: listing and sorting the logs, replaying them, saving the rebuilt tables and starting a log takes the recovery step and gives a store in order. |
| `Durability.FailedRecoveryKeepsDisk` | db/leveldb/db/db_impl.cc:364-485 | A stop during recovery leaves a disk fit to recover from. |
| `Crashes.AppendKeepsInv` | db/leveldb/db/db_impl.cc:1219-1230 | Appending a batch to the log, before it is applied, keeps disk and memory in agreement. |
| `Crashes.ApplyKeepsInv` | db/leveldb/db/db_impl.cc:1231-1243 | So does applying it and publishing its sequence numbers. |
| `Crashes.SwitchLogKeepsInv` | db/leveldb/db/db_impl.cc:1354-1374 | So does switching to a new log and memtable. |
| `Crashes.CommitFlushKeepsInv` | db/leveldb/db/db_impl.cc:533-564 | So does installing a flushed table and the new log number in the manifest. |
| `Crashes.CommitCompactKeepsInv` | db/leveldb/db/version_set.cc:811-894 | So does installing a compaction. |
| `Crashes.DeleteTableKeepsInv` | db/leveldb/db/db_impl.cc:217-271 | Deleting a table file that no live version names and that is not pending loses nothing. |
| `Crashes.DeleteLogKeepsInv` | db/leveldb/db/db_impl.cc:217-271 | Deleting a log numbered below the manifest's log number loses nothing. |
| `Crashes.AcknowledgedWritesSurvive` | db/leveldb/db/db_impl.cc:217-362 | At every point of every run with any stops, recoveries and failed recoveries, an open database reads as the acknowledged writes and a stopped one can be recovered to do so. |
| `SkipLists.StepKeepsInv` | db/leveldb/db/skiplist.h:336-361 | Every load and store of the one writer and any number of readers, in any order, keeps each level a sorted list of exactly the nodes linked there. |
| `SkipLists.RunsKeepInv` | db/leveldb/db/skiplist.h:336-361 | That holds in every state of every run. |
| `SkipLists.SearchAnswers` | db/leveldb/db/skiplist.h:261-323 | A search that ends returns exactly the first key at or after its target (or the last below it, or the last of all) in the list as it stands at its last load. |
| `SkipLists.ReadersAreExact` | db/leveldb/db/skiplist.h:261-323 | In every run no reader loads a link that was never stored, and every finished search is exact. |
| `SkipLists.LevelsAreSortedSublists` | db/leveldb/db/skiplist.h:354-360 | At every moment following the links of a level visits a sorted sublist of the level below. |
| `SkipLists.PublishLevel` | db/leveldb/db/skiplist.h:355-360 | The release store links the node in between its neighbours and leaves every other successor as it was. |
| `SkipLists.MembersStay` | db/leveldb/db/skiplist.h:336-361 | What was once linked stays linked, under the same key, through every step. |
| `SkipLists.FinishedInsertIsThere` | db/leveldb/db/skiplist.h:336-361 | In every run, whenever the writer is idle after an insertion was begun, the list has its key. |
| `SkipLists.FinishedInsertIsFound` | db/leveldb/db/skiplist.h:261-284 | A search for that key whose last load comes after that, by any reader, ends at a node with exactly that key. |
| `UserIterators.ViewIsWhatIsRead` | db/leveldb/db/db_iter.cc:35-45 | The sequence iterated over is the map of the database: a key is in it with a value if and only if reading the key at the iterator's sequence gives that value. |
| `UserIterators.DBIter.FindNextUserEntry` | db/leveldb/db/db_iter.cc:173-203 | The skip rule finds exactly the first entry that is its key's newest visible entry and a value. |
| `UserIterators.DBIter.FindPrevUserEntry` | db/leveldb/db/db_iter.cc:232-272 | The backward scan saves exactly the last such entry, and stops with nothing visible in between. |
| `UserIterators.DBIter.Next` | db/leveldb/db/db_iter.cc:146-171 | One place on in that sequence, from either direction. |
| `UserIterators.DBIter.Prev` | db/leveldb/db/db_iter.cc:205-230 | One place back, from either direction; before the first it is not valid. |
| `UserIterators.DBIter.Seek` | db/leveldb/db/db_iter.cc:274-286 | The first place whose key is at or after the target. |
| `UserIterators.DBIter.SeekToFirst` | db/leveldb/db/db_iter.cc:288-297 | The first place. |
| `UserIterators.DBIter.SeekToLast` | db/leveldb/db/db_iter.cc:299-304 | The last place. |
| `Merging.MergingIterator.SeekToFirst` | db/leveldb/table/merger.cc:35-41 | The first entry of the sorted merge of all children. |
| `Merging.MergingIterator.SeekToLast` | db/leveldb/table/merger.cc:43-49 | The last entry of the merge. |
| `Merging.MergingIterator.Seek` | db/leveldb/table/merger.cc:51-57 | The first entry of the merge at or after the target. |
| `Merging.MergingIterator.Next` | db/leveldb/table/merger.cc:59-83 | One entry on in the merge, after any direction change. |
| `Merging.MergingIterator.Prev` | db/leveldb/table/merger.cc:85-111 | One entry back in the merge, after any direction change. |
| `Merging.MergingIterator.FindSmallest` | db/leveldb/table/merger.cc:150-164 | The child chosen stands at the next entry of the merge. |
| `Merging.MergingIterator.FindLargest` | db/leveldb/table/merger.cc:166-180 | The child chosen stands at the previous entry of the merge. |
| `Merging.MergeExists` | db/leveldb/table/merger.cc:14-27 | Sorted children with pairwise distinct keys have a sorted merge. |
| `TwoLevel.TwoLevelIterator.Seek` | db/leveldb/table/two_level_iterator.cc:91-96 | The first entry of all blocks at or after the target, though only the block the index names is searched. |
| `TwoLevel.TwoLevelIterator.SeekToFirst` | db/leveldb/table/two_level_iterator.cc:98-103 | The first entry of the concatenated blocks. |
| `TwoLevel.TwoLevelIterator.SeekToLast` | db/leveldb/table/two_level_iterator.cc:105-110 | The last entry of the concatenated blocks. |
| `TwoLevel.TwoLevelIterator.Next` | db/leveldb/table/two_level_iterator.cc:112-116 | One entry on, over any number of empty blocks. |
| `TwoLevel.TwoLevelIterator.Prev` | db/leveldb/table/two_level_iterator.cc:118-122 | One entry back, over any number of empty blocks. |
| `TwoLevel.TwoLevelIterator.SkipEmptyDataBlocksForward` | db/leveldb/table/two_level_iterator.cc:125-136 | From a block boundary to the first entry after it, or the end. |
| `TwoLevel.TwoLevelIterator.SkipEmptyDataBlocksBackward` | db/leveldb/table/two_level_iterator.cc:138-149 | From a block boundary to the last entry before it, or the end. |
| `Separators.FindShortestSeparator` | db/leveldb/util/comparator.cc:29-51 | The result is the start itself or lies strictly between start and limit and is no longer; it is shortened whenever the first difference leaves room. |
| `Separators.FindShortSuccessor` | db/leveldb/util/comparator.cc:53-65 | The result comes after the key and is no longer, or the key is a run of 0xff and stays. |
| `Separators.InternalSeparator` | db/leveldb/db/dbformat.cc:68-85 | The internal separator is the start itself or has a user key strictly between the two. |
| `Separators.InternalSuccessor` | db/leveldb/db/dbformat.cc:87-99 | The internal successor is the key itself or has a larger user key. |
| `Tables.TableBuilder.Add` | db/leveldb/table/table_builder.cc:92-121 | Adds the entry, whether or not a block ends here, and keeps every index key so far dividing its block from what follows. |
| `Tables.TableBuilder.Flush` | db/leveldb/table/table_builder.cc:123-137 | Closes the block and leaves its index entry pending. |
| `Tables.TableBuilder.Finish` | db/leveldb/table/table_builder.cc:199-240 | The blocks hold exactly what was added, in order, and every index key divides its block from the next. |
| `Tables.FitsOrders` | db/leveldb/table/table_builder.cc:100-107 | In a sorted table each index key is at or after all keys of its block and before all keys of later blocks. |
| `Tables.SeekInBlock` | db/leveldb/table/table.cc:226-245 | Seeking in the index and then in the one block it names leads to the first entry at or after the target in the whole table. |
| `Tables.InternalGet` | db/leveldb/table/table.cc:226-255 | Looking in one block only, with a filter without false negatives, still finds the newest visible entry of the key in the table whenever there is one. |
| `FilteredTables.FilteredBuilder.Add` | db/leveldb/table/table_builder.cc:92-137 | Each key is given to the filter at the offset of the data block it goes into, whatever the block sizes. |
| `FilteredTables.FilteredBuilder.Finish` | db/leveldb/table/table_builder.cc:199-240 | The finished filter block denies no key to the block that holds it, and the index divides the blocks. |
| `FilteredTables.Get` | db/leveldb/table/table.cc:226-255 | A lookup that asks the filter block at the offset of the one block the index names finds the newest visible entry of the table, as if there were no filter. |
| `Blocks.DecodeEntryBack` | db/leveldb/table/block.cc:53-74 | A stored entry decodes to its three lengths on the fast and on the general path, whatever follows it. |
| `Blocks.BlockBuilder.Add` | db/leveldb/table/block_builder.cc:73-107 | For any restart interval the buffer stays the prefix-compressed form of the pairs added. |
| `Blocks.BlockBuilder.Finish` | db/leveldb/table/block_builder.cc:63-71 | The entries are followed by the restart offsets and their number. |
| `Blocks.DecodeAt` | db/leveldb/table/block.cc:226-250 | Decoding at an entry's offset, after a key that has the shared part, gives back its key and value. |
| `Blocks.Iter.Current` | db/leveldb/table/block.cc:129-136 | A valid iterator yields the very pair that was added at its place. |
| `Blocks.Iter.ParseNextKey` | db/leveldb/table/block.cc:226-252 | Parses the next entry and keeps the restart index at it, or finds the end exactly at the end. |
| `Blocks.Iter.Seek` | db/leveldb/table/block.cc:165-203 | For any comparator in whose order the keys are, binary search over restart points and a scan lead to the first key at or after the target. |
| `InternalBlocks.InternalLessTransitive` | db/leveldb/db/dbformat.cc:49-66 | The internal key comparator on bytes is such an order. |
| `InternalBlocks.EncodedOrder` | db/leveldb/db/dbformat.cc:18-21 | On encoded internal keys it is increasing user key, then decreasing sequence number and type. |
| `InternalBlocks.SeekInternal` | db/leveldb/table/block.cc:165-203 | In a data block a seek for an internal key lands on the first entry not before it, and yields its key and value. |
| `Blocks.Iter.Prev` | db/leveldb/table/block.cc:144-163 | The exact predecessor, by going back to a restart point. |
| `Blocks.Iter.Next` | db/leveldb/table/block.cc:139-142 | The exact successor. |
| `Blocks.Iter.SeekToFirst` | db/leveldb/table/block.cc:205-208 | The first pair. |
| `Blocks.Iter.SeekToLast` | db/leveldb/table/block.cc:210-215 | The last pair. |
| `Bloom.CreateFilter` | db/leveldb/util/bloom.cc:35-61 | In the filter appended exactly the bits that some key probes are set, and the number of probes follows. |
| `Bloom.KeyMayMatch` | db/leveldb/util/bloom.cc:63-87 | The loop answers whether all bits the key probes are set, with the cases for short and reserved filters. |
| `Bloom.FilterMatches` | db/leveldb/util/bloom.cc:35-87 | A filter matches every key it was made for. |
| `FilterBlocks.FilterBlockBuilder.StartBlock` | db/leveldb/table/filter_block.cc:22-28 | Makes the filters of all 2 KB slots before the new block's, any number of them empty. |
| `FilterBlocks.FilterBlockBuilder.AddKey` | db/leveldb/table/filter_block.cc:30-34 | Files the key under the block being built. |
| `FilterBlocks.FilterBlockBuilder.GenerateFilter` | db/leveldb/table/filter_block.cc:52-75 | Appends a filter of exactly the pending keys. |
| `FilterBlocks.FilterBlockBuilder.Finish` | db/leveldb/table/filter_block.cc:36-50 | In the finished block every key added while the data block at an offset was being built matches at that offset. |
| `FilterBlocks.AsksSlotsFilter` | db/leveldb/table/filter_block.cc:78-110 | A finished block answers exactly by the filter of the offset's slot, and matches beyond the last one. |
| `Fixed.Decode32Encode32` | db/leveldb/util/coding.cc:9-18 | Fixed 32-bit words decode to what was encoded. |
| `Fixed.Decode64Encode64` | db/leveldb/util/coding.cc:20-37 | So do fixed 64-bit words. |
| `Fixed.UnmaskMask` | db/leveldb/util/crc32c.h:31-40 | Unmasking undoes masking. |
| `LogFormat.ReadWritten` | db/leveldb/db/log_writer.cc:36-82 | Reading where a record was written gives that record if the file holds all of it, and otherwise the end with no report. |
| `LogFormat.TruncatedLog` | db/leveldb/db/log_reader.cc:60-281 | Reading any truncation of a log gives exactly the records that end within it, in order, then the end, and reports nothing. |
| `LogFormat.RecordsAreUnbroken` | db/leveldb/db/log_reader.cc:75-180 | On arbitrary bytes a record returned is one full fragment, or a first, middle and last fragments back to back: records are never joined across damage. |
| `LogFormat.OnlyTrailersBetween` | db/leveldb/db/log_reader.cc:199-281 | Between two fragments of a record lies nothing but fewer than seven bytes up to the block's end; each lies in one block and its checksum is right. |
| `Logs.Writer.AddRecord` | db/leveldb/db/log_writer.cc:36-82 | Appends exactly the fragments of the record from the current offset. |
| `Logs.Writer.constructor` | db/leveldb/db/log_writer.cc:22-31 | A writer for a new file, or one that goes on at the end of an existing file. |
| `Logs.WriteSessions` | db/leveldb/db/log_writer.cc:22-82 | Any records added in any number of sessions on one file, reopened for each, make the log of all of them. |
| `Logs.ReadFile` | db/leveldb/db/log_reader.cc:60-180 | Reading records until there are no more returns the records and reports that the file determines. |
| `Logs.WrittenIsReadBack` | db/leveldb/db/log_reader.cc:60-281 | What any sessions wrote is read back from the file cut at any byte: the records that end within it, in order, and nothing reported. |
| `Logs.Reader.ReadPhysicalRecord` | db/leveldb/db/log_reader.cc:199-281 | The block-buffered reader returns what lies at its position of the file: a fragment, damage, or the end. What that means for a damaged file is `LogDamage`. |
| `Logs.Reader.ReadRecord` | db/leveldb/db/log_reader.cc:60-180 | The loop returns the record, position and number of reports that reading the file from the position determines. What that means for a damaged file is `LogDamage`. |
| `LogDamage.RecordsOutsideDamageSurvive` | db/leveldb/db/log_reader.cc:199-281 | Whatever one block of a log was turned into, every record without a fragment in it is returned, in order, unless sound fragments there lead to one whose type byte is the one the reader uses for the end of the file. |
| `LogDamage.MarkHidesTheRest` | db/leveldb/db/log_reader.cc:152-159 | In that one case nothing behind the block is read, whatever is there. |
| `LogDamage.MarkLosesRecords` | db/leveldb/db/log_reader.h:81-90 | The case is real: a log of two records with one block so changed reads as empty, and nothing is reported. |
| `LogDamage.WrongChecksumIsReported` | db/leveldb/db/log_reader.cc:248-263 | If sound fragments lead to one in the block with a wrong checksum, a corruption is reported. |
| `LogDamage.DamageIsContained` | db/leveldb/db/log_reader.cc:199-281 | A log damaged from a header to the end of its block, so that the fragment there does not pass, gives exactly the records that end before the header and those that begin after the block, and a report if and only if the drop is noticed: always for a wrong checksum, for a bad length unless the file ends there, for a blank header only through a record it cuts. |
| `LogDamage.BlankBlockIsSilent` | db/leveldb/db/log_reader.cc:245-251 | A block with a blank header is dropped without a report. |
| `LogDamage.ReadDamagedFile` | db/leveldb/db/log_reader.cc:60-281 | The reader run on such a file returns those records and reports then. |
| `Crc32c.Step1IsStep` | db/leveldb/util/crc32c.cc:291-294 | The table step for one byte is the definition's eight bit steps. |
| `Crc32c.Step4IsFourSteps` | db/leveldb/util/crc32c.cc:295-302 | The four-byte step is four steps of the definition. |
| `Crc32c.Extend` | db/leveldb/util/crc32c.cc:286-329 | For every alignment and length the loops compute the byte-at-a-time definition. |
| `Crc32c.ExtendedConcat` | db/leveldb/util/crc32c.cc:286-329 | Extending by one string and then another is extending by their concatenation. |
| `Crc32c.BurstIsNoticed` | db/leveldb/util/crc32c.cc:286-329 | Two strings that differ only within four consecutive bytes have different checksums. |
| `WriterQueue.BuildBatchGroup` | db/leveldb/db/db_impl.cc:1268-1313 | The group is a nonempty prefix of the queue with its updates in order, no sync write behind a leader that does not sync, and as long as the size limit allows. |
| `WriterQueue.StepKeepsInv` | db/leveldb/db/db_impl.cc:1193-1262 | Every step of every thread keeps queue, phases, log, memtable and published sequence number in agreement. |
| `WriterQueue.OneThreadCommits` | db/leveldb/db/db_impl.cc:1218-1243 | In every run at most one thread is past waiting. |
| `WriterQueue.RangesPartition` | db/leveldb/db/db_impl.cc:1208-1216 | Every committed sequence number belongs to exactly one of the writers that left. |
| `WriterQueue.RangesAscend` | db/leveldb/db/db_impl.cc:1208-1216 | The ranges of later writers lie wholly after those of earlier ones. |
| `WriterQueue.CommitsAreOrdered` | db/leveldb/db/db_impl.cc:1193-1262 | In every run calls leave in arrival order, each update of each successful batch is inserted once under its own number, and successful sync writes are in the synced log. |
| `WriterQueue.CallsAreToldTheTruth` | db/leveldb/db/db_impl.cc:1249-1264 | In every run the status a call of Write returns is what became of it: told success, each of its updates is logged, inserted and published under numbers of its own, and synced if asked; told failure, it owns no number. |
| `WriterQueue.RunsTell` | db/leveldb/db/db_impl.cc:1200-1206 | In every state of every run the calls that have returned are exactly those that left the queue, each with its own result. |
| `WriterQueue.CommittedOperationsDecide` | db/leveldb/db/db_impl.cc:1228-1247 | A reader at any published number is answered by the last operation on the key among the committed ones up to it. |
| `WriterQueue.PublishedIsWhole` | db/leveldb/db/db_impl.cc:1228-1247 | The memtable up to the published sequence number is exactly the committed batches: a reader sees each batch wholly or not at all. |
| `WriterQueue.SnapshotsStayWhole` | db/leveldb/db/db_impl.cc:1228-1247 | What was committed or inserted stays as it was, so a reader keeps seeing what was published when it began. |
| `Coding.EncodeVarint` | db/leveldb/util/coding.cc:81-90 | The loop writes the seven-bit groups of the number. |
| `Coding.DecodeVarint` | db/leveldb/util/coding.cc:112-158 | The loop reads the number, or fails when it is cut short or too long. |
| `Coding.ReadVarintBack` | db/leveldb/util/coding.cc:81-158 | A number is read back, whatever follows it. |
| `Coding.ReadExactlyWhenEnded` | db/leveldb/util/coding.cc:112-158 | On any bytes a number is read if and only if one of the first five or ten ends it, and what follows that byte is left. |
| `Coding.CutVarintFails` | db/leveldb/util/coding.cc:112-158 | No proper beginning of an encoded number is taken for a number. |
| `Coding.GetPrefixedBack` | db/leveldb/util/coding.cc:98-192 | A length-prefixed string is read back, whatever follows it. |
| `VersionEdits.EncodeTo` | db/leveldb/db/version_edit.cc:41-86 | Writes the fields of the edit in their fixed order. |
| `VersionEdits.DecodeFrom` | db/leveldb/db/version_edit.cc:109-210 | Reads fields into a fresh edit until the input is used up; an unknown tag, a bad level or a cut field is an error. |
| `VersionEdits.ParseBack` | db/leveldb/db/version_edit.cc:88-199 | Every field is read back, whatever follows it. |
| `VersionEdits.RoundTrip` | db/leveldb/db/version_edit.cc:41-210 | Decoding an encoded edit gives the edit back. |
| `Replay.Apply` | db/leveldb/db/version_set.cc:656-699 | The loops add the deletions, then take the added numbers off them and add the files. |
| `Replay.ReplayIsOneByOne` | db/leveldb/db/version_set.cc:896-1006 | If no number is added to a level twice, one builder over all edits keeps the files that the builders of the single edits kept in turn. |
| `Replay.ReplayListsAreSame` | db/leveldb/db/version_set.cc:896-1006 | Hence the sorted file lists are the same. |
| `Replay.AddedTwiceDiffers` | db/leveldb/db/version_set.cc:656-699 | Without the condition they differ: a number that is deleted and added again brings the deleted file back. |
| `ManifestRuns.RunsAddNoNumberTwice` | db/leveldb/db/version_set.cc:1464-1470 | No run meets that case: in a manifest begun at any state of any run, no file number is added to a level twice. |
| `ManifestRuns.StepTurns` | db/leveldb/db/version_set.cc:811-894 | Each step changes each level exactly as the edit it logs says. |
| `ManifestRuns.ReplayRebuildsVersion` | db/leveldb/db/version_set.cc:896-1006 | In every run, one builder over a manifest begun at any state rebuilds, level by level, exactly the file lists of the state it was written up to. |
| `BackgroundWork.Write` | db/leveldb/db/write_batch.cc:111-138 | Inserting a batch takes the write step; after it every key in the batch answers by its last operation there, and every other key as before. |
| `BackgroundWork.CompactMemTable` | db/leveldb/db/db_impl.cc:487-564 | Building a table of the memtable, picking its level and saving it there takes the flush step, at the picked level. |
| `BackgroundWork.BackgroundCompaction` | db/leveldb/db/db_impl.cc:685-768 | At the given level, pointer and seek table, picking inputs, working them with the smallest live snapshot and saving both levels is a compaction as the theorems mean it, and takes the store's step whenever it is covered. |
| `HandleTables.HandleTable.Lookup` | db/leveldb/util/cache.cc:58-60 | Finds the handle with a hash and key if and only if the table holds one. |
| `HandleTables.HandleTable.Insert` | db/leveldb/util/cache.cc:62-76 | The handle replaces and returns the one with its hash and key, if any; nothing else changes, also when the table grows. |
| `HandleTables.HandleTable.Remove` | db/leveldb/util/cache.cc:78-86 | Exactly the handle with the hash and key goes. |
| `HandleTables.MaskIsRemainder` | db/leveldb/util/cache.cc:98-104 | Masking a hash with a power of two less one takes the remainder, so the bucket is the one the table is kept by. |
| `HandleTables.HandleTable.Resize` | db/leveldb/util/cache.cc:107-131 | Rehashing keeps exactly the handles, each in its new chain, with a power of two of chains and at least as many as handles. |
| `LRUCaches.LRUCache.Insert` | db/leveldb/util/cache.cc:230-261 | A new entry replaces one with its key; then entries leave from the oldest on, each while the usage is above the capacity, until it fits or the list is empty. |
| `LRUCaches.EvictionIsLeast` | db/leveldb/util/cache.cc:253-258 | An insertion that fits evicts nothing; otherwise putting the last evicted entry back would exceed the capacity. |
| `LRUCaches.InsertThenLookup` | db/leveldb/util/cache.cc:214-261 | After an insertion that fits, a lookup of its hash and key returns the new entry. |
| `LRUCaches.LRUCache.Lookup` | db/leveldb/util/cache.cc:214-223 | A hit gives out one more reference and makes the entry the newest; a miss means the table has no such key. |
| `LRUCaches.LRUCache.Release` | db/leveldb/util/cache.cc:225-228 | Giving back a handle deletes its entry exactly when it was the last reference. |
| `LRUCaches.LRUCache.Erase` | db/leveldb/util/cache.cc:263-270 | Exactly the entry with the hash and key leaves the table. |
| `LRUCaches.LRUCache.Prune` | db/leveldb/util/cache.cc:272-283 | Exactly the entries that callers hold stay on the list. |
| `LRUCaches.LRUCache.Unref` | db/leveldb/util/cache.cc:191-199 | Dropping the last reference deletes the entry, once, and takes its charge off the usage. |
| `LRUCaches.SumRemove` | db/leveldb/util/cache.cc:191-199 | The usage is the sum of the charges of the live handles and can be taken apart at any of them. |

## Left out

- `net/`, `base/` and `db/mysql/`: sockets, threads, clocks and a client library wrapper; they would only add easy members.
- A flush inside a running compaction, the seek budget, compaction scores and when background work is scheduled.
- `repair.cc`, `reuse_logs`, `ReuseManifest`, an `initial_offset` above 0 and resynchronisation in the log reader.
- Failed appends and syncs after which the process goes on, and internal keys that do not parse.
- Snappy compression: stored blocks are taken as uncompressed, and a block handle as the number of its block.
- Memory order weaker than sequential consistency: atomic loads and stores are single steps.
- SkipLists: that a search ends; while the writer keeps inserting ahead of it, it need not.
- WriterQueue: that every waiting thread is woken in the end; the memtable switch inside MakeRoomForWrite is not a step of its own here.
- LogDamage: damage in more than one block, and which records with a fragment in the damaged block come back where fragments behind the damage still pass; that none is joined from unrelated fragments is `LogFormat.RecordsAreUnbroken`.
- Durability: a log is a sequence of whole records; that cutting its file anywhere leaves whole records is `LogFormat.TruncatedLog`.
- Compactions: moves and compactions with a cut at their upper inputs are not steps of the run theorems even where they would bring nothing back; `Exposures` decides each of them singly.
- BackgroundWork.BackgroundCompaction: the inputs are listed in internal-key order by insertion; that the merging iterator yields that order is `Merging`.
- Crc32c.Extend: the four literal tables are taken to hold what their recurrence defines; the constants are not compared entry by entry.
- Blocks.Iter.Seek: blocks are those the builder makes; damaged contents and the error state are not modelled.
- InternalBlocks.SeekInternal: keys without the eight bytes of a tag, which the source asserts away, are given a place before all others.
- TwoLevel.TwoLevelIterator.Seek: error status of index and block iterators is not modelled.
- Tables.TableBuilder.Finish: handles, the metaindex block and the footer are not modelled.
- FilterBlocks.FilterBlockBuilder.Finish: says nothing about filters of 4 GB or more, whose offsets do not fit their 32 bits.
- HandleTables.HandleTable.Insert: chains are sequences, so the pointer to the slot of a handle is its place in the chain; aliasing of chain links is not captured.
- LRUCaches.LRUCache.Insert: the circular list is a sequence from the oldest to the newest entry; link updates and the sharding by hash bits are not captured, and reference counts do not wrap around.
- UserIterators.DBIter.Next: the internal iterator is a cursor over a fixed sorted run; read sampling is left out.
- ManifestRuns.ReplayRebuildsVersion: edits as sets of files per level, without log numbers and sequence numbers; their bytes are `VersionEdits`.
- Replay.Apply: one level at a time, since the levels of a builder do not interact; compaction pointers are left out.
- VersionEdits.DecodeFrom: decodes into a fresh edit, because clearing an edit keeps its old compaction pointers.
- Bloom.CreateFilter: the number of probes is computed in whole numbers, which agrees with the rounded-down product of the source up to its cap of thirty.
- `GetProperty`, `ApproximateSizes`, statistics, logging, the table cache, environments, C bindings, benchmarks and dump tools.
