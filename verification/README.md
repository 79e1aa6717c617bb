# A verified model of LevelDB

This project models LevelDB, the key-value store under `leveldb学习/leveldb`, in
Dafny and proves what the pieces of the store promise one another. An entry is a
user key, a 56-bit sequence number, a type (value or deletion) and a value; writes
go to a log and a memtable, memtables are flushed to sorted table files, files are
merged down seven levels, and readers see the newest entry at or below their
snapshot. Most of the store is correct only because of an invariant that the code
never states in one place, and the project states it and shows that every step
keeps it.

The parts, from the whole inwards:

- **The log-structured merge tree** (`DbFormat`, `Versions`, `CompactionInputs`,
  `CompactionSetup`, `CompactionChoice`, `CompactionWork`, `VersionBuilder`,
  `LsmSteps`, `DbState`, `Database`, `Manifests`). `Versions.LsmInvariant` says that levels above
  0 are sorted and disjoint on internal keys, that for one user key a lower level is
  strictly newer than a higher one, and that level-0 files with larger numbers are
  newer. `DbState` is a state machine whose steps are write, memtable switch, flush,
  compaction, trivial move, and taking and releasing snapshots; a ghost history lists
  all writes, and `DbState.MapAsOf` is the plain map after the first s of them.
  `DbState.RunSafe` proves, for every run, that the invariant holds and that every
  live read answers from that map, and `DbState.RunReads` that this map is what the Put
  and Delete operations issued make of the empty one. `Database.DB` is the same machine as an object over
  other objects, two memtables on skip lists and the linked list of snapshots, whose
  methods do what `DBImpl` and `VersionSet` do with loops and searches; each is proved
  to perform a step of the machine. `Manifests.RunLogs` shows that the edits of any run
  can be replayed to its version. Compaction is proved to change no read:
  input selection with boundary files is closed (`CompactionChoice.ClosedInputs`), the
  drop rules preserve lookups (`CompactionWork.DropsPreserveLookup`) and leave nothing
  obsolete (`CompactionWork.KeptMinimal`), and installation
  through the version builder keeps the invariant.
- **Iterators** (`DbIterator`, `Merger`, `Iteration`, `TwoLevelIterators`,
  `TableWalks`, `BlockIters`). Each is an object with a position and a direction, proved to be a
  cursor on a plain sequence for every interleaving of calls and for direction
  switches. `Iteration.NewIterator` makes a `DBIter` over a merging iterator over what a
  `DB` holds: it is a cursor on the map as of its snapshot, also when the memtable
  grows while it is used. `TableWalks.NewIterator` is a two-level iterator on a table
  that was built.
- **The skip list** (`SkipLinks`, `SkipRuns`, `SkipList`, `MemTables`). `SkipRuns`
  interleaves a writer, one link store at a time, with any number of readers, one link
  load at a time; in every state every level is sorted and nested, and a search answers
  for the set of the step at which it ends, which holds all that was there when it
  began. `SkipList.List` and its iterator refine a sorted set, `LinkLevel` runs the
  stores of that same machine, and `MemTables.MemTable` is the sorted list of entries
  that the database reads, adds to and flushes.
- **Log, write path and recovery** (`LogFormat`, `LogRoundTrip`, `LogChecksum`,
  `LogLosses`, `LogWriter`, `LogReader`, `LogCrc`, `WriteBatches`, `WriteGroups`,
  `WriteQueues`, `GroupCommit`, `Recovery`, `Durability`, `VersionEdits`). The writer's
  fragments are read back whole; a log cut at any byte gives exactly the records before
  the cut; in a damaged log every byte parsed is returned, reported, or in the record
  that the end leaves unfinished. `WriteQueues` is the protocol of the writers' queue,
  and `GroupCommit.WriteQueue` performs its steps on batches in their bytes: the shared
  batch is filled, stamped with its number, logged, synced, applied with the numbers of
  its header, cleared, and its group popped. Every call is served once and in order.
  `Durability.CrashAndReopen` puts it together: after a crash, manifest and log give a
  database that meets the invariant, whose writes are a prefix of those made and hold
  every write that was flushed or synced.
- **Tables** (`Coding`, `BlockFormat`, `BlockBuilders`, `Comparators`, `Bloom`,
  `FilterPolicies`, `FilterBlocks`, `TableIndex`, `TableFormat`, `Tables`,
  `TableBuilders`, `InternalKeys`). Prefix-compressed blocks, shortened index keys and
  bloom filters together never lose a key that is looked up. `InternalKeys` ties the
  bytes of internal keys to the order of the merge-tree part, so a read in the table of
  any builder is the read in the file that stands for it.
- **Checksum and cache** (`CrcStrides`, `Crc32c`, `CrcNumbers`, `CrcKnown`, `Rings`, `SnapshotLists`,
  `HashChains`, `HandleTables`, `LruCaches`). The four-stride CRC32C equals the byte-at-a-time fold
  of section 12.1 of RFC 3720 and, on integers, the textbook checksum with the
  polynomial 0x82f63b78; the reference-counted LRU cache keeps its linked hash
  chains, lists, counts and charge in step over every sequence of calls.

Reading the model:

- In the merge-tree part user keys are reals: keys are byte strings, there are
  countably many of them, and every total order on a countable set embeds in the
  rationals, so `<` stands for any user comparator. The format part uses byte strings
  and an arbitrary comparator that keeps `Comparators.UserLaws`;
  `InternalKeys.InternalAgrees` shows that the two orders are one.
- Clocks, file sizes, the cut of output files, random heights, the hash function and
  the memory address of checksummed data are parameters, and the theorems hold for
  every value of them. Flush and compaction are single steps; a step stands for what
  the code does while it holds its mutex or works on data no one else changes.
- Ghost fields and ghost results (a table's cells, a cursor, the replaced cache entry)
  say what the bytes and links stand for. No executable step reads them.

Where a promise is false, the exact condition is proved instead:

- The compaction loop marks "no entry of this key yet" with the greatest sequence
  number, so at that number as smallest snapshot rule (A) drops everything.
  `CompactionWork.LimitLoses` is an input that loses a value, and
  `CompactionWork.SafeBelowLimit` proves that the drop rules are safe if and only if
  the smallest snapshot is below the greatest sequence number.
- A length-prefixed string comes back if and only if its length fits in 32 bits
  (`Coding.SliceRoundTrip`).
- A version edit comes back if and only if its levels are below seven and its keys are
  not empty (`VersionEdits.EditRoundTrip`).

Two places where the code does more or less than its comments say, and the model
follows the code: a log record whose type byte is 5 or 6 is taken for the reader's own
codes for the end of the file and for a bad record (`LogFormat.Judge`), and the restart
index of a block iterator may lag one restart point behind the current entry, where its
comment says it is the entry's own (`BlockIters.RestartOf`).

## Model

| member | source | states |
|---|---|---|
| `DbState.RunSafe` | leveldb学习/leveldb/db/db_impl.cc:505-580 | in every state of every run from the empty database, over write, memtable switch, flush, compaction, move and snapshot steps, the LSM invariant holds and every live read answers from the map of its time |
| `DbState.SnapshotStable` | leveldb学习/leveldb/db/snapshot.h:57-86 | a snapshot alive in any later state of a run reads exactly the map as of its sequence number, as that map was in the earlier state |
| `DbState.RunReads` | leveldb学习/leveldb/db/db_impl.cc:1115-1160 | in every state of every run, a read at a live snapshot or at the end answers as the plain map that the operations issued up to there make, a Put setting its key and a Delete removing it |
| `DbState.IssuedMap` | leveldb学习/leveldb/db/db_impl.cc:1200-1271 | at every point of a run's history the map is what the operations issued up to that point make of the empty map |
| `DbState.WroteMap` | leveldb学习/leveldb/db/write_batch.cc:116-137 | a batch does to the map what its operations do, one after the other |
| `DbState.WriteOneMap` | leveldb学习/leveldb/db/write_batch.cc:121-128 | a Put sets its key and a Delete removes it |
| `DbState.CompactedMinimal` | leveldb学习/leveldb/db/db_impl.cc:945-978 | what a compaction writes holds nothing obsolete |
| `DbState.HistoryGrows` | leveldb学习/leveldb/db/db_impl.cc:1219-1252 | along a run the list of writes only grows at its end |
| `DbState.NextInv` | leveldb学习/leveldb/db/db_impl.cc:702-781 | every step of the database keeps the invariant, whichever step it is |
| `DbState.WroteInv` | leveldb学习/leveldb/db/write_batch.cc:116-137 | writing a batch keeps the invariant and advances the last sequence by the batch's length |
| `DbState.WriteOneInv` | leveldb学习/leveldb/db/write_batch.cc:116-130 | adding one entry with the next sequence number keeps all earlier reads and makes the new read right |
| `DbState.NewKey` | leveldb学习/leveldb/db/memtable.cc:76-100 | a write's internal key is in no memtable: what Insert on a skip list asks for |
| `DbState.LookupAfterWrite` | leveldb学习/leveldb/db/db_impl.cc:1115-1160 | after the newest entry is added, a read sees it exactly when the key matches and the snapshot is not older; all other reads stay |
| `DbState.SwitchedInv` | leveldb学习/leveldb/db/db_impl.cc:1325-1399 | making the memtable immutable changes no read and keeps the layering of memtables over files |
| `DbState.FlushedInv` | leveldb学习/leveldb/db/db_impl.cc:505-580 | a flush to any level that is free of overlap down to it keeps the LSM invariant and every read |
| `DbState.CompactedInv` | leveldb学习/leveldb/db/db_impl.cc:874-890 | installing a compaction's outputs keeps the LSM invariant and every read from the oldest live snapshot on |
| `DbState.CompactedReads` | leveldb学习/leveldb/db/db_impl.cc:892-1051 | after a compaction every read from the oldest snapshot to the present still equals the map of its time, memtables included |
| `DbState.MovedInv` | leveldb学习/leveldb/db/db_impl.cc:732-741 | a trivial move keeps the invariant and every read |
| `DbState.TookSnapshotInv` | leveldb学习/leveldb/db/snapshot.h:57-70 | taking a snapshot at the last sequence keeps the invariant |
| `DbState.ReleasedSnapshotInv` | leveldb学习/leveldb/db/snapshot.h:79-86 | releasing any snapshot keeps the invariant, though the oldest one may then be younger |
| `DbState.OldestFirst` | leveldb学习/leveldb/db/snapshot.h:47-50 | the smallest snapshot used by compactions is at most every live snapshot |
| `DbState.MapAsOfPrefix` | leveldb学习/leveldb/db/db_impl.cc:1181-1184 | later writes do not change the map as of an earlier sequence number |
| `LsmSteps.CompactionPreservesReads` | leveldb学习/leveldb/db/db_impl.cc:892-1051 | for every user key and every snapshot at or above the smallest one, the lookup result is the same before and after merge, drops and installation, with any newer memtable contents on top |
| `LsmSteps.CompactionKeepsInvariant` | leveldb学习/leveldb/db/db_impl.cc:874-890 | replacing closed inputs by disjoint outputs drawn from them keeps sorted disjoint levels, newer lower levels, and unique file numbers |
| `LsmSteps.FlushKeepsInvariant` | leveldb学习/leveldb/db/version_set.cc:470-495 | a file newer than the whole version may go to level 0 or to any level with no overlap down to it |
| `LsmSteps.OutputLevelDisjoint` | leveldb学习/leveldb/db/db_impl.cc:874-890 | outputs cannot overlap what is left at the next level |
| `LsmSteps.LevelsStayOrdered` | leveldb学习/leveldb/db/version_set.cc:1385-1446 | after installation every file of a lower level is still newer, key by key, than every file of a higher one |
| `LsmSteps.CompactionOthersNewer` | leveldb学习/leveldb/db/version_set.cc:1517-1536 | everything outside the inputs, for a key with nothing below the output level, is newer than the input entries: what makes dropping a deletion marker safe |
| `CompactionWork.DropsPreserveLookup` | leveldb学习/leveldb/db/db_impl.cc:945-978 | rule (A) and the deletion rule change no read at or above the smallest snapshot |
| `CompactionWork.DroppedNewest` | leveldb学习/leveldb/db/db_impl.cc:945-978 | if the newest visible entry of a key is dropped it is a deletion marker, and nothing visible of the key survives |
| `CompactionWork.SafeBelowLimit` | leveldb学习/leveldb/db/db_impl.cc:945-978 | the drop rules are safe for all inputs if and only if the smallest snapshot is below the greatest sequence number |
| `CompactionWork.LimitDropsAll` | leveldb学习/leveldb/db/db_impl.cc:920-963 | at the greatest sequence number the mark for no entry yet passes rule (A), so every entry is dropped |
| `CompactionWork.LimitLoses` | leveldb学习/leveldb/db/db_impl.cc:952-963 | a concrete compaction at the limit loses a value |
| `CompactionWork.DoCompactionWork` | leveldb学习/leveldb/db/db_impl.cc:892-1051 | the output files, wherever they are cut, hold exactly the kept entries in order, and none is empty; a deletion marker that every snapshot sees stays only when a file two levels down or deeper has its key in range, and of one user key at most one entry is that old |
| `CompactionWork.KeptMinimal` | leveldb学习/leveldb/db/db_impl.cc:945-978 | of the merged input exactly that much is kept, for every version and smallest snapshot |
| `CompactionWork.NewerUnseen` | leveldb学习/leveldb/db/db_impl.cc:952-963 | an entry kept behind another of its user key is behind one that some snapshot does not see |
| `CompactionWork.BaseMeans` | leveldb学习/leveldb/db/version_set.cc:1517-1536 | a level is the base for a key exactly when every file two levels down or deeper ends before it or starts after it |
| `CompactionWork.ShouldDrop` | leveldb学习/leveldb/db/db_impl.cc:961-975 | the decision of the loop is the drop rule stated on the version, though it is computed with pointers that only move forward |
| `CompactionWork.KeptSorted` | leveldb学习/leveldb/db/db_impl.cc:892-1051 | what is kept is still in internal-key order |
| `CompactionWork.KeptMembers` | leveldb学习/leveldb/db/db_impl.cc:892-1051 | an entry is kept exactly when some occurrence of it is not dropped |
| `CompactionWork.AddOutput` | leveldb学习/leveldb/db/db_impl.cc:989-1011 | an entry goes to the end of the outputs, whether or not that closes a file, and no output is empty |
| `CompactionWork.FinishOutput` | leveldb学习/leveldb/db/db_impl.cc:825-872 | closing an output keeps what the outputs hold |
| `CompactionWork.Compaction.IsBaseLevelForKey` | leveldb学习/leveldb/db/version_set.cc:1517-1536 | true exactly when every file two levels down or deeper ends before the key or starts after it, for keys asked in any order the level pointers allow |
| `CompactionWork.Compaction.constructor` | leveldb学习/leveldb/db/version_set.cc:1481-1491 | level pointers start before every key |
| `CompactionChoice.SetupOtherInputs` | leveldb学习/leveldb/db/version_set.cc:1385-1446 | nothing left at either level holds an older entry of a chosen key, nothing left below meets the range, the level inputs are grown exactly when more files fit the byte limit and meet no more files below, and the grandparents are the files two levels down that meet the whole range |
| `CompactionChoice.InputsClosed` | leveldb学习/leveldb/db/version_set.cc:1385-1446 | boundary-closed level inputs and the run covering their range below are closed in that sense |
| `CompactionChoice.ChosenNoOlder` | leveldb学习/leveldb/db/version_set.cc:1326-1383 | no file left at the level holds an older version of any chosen user key |
| `CompactionChoice.BoundaryCompletes` | leveldb学习/leveldb/db/version_set.cc:1360-1383 | a chain of boundary files makes a selection that no file at the level continues |
| `CompactionChoice.ParentsClosed` | leveldb学习/leveldb/db/version_set.cc:1389-1394 | a file left at the next level lies wholly before or wholly after all inputs |
| `CompactionChoice.ExpandLevelInputs` | leveldb学习/leveldb/db/version_set.cc:1396-1405 | growing keeps every earlier input, is everything of the level that meets the range, and is boundary-closed again |
| `CompactionChoice.GetParentInputs` | leveldb学习/leveldb/db/version_set.cc:1392-1394 | the overlapping run of the next level, extended by boundary files until none continues it |
| `CompactionChoice.PickFile` | leveldb学习/leveldb/db/version_set.cc:1266-1278 | the first file past the compaction pointer, wrapping around to the first of all |
| `CompactionChoice.RoundRobin` | leveldb学习/leveldb/db/version_set.cc:1266-1278 | a pointer at the end of one file of a deeper level picks the next one, and the first after the last |
| `CompactionChoice.PickCompaction` | leveldb学习/leveldb/db/version_set.cc:1252-1304 | by size before by seeks: the first file past the pointer of the level furthest over its limit, else the file that used up its seeks, else nothing; it is among closed inputs, and the next pointer is their largest key |
| `CompactionChoice.Finalize` | leveldb学习/leveldb/db/version_set.cc:1031-1067 | the first of the levels with the greatest score, the last level left out |
| `CompactionChoice.FirstSelection` | leveldb学习/leveldb/db/version_set.cc:1287-1299 | one file, and at level 0 the closure of the files that meet it |
| `CompactionChoice.LimitInputs` | leveldb学习/leveldb/db/version_set.cc:1460-1471 | the shortest nonempty prefix that reaches the limit, or all |
| `CompactionChoice.CompactRange` | leveldb学习/leveldb/db/version_set.cc:1448-1479 | closed inputs holding every overlapping file of level 0, or the limited prefix of a deeper level, and their largest key as the next pointer; none exactly when no file overlaps |
| `CompactionChoice.RangeInputs` | leveldb学习/leveldb/db/version_set.cc:1448-1473 | the files that a manual compaction starts from: all that overlap at level 0, a limited prefix of them below |
| `CompactionSetup.AddBoundaryInputs` | leveldb学习/leveldb/db/version_set.cc:1360-1383 | terminates, extends the inputs by smallest boundary files one after the other, and leaves no boundary file out |
| `CompactionSetup.ChainDistinct` | leveldb学习/leveldb/db/version_set.cc:1360-1383 | every boundary file added differs from all before it and is a file of the level |
| `CompactionSetup.ChainIsSlice` | leveldb学习/leveldb/db/version_set.cc:1360-1383 | on a disjoint level the closure of a run of files is a longer run from the same start |
| `CompactionSetup.NextBoundary` | leveldb学习/leveldb/db/version_set.cc:1326-1344 | on a disjoint level the smallest boundary file is the very next file |
| `CompactionSetup.FindSmallestBoundaryFile` | leveldb学习/leveldb/db/version_set.cc:1326-1344 | a smallest file that starts after the key with its user key, or none when there is none |
| `CompactionSetup.GetRange` | leveldb学习/leveldb/db/version_set.cc:1187-1206 | the least and the greatest key of the files |
| `CompactionSetup.SmallestOfLeast` | leveldb学习/leveldb/db/version_set.cc:1187-1206 | the range's start is the start of some file and at most every file's start |
| `CompactionSetup.LargestOfGreatest` | leveldb学习/leveldb/db/version_set.cc:1187-1206 | the range's end is the end of some file and at least every file's end |
| `CompactionInputs.GetOverlappingInputs` | leveldb学习/leveldb/db/version_set.cc:498-538 | terminates despite restarts and returns exactly the files overlapping the least closed range around the bounds; above level 0, overlapping the bounds |
| `CompactionInputs.ForcedBegin` | leveldb学习/leveldb/db/version_set.cc:522-528 | a restart to the left is forced by every closed range, and fewer files then start before the range |
| `CompactionInputs.ForcedEnd` | leveldb学习/leveldb/db/version_set.cc:522-535 | a restart to the right is forced by every closed range, and fewer files then end after it |
| `CompactionInputs.SomeFileOverlapsRange` | leveldb学习/leveldb/db/version_set.cc:121-156 | the answer of the linear scan, also where a binary search finds it on a disjoint level, with either bound missing |
| `CompactionInputs.FilterIsSlice` | leveldb学习/leveldb/db/version_set.cc:498-538 | on a disjoint level the overlapping files are one contiguous run, and exactly those |
| `CompactionInputs.OverlapConvex` | leveldb学习/leveldb/db/version_set.cc:121-156 | between two overlapping files of a disjoint level every file overlaps |
| `Versions.Get` | leveldb学习/leveldb/db/version_set.cc:324-400 | the value of the entry with the largest visible sequence over all files, or nothing when that is a deletion or there is none |
| `Versions.SearchLevelZero` | leveldb学习/leveldb/db/version_set.cc:281-303 | newest file first: a hit is the version's answer, a miss means no level-0 file shows the key |
| `Versions.SearchLevel` | leveldb学习/leveldb/db/version_set.cc:304-322 | looking in one file of a deeper level is enough: a hit is the version's answer, a miss clears the level |
| `Versions.FindFile` | leveldb学习/leveldb/db/version_set.cc:87-105 | binary search for the earliest file whose largest key is at or after the key |
| `Versions.LevelZeroHit` | leveldb学习/leveldb/db/version_set.cc:281-303 | the first hit in descending file numbers is the newest visible entry of the whole version |
| `Versions.DeepHit` | leveldb学习/leveldb/db/version_set.cc:304-322 | a hit at a level, with nothing visible above, is the newest visible entry of the whole version |
| `Versions.HitIsNewest` | leveldb学习/leveldb/db/version_set.cc:324-400 | stopping at a hit is right when every other file shows nothing or is older, key by key |
| `Versions.EarlierFileNewer` | leveldb学习/leveldb/db/version_set.cc:304-322 | where one user key spans two files of a deeper level, the earlier file holds the newer entries |
| `Versions.PastSeekNothingVisible` | leveldb学习/leveldb/db/version_set.cc:304-322 | files before the one found show nothing of the key, nor do those behind it when it does not |
| `Versions.SortNewestFirst` | leveldb学习/leveldb/db/version_set.cc:277-297 | a permutation of the files |
| `Versions.SortNewestFirstSorted` | leveldb学习/leveldb/db/version_set.cc:277-297 | file numbers descend |
| `Versions.TableGetCorrect` | leveldb学习/leveldb/db/version_set.cc:262-275 | the lookup in one file finds its newest visible entry of the key, or there is none |
| `Versions.FilesCovering` | leveldb学习/leveldb/db/version_set.cc:286-294 | exactly the level-0 files whose user-key range covers the key |
| `DbFormat.SeekIndex` | leveldb学习/leveldb/include/leveldb/iterator.h:45-48 | everything before the position is before the target, everything from it on is not |
| `DbFormat.ListGetCorrect` | leveldb学习/leveldb/db/dbformat.cc:117-134 | seeking the lookup key lands on the newest visible entry of the user key, or there is none |
| `DbFormat.LookupNewest` | leveldb学习/leveldb/db/version_set.cc:262-275 | the reference meaning of a read is decided by any newest visible entry |
| `DbFormat.NewestExists` | leveldb学习/leveldb/db/version_set.cc:262-275 | a key with a visible entry has a newest one |
| `DbFormat.AdjacentVersions` | leveldb学习/leveldb/db/dbformat.cc:47-63 | entries of one user key are next to each other in internal-key order, newest first |
| `DbFormat.InsertEntrySorted` | leveldb学习/leveldb/db/skiplist.h:335-366 | a memtable insertion keeps the order and adds exactly the entry |
| `VersionBuilder.ReplayEqualsStepwise` | leveldb学习/leveldb/db/version_set.cc:909-945 | one builder over all edits, saved once, gives at each level the very file list that installing the edits one by one gives |
| `VersionBuilder.Recover` | leveldb学习/leveldb/db/version_set.cc:909-945 | the replay loop returns the version that edit-by-edit installation reached |
| `VersionBuilder.ReplayMembers` | leveldb学习/leveldb/db/version_set.cc:629-669 | after any number of edits, a file is in the installed level exactly when it was there or added and its number is not counted as deleted |
| `VersionBuilder.Builder.constructor` | leveldb学习/leveldb/db/version_set.cc:598-606 | a builder that has seen no edit |
| `VersionBuilder.Builder.Apply` | leveldb学习/leveldb/db/version_set.cc:629-669 | deletions are added, additions are added and no longer counted as deleted, level by level |
| `VersionBuilder.Builder.ApplyDeletions` | leveldb学习/leveldb/db/version_set.cc:638-643 | every level counts the edit's deletions at that level and nothing else changes |
| `VersionBuilder.Builder.ApplyAddition` | leveldb学习/leveldb/db/version_set.cc:645-667 | one level gains the file and stops counting its number as deleted |
| `VersionBuilder.Builder.SaveTo` | leveldb学习/leveldb/db/version_set.cc:672-713 | each saved level is sorted and holds exactly the old and added files that are not deleted |
| `VersionBuilder.SaveLevel` | leveldb学习/leveldb/db/version_set.cc:672-713 | merging the sorted base with the sorted additions through upper_bound keeps order and membership |
| `VersionBuilder.SaveAdded` | leveldb学习/leveldb/db/version_set.cc:683-692 | one added file goes behind all smaller base files |
| `VersionBuilder.UpperBound` | leveldb学习/leveldb/db/version_set.cc:685-687 | the first base file after the added one, from a given place on |
| `VersionBuilder.AddRun` | leveldb学习/leveldb/db/version_set.cc:685-689 | a stretch of base files goes to the output, without the deleted ones |
| `VersionBuilder.MaybeAddSorted` | leveldb学习/leveldb/db/version_set.cc:717-730 | a file is added exactly when it is not deleted, and order is kept |
| `VersionBuilder.SortedUnique` | leveldb学习/leveldb/db/version_set.cc:569-583 | a sorted file list is determined by its set of files |
| `VersionBuilder.InsertFileSorted` | leveldb学习/leveldb/db/version_set.cc:569-583 | insertion under the smallest-key order keeps the set sorted |
| `Manifests.RunLogs` | leveldb学习/leveldb/db/version_set.cc:777-858 | every state of every run has a manifest whose edits, replayed, give its version: the edits are legal and no file number is added twice to a level |
| `Manifests.NextLogs` | leveldb学习/leveldb/db/version_set.cc:777-858 | every step leaves such a manifest, at most one edit longer |
| `Manifests.LogEdit` | leveldb学习/leveldb/db/version_set.cc:777-858 | an edit whose files are new or come from a level above keeps the manifest replayable |
| `Manifests.FlushLogs` | leveldb学习/leveldb/db/db_impl.cc:562-569 | the edit of a flush leads to the next version |
| `Manifests.CompactionLogs` | leveldb学习/leveldb/db/db_impl.cc:874-890 | the edit of a compaction leads to the next version |
| `Manifests.MoveLogs` | leveldb学习/leveldb/db/db_impl.cc:732-739 | the edit of a move leads to the next version, though it adds a number again, one level down |
| `Manifests.NotBefore` | leveldb学习/leveldb/db/version_set.cc:909-945 | a file that comes from above was never added to the level before: files only go down |
| `Database.DB.constructor` | leveldb学习/leveldb/db/db_impl.cc:126-150 | an empty database in its initial state, its objects in step with it |
| `Database.DB.Opened` | leveldb学习/leveldb/db/db_impl.cc:292-383 | a database on the files of a manifest, with empty memtables and no snapshots |
| `Database.DB.Write` | leveldb学习/leveldb/db/db_impl.cc:1200-1271 | the batch gets the next sequence numbers in order, the invariant holds, and the map is the old one with the batch's operations done to it |
| `Database.DB.Insert` | leveldb学习/leveldb/db/write_batch.cc:116-130 | one operation becomes one entry with the next sequence number, in the memtable's skip list, and the map is the old one with the operation done to it |
| `Database.DB.SwitchMemTable` | leveldb学习/leveldb/db/db_impl.cc:1387-1395 | the memtable becomes the immutable one and a new skip list is empty |
| `Database.DB.CompactMemTable` | leveldb学习/leveldb/db/db_impl.cc:549-580 | walking the immutable memtable's skip list gives the file at the picked level, or nothing when it is empty |
| `Database.DB.FlushTable` | leveldb学习/leveldb/db/db_impl.cc:505-547 | the new file is at a level where the flush step allows it |
| `Database.DB.Compact` | leveldb学习/leveldb/db/db_impl.cc:892-1051 | reading, dropping from the oldest snapshot of the list on, cutting and installing together perform one compaction step on the given inputs |
| `Database.DB.BackgroundCompaction` | leveldb学习/leveldb/db/db_impl.cc:702-781 | an immutable memtable is flushed; else nothing when no level is due and no file used up its seeks; else the picked file is moved exactly when it is the only input and the files two levels down in its range are small, and compacted with its inputs otherwise; the level's pointer goes to the greatest key of the level inputs and no other pointer moves |
| `Database.TrivialMoveMeans` | leveldb学习/leveldb/db/version_set.cc:1499-1507 | a move is trivial exactly when the file is the only input and the files two levels down in its range hold at most ten times the file size limit |
| `Database.LargestMoves` | leveldb学习/leveldb/db/version_set.cc:1440-1445 | the pointer is the largest key of some level input and at least that of every one |
| `Database.DB.ManualCompaction` | leveldb学习/leveldb/db/db_impl.cc:702-724 | performs a compaction step and moves the level's pointer to the greatest key of its inputs, or reports done and changes nothing exactly when no file meets the range |
| `Database.DB.GetSnapshot` | leveldb学习/leveldb/db/db_impl.cc:1181-1184 | a node at the end of the snapshot list makes the last sequence number live |
| `Database.DB.ReleaseSnapshot` | leveldb学习/leveldb/db/db_impl.cc:1186-1189 | exactly that node's snapshot goes |
| `Database.DB.Get` | leveldb学习/leveldb/db/db_impl.cc:1115-1160 | through two skip lists and the files: the value in the map as of the snapshot, or as of now, for every reachable state |
| `Database.DB.SmallestSnapshot` | leveldb学习/leveldb/db/db_impl.cc:904-908 | the front of the snapshot list is the oldest live snapshot, and the last sequence number stands in for none |
| `Database.DB.SequenceFor` | leveldb学习/leveldb/db/db_impl.cc:1117-1125 | the sequence number of a live snapshot's node, or the last one, is not older than what compactions keep |
| `Database.ReadLayers` | leveldb学习/leveldb/db/db_impl.cc:1139-1147 | the first layer with an entry for the key answers as the map does, and the files do when no memtable has one |
| `Database.FlushFile` | leveldb学习/leveldb/db/db_impl.cc:505-547 | picking a level and installing the file is a flush step |
| `Database.CompactFiles` | leveldb学习/leveldb/db/db_impl.cc:892-1051 | merge, drops, cutting and installation are a compaction step |
| `Database.MoveFile` | leveldb学习/leveldb/db/db_impl.cc:732-741 | installing the edit of a move is a move step |
| `Database.PickLevelForMemTableOutput` | leveldb学习/leveldb/db/version_set.cc:470-495 | no file from level 0 to the chosen level overlaps, no passed level has too many bytes two below, and a level short of the maximum has a reason to stop |
| `Database.ReadInput` | leveldb学习/leveldb/db/version_set.cc:1219-1250 | the merging iterator yields every input entry once, in internal-key order |
| `Database.InputListsMerge` | leveldb学习/leveldb/db/version_set.cc:1219-1250 | the children have a common sorted merge: no entry is in two of them |
| `Database.ConcatSorted` | leveldb学习/leveldb/db/version_set.cc:222-227 | the concatenation of a disjoint level's files is sorted |
| `Database.MakeFiles` | leveldb学习/leveldb/db/db_impl.cc:800-872 | output files hold the outputs, are disjoint, and have fresh numbers |
| `Database.LogAndApply` | leveldb学习/leveldb/db/version_set.cc:777-800 | each level is the old one changed by the edit, sorted |
| `Database.SavedIsInstalled` | leveldb学习/leveldb/db/version_set.cc:1509-1515 | deleting the inputs by number and adding the outputs is replacing the input files |
| `Database.InstallCompaction` | leveldb学习/leveldb/db/db_impl.cc:874-890 | the version after the edit of a compaction |
| `Database.InstallFile` | leveldb学习/leveldb/db/db_impl.cc:564-569 | the version after the edit of a flush |
| `Database.UpperHit` | leveldb学习/leveldb/db/db_impl.cc:1140-1147 | a hit in a newer layer is the answer of all layers |
| `Database.UpperMiss` | leveldb学习/leveldb/db/db_impl.cc:1140-1147 | a miss in a newer layer leaves the answer to the older ones |
| `Iteration.IteratorReads` | leveldb学习/leveldb/db/db_impl.cc:1077-1102 | what the merged children show for a key is what the map of the snapshot holds |
| `Iteration.NewIterator` | leveldb学习/leveldb/db/db_impl.cc:1162-1172 | the merging iterator over the walked skip lists and the files makes a cursor on the map as of the snapshot |
| `Iteration.ReadsAreMap` | leveldb学习/leveldb/db/db_impl.cc:1077-1102 | the merged children show exactly the map of the snapshot |
| `Iteration.LaterWritesUnseen` | leveldb学习/leveldb/db/memtable.cc:74-74 | entries that a memtable gets after an iterator was made change nothing that the iterator shows |
| `Iteration.LookupUnseen` | leveldb学习/leveldb/db/db_impl.cc:1162-1172 | entries above a snapshot change no read at it |
| `Iteration.HeldChildren` | leveldb学习/leveldb/db/db_impl.cc:1077-1102 | the memtables, level-0 files and deeper levels together hold exactly what the database holds, no entry twice |
| `Iteration.HeldMergeExists` | leveldb学习/leveldb/db/db_impl.cc:1077-1102 | the children of the internal iterator have a sorted merge |
| `Iteration.DeepMembers` | leveldb学习/leveldb/db/version_set.cc:229-245 | the concatenated levels hold exactly the entries of the levels from there on |
| `DbIterator.DBIter.constructor` | leveldb学习/leveldb/db/db_iter.cc:48-57 | an iterator that stands nowhere, over a merging iterator |
| `DbIterator.DBIter.Next` | leveldb学习/leveldb/db/db_iter.cc:141-175 | from either direction, to the next key of the map that the iterator shows, or to none |
| `DbIterator.DBIter.Prev` | leveldb学习/leveldb/db/db_iter.cc:209-234 | from either direction, to the previous key of that map, or to none |
| `DbIterator.DBIter.Seek` | leveldb学习/leveldb/db/db_iter.cc:278-290 | to the first key of that map at or after the target, or to none |
| `DbIterator.DBIter.SeekToFirst` | leveldb学习/leveldb/db/db_iter.cc:292-301 | to the first key of that map, or to none when it is empty |
| `DbIterator.DBIter.SeekToLast` | leveldb学习/leveldb/db/db_iter.cc:303-308 | to the last key of that map, or to none when it is empty |
| `DbIterator.DBIter.FindNextUserEntry` | leveldb学习/leveldb/db/db_iter.cc:177-207 | skips exactly entries that are not shown or have the skipped key |
| `DbIterator.DBIter.FindPrevUserEntry` | leveldb学习/leveldb/db/db_iter.cc:236-276 | the last shown entry before the position, leaving the internal iterator in front of its key |
| `DbIterator.DBIter.Position` | leveldb学习/leveldb/db/db_iter.cc:64-71 | key and value of the shown entry, though in reverse they are saved copies |
| `DbIterator.NextShownIsNextKey` | leveldb学习/leveldb/db/db_iter.cc:141-175 | the next shown entry carries the next visible key and its newest visible value |
| `DbIterator.PrevShownIsPrevKey` | leveldb学习/leveldb/db/db_iter.cc:209-234 | the shown entry before carries the previous visible key |
| `DbIterator.SeekShownIsFirstKey` | leveldb学习/leveldb/db/db_iter.cc:278-290 | the first shown entry at a target carries the first visible key from there on |
| `DbIterator.FirstShownIsFirstKey` | leveldb学习/leveldb/db/db_iter.cc:292-301 | the first shown entry carries the first visible key |
| `DbIterator.ShownIsRead` | leveldb学习/leveldb/db/db_iter.cc:177-207 | a shown entry is what a read of its key returns |
| `DbIterator.ReadIsShown` | leveldb学习/leveldb/db/db_iter.cc:177-207 | every readable key has a shown entry: tombstones and newer entries hide no more than they should |
| `DbIterator.ScanHit` | leveldb学习/leveldb/db/db_iter.cc:177-207 | a value met outside the skipped key is shown |
| `DbIterator.ScanBackDone` | leveldb学习/leveldb/db/db_iter.cc:236-276 | the candidate kept by the backward scan is shown, and the iterator is in front of its key |
| `Merger.MergingIterator.constructor` | leveldb学习/leveldb/table/merger.cc:16-25 | not valid, over any children with a sorted merge |
| `Merger.MergingIterator.SeekToFirst` | leveldb学习/leveldb/table/merger.cc:31-37 | the cursor is at the first entry of the merge |
| `Merger.MergingIterator.SeekToLast` | leveldb学习/leveldb/table/merger.cc:39-45 | the cursor is at the last entry of the merge |
| `Merger.MergingIterator.Seek` | leveldb学习/leveldb/table/merger.cc:47-53 | the cursor is at the first entry of the merge at or after the target |
| `Merger.MergingIterator.Next` | leveldb学习/leveldb/table/merger.cc:55-79 | the cursor moves one entry on, also after moving backwards |
| `Merger.MergingIterator.Prev` | leveldb学习/leveldb/table/merger.cc:81-108 | the cursor moves one entry back, also after moving forwards; from the first entry to not valid |
| `Merger.MergingIterator.Current` | leveldb学习/leveldb/table/merger.cc:110-118 | the entry of the merge under the cursor |
| `Merger.MergingIterator.FindSmallest` | leveldb学习/leveldb/table/merger.cc:148-161 | with every child past the cursor, the smallest child is the cursor's entry |
| `Merger.MergingIterator.FindLargest` | leveldb学习/leveldb/table/merger.cc:163-176 | with every child in front of the cursor, the largest child is the entry before it |
| `Merger.SmallestIsNext` | leveldb学习/leveldb/table/merger.cc:148-161 | a smallest child exists exactly when the merge has an entry left, and is that entry |
| `Merger.LargestIsPrevious` | leveldb学习/leveldb/table/merger.cc:163-176 | a largest child exists exactly when the merge has an entry in front, and is that entry |
| `Merger.BelowStep` | leveldb学习/leveldb/table/merger.cc:55-79 | moving past an entry moves only the child that holds it |
| `Merger.SeekChild` | leveldb学习/leveldb/table/merger.cc:47-53 | seeking every child for a target puts it where the merge's own seek needs it |
| `Merger.OtherChild` | leveldb学习/leveldb/table/merger.cc:63-75 | at a direction switch, seeking a child for the current key and skipping an equal one puts it behind the cursor |
| `SkipRuns.RunInv` | leveldb学习/leveldb/db/skiplist.h:335-366 | in every state of every run of one inserting and any number of searching threads, store by store and load by load, each level is linked in key order and its nodes are nodes of the level below |
| `SkipRuns.SearchAnswers` | leveldb学习/leveldb/db/skiplist.h:260-280 | a search of any thread that ends in the middle of an insertion stands at the right place for the nodes linked at that very step |
| `SkipRuns.OldOrNew` | leveldb学习/leveldb/db/skiplist.h:335-366 | each step leaves the set of nodes as it was or adds the one being inserted |
| `SkipRuns.NodesStay` | leveldb学习/leveldb/db/skiplist.h:335-366 | nodes stay in the list, with their keys, for the rest of a run |
| `SkipRuns.FindsEarlier` | leveldb学习/leveldb/db/skiplist.h:260-280 | a search ends no later than the first key from its target on that was in the list when it began, whatever was inserted meanwhile |
| `SkipRuns.OwnStep` | leveldb学习/leveldb/db/skiplist.h:260-280 | only its own load ends a search |
| `SkipRuns.NextInv` | leveldb学习/leveldb/db/skiplist.h:335-366 | every single store and every single load keeps the invariant of list, writer and readers |
| `SkipRuns.StartedInv` | leveldb学习/leveldb/db/skiplist.h:335-359 | making a node with arbitrary links changes nothing for readers |
| `SkipRuns.OwnStoredInv` | leveldb学习/leveldb/db/skiplist.h:360-363 | setting the new node's own link is seen by no level yet |
| `SkipRuns.PrevStoredValid` | leveldb学习/leveldb/db/skiplist.h:360-365 | the one store into the predecessor links the node and keeps every level in order and nested |
| `SkipRuns.PrevStoredWriter` | leveldb学习/leveldb/db/skiplist.h:360-365 | what the writer still has to link stays right |
| `SkipRuns.LoadedInv` | leveldb学习/leveldb/db/skiplist.h:260-280 | a search that loads a link goes on right, goes down, or ends where it should |
| `SkipLinks.SearchEnds` | leveldb学习/leveldb/db/skiplist.h:260-280 | a search that cannot go right at a level stands at the last node before the target, and its link is the first node from the target on |
| `SkipLinks.LevelsNest` | leveldb学习/leveldb/db/skiplist.h:335-366 | the nodes of a higher level are nodes of every lower one |
| `SkipLinks.StoreLinks` | leveldb学习/leveldb/db/skiplist.h:360-365 | storing a predecessor's link to a node whose own link is set adds exactly that node to the level |
| `SkipLinks.StoreElsewhere` | leveldb学习/leveldb/db/skiplist.h:360-365 | a store changes nothing for a level that does not use the link |
| `SkipList.List.constructor` | leveldb学习/leveldb/db/skiplist.h:322-332 | an empty list |
| `SkipList.List.FindGreaterOrEqual` | leveldb学习/leveldb/db/skiplist.h:260-280 | the first node at or after the key, and the last node before it at every level in use |
| `SkipList.List.FindLessThan` | leveldb学习/leveldb/db/skiplist.h:283-300 | the last node before the key, or the head |
| `SkipList.List.FindLast` | leveldb学习/leveldb/db/skiplist.h:303-320 | the last node, or the head of an empty list |
| `SkipList.List.Insert` | leveldb学习/leveldb/db/skiplist.h:335-366 | adds exactly the key, for any height, and the list is valid |
| `SkipList.List.LinkNode` | leveldb学习/leveldb/db/skiplist.h:359-365 | the stores from the lowest level up, as steps of the concurrent machine |
| `SkipList.List.LinkLevel` | leveldb学习/leveldb/db/skiplist.h:360-365 | the two stores at a level are two steps of the concurrent machine |
| `SkipList.List.Contains` | leveldb学习/leveldb/db/skiplist.h:369-376 | whether the key is in the set |
| `SkipList.Iterator.Next` | leveldb学习/leveldb/db/skiplist.h:205-208 | the successor of the node in key order |
| `SkipList.Iterator.Prev` | leveldb学习/leveldb/db/skiplist.h:211-219 | the node whose successor the current one is, or none at the front |
| `SkipList.Iterator.Seek` | leveldb学习/leveldb/db/skiplist.h:222-224 | the first node at or after the target |
| `SkipList.Iterator.SeekToFirst` | leveldb学习/leveldb/db/skiplist.h:227-229 | the first node |
| `SkipList.Iterator.SeekToLast` | leveldb学习/leveldb/db/skiplist.h:232-237 | the last node, or none in an empty list |
| `SkipList.Goes` | leveldb学习/leveldb/db/skiplist.h:260-280 | every turn of a search loop gets nearer the end or goes down to a node of the lower level |
| `MemTables.MemTable.constructor` | leveldb学习/leveldb/db/memtable.cc:21-22 | an empty memtable |
| `MemTables.MemTable.Add` | leveldb学习/leveldb/db/memtable.cc:76-100 | the skip list holds the sorted entries with the new one in its place |
| `MemTables.MemTable.Get` | leveldb学习/leveldb/db/memtable.cc:102-136 | a seek of the skip list finds what a lookup in the sorted entries finds: the newest visible entry of the key, or none |
| `MemTables.MemTable.Contents` | leveldb学习/leveldb/db/memtable.cc:46-74 | walking the skip list gives the entries in internal-key order |
| `MemTables.NextPlace` | leveldb学习/leveldb/db/memtable.cc:46-74 | the successor of a node is the next of the sorted entries |
| `MemTables.SeekPlace` | leveldb学习/leveldb/db/memtable.cc:102-106 | a search of the skip list stops where a seek of the sorted entries does |
| `LogRoundTrip.PrefixReads` | leveldb学习/leveldb/db/log_reader.cc:56-174 | reading any byte prefix of what was written gives exactly the records wholly in the prefix and reports no corruption |
| `LogRoundTrip.RoundTrip` | leveldb学习/leveldb/db/log_reader.cc:56-174 | reading everything that was written gives back the records, for every checksum that accepts its own stamps |
| `LogRoundTrip.ReadsBack` | leveldb学习/leveldb/db/log_writer.cc:34-80 | a record cut into any number of fragments, over any number of blocks and trailers, is read back in one piece |
| `LogRoundTrip.CutReadsNothing` | leveldb学习/leveldb/db/log_reader.cc:144-151 | a record cut short at any byte reads as the end of the file and reports nothing |
| `LogRoundTrip.PhysicalRead` | leveldb学习/leveldb/db/log_reader.cc:189-271 | a whole physical record is read back |
| `LogRoundTrip.PhysicalCut` | leveldb学习/leveldb/db/log_reader.cc:189-233 | a physical record cut short reads as the end of the file |
| `LogRoundTrip.WhollyBeforeCounts` | leveldb学习/leveldb/db/log_reader.cc:56-174 | the number of records read is right: k records fit exactly when their bytes end before the cut |
| `LogFormat.LeftInBlock` | leveldb学习/leveldb/db/log_format.h:27-30 | between one byte and a block, and the block's end starts the next |
| `LogFormat.FragmentLength` | leveldb学习/leveldb/db/log_writer.cc:56-60 | a fragment fits its block and is all that is left or all that fits |
| `LogFormat.ReadFrom` | leveldb学习/leveldb/db/log_reader.cc:56-174 | reading goes forward whenever a record is returned |
| `LogFormat.NextPhysical` | leveldb学习/leveldb/db/log_reader.cc:189-271 | reading a physical record goes forward unless the file has ended |
| `LogChecksum.MaskedSound` | leveldb学习/leveldb/util/crc32c.h:29-38 | a masked checksum accepts the string it was made from |
| `LogChecksum.MaskedExact` | leveldb学习/leveldb/db/log_reader.cc:244-257 | a masked checksum accepts no stamp but the string's own |
| `LogWriter.Writer.constructor` | leveldb学习/leveldb/db/log_writer.cc:23-30 | a writer on a file that holds any bytes knows its place in the block |
| `LogWriter.Writer.AddRecord` | leveldb学习/leveldb/db/log_writer.cc:34-80 | terminates and appends exactly the record's encoding, also when its first fragment is empty |
| `LogWriter.Writer.SwitchBlock` | leveldb学习/leveldb/db/log_writer.cc:44-54 | filling up a block with zeros is what the encoding does there |
| `LogWriter.Writer.EmitPhysicalRecord` | leveldb学习/leveldb/db/log_writer.cc:82-108 | appends header and payload, with the checksum extended from the type's own |
| `LogReader.Reader.constructor` | leveldb学习/leveldb/db/log_reader.cc:18-29 | reading starts at the front with nothing reported |
| `LogReader.Reader.ReadRecord` | leveldb学习/leveldb/db/log_reader.cc:56-174 | returns the next logical record of the file, moves past it, and reports exactly the drops of what it passed, for any bytes in the file |
| `LogReader.Reader.Handle` | leveldb学习/leveldb/db/log_reader.cc:91-171 | the switch on fragment types: what is returned, kept and reported; what that means is `LogLosses.JudgeMeans` |
| `LogReader.Reader.ReadPhysicalRecord` | leveldb学习/leveldb/db/log_reader.cc:189-271 | the next physical record of the file through a block buffer, for any bytes in the file |
| `LogReader.Reader.ParseHeader` | leveldb学习/leveldb/db/log_reader.cc:222-271 | the checks of length, type and checksum on a buffer that holds a header |
| `LogReader.Reader.Refill` | leveldb学习/leveldb/db/log_reader.cc:190-214 | the next block is buffered and the next physical record stays the same |
| `LogReader.ParseIsRecord` | leveldb学习/leveldb/db/log_reader.cc:222-271 | parsing the buffer is parsing the file at its position |
| `LogReader.ReadFromStep` | leveldb学习/leveldb/db/log_reader.cc:56-174 | one physical record's verdict and the rest make up the record |
| `LogReader.ReadLog` | leveldb学习/leveldb/db/db_impl.cc:426-467 | the loop over a file returns all its records and all its reports; whatever the bytes, every byte parsed is in a record, reported, or in the record that the end leaves unfinished; with checksums on, every record is put together from fragments that the file holds with their own stamps |
| `LogLosses.JudgeMeans` | leveldb学习/leveldb/db/log_reader.cc:91-171 | the bytes held so far and those of a physical record are returned, kept or reported, and what is returned is a full fragment or a first, middles and a last; only the end of the file loses bytes without a report, fragments whose type is the reader's own code for a bad record aside |
| `LogLosses.ReadMeans` | leveldb学习/leveldb/db/log_reader.cc:56-174 | on any file, a call returns the last run of fragments it read, whole, and reports all other bytes; at the end it loses silently exactly an unfinished record |
| `LogLosses.FileAccounts` | leveldb学习/leveldb/db/db_impl.cc:426-467 | over a whole file, damaged or not: bytes parsed before the unfinished end equal the bytes of the records and the bytes reported |
| `LogLosses.RecordsAuthentic` | leveldb学习/leveldb/db/log_reader.cc:244-257 | with checksums on, every record read from any file is put together from fragments that the file holds with their own stamps |
| `LogLosses.NextGenuine` | leveldb学习/leveldb/db/log_reader.cc:189-271 | with checksums on, every fragment returned is in the file as the writer would have put it there |
| `LogLosses.OpenSnoc` | leveldb学习/leveldb/db/log_reader.cc:109-138 | a middle fragment keeps a run open and a last one makes it whole |
| `LogCrc.CrcExtendConcat` | leveldb学习/leveldb/db/log_writer.cc:93-96 | extending a checksum in two steps is extending it once, on machine integers |
| `CrcNumbers.WordOfValue` | leveldb学习/leveldb/util/crc32c.cc:276-284 | a register and its integer determine each other |
| `LogCrc.WriteLog` | leveldb学习/leveldb/db/log_writer.cc:34-80 | a writer leaves the encoding of all its records in the file |
| `LogCrc.WriteAndRecover` | leveldb学习/leveldb/db/log_reader.cc:56-174 | writing records, cutting the file anywhere and reading it gives exactly the records wholly before the cut, with the real checksum |
| `LogCrc.CutReads` | leveldb学习/leveldb/db/log_reader.cc:56-174 | the same for any source that holds the cut file |
| `Crc32c.Extend` | leveldb学习/leveldb/util/crc32c.cc:276-377 | for data at any address and of any length, the four-stride computation equals the byte-at-a-time fold of section 12.1 of RFC 3720 |
| `CrcNumbers.ExtendNumber` | leveldb学习/leveldb/util/crc32c.cc:276-377 | on machine integers, for data at any address, the result is the textbook checksum: shift right, add 0x82f63b78 when a one falls out, register inverted before and after |
| `CrcNumbers.ExtendIsTextbook` | leveldb学习/leveldb/util/crc32c.cc:276-377 | the checksum of any string, extended from any earlier one, is the textbook's |
| `CrcNumbers.BitStepIsShift` | leveldb学习/leveldb/util/crc32c.cc:20-63 | a step of the register of bits is a shift and an addition of 0x82f63b78, for every value |
| `CrcNumbers.PolynomialBits` | leveldb学习/leveldb/util/crc32c.cc:20-63 | the powers of the polynomial are the bits of 0x82f63b78 |
| `CrcKnown.TableEntries` | leveldb学习/leveldb/util/crc32c.cc:20-63 | the eight table entries of the bytes with one bit are the source's; by linearity they fix all 256 |
| `CrcKnown.KnownChecksum` | leveldb学习/leveldb/util/crc32c.h:19-20 | the checksum of the string a is 0xc1d04330 |
| `Crc32c.Zero1IsSteps` | leveldb学习/leveldb/util/crc32c.cc:287-291 | the register over a zero byte is eight bit steps |
| `Crc32c.ExtendConcat` | leveldb学习/leveldb/util/crc32c.cc:276-377 | extending by a and then by b is extending by their concatenation |
| `Crc32c.RegisterLawful` | leveldb学习/leveldb/util/crc32c.cc:286-320 | the register, its tables and its exclusive or meet the laws that the strides need |
| `Crc32c.BitStepsLinear` | leveldb学习/leveldb/util/crc32c.cc:20-63 | polynomial division is linear over GF(2), for any number of bits |
| `Crc32c.ByteTableLinear` | leveldb学习/leveldb/util/crc32c.cc:20-63 | the byte table is linear |
| `Crc32c.Zero1Linear` | leveldb学习/leveldb/util/crc32c.cc:287-291 | moving the register over a zero byte is linear |
| `Crc32c.Step1IsZero1` | leveldb学习/leveldb/util/crc32c.cc:287-291 | a byte step is the exclusive or with the byte and a zero step |
| `Crc32c.PeelByte` | leveldb学习/leveldb/util/crc32c.cc:313-320 | a byte above the lowest waits for its turn |
| `Crc32c.SplitJoin` | leveldb学习/leveldb/util/crc32c.cc:294-300 | a word is the sum of its bytes, each in its place |
| `CrcStrides.Run` | leveldb学习/leveldb/util/crc32c.cc:276-377 | alignment bytes, swaths, words and tail bytes together equal the fold, for every lawful register |
| `CrcStrides.Swaths` | leveldb学习/leveldb/util/crc32c.cc:332-347 | four strides over whole swaths combine to the fold so far |
| `CrcStrides.Step16` | leveldb学习/leveldb/util/crc32c.cc:303-310 | one swath in four strides combines to sixteen more bytes of the fold |
| `CrcStrides.Words` | leveldb学习/leveldb/util/crc32c.cc:349-366 | single words with rotating strides, then the combination, equal the fold so far |
| `CrcStrides.Bytes` | leveldb学习/leveldb/util/crc32c.cc:325-330 | single bytes equal the fold so far |
| `CrcStrides.Stride` | leveldb学习/leveldb/util/crc32c.cc:294-300 | the four stride tables together move a register over sixteen zero bytes |
| `CrcStrides.CombineSwath` | leveldb学习/leveldb/util/crc32c.cc:303-310 | stepping every stride by a swath steps the combined register by the sixteen bytes |
| `CrcStrides.CombineWord` | leveldb学习/leveldb/util/crc32c.cc:350-358 | stepping one stride by a word and rotating steps the combined register by four bytes |
| `CrcStrides.CombineStart` | leveldb学习/leveldb/util/crc32c.cc:333-338 | loading the first swath with the register in stride 0 |
| `CrcStrides.CombineMoves` | leveldb学习/leveldb/util/crc32c.cc:345-365 | combining commutes with moving over sixteen zero bytes |
| `CrcStrides.CombineLinear` | leveldb学习/leveldb/util/crc32c.cc:361-365 | combining is linear |
| `CrcStrides.FourSteps` | leveldb学习/leveldb/util/crc32c.cc:313-320 | four zero steps on a word equal four byte steps |
| `CrcStrides.FoldWord` | leveldb学习/leveldb/util/crc32c.cc:313-320 | a word step equals the fold over its four bytes |
| `CrcStrides.FoldConcat` | leveldb学习/leveldb/util/crc32c.cc:276-377 | the fold over a concatenation is the fold of the parts in turn |
| `Coding.Fixed32RoundTrip` | leveldb学习/leveldb/util/coding.h:54-89 | any 32-bit number is decoded from its bytes, whatever follows |
| `Coding.Fixed64RoundTrip` | leveldb学习/leveldb/util/coding.h:64-103 | any 64-bit number is decoded from its bytes, whatever follows |
| `Coding.UnmaskMask` | leveldb学习/leveldb/util/crc32c.h:29-38 | unmasking undoes masking for every checksum |
| `Coding.MaskUnmask` | leveldb学习/leveldb/util/crc32c.h:29-38 | masking undoes unmasking, so masks of different checksums differ |
| `Coding.Fixed32Order` | leveldb学习/leveldb/util/coding.h:54-62 | little-endian: byte i holds bits 8 * i and up |
| `Coding.Fixed64Unique` | leveldb学习/leveldb/util/coding.h:92-103 | eight bytes are the encoding of the number they decode to |
| `Coding.EncodeVarint32IsVarint` | leveldb学习/leveldb/util/coding.cc:21-47 | the five-way branch writes the same seven-bit groups as the general loop, in at most five bytes |
| `Coding.EncodeVarint64` | leveldb学习/leveldb/util/coding.cc:55-64 | seven bits a byte, lowest first |
| `Coding.VarintLength` | leveldb学习/leveldb/util/coding.cc:77-84 | values below 128 to the k take at most k bytes |
| `Coding.VarintRoundTrip` | leveldb学习/leveldb/util/coding.cc:86-102 | any value is parsed from its bytes, within any limit that holds them, whatever follows |
| `Coding.GetVarintPtr` | leveldb学习/leveldb/util/coding.cc:86-131 | the decoding loop with its shift equals the recursive parse, on every input |
| `Coding.Varint32RoundTrip` | leveldb学习/leveldb/util/coding.cc:104-114 | every 32-bit value comes back with the rest of the input |
| `Coding.Varint64RoundTrip` | leveldb学习/leveldb/util/coding.cc:133-143 | every 64-bit value comes back with the rest of the input |
| `Coding.SliceRoundTrip` | leveldb学习/leveldb/util/coding.cc:145-154 | a length-prefixed string comes back whole if and only if its length fits in 32 bits |
| `Coding.SliceShrinks` | leveldb学习/leveldb/util/coding.cc:145-154 | reading a slice consumes input |
| `WriteBatches.WriteBatch.constructor` | leveldb学习/leveldb/db/write_batch.cc:29-29 | an empty batch |
| `WriteBatches.WriteBatch.Clear` | leveldb学习/leveldb/db/write_batch.cc:35-38 | an empty batch again |
| `WriteBatches.WriteBatch.Count` | leveldb学习/leveldb/db/write_batch.cc:82-84 | the number of operations |
| `WriteBatches.WriteBatch.SetCount` | leveldb学习/leveldb/db/write_batch.cc:86-88 | changes the count field alone |
| `WriteBatches.WriteBatch.SetSequence` | leveldb学习/leveldb/db/write_batch.cc:94-96 | changes the first eight bytes alone, and the batch is still well formed |
| `WriteBatches.WriteBatch.Add` | leveldb学习/leveldb/db/write_batch.cc:98-109 | the operation goes behind the others; count and bytes agree |
| `WriteBatches.WriteBatch.Append` | leveldb学习/leveldb/db/write_batch.cc:144-148 | the other batch's operations go behind |
| `WriteBatches.WriteBatch.Iterate` | leveldb学习/leveldb/db/write_batch.cc:42-80 | on any bytes, the operations up to the first malformed one and a right verdict; on a batch, exactly its operations |
| `WriteBatches.WriteBatch.InsertInto` | leveldb学习/leveldb/db/write_batch.cc:132-137 | on any bytes, what Iterate hands out, with consecutive sequence numbers from the header; on a batch, exactly its operations |
| `WriteBatches.ParseEncodedOps` | leveldb学习/leveldb/db/write_batch.cc:42-80 | parsing what was encoded gives back the operations |
| `WriteBatches.ParseEncodedOp` | leveldb学习/leveldb/db/write_batch.cc:51-72 | one encoded operation is parsed and the rest is left |
| `WriteBatches.EncodeOpsConcat` | leveldb学习/leveldb/db/write_batch.cc:144-148 | the bytes of two batches concatenate |
| `WriteQueues.WholeRun` | leveldb学习/leveldb/db/db_impl.cc:1200-1271 | over every run, the memtable gets the operations of a prefix of the calls, each once, in the order of the calls, with consecutive numbers across groups, and the log's records are groups that recovery reads back |
| `WriteQueues.RunInv` | leveldb学习/leveldb/db/db_impl.cc:1200-1271 | in every state the finished writers are served exactly, and those that asked for it are on disk |
| `WriteQueues.NextInv` | leveldb学习/leveldb/db/db_impl.cc:1200-1271 | enqueue, lead and complete each keep that |
| `WriteQueues.LedInv` | leveldb学习/leveldb/db/db_impl.cc:1215-1222 | a leader that starts to write keeps it |
| `WriteQueues.CompletedInv` | leveldb学习/leveldb/db/db_impl.cc:1228-1271 | a group that completes keeps it: its operations get the next numbers and exactly its writers return |
| `WriteQueues.InOrder` | leveldb学习/leveldb/db/db_impl.cc:1200-1271 | at every step the writers that returned and those that wait are all the calls so far, in order |
| `WriteQueues.GroupCounts` | leveldb学习/leveldb/db/db_impl.cc:1275-1321 | a group of the size limit fits a record: its operations can be counted in 31 bits |
| `WriteQueues.CompletedSync` | leveldb学习/leveldb/db/db_impl.cc:1232-1237 | a group synced by its leader puts every earlier record on disk |
| `WriteGroups.GroupsSnoc` | leveldb学习/leveldb/db/db_impl.cc:1219-1252 | one more record, numbered behind the others, keeps the log one that recovery reads back |
| `WriteGroups.RecordReads` | leveldb学习/leveldb/db/write_batch.cc:139-142 | a logged group's bytes read as a batch with its sequence, count and operations |
| `GroupCommit.WriteQueue.constructor` | leveldb学习/leveldb/db/db_impl.cc:126-150 | an empty queue on an empty log is an initial state of the protocol |
| `GroupCommit.WriteQueue.Enqueue` | leveldb学习/leveldb/db/db_impl.cc:1200-1207 | a call enters the queue: a step of the protocol |
| `GroupCommit.WriteQueue.BuildBatchGroup` | leveldb学习/leveldb/db/db_impl.cc:1275-1321 | the longest run of writers that may join, and a batch with exactly their operations in order: the leader's own while it is alone, else the shared one, filled from empty |
| `GroupCommit.WriteQueue.Stamp` | leveldb学习/leveldb/db/db_impl.cc:1221-1221 | patching the sequence number into a header changes no batch's operations |
| `GroupCommit.WriteQueue.Prepare` | leveldb学习/leveldb/db/db_impl.cc:1217-1222 | the batch holds the group's operations, with the next sequence number in its header, and the count gives the last one |
| `GroupCommit.WriteQueue.Lead` | leveldb学习/leveldb/db/db_impl.cc:1215-1222 | the first critical section of a leader is the lead step |
| `GroupCommit.WriteQueue.Choose` | leveldb学习/leveldb/db/db_impl.cc:1217-1222 | a leader with a batch prepares its group's, one without leads itself alone |
| `GroupCommit.WriteQueue.Apply` | leveldb学习/leveldb/db/db_impl.cc:1228-1248 | log file, synced bytes and memtable get the batch, with the numbers from its header |
| `GroupCommit.WriteQueue.WriteOut` | leveldb学习/leveldb/db/db_impl.cc:1228-1252 | what is written is the group, and the shared batch is empty again |
| `GroupCommit.WriteQueue.Complete` | leveldb学习/leveldb/db/db_impl.cc:1228-1271 | writing, cleaning up and popping together are the completing step: exactly the grouped prefix leaves |
| `GroupCommit.PopGroup` | leveldb学习/leveldb/db/db_impl.cc:1254-1263 | exactly the writers up to the group's last one are popped |
| `GroupCommit.CrashAndReplay` | leveldb学习/leveldb/db/db_impl.cc:412-467 | the log of any reachable queue, cut anywhere past its synced bytes and replayed, gives a prefix of what the memtable got, with the same numbers, and every operation of every writer that asked for sync and returned |
| `GroupCommit.FileSnoc` | leveldb学习/leveldb/db/db_impl.cc:1230-1237 | a record more in the file, and on a sync all of it on disk |
| `Recovery.CrashAndRecover` | leveldb学习/leveldb/db/db_impl.cc:412-467 | a log of groups, cut anywhere and recovered, gives the operations of exactly the groups wholly before the cut, with the numbers they were written with, and the greatest of those |
| `Recovery.RecoverCut` | leveldb学习/leveldb/db/db_impl.cc:412-467 | the same for a log file that is given: the operations of exactly the groups wholly before the cut, with their numbers |
| `Durability.CrashAndReopen` | leveldb学习/leveldb/db/db_impl.cc:292-383 | a crash anywhere past the synced bytes of the log, then manifest and log replayed: the database opened meets the invariant, its writes are a prefix of those before the crash, its map is the flushed one with the replayed operations done to it, and every write that was flushed or that a writer asked to sync is among them |
| `Durability.Reopen` | leveldb学习/leveldb/db/db_impl.cc:412-467 | replaying part of the log on the files gives the database after that many writes, and its map is the flushed one with those operations done to it |
| `Durability.RunSplit` | leveldb学习/leveldb/db/db_impl.cc:505-580 | in every state of every run the files hold exactly a prefix of the writes and answer alone from the map of that prefix; the memtables hold the others |
| `Durability.NextSplit` | leveldb学习/leveldb/db/db_impl.cc:702-781 | every step keeps that split |
| `Durability.CompactedFiles` | leveldb学习/leveldb/db/db_impl.cc:892-1051 | a compaction leaves what the files alone answer for their part of the writes |
| `Durability.FlushedSplit` | leveldb学习/leveldb/db/db_impl.cc:549-580 | a flush moves the split to the end of the immutable memtable |
| `Durability.FilesInv` | leveldb学习/leveldb/db/db_impl.cc:292-383 | the files alone, with empty memtables, are a state that meets the invariant for the flushed writes |
| `Durability.WroteEntries` | leveldb学习/leveldb/db/write_batch.cc:132-137 | a replayed batch appends its entries to the writes |
| `Durability.TranslatedMap` | leveldb学习/leveldb/db/write_batch.cc:116-137 | operations on byte strings do to the map what their translations do |
| `Durability.TagIsType` | leveldb学习/leveldb/db/write_batch.cc:98-109 | the tag of an operation in a batch is the type of the entry that it becomes |
| `Recovery.RecoverLogFile` | leveldb学习/leveldb/db/db_impl.cc:412-467 | for any bytes and either setting of paranoid checks, the loop agrees with its recursive meaning: what is added, the greatest number, and every drop, records too small for a header among them; it ends in an error exactly under paranoid checks and when something was dropped or some record is not a batch |
| `Recovery.ReplayOk` | leveldb学习/leveldb/db/db_impl.cc:385-467 | recovery never fails without paranoid checks, and under them fails exactly when something was dropped or some record is not a batch of as many operations as its header says |
| `Recovery.ReplayQuiet` | leveldb学习/leveldb/db/db_impl.cc:432-467 | where the reader drops nothing and no batch is malformed or too small, recovery replays exactly the records of the log |
| `Recovery.ReplayGroups` | leveldb学习/leveldb/db/db_impl.cc:432-467 | replaying whole groups gives back their operations and numbers |
| `Recovery.ReplayGroup` | leveldb学习/leveldb/db/db_impl.cc:433-453 | one record adds its operations and advances the greatest number |
| `Recovery.ReplaySnoc` | leveldb学习/leveldb/db/db_impl.cc:432-467 | records are replayed in turn |
| `Recovery.CutLog` | leveldb学习/leveldb/db/db_impl.cc:412-467 | the records read from a cut log are those of the groups before the cut |
| `VersionEdits.EditRoundTrip` | leveldb学习/leveldb/db/version_edit.cc:42-204 | decoding an encoded edit gives it back if and only if its levels are below seven and its keys are not empty; otherwise decoding fails |
| `VersionEdits.DecodeEncoded` | leveldb学习/leveldb/db/version_edit.cc:106-204 | decoding encoded fields folds them into the edit, or fails at the first illegal one |
| `VersionEdits.PayloadRoundTrip` | leveldb学习/leveldb/db/version_edit.cc:106-192 | a field comes back, and what follows it is left, exactly when it is legal |
| `VersionEdits.ApplyFields` | leveldb学习/leveldb/db/version_edit.cc:42-85 | folding the fields of an edit in their written order rebuilds the edit |
| `VersionEdits.EncodeTo` | leveldb学习/leveldb/db/version_edit.cc:42-85 | the loops write the fields of the edit in order |
| `VersionEdits.EncodeOptional` | leveldb学习/leveldb/db/version_edit.cc:43-62 | the optional fields are written exactly when they are set |
| `VersionEdits.DecodeFrom` | leveldb学习/leveldb/db/version_edit.cc:106-204 | the loop agrees with the recursive decoder on every input |
| `VersionEdits.InsertLast` | leveldb学习/leveldb/db/version_edit.cc:170-176 | inserting a greater pair into the set appends it |
| `VersionEdits.PayloadShrinks` | leveldb学习/leveldb/db/version_edit.cc:106-192 | every field decoded consumes input |
| `BlockBuilders.BlockBuilder.constructor` | leveldb学习/leveldb/table/block_builder.cc:40-44 | an empty block with one restart point |
| `BlockBuilders.BlockBuilder.Reset` | leveldb学习/leveldb/table/block_builder.cc:46-53 | an empty block again |
| `BlockBuilders.BlockBuilder.Add` | leveldb学习/leveldb/table/block_builder.cc:71-105 | the entry goes behind the others, sharing the longest common prefix, or starts a restart point when the interval is full |
| `BlockBuilders.BlockBuilder.Finish` | leveldb学习/leveldb/table/block_builder.cc:61-69 | the bytes form a block of exactly the added entries with their restart points |
| `BlockBuilders.SharedLength` | leveldb学习/leveldb/table/block_builder.cc:78-83 | the longest common prefix |
| `BlockBuilders.CellAdded` | leveldb学习/leveldb/table/block_builder.cc:89-104 | the bytes appended for an entry keep the description of the block |
| `BlockIters.ReadBack` | leveldb学习/leveldb/table/block.cc:229-277 | iterating a built block yields the added pairs in order, for every restart interval |
| `BlockIters.ReadBlock` | leveldb学习/leveldb/table/block.cc:229-277 | walking a built block from its first entry gives its pairs |
| `BlockIters.Iter.constructor` | leveldb学习/leveldb/table/block.cc:116-125 | an iterator past the end of a finished block |
| `BlockIters.Iter.SeekToRestartPoint` | leveldb学习/leveldb/table/block.cc:105-113 | the next entry to read is the restart point's |
| `BlockIters.Iter.ParseNextKey` | leveldb学习/leveldb/table/block.cc:250-277 | reads the next entry, whole key and value, and reports the end; never finds corruption in a built block |
| `BlockIters.Iter.Next` | leveldb学习/leveldb/table/block.cc:138-141 | one entry on |
| `BlockIters.Iter.Prev` | leveldb学习/leveldb/table/block.cc:143-162 | one entry back: undoes Next; from the first entry, past the end |
| `BlockIters.Iter.SeekToFirst` | leveldb学习/leveldb/table/block.cc:229-232 | the first entry |
| `BlockIters.Iter.SeekToLast` | leveldb学习/leveldb/table/block.cc:234-239 | the last entry |
| `BlockIters.Iter.Seek` | leveldb学习/leveldb/table/block.cc:164-227 | from any position, also through the shortcut that reuses the current one, the first entry at or after the target |
| `BlockIters.Iter.SearchRestarts` | leveldb学习/leveldb/table/block.cc:187-208 | the binary search ends at the last restart point before the target: it is before the target, or the first of all, and the next one is not |
| `BlockIters.Iter.Scan` | leveldb学习/leveldb/table/block.cc:218-226 | the linear search ends at the first key not before the target |
| `BlockIters.Iter.ReadUntil` | leveldb学习/leveldb/table/block.cc:158-161 | reading on from a restart point stops at the entry in front of an offset |
| `BlockIters.Iter.AdvanceRestart` | leveldb学习/leveldb/table/block.cc:271-274 | the restart index catches up with the entry, up to one restart behind |
| `BlockIters.DecodeAt` | leveldb学习/leveldb/table/block.cc:55-75 | the entry at an offset is decoded with the rest of its key and its value |
| `BlockIters.RestartKey` | leveldb学习/leveldb/table/block.cc:189-198 | the key read at a restart point is its entry's whole key |
| `BlockFormat.DecodeCell` | leveldb学习/leveldb/table/block.cc:55-75 | an encoded entry is decoded, whatever follows |
| `BlockFormat.FastPath` | leveldb学习/leveldb/table/block.cc:58-69 | the one-byte fast path and the general path decode the same lengths |
| `BlockFormat.OpenBlock` | leveldb学习/leveldb/table/block.cc:20-40 | the restart count and the offset of the restart array are read from the end of a block |
| `BlockFormat.RestartPointAt` | leveldb学习/leveldb/table/block.cc:100-103 | the restart array gives the offsets of the restart entries |
| `Comparators.BytesOrder` | leveldb学习/leveldb/util/comparator.cc:27-29 | the bytewise order is a total order; which one is `Comparators.BytesLessMeans` |
| `Comparators.BytesLessMeans` | leveldb学习/leveldb/util/comparator.cc:27-29 | a string is before another exactly when it is a proper prefix of it or smaller at the first byte where they differ |
| `Comparators.Compare` | leveldb学习/leveldb/include/leveldb/slice.h:100-110 | the byte comparison on the common length and then the lengths decide that order, all three ways |
| `Comparators.SeparatorMeans` | leveldb学习/leveldb/util/comparator.cc:31-52 | the separator is shorter exactly when there is room for a byte where the strings first differ, and a prefix is never separated |
| `Comparators.SuccessorMeans` | leveldb学习/leveldb/util/comparator.cc:54-66 | the successor ends at the first byte that can grow |
| `Comparators.SuccessorShortest` | leveldb学习/leveldb/util/comparator.cc:54-66 | nothing shorter than the successor lies after the key |
| `Comparators.BytesSeparates` | leveldb学习/leveldb/util/comparator.cc:31-52 | the separator is the start, or a string no longer that lies strictly between start and limit |
| `Comparators.FindShortestSeparator` | leveldb学习/leveldb/util/comparator.cc:31-52 | the in-place loop computes that separator |
| `Comparators.SuccessorFrom` | leveldb学习/leveldb/util/comparator.cc:54-66 | the successor is the key, or a string no longer that lies after it |
| `Comparators.FindShortSuccessor` | leveldb学习/leveldb/util/comparator.cc:54-66 | the in-place loop computes that successor |
| `Comparators.BytewiseLaws` | leveldb学习/leveldb/util/comparator.cc:27-66 | the bytewise comparator keeps what a user comparator promises |
| `Comparators.InternalOrder` | leveldb学习/leveldb/db/dbformat.cc:47-63 | internal keys over any user order are in a line; which one is `InternalKeys.InternalMeans` |
| `InternalKeys.InternalMeans` | leveldb学习/leveldb/db/dbformat.cc:47-63 | encoded keys are in the order of user keys, and of one user key the greater sequence number comes first, a value before a deletion |
| `InternalKeys.InternalAgrees` | leveldb学习/leveldb/db/dbformat.cc:47-63 | the order on bytes is the order of the model under every rank of user keys that keeps the user order |
| `InternalKeys.ParseEncoded` | leveldb学习/leveldb/db/dbformat.h:171-181 | an encoded key parses to its parts |
| `InternalKeys.EncodedParse` | leveldb学习/leveldb/db/dbformat.h:171-181 | a key that parses is the encoding of what it parses to |
| `InternalKeys.ShortenedFirst` | leveldb学习/leveldb/db/dbformat.cc:65-97 | a shortened key is not behind any internal key of its user key |
| `InternalKeys.SeekIsNewest` | leveldb学习/leveldb/db/version_set.cc:262-275 | at the place of a seek for a user key and a snapshot is the newest entry that the snapshot sees, or no entry of the key is that old |
| `InternalKeys.LookupReads` | leveldb学习/leveldb/db/version_set.cc:262-275 | what a lookup reports and SaveValue makes of it is the newest entry that the snapshot sees, its value or its deletion, and nothing only when there is none |
| `InternalKeys.StandsSorted` | leveldb学习/leveldb/db/dbformat.cc:47-63 | pairs in byte order stand for entries in the model's order, and only they do |
| `InternalKeys.LookupIsListGet` | leveldb学习/leveldb/db/version_set.cc:262-275 | the lookup in the bytes of a table is the lookup in the file of the model |
| `Comparators.InternalSeparates` | leveldb学习/leveldb/db/dbformat.cc:65-82 | the internal separator lies between the keys, and hides no entry of the second key's user key |
| `Comparators.InternalSuccessor` | leveldb学习/leveldb/db/dbformat.cc:84-97 | the internal successor is not before the key |
| `Comparators.InternalForTables` | leveldb学习/leveldb/db/dbformat.cc:65-97 | internal keys over any lawful user comparator meet what a table needs |
| `Comparators.BytewiseForTables` | leveldb学习/leveldb/util/comparator.cc:31-66 | so do bytewise keys |
| `Bloom.NoMiss` | leveldb学习/leveldb/util/bloom.cc:28-80 | a key that the filter was made from may match, for every hash function and bits per key |
| `Bloom.MatchMeans` | leveldb学习/leveldb/util/bloom.cc:56-80 | the answer is no exactly when some probe of the key is a bit that no key of the filter sets, each probe being the hash and a multiple of its rotation in 32 bits |
| `Bloom.ProbesAre` | leveldb学习/leveldb/util/bloom.cc:46-52 | the rounds of double hashing give those bits |
| `Bloom.BloomHasNoFalseNegatives` | leveldb学习/leveldb/util/bloom.cc:28-80 | the bloom policy has no false negatives |
| `Bloom.AllSetMeans` | leveldb学习/leveldb/util/bloom.cc:72-79 | the probe loop succeeds exactly when the array holds all the key's bits |
| `Bloom.CreateFilter` | leveldb学习/leveldb/util/bloom.cc:28-54 | appends the filter whose bits are exactly the probes of all keys |
| `Bloom.SetProbes` | leveldb学习/leveldb/util/bloom.cc:46-52 | the inner loop sets exactly the probes of one key |
| `Bloom.TestKey` | leveldb学习/leveldb/util/bloom.cc:56-80 | the loop answers as the recursive probe test does, on any bytes |
| `Bloom.SetPacked` | leveldb学习/leveldb/util/bloom.cc:48-50 | setting a bit in a byte adds one position to the array |
| `Bloom.NumProbes` | leveldb学习/leveldb/util/bloom.cc:19-24 | between 1 and 30 probes |
| `Bloom.NumBytes` | leveldb学习/leveldb/util/bloom.cc:30-37 | at least 64 bits |
| `FilterPolicies.ViewPolicyKeeps` | leveldb学习/leveldb/db/dbformat.cc:101-115 | a policy on user keys has no false negatives for internal keys with that user key |
| `FilterBlocks.FilterBlockBuilder.constructor` | leveldb学习/leveldb/table/filter_block.cc:18-19 | nothing added |
| `FilterBlocks.FilterBlockBuilder.StartBlock` | leveldb学习/leveldb/table/filter_block.cc:21-27 | filters are closed up to the one of the block's offset |
| `FilterBlocks.FilterBlockBuilder.AddKey` | leveldb学习/leveldb/table/filter_block.cc:29-33 | the key is recorded under the current filter |
| `FilterBlocks.FilterBlockBuilder.GenerateFilter` | leveldb学习/leveldb/table/filter_block.cc:51-75 | the pending keys become one filter, an empty one when there are none |
| `FilterBlocks.FilterBlockBuilder.Unflatten` | leveldb学习/leveldb/table/filter_block.cc:59-66 | the keys come back from the flattened bytes and their starts |
| `FilterBlocks.FilterBlockBuilder.Finish` | leveldb学习/leveldb/table/filter_block.cc:35-49 | when the filters of all keys, those still waiting among them, take less than 4 GB, every key added may match under its block's offset, through index arithmetic, offset array and policy |
| `FilterBlocks.FilterBlockBuilder.Trailer` | leveldb学习/leveldb/table/filter_block.cc:41-48 | the offsets, their position and the base; exact below 4 GB |
| `FilterBlocks.ReaderFinds` | leveldb学习/leveldb/table/filter_block.cc:77-104 | the reader of a finished block finds the group of an offset and asks the policy about it |
| `FilterBlocks.ReaderExact` | leveldb学习/leveldb/table/filter_block.cc:77-104 | the reader of a finished block says yes past the last group, and otherwise exactly what the policy says of the group's filter |
| `FilterBlocks.AllFound` | leveldb学习/leveldb/table/filter_block.cc:90-104 | so no key that was added is missed |
| `FilterBlocks.BlockParts` | leveldb学习/leveldb/table/filter_block.cc:77-88 | the reader recovers the base and the offset array from the end of the block |
| `Tables.InternalGet` | leveldb学习/leveldb/table/table.cc:214-242 | for any finished table, with a filter or without, only the first entry at or after the key is reported, and it is reported whenever it has the key's user key |
| `Tables.SeekBlock` | leveldb学习/leveldb/table/table.cc:228-234 | a new iterator on a block finds the first entry at or after the key |
| `Tables.FilterMiss` | leveldb学习/leveldb/table/table.cc:221-227 | when the filter says no, no entry with the key's user key would have been reported |
| `Tables.PastIndex` | leveldb学习/leveldb/table/table.cc:218-220 | past the last index key there is nothing to report |
| `TableIndex.SeekPicksBlock` | leveldb学习/leveldb/table/table.cc:218-221 | the index seek picks the only block that can hold the answer, though index keys are shortened |
| `TableIndex.BlockAnswers` | leveldb学习/leveldb/table/table.cc:228-234 | stopping in that one block loses no entry with the key's user key |
| `TableFormat.HandleRoundTrip` | leveldb学习/leveldb/table/format.cc:16-30 | a block handle comes back from its bytes |
| `TableFormat.IndexOrdered` | leveldb学习/leveldb/table/table_builder.cc:102-109 | index keys are strictly increasing |
| `TableFormat.IndexSorted` | leveldb学习/leveldb/table/table_builder.cc:102-109 | so the index block is a sorted block |
| `TableBuilders.TableBuilder.constructor` | leveldb学习/leveldb/table/table_builder.cc:65-70 | an empty table |
| `TableBuilders.TableBuilder.Add` | leveldb学习/leveldb/table/table_builder.cc:94-123 | the entry is behind all others, the waiting index entry gets a separator, the filter gets the key, and a full block is written |
| `TableBuilders.TableBuilder.AddIndexEntry` | leveldb学习/leveldb/table/table_builder.cc:102-109 | the waiting index entry is added with a key and the handle of the last block |
| `TableBuilders.TableBuilder.Flush` | leveldb学习/leveldb/table/table_builder.cc:125-139 | the current block is in the file at the offset of its handle, and the filter goes on at the next offset |
| `TableBuilders.TableBuilder.Finish` | leveldb学习/leveldb/table/table_builder.cc:213-268 | when the filters of all keys take less than 4 GB, the file, index and filter form a table of exactly the added entries |
| `TableBuilders.FinishAndGet` | leveldb学习/leveldb/table/table.cc:214-242 | looking any key up in the table of any builder loses nothing |
| `TableBuilders.FinishAndRead` | leveldb学习/leveldb/db/version_set.cc:262-275 | in the table of any builder over internal keys, a read of a user key at a snapshot finds the newest of its entries that the snapshot sees |
| `TableBuilders.FilterSaysNo` | leveldb学习/leveldb/table/filter_block.cc:90-104 | the filter of a finished block keeps a lookup from reading exactly when its block's group of keys is empty or leaves a bit of the key's probes unset |
| `TableBuilders.DatabaseTables` | leveldb学习/leveldb/db/dbformat.cc:65-115 | the database's own keys and filter policy meet every assumption of lookups and reads |
| `TableBuilders.ShapeAdd` | leveldb学习/leveldb/table/table_builder.cc:94-123 | adding an entry keeps blocks, index and entries in step |
| `TableBuilders.ShapeFlush` | leveldb学习/leveldb/table/table_builder.cc:125-139 | writing the current block keeps them in step |
| `TableBuilders.ShapeIndexed` | leveldb学习/leveldb/table/table_builder.cc:243-253 | the last index entry completes the index |
| `TwoLevelIterators.TwoLevelIterator.constructor` | leveldb学习/leveldb/table/two_level_iterator.cc:71-78 | not valid |
| `TwoLevelIterators.TwoLevelIterator.Current` | leveldb学习/leveldb/table/two_level_iterator.cc:32-39 | the pair under the cursor of all the blocks' pairs |
| `TwoLevelIterators.TwoLevelIterator.Seek` | leveldb学习/leveldb/table/two_level_iterator.cc:82-87 | the first pair of all blocks at or after the target, also when the picked block ends before it |
| `TwoLevelIterators.TwoLevelIterator.SeekToFirst` | leveldb学习/leveldb/table/two_level_iterator.cc:89-94 | the first pair of all blocks, past empty ones |
| `TwoLevelIterators.TwoLevelIterator.SeekToLast` | leveldb学习/leveldb/table/two_level_iterator.cc:96-101 | the last pair of all blocks, past empty ones |
| `TwoLevelIterators.TwoLevelIterator.Next` | leveldb学习/leveldb/table/two_level_iterator.cc:103-107 | one pair on, over block ends and empty blocks |
| `TwoLevelIterators.TwoLevelIterator.Prev` | leveldb学习/leveldb/table/two_level_iterator.cc:109-113 | one pair back, over block starts and empty blocks; from the first pair to not valid |
| `TwoLevelIterators.TwoLevelIterator.InitDataBlock` | leveldb学习/leveldb/table/two_level_iterator.cc:146-161 | a data iterator of the index's block; one that is there already stays where it is |
| `TwoLevelIterators.TwoLevelIterator.SkipEmptyDataBlocksForward` | leveldb学习/leveldb/table/two_level_iterator.cc:115-126 | a used-up block is left for the next pair in order |
| `TwoLevelIterators.TwoLevelIterator.SkipEmptyDataBlocksBackward` | leveldb学习/leveldb/table/two_level_iterator.cc:128-139 | a block with nothing in front is left for the pair before |
| `TwoLevelIterators.SeekInBlock` | leveldb学习/leveldb/table/two_level_iterator.cc:82-87 | a seek in the picked block is a seek among all pairs |
| `TwoLevelIterators.SeekPast` | leveldb学习/leveldb/table/two_level_iterator.cc:82-87 | past the last index key every pair is before the target |
| `TableWalks.TableApart` | leveldb学习/leveldb/table/table.cc:208-212 | the index of a finished table keeps its blocks apart, and the blocks hold its entries in order: what the two-level iterator asks for |
| `TableWalks.NewIterator` | leveldb学习/leveldb/table/table.cc:208-212 | the two-level iterator over a finished table is a cursor on its entries |
| `TableWalks.BeforeLater` | leveldb学习/leveldb/table/table_builder.cc:102-109 | an index key is before every key of all later blocks |
| `SnapshotLists.SnapshotList.constructor` | leveldb学习/leveldb/db/snapshot.h:41-44 | an empty ring |
| `SnapshotLists.SnapshotList.Empty` | leveldb学习/leveldb/db/snapshot.h:46-46 | whether no snapshot is held |
| `SnapshotLists.SnapshotList.Oldest` | leveldb学习/leveldb/db/snapshot.h:47-50 | a held snapshot with the least sequence number |
| `SnapshotLists.SnapshotList.Newest` | leveldb学习/leveldb/db/snapshot.h:51-54 | a held snapshot with the greatest sequence number |
| `SnapshotLists.SnapshotList.New` | leveldb学习/leveldb/db/snapshot.h:57-70 | the new snapshot is the newest, the ring stays sorted, and its number is the last of those held |
| `SnapshotLists.SnapshotList.Delete` | leveldb学习/leveldb/db/snapshot.h:79-86 | exactly that snapshot leaves the ring and its number those held, the others keep their order |
| `Rings.AppendRing` | leveldb学习/leveldb/db/snapshot.h:65-68 | four link stores put a node before the head of a doubly linked ring |
| `Rings.RemoveRing` | leveldb学习/leveldb/db/snapshot.h:83-84 | two link stores take any node out of it |
| `HandleTables.HandleTable.constructor` | leveldb学习/leveldb/util/cache.cc:72-72 | an empty table of four chains |
| `HandleTables.HandleTable.FindPointer` | leveldb学习/leveldb/util/cache.cc:115-121 | the address of the link to the handle with the key, or of the link at the chain's end when no chain holds one |
| `HandleTables.HandleTable.Lookup` | leveldb学习/leveldb/util/cache.cc:75-77 | the handle with the key, or none when no chain holds one |
| `HandleTables.HandleTable.Insert` | leveldb学习/leveldb/util/cache.cc:79-93 | two link stores put the handle in, the one with its key, if any, is out and returned, and there are never more handles than chains |
| `HandleTables.HandleTable.Remove` | leveldb学习/leveldb/util/cache.cc:95-103 | one link store takes exactly the handle with the key out |
| `HandleTables.HandleTable.Resize` | leveldb学习/leveldb/util/cache.cc:123-147 | every handle is in the chain of its hash again, none is lost, and the chains are a power of two and no fewer than the handles |
| `HandleTables.HandleTable.MoveChain` | leveldb学习/leveldb/util/cache.cc:131-142 | the handles of one chain are linked into their new chains, each once, while their old links are overwritten |
| `HandleTables.HandleTable.MoveHandle` | leveldb学习/leveldb/util/cache.cc:134-141 | two link stores put a handle in front of its new chain |
| `HandleTables.LengthFor` | leveldb学习/leveldb/util/cache.cc:124-127 | the least power of two from four on that is not less than the elements |
| `HashChains.StoreAt` | leveldb学习/leveldb/util/cache.cc:79-103 | a store through a pointer to a link gives that chain a new tail and leaves the others alone |
| `HashChains.PutLink` | leveldb学习/leveldb/util/cache.cc:79-83 | setting the handle's link and then the pointer links the handle in |
| `HashChains.CutLink` | leveldb学习/leveldb/util/cache.cc:95-101 | storing the handle's link through the pointer links the handle out |
| `HashChains.RestFrame` | leveldb学习/leveldb/util/cache.cc:133-141 | relinking a handle leaves the chains not yet moved as they were |
| `LruCaches.LRUCache.constructor` | leveldb学习/leveldb/util/cache.cc:198-204 | an empty cache |
| `LruCaches.LRUCache.Insert` | leveldb学习/leveldb/util/cache.cc:267-304 | the entry is cached and held once by the caller, the one with its key leaves, and unused entries leave from the oldest on until the charge fits, not one more than needed |
| `LruCaches.LRUCache.NewHandle` | leveldb学习/leveldb/util/cache.cc:267-282 | a handle held by the caller alone |
| `LruCaches.LRUCache.CacheHandle` | leveldb学习/leveldb/util/cache.cc:284-289 | the handle is the table's entry for its key and on the in-use list; the replaced one is off its list |
| `LruCaches.LRUCache.Evict` | leveldb学习/leveldb/util/cache.cc:294-301 | the oldest unused entries leave, only while the charge is too great |
| `LruCaches.LRUCache.EvictOldest` | leveldb学习/leveldb/util/cache.cc:295-300 | the least recently used entry leaves table, list and charge |
| `LruCaches.LRUCache.Lookup` | leveldb学习/leveldb/util/cache.cc:253-260 | the entry with the key gains a client and leaves the unused list; none when the cache has none |
| `LruCaches.LRUCache.Release` | leveldb学习/leveldb/util/cache.cc:262-265 | the client's reference goes; the entry becomes the most recently used one, or its deleter runs when it was the last reference |
| `LruCaches.LRUCache.Erase` | leveldb学习/leveldb/util/cache.cc:319-322 | exactly the entry with the key leaves the cache; clients keep theirs |
| `LruCaches.LRUCache.Prune` | leveldb学习/leveldb/util/cache.cc:324-334 | every unused entry leaves, no entry in use does |
| `LruCaches.LRUCache.Ref` | leveldb学习/leveldb/util/cache.cc:218-224 | a reference more; an unused entry moves to the in-use list |
| `LruCaches.LRUCache.Unref` | leveldb学习/leveldb/util/cache.cc:226-238 | a reference less; the deleter runs at the last one, and an entry left to the cache becomes the most recently used |
| `LruCaches.LRUCache.FinishErase` | leveldb学习/leveldb/util/cache.cc:308-317 | the entry is off its list and its charge is taken back; the deleter runs when no client holds it |
| `LruCaches.LastReference` | leveldb学习/leveldb/util/cache.cc:229-232 | a deleter that runs at the last reference runs for the first time |
| `LruCaches.LeavesUse` | leveldb学习/leveldb/util/cache.cc:233-237 | an entry left to the cache alone is on the unused list and on no other |
| `LruCaches.EntersUse` | leveldb学习/leveldb/util/cache.cc:218-224 | an unused entry that is referenced is on the in-use list and on no other |
| `LruCaches.FreshInv` | leveldb学习/leveldb/util/cache.cc:267-282 | a new handle disturbs neither list, and usage is still the sum of the charges on both |
| `LruCaches.Cached` | leveldb学习/leveldb/util/cache.cc:284-289 | a handle that the cache takes is on the in-use list and in the charge |

## Left out

- Memory ordering, mutexes and condition variables: steps are atomic, and the skip list's release and acquire pairs are taken to order its stores and loads.
- A memtable flush in the middle of a compaction (db/db_impl.cc:923-933): flush and compaction are separate steps.
- Seek statistics and read sampling: `PickCompaction` takes the file that used up its seeks as an input.
- Where output files are cut (`ShouldStopBefore`, file sizes): arbitrary in `DoCompactionWork`, so every cut is covered but the cut itself is not described.
- File I/O, obsolete-file removal, the CURRENT file, writing and reusing manifests and logs, options, statistics, `repair.cc` and the bindings: input and output or easy members.
- Database.DB.Write: takes a batch only while the last sequence number stays below the greatest one, which the code does not check.
- Database.DB.BackgroundCompaction: compactions succeed; manual compactions are `ManualCompaction`, one range at a time.
- CompactionChoice.Finalize: scores are real numbers, where the code has doubles.
- VersionBuilder.Recover: takes edits that add no number twice to a level, which `Manifests.RunLogs` proves of every run; the other fields of an edit (log and file numbers) are only in `VersionEdits`.
- Durability.CrashAndReopen: a crash with one log and no immutable memtable; the code keeps the greater of the manifest's and the log's last sequence number, here the log's follows the manifest's, and the memtable it recovers stays in memory where the code may write it to level 0.
- Merger.MergingIterator.Next: children have no entry in common, as internal keys are distinct in use; with equal keys a direction switch skips ties.
- DbIterator.DBIter.Next: corrupt internal keys and the status of the internal iterator are not modelled.
- LogReader.Reader.ReadRecord: the initial offset is 0, so resyncing and record offsets are not modelled, and reads of the file succeed.
- Recovery.RecoverLogFile: full memtables are not written out during recovery, and the operation count of a batch is taken as unsigned.
- WriteBatches.WriteBatch.Add: strings below 4 GB and fewer than 2^31 operations, where lengths and the count field are exact.
- WriteQueues.RunInv: writes succeed; log, sync and memtable errors are not modelled.
- GroupCommit.WriteQueue.Lead: one log from its opening on, so the switch to a new log and memtable in `MakeRoomForWrite` is not in the queue (it is a step of `DbState`), and sequence numbers stay below the greatest one, which the code does not check.
- Crc32c.Extend: the tables are given by polynomial division and not as their 1280 literal entries (`CrcKnown.TableEntries` proves the eight that fix the byte table); hardware acceleration is not modelled.
- BlockBuilders.BlockBuilder.Add: key, value and block sizes below 4 GB, where the 32-bit offsets are exact.
- BlockIters.Iter.Seek: over blocks that a builder can produce; the corruption branch is proved to be out of reach there and is not described for other bytes.
- TableBuilders.TableBuilder.Finish: always with a filter policy (a table without a filter is read by `InternalGet`), no compression, and the metaindex block, the footer and the check of block trailers on reading are not modelled; table and index sizes stay below the limits of the format.
- FilterBlocks.FilterBlockBuilder.Finish: promises no false negatives when the filters of all keys together, as they are before the call, take less than 4 GB, where the 32-bit offsets are exact.
- Bloom.CreateFilter: the hash function is any function of the key; the product with 0.69 is a real number and its floor, where the code truncates a double, which agrees for every count that is not clamped to 30.
- HandleTables.HandleTable.Insert: handles are indices, and their `next_hash` fields a map from them; the hash is a function of the key.
- SkipList.List.Insert: nodes are indices into an arena that only grows, in place of heap pointers.
- SkipRuns.RunInv: one writer at a time, as the code demands; the number of readers is fixed for a run.
- SnapshotLists.SnapshotList.New: nodes are indices, in place of heap pointers.
- LruCaches.LRUCache.Insert: one shard; values are left out, and a deleter is recorded in the order it runs.
- TwoLevelIterators.TwoLevelIterator.Seek: blocks are given as sequences of pairs, so a block function that fails is not modelled; the reuse of a data iterator for an unchanged handle is.
- TableWalks.NewIterator: reads all blocks when it is made, the code when it gets to them.
- InternalKeys.LookupReads: for comparators that tell different byte strings apart among the keys of the table, as the bytewise one does; a filter on bytes may miss a key that a coarser comparator takes for equal.
- Bloom.MatchMeans: for filters with the policy's own parameters; filters that claim more than 30 probes always match.
- Iteration.NewIterator: walks the memtables when it is made; `Iteration.LaterWritesUnseen` is why later writes to them do not matter.
- The older annotated copies of LevelDB files beside this tree, and the Go programs of the repository.
