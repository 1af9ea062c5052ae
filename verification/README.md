# LevelDB and nanopb, modelled and verified in Dafny

This project models the LevelDB storage engine that the application vendors under
`ios/Pods/leveldb-library` and proves what it promises its users: reads that follow the committed
history through every flush, compaction and crash, iterators that agree with those reads, logs that
lose nothing but their torn end, and writers that commit in order. It also models the protobuf codec under
`ios/Pods/nanopb` and proves that decoding gives back what was encoded.

`dafny verify dfyconfig.toml` checks everything.

## How the model is organised

* **Engine as a state machine.** A state (`State.DbState`) holds the memtables, seven levels of table
  files, manifest records, logs, snapshots and counters. `Runs` defines the events a database goes
  through: writes, memtable switches, flushes, compactions, trivial moves, snapshots, garbage collection,
  and crashes followed by recovery. The specification is the committed history: a list of batches,
  read "at sequence s" (`Visibility.Lookup`). What such a read means is said again in terms of the operations that
  were written (`Answers`): the last one on the key decides. `Runs.Effect` says field by field what each event changes.
  The methods of `Database.DB` and `Opening.Open` perform these events with the loops and updates of the source and
  are proved to take exactly those steps.
* **Algorithms.** `Version` (reads), `Picking` (input sets), `CompactionWork` (the drop loop),
  `VersionEdits` and `Replay` (builder and manifest replay) follow `db/version_set.cc` and `db/db_impl.cc` method by
  method.
* **Iterators.** `Merger` (merging iterator with direction changes), `DbIter` (user iterator) and
  `Iteration` (what a new iterator walks over).
* **Bytes.** `Coding`, `LogFormat`, `WriteBatchFormat` and `VersionEditFormat` go down to the bytes of the
  log, the batches in it and the manifest records. Intact files and files cut at any byte have an exact result; for
  any other file, what the log reader returns is shown to be there, with the right checksum. `CrashBytes` joins the
  bytes of logs and manifest to the crash model of the engine. `KnownBytes` has each format in known bytes.
* **Tables.** `BlockFormat` is the prefix-compressed block with its builder and cursor, `Bloom` and
  `FilterBlock` the filters, `TableFormat` handles, trailers and footer. `TableBuilding` writes a table file,
  `Tables` looks keys up in it, `TwoLevel` iterates over it; the theorems that join them build a file from any
  pairs and read it.
* **Threads.** `GroupCommit` is the writer queue as a protocol over events, for every interleaving.
* **Protocol Buffers.** `PbFormat` has descriptors, messages and the wire format, `PbEncode` and `PbDecode`
  (with `PbStream` and `PbFields`) the two programs. Between them stands `PbMerge`, which says what a
  sequence of (tag, payload) items does to a message, and what merging one message into another means field by field.

User keys above the byte level are integers, their ranks in the comparator's order; `Comparator` proves
that the keys of any finite run can be represented this way. In the engine a table file is represented by its
list of entries, which is what the table modules show a file to be for its readers.

## What the model shows about the code

`VersionSet::SetupOtherInputs` extends the inputs of the compacted level over boundary files, but not
those of the next level. A compaction can therefore drop a deletion while an older value of the same key
stays behind in a next-level file, and the deleted value becomes readable again. This is not what the
code promises, so the main theorem is an equivalence: a compaction keeps all answers **if and only if**
there is no such leftover (`CompactionSafety.Exposes`, a condition on the version and the picked files that
can be looked up before the compaction starts). `Exposure.ADeletedValueComesBack` is a run from an empty
database in which it happens, for any values; it needs a compaction whose output is cut between a deletion and
the deleted value, and `OutputCut.CutBehindDeletion` gives the value lengths, block size and file size with which
the code cuts there (`OutputCut.CutOfTheRun` for the entries of the run). `Exposure.ClosedNextLevelIsSafe` shows
that closing the next level's inputs in the same way would rule it out. The whole-run theorems are stated for runs
in which no compaction exposes anything.

`VersionSet::Builder` sorts out all edits of a manifest before it saves once, so it does not replay every list of
edits as they were installed. `Replay.ReplayEqualsInstallingIff` says for which edits it does, and
`Replay.ReaddedNumber` is the smallest case in which it may not: if a number is dropped and added again as another
file, the replay lists the first file too, or instead. The engine never adds a number again to a level that listed it
before, which is enough (`VersionEdits.ReplayEqualsInstalling`) and part of the run invariant.

A null batch asks `DBImpl::Write` for a memtable switch, but a writer in front may take it along in its group. It is
then answered with OK although nothing was switched: `GroupCommit.NullWriteForcedIffItLed` and
`GroupCommit.ANullWriteFollows`.

The log reader uses the numbers 5 and 6, which are no record types, for the end of the log and for bad records. A
fragment with one of these types and the right checksum is therefore taken for the end of the log, or passed over
without a report; `LogFormat.Ended` and `LogFormat.Nothing` name these cases.

`DecodeEntry` adds two lengths in 32 bits, so an entry of a corrupted block can be accepted although it reaches
behind the data: exactly if the sum wraps around (`BlockFormat.AcceptedIsInside`, `BlockFormat.WrappingEntry`).

`VersionEdit::Clear` does not clear the compaction pointers, so decoding into a used object adds to
them; the decoding theorem says so.

## Model

| member | source | states |
|---|---|---|
| `Runs.EveryReadIsRight` | ios/Pods/leveldb-library/db/db_impl.cc:1110-1155 | After any run of writes, memtable switches, flushes, compactions, moves, snapshots, garbage collections and crashes in which no compaction exposes an old value, a read at any sequence number from the oldest live snapshot on gives the newest committed entry at or below it, or nothing if that is a deletion or absent. |
| `Runs.LastWriteWins` | ios/Pods/leveldb-library/db/db_impl.cc:1195-1266 | Where there was no crash since some moment of a run, reading a key gives the value of the last Put written since then, nothing if the last operation on the key was a Delete, and what was read at that moment if there was none; from the start of a run, that is nothing. |
| `Answers.LastOperationDecides` | ios/Pods/leveldb-library/db/write_batch.cc:115-137 | At every sequence number inside a batch, a key reads as the last operation of the batch on it up to there says, Put or Delete, and as before the batch if there is none. |
| `Runs.SnapshotsAreStable` | ios/Pods/leveldb-library/db/db_impl.cc:1176-1184 | From the event that takes a snapshot on, for as long as it is neither released itself nor lost in a crash, it is in the list and reads at it give what the database held when it was taken, whatever is written, flushed, moved or compacted and whichever other snapshots come and go. |
| `Runs.SnapshotsAreKept` | ios/Pods/leveldb-library/db/snapshot.h:57-80 | Every snapshot that was taken and neither released itself nor lost in a crash is in the list, at the place that the other events leave it, with the sequence number at which it was taken. |
| `Runs.EverySnapshotWasTaken` | ios/Pods/leveldb-library/db/snapshot.h:57-80 | Nothing else is in the list: every place belongs to an event that took a snapshot which is still live. |
| `Runs.SnapshotsAreProtected` | ios/Pods/leveldb-library/db/snapshot.h:44-60 | Every live snapshot and LastSequence lie between the oldest snapshot and LastSequence, so the read theorem covers them all. |
| `Runs.StepKeepsInvariant` | ios/Pods/leveldb-library/db/db_impl.cc:697-776 | Every event except an exposing compaction keeps the invariant of version, logs, manifest, snapshots and stored answers, and changes the committed history only as stated. |
| `Runs.StepHasEffect` | ios/Pods/leveldb-library/db/db_impl.cc:697-776 | Field by field, what each event changes and that it changes nothing else: the logged batch, the switched memtable and log, the files that levels gain and lose, counters, the list of snapshots, what is deleted from disk. |
| `Runs.HistoryGrows` | ios/Pods/leveldb-library/db/db_impl.cc:1195-1266 | Between crashes the committed history only grows, by batches with larger sequence numbers. |
| `Runs.RunSound` | ios/Pods/leveldb-library/db/db_impl.cc:1478-1519 | The invariant holds in every state of a run without exposing compactions. |
| `Runs.CreatedSound` | ios/Pods/leveldb-library/db/db_impl.cc:181-211 | A newly created database satisfies the invariant and has an empty history. |
| `State.ReadsSeeHistory` | ios/Pods/leveldb-library/db/db_impl.cc:1110-1155 | In any sound state, memtables plus tables answer every read from the oldest snapshot on like the committed history does. |
| `CompactionSafety.PreservesExactlyUnlessExposing` | ios/Pods/leveldb-library/db/version_set.cc:1380-1439 | A compaction keeps every answer at or above the smallest snapshot if and only if it does not drop a deletion while an older value of the same key sits in a level+1 file that was not picked. |
| `Steps.CompactionPreservesIff` | ios/Pods/leveldb-library/db/db_impl.cc:887-1046 | The same equivalence for the state after the compaction is installed. |
| `CompactionSafety.ExposedChangesAnswer` | ios/Pods/leveldb-library/db/version_set.cc:1387 | In the exposing case a deleted key reads as the left-behind old value afterwards. |
| `Exposure.ADeletedValueComesBack` | ios/Pods/leveldb-library/db/version_set.cc:1384-1399 | For any values and table sizes there is a run from an empty database in which a first compaction cuts its output between a deletion and the value it deletes, and the last event, a compaction settled as the code does from the only file of its level with any size limit, makes the deleted key readable again although the committed history says it is deleted. |
| `OutputCut.CutBehindDeletion` | ios/Pods/leveldb-library/db/db_impl.cc:975-1003 | For any keys and a value of 1 MiB up to 4 MiB there are a block size and a file size in the ranges the options allow with which the compaction loop cuts its output exactly between the deletion and the deleted value: the block size that the first entry alone misses by one byte. |
| `OutputCut.CutOfTheRun` | ios/Pods/leveldb-library/db/db_impl.cc:975-1003 | The outputs of the first compaction in that run, in bytes, are cut where the run cuts them: for any key and value bytes of its entries with a first value of at least 1 MiB that still fits a block, some block size and file size make the loop write exactly its two tables. |
| `Exposure.ClosedNextLevelIsSafe` | ios/Pods/leveldb-library/db/version_set.cc:1355-1378 | If the level+1 inputs were closed over boundary files too, no compaction could expose anything. |
| `Exposure.LeftOutSharesNoKey` | ios/Pods/leveldb-library/db/version_set.cc:1387 | A level+1 file left out holds no user key of the level inputs. |
| `Version.Get` | ios/Pods/leveldb-library/db/version_set.cc:281-400 | The search through level 0 from newest to oldest file and then one file per deeper level reports the newest visible entry of all tables, or nothing exactly when no entry is visible. |
| `Version.SearchLevelZero` | ios/Pods/leveldb-library/db/version_set.cc:285-300 | Going through overlapping level-0 files by descending number finds the newest visible entry of the level. |
| `Version.SearchLevel` | ios/Pods/leveldb-library/db/version_set.cc:302-321 | One binary search and one lookup find the newest visible entry of a deeper level. |
| `Version.FindFile` | ios/Pods/leveldb-library/db/version_set.cc:87-105 | Binary search returns the first file whose largest key is at or after the key. |
| `Version.OneFilePerLevel` | ios/Pods/leveldb-library/db/version_set.cc:302-321 | No file of a sorted level other than the one FindFile picks can show anything for the key. |
| `Version.ProbeFindsNewest` | ios/Pods/leveldb-library/db/version_set.cc:262-275 | Seeking to (key, sequence) and looking at one entry finds the newest visible entry of a sorted run, or shows that there is none. |
| `VersionEdits.ReplayEqualsInstalling` | ios/Pods/leveldb-library/db/version_set.cc:629-731 | When no file number is added again at a level that listed it before, applying all edits to one builder and saving once gives the list that installing them one by one gives. |
| `Replay.ReplayEqualsInstallingIff` | ios/Pods/leveldb-library/db/version_set.cc:629-731 | For any edits and any level, replaying them through one builder gives the list that installing them one by one gives if and only if, for every number still listed, every position (smallest key, number) ever recorded for it is recorded by exactly one edit since the number was last dropped, and with the file that was recorded there first. An edit that also adds the number does not drop it. |
| `Replay.ReaddedNumber` | ios/Pods/leveldb-library/db/version_set.cc:644-669 | Adding a file, dropping its number and adding a file under that number again installs as the second file, and replays to it exactly if it is the first one again. |
| `VersionEdits.Builder.Apply` | ios/Pods/leveldb-library/db/version_set.cc:629-669 | One walk over all deletions and one over all additions, across levels, leave every level as if its own deletions and then its own additions had been applied alone; an added number is taken off the deleted set. |
| `VersionEdits.Builder.SaveTo` | ios/Pods/leveldb-library/db/version_set.cc:672-715 | The merge of base files and sorted added files, without the deleted ones, level by level. |
| `VersionEdits.Builder.MergeLevel` | ios/Pods/leveldb-library/db/version_set.cc:678-698 | The merge loop gives the ordered merge that the membership and sortedness lemmas are about. |
| `VersionEdits.SaveLevelMembers` | ios/Pods/leveldb-library/db/version_set.cc:717-730 | The merge keeps exactly the base and added files whose numbers are not deleted. |
| `VersionEdits.SaveLevelSorted` | ios/Pods/leveldb-library/db/version_set.cc:672-715 | The merge of two sorted lists without common files is sorted by smallest key. |
| `VersionEdits.InstallLevelEffect` | ios/Pods/leveldb-library/db/version_set.cc:777-860 | Installing one edit on a level gives a sorted list of exactly the remaining and the added files. |
| `Manifest.ListsStep` | ios/Pods/leveldb-library/db/version_set.cc:777-860 | After one more logged edit the manifest still lists the current version. |
| `Manifest.SinksStep` | ios/Pods/leveldb-library/db/version_set.cc:777-860 | File numbers only ever move to deeper levels, so no level sees a number twice. |
| `Recovery.SnapshotTracks` | ios/Pods/leveldb-library/db/version_set.cc:1064-1092 | A fresh manifest that starts with the snapshot record lists the version. |
| `Opening.RecoverVersion` | ios/Pods/leveldb-library/db/version_set.cc:862-987 | Recovery gives the accumulated lists of files and, for each counter, the value in the last record that sets it. |
| `Opening.LastSetDecides` | ios/Pods/leveldb-library/db/version_set.cc:917-935 | A record that sets a counter decides it if no later record sets it, whatever else the later ones say. |
| `CrashBytes.RecoverSurvivors` | ios/Pods/leveldb-library/db/db_impl.cc:387-475 | If the older log is whole and the current one is cut at any byte, the two files are recovered as the survivors of a crash of the engine model, cut after some batch; a batch is lost only if its bytes are not all there. |
| `CrashBytes.RecoverManifest` | ios/Pods/leveldb-library/db/version_set.cc:905-945 | Read back from its bytes, cut anywhere, a manifest of the engine gives edits that say what its first edits say, all of them if nothing is cut off, and the counters that the recovery of the engine finds in those. |
| `CrashBytes.SpellingExists` | ios/Pods/leveldb-library/db/version_edit.cc:41-88 | Every edit of the engine whose numbers and keys fit their fields has a manifest record that says the same. |
| `Opening.ReplayGivesVersion` | ios/Pods/leveldb-library/db/version_set.cc:862-987 | Replaying the manifest of a crashed database rebuilds the exact version it had. |
| `Picking.GetOverlappingInputs` | ios/Pods/leveldb-library/db/version_set.cc:498-538 | Terminates despite its restarts and returns on level 0 the files of the least range that contains the given one and is closed under overlap; on deeper levels exactly the overlapping files. |
| `Picking.AddBoundaryInputs` | ios/Pods/leveldb-library/db/version_set.cc:1355-1378 | Terminates on any list and adds the chain of boundary files. |
| `Picking.FindSmallestBoundaryFile` | ios/Pods/leveldb-library/db/version_set.cc:1321-1340 | The search returns the boundary file with the smallest start, if there is one. |
| `Picking.BoundaryFilesExtendRun` | ios/Pods/leveldb-library/db/version_set.cc:1355-1378 | On a sorted level the chain is exactly the next files up to the first one that starts at another user key. |
| `Picking.BoundaryCloses` | ios/Pods/leveldb-library/db/version_set.cc:1380-1384 | The level inputs become closed: no file left behind at the level holds an older entry for a user key inside. |
| `Picking.ClosedRangeIsClosed` | ios/Pods/leveldb-library/db/version_set.cc:498-538 | An overlap-closed set of level-0 files leaves no older entry outside either. |
| `Picking.ExpandInputs` | ios/Pods/leveldb-library/db/version_set.cc:1397-1400 | The widened level inputs are everything that the range of the whole compaction overlaps, with its boundary files; they contain the first ones and are closed. |
| `Picking.SetupOtherInputs` | ios/Pods/leveldb-library/db/version_set.cc:1380-1439 | The inputs are the requested files and their boundary files, or the widened set exactly if that is larger, stays below the size limit and meets no more level+1 files. Whichever it is, the set is closed and the level+1 files are those of the first. |
| `Picking.PickCompaction` | ios/Pods/leveldb-library/db/version_set.cc:1247-1301 | A size-triggered pick settles from the first file after the compaction pointer, wrapping around. |
| `Picking.CompactFile` | ios/Pods/leveldb-library/db/version_set.cc:1280-1300 | Any single starting file is part of what is settled from it, on level 0 from all that it overlaps with in turn. |
| `Picking.CompactRange` | ios/Pods/leveldb-library/db/version_set.cc:1441-1472 | For a key range the inputs are settled from all overlapping files on level 0, and below it from those up to the one with which their size reaches the limit. Every requested file is among them. There is nothing to do exactly when no file overlaps the range. |
| `Picking.SomeFileOverlapsRange` | ios/Pods/leveldb-library/db/version_set.cc:121-158 | Exact on sorted levels, by one binary search, and on level 0. |
| `Picking.PickLevelForMemTableOutput` | ios/Pods/leveldb-library/db/version_set.cc:470-495 | A flushed table goes to level 0 if it overlaps a file there, and otherwise sinks exactly as far as the next level does not overlap it and the one after that not too much, to level 2 at most. |
| `CompactionWork.Compaction.IsBaseLevelForKey` | ios/Pods/leveldb-library/db/version_set.cc:1510-1529 | For user keys asked in nondecreasing order the monotone walk answers exactly whether no file two or more levels deeper covers the key. |
| `CompactionWork.PreviousDecides` | ios/Pods/leveldb-library/db/db_impl.cc:946-975 | Comparing with the previous entry of the same user key decides whether any earlier entry hides this one. |
| `CompactionWork.GarbageIsDropped` | ios/Pods/leveldb-library/db/db_impl.cc:933-981 | A compaction leaves at most one entry of a user key at or below the smallest snapshot, and a deletion there only if a deeper table covers its key. |
| `CompactionWork.OnlyGarbageIsDropped` | ios/Pods/leveldb-library/db/db_impl.cc:933-981 | A compaction drops nothing above the smallest snapshot, and below it only what a newer entry of the key hides or a deletion that no deeper table needs. |
| `CompactionWork.DoCompactionWork` | ios/Pods/leveldb-library/db/db_impl.cc:887-1046 | The output tables are sorted, disjoint and freshly numbered and hold exactly the input entries that neither rule drops. |
| `CompactionWork.MergeSorted` | ios/Pods/leveldb-library/db/version_set.cc:1214-1245 | Merging sorted runs without a common key gives a sorted run. |
| `Database.InputSorted` | ios/Pods/leveldb-library/db/version_set.cc:1214-1245 | The merged input of any chosen compaction is sorted. |
| `CompactionSafety.NewestIsNotHidden` | ios/Pods/leveldb-library/db/db_impl.cc:956-958 | Rule (A) never drops an entry that a reader at or above the smallest snapshot sees. |
| `CompactionSafety.OlderIsLeftover` | ios/Pods/leveldb-library/db/db_impl.cc:959-971 | With no deeper level covering the key, an older entry outside the inputs can only be in an unpicked level+1 file. |
| `Install.AddedAtZeroOk` | ios/Pods/leveldb-library/db/db_impl.cc:500-542 | Adding new tables at level 0 keeps the structural invariant. |
| `Install.AddedDeepOk` | ios/Pods/leveldb-library/db/version_set.cc:470-495 | So does one new table at a deeper level when nothing down to that level overlaps it. |
| `Install.ReplacedOk` | ios/Pods/leveldb-library/db/db_impl.cc:869-885 | Replacing the inputs of a compaction by its outputs at level+1 keeps levels sorted and disjoint, numbers unique and shallower entries newer. |
| `Install.ReplacedContents` | ios/Pods/leveldb-library/db/db_impl.cc:869-885 | After the installation the tables hold the outputs and the untouched files, nothing else. |
| `Steps.FlushOk` | ios/Pods/leveldb-library/db/db_impl.cc:544-575 | A flush keeps the invariant and the committed history; its batches move from the log to the tables. |
| `Steps.CompactOk` | ios/Pods/leveldb-library/db/db_impl.cc:697-776 | A compaction that exposes nothing keeps the invariant and the history. |
| `Steps.MoveOk` | ios/Pods/leveldb-library/db/db_impl.cc:727-748 | A trivial move keeps the invariant and the history. |
| `Steps.WriteOk` | ios/Pods/leveldb-library/db/db_impl.cc:1195-1266 | A write keeps the invariant and appends its batch to the history. |
| `Steps.SwitchOk` | ios/Pods/leveldb-library/db/db_impl.cc:1355-1376 | Switching memtable and log keeps the invariant and the history. |
| `Steps.TakeSnapshotOk` | ios/Pods/leveldb-library/db/db_impl.cc:1176-1179 | Taking a snapshot keeps the invariant and the history. |
| `Steps.ReleaseSnapshotOk` | ios/Pods/leveldb-library/db/db_impl.cc:1181-1184 | Releasing one keeps them too. |
| `Steps.CollectOk` | ios/Pods/leveldb-library/db/db_impl.cc:222-287 | Garbage collection keeps them: no log and no table still needed is deleted. |
| `Steps.CollectedExactly` | ios/Pods/leveldb-library/db/db_impl.cc:222-287 | Garbage collection leaves exactly the logs from LogNumber on and the tables that some level lists. |
| `Steps.LogAndApplyManifest` | ios/Pods/leveldb-library/db/version_set.cc:777-860 | LogAndApply keeps manifest, version and counters in step. |
| `Recovery.ReopenOk` | ios/Pods/leveldb-library/db/db_impl.cc:289-575 | After a crash that cuts the current log, recovery restores the invariant with exactly the flushed and surviving batches as history and a sequence counter at or above all of them. |
| `Recovery.SurvivorsArePrefix` | ios/Pods/leveldb-library/db/db_impl.cc:289-378 | What survives is an initial segment of the committed batches that has every batch wholly in a log. |
| `Opening.Open` | ios/Pods/leveldb-library/db/db_impl.cc:1478-1519 | DB::Open on the files of a crashed database performs the recovery step of the run model, deletes exactly the obsolete files and gives a valid database. |
| `Opening.RecoverLogFile` | ios/Pods/leveldb-library/db/db_impl.cc:380-498 | Replaying a log, writing a table out after any record, gives tables that hold exactly its batches, and the largest sequence number. |
| `Opening.LogsToRecover` | ios/Pods/leveldb-library/db/db_impl.cc:325-366 | The logs to replay are those from the recorded log number on, in order. |
| `Opening.NothingMissing` | ios/Pods/leveldb-library/db/db_impl.cc:338-356 | No table of the recovered version is missing. |
| `History.MemOfEffect` | ios/Pods/leveldb-library/db/memtable.cc:73-100 | A memtable filled from batches is sorted and holds exactly their operations with their sequence numbers. |
| `History.InsertOpsEffect` | ios/Pods/leveldb-library/db/write_batch.cc:115-137 | Inserting the operations of a batch one by one adds exactly their entries, in order (`Answers.LastOperationDecides` says what those mean). |
| `Database.DB.Create` | ios/Pods/leveldb-library/db/db_impl.cc:181-211 | A new database object is the initial state of the run model and valid. |
| `Database.DB.Get` | ios/Pods/leveldb-library/db/db_impl.cc:1110-1155 | Get at a live snapshot or at LastSequence returns the newest committed entry, or nothing if it is a deletion or absent. |
| `Database.ReadYourWrites` | ios/Pods/leveldb-library/db/db_impl.cc:1110-1184 | A caller who reads, writes and reads again sees what his last operation on the key says, and through a snapshot taken before the write what he read first. |
| `Database.DB.Write` | ios/Pods/leveldb-library/db/db_impl.cc:1195-1266 | The write loop appends one batch to the log and advances LastSequence by its length; afterwards every key reads, at every sequence number of the batch, as the operations up to there say. |
| `Database.DB.SwitchMemTable` | ios/Pods/leveldb-library/db/db_impl.cc:1355-1376 | The full memtable becomes the immutable one, an empty one and a new, empty log with the next file number take over. |
| `Database.DB.GetSnapshot` | ios/Pods/leveldb-library/db/db_impl.cc:1176-1179 | Taking a snapshot appends LastSequence to the list, returns it and changes nothing else. |
| `Database.DB.ReleaseSnapshot` | ios/Pods/leveldb-library/db/db_impl.cc:1181-1184 | Releasing removes exactly that snapshot; the others keep their order. |
| `Database.DB.RemoveObsoleteFiles` | ios/Pods/leveldb-library/db/db_impl.cc:222-287 | A log stays if and only if its number is at least LogNumber, a table if and only if some level lists it, and nothing else changes. |
| `Database.DB.CompactMemTable` | ios/Pods/leveldb-library/db/db_impl.cc:544-575 | The table of the immutable memtable joins the level at which it may stay, level 2 at most; the log moves on and the memtable goes; then exactly the obsolete files are deleted. |
| `Database.DB.RunCompaction` | ios/Pods/leveldb-library/db/db_impl.cc:697-776 | A chosen compaction is a move exactly if it is not manual, has one file and no counterpart and overlaps little enough two levels down. Otherwise its inputs are replaced by the outputs in the next level and exactly the obsolete files go. The database stays valid unless that step exposes an old value. |
| `Database.DB.CompactLevel` | ios/Pods/leveldb-library/db/db_impl.cc:697-776 | The same for a level that is too large, with inputs settled from the first file after the compaction pointer, or the first of the level if there is none. |
| `Database.DB.CompactKeyRange` | ios/Pods/leveldb-library/db/db_impl.cc:594-631 | If some file overlaps the range, the compaction takes all overlapping files on level 0, and below it those before which the size limit is not reached; otherwise nothing happens. |
| `Database.DB.LogAndApplyEdit` | ios/Pods/leveldb-library/db/version_set.cc:777-860 | Building the new version with a Builder equals installing the edit. |
| `Merger.MergingIterator.Next` | ios/Pods/leveldb-library/table/merger.cc:55-79 | Next moves to the next entry of the sorted union, also right after moving backward. |
| `Merger.MergingIterator.Prev` | ios/Pods/leveldb-library/table/merger.cc:81-108 | Prev moves to the previous entry of the sorted union, also right after moving forward. |
| `Merger.MergingIterator.Seek` | ios/Pods/leveldb-library/table/merger.cc:47-53 | Seek goes to the first entry of the union at or after the target. |
| `Merger.MergingIterator.SeekToFirst` | ios/Pods/leveldb-library/table/merger.cc:31-37 | SeekToFirst goes to the first entry of the union. |
| `Merger.MergingIterator.SeekToLast` | ios/Pods/leveldb-library/table/merger.cc:39-45 | SeekToLast goes to the last one. |
| `Merger.MergingIterator.FindSmallest` | ios/Pods/leveldb-library/table/merger.cc:148-161 | If all children are cut at place q of the union, the smallest child is at entry q. |
| `Merger.MergingIterator.FindLargest` | ios/Pods/leveldb-library/table/merger.cc:163-176 | The same for the largest child when moving backward. |
| `Merger.SeekCuts` | ios/Pods/leveldb-library/table/merger.cc:47-53 | Seeking every child to one target cuts them all at one place of the union. |
| `DbIter.DBIter.Next` | ios/Pods/leveldb-library/db/db_iter.cc:141-175 | Next goes to the least key of the visible user map above the current one, or ends when there is none, in either direction of travel. |
| `DbIter.DBIter.Prev` | ios/Pods/leveldb-library/db/db_iter.cc:209-234 | Prev goes to the greatest key below the current one, or ends, in either direction of travel. |
| `DbIter.DBIter.Seek` | ios/Pods/leveldb-library/db/db_iter.cc:278-290 | Seek goes to the least visible key at or after the target. |
| `DbIter.DBIter.SeekToFirst` | ios/Pods/leveldb-library/db/db_iter.cc:292-301 | SeekToFirst goes to the least visible key. |
| `DbIter.DBIter.SeekToLast` | ios/Pods/leveldb-library/db/db_iter.cc:303-308 | SeekToLast goes to the greatest visible key. |
| `DbIter.DBIter.FindNextUserEntry` | ios/Pods/leveldb-library/db/db_iter.cc:177-207 | The forward scan skips hidden versions, deletions and too-new entries, and no key of the map. |
| `DbIter.DBIter.FindPrevUserEntry` | ios/Pods/leveldb-library/db/db_iter.cc:236-276 | The backward scan settles on the deciding entry of the greatest key that is not deleted. |
| `DbIter.DBIter.CurrentIsShown` | ios/Pods/leveldb-library/db/db_iter.cc:64-71 | In either direction, the key and value that a valid iterator hands out are a key of the user map and its value. |
| `DbIter.CursorsAreUnique` | ios/Pods/leveldb-library/db/db_iter.cc:41-46 | These positions are determined by the user map alone. |
| `DbIter.StepsInvert` | ios/Pods/leveldb-library/db/db_iter.cc:41-46 | Next and Prev undo each other. |
| `DbIter.FirstShownDecides` | ios/Pods/leveldb-library/db/db_iter.cc:177-207 | The first visible entry of a key in internal order decides what a reader sees. |
| `Iteration.NewIterator` | ios/Pods/leveldb-library/db/db_impl.cc:1157-1167 | A new iterator walks the committed history visible at its snapshot or at LastSequence. |
| `Iteration.NewInternalIterator` | ios/Pods/leveldb-library/db/db_impl.cc:1072-1097 | Its merging iterator covers memtables and tables exactly once each. |
| `Iteration.AddIterators` | ios/Pods/leveldb-library/db/version_set.cc:229-249 | One child per level-0 table and one per deeper level that has files. |
| `Iteration.AllRunsOk` | ios/Pods/leveldb-library/db/version_set.cc:229-249 | The children are sorted, share no entry, and together hold the contents of the database. |
| `LogFormat.ReadAll` | ios/Pods/leveldb-library/db/log_reader.cc:56-271 | A log cut at any byte gives exactly the records wholly before the cut and no report. On any file all records are there one behind the other up to the end of the log. |
| `LogFormat.RoundTrip` | ios/Pods/leveldb-library/db/log_reader.cc:56-271 | What is written is read back in full, without a report. |
| `LogFormat.Reader.ReadRecord` | ios/Pods/leveldb-library/db/log_reader.cc:56-174 | On any file, a record that is returned is there whole, in one fragment or in a first, middle ones and a last directly behind each other, and if nothing was reported then only empty pieces were passed over. A record of an intact or cut log is returned with its offset, or taken for the end. |
| `LogFormat.Reader.ReadPhysicalRecord` | ios/Pods/leveldb-library/db/log_reader.cc:189-271 | On any file, reading block by block finds what is at the position in the whole file: behind a trailer, a fragment with the right checksum that lies in its block, preallocated space, something to report and give up to the end of the block, or the end of the log. |
| `LogFormat.FindPhysical` | ios/Pods/leveldb-library/db/log_reader.cc:186-270 | A physical record that the writer wrote is found as it is, and taken for the end of the log if the file ends inside it, without a report. |
| `LogFormat.Writer.AddRecord` | ios/Pods/leveldb-library/db/log_writer.cc:34-80 | A record is appended as the fragments the format prescribes at the current position. |
| `LogFormat.Writer.EmitPhysicalRecord` | ios/Pods/leveldb-library/db/log_writer.cc:82-108 | A header with masked checksum, length and type, then the payload. |
| `LogFormat.WholeIsLongest` | ios/Pods/leveldb-library/db/log_reader.cc:56-271 | The number of records read back is the length of the longest prefix of records that fits before the cut. |
| `LogFormat.UnmaskInvertsMask` | ios/Pods/leveldb-library/util/crc32c.h:29-39 | Unmask inverts Mask on 32-bit checksums. |
| `LogFormat.AfterFullBlock` | ios/Pods/leveldb-library/db/log_writer.cc:46-66 | A fragment that does not finish its record fills its block exactly. |
| `WriteBatchFormat.RecoverBatches` | ios/Pods/leveldb-library/db/db_impl.cc:380-440 | A log cut at any byte gives back exactly the batches wholly before the cut. On any file the records read have the right checksums, and with paranoid checks the status is OK only if nothing was dropped and every record is a batch. |
| `WriteBatchFormat.Iterate` | ios/Pods/leveldb-library/db/write_batch.cc:42-80 | The bytes of a batch give back exactly its operations, and a batch accepted as OK has as many as its header says. |
| `WriteBatchFormat.WriteBatch.Put` | ios/Pods/leveldb-library/db/write_batch.cc:98-103 | Put appends one operation and counts it. |
| `WriteBatchFormat.WriteBatch.Delete` | ios/Pods/leveldb-library/db/write_batch.cc:105-109 | Delete does too. |
| `WriteBatchFormat.WriteBatch.Append` | ios/Pods/leveldb-library/db/write_batch.cc:144-148 | Append concatenates the operations and adds the counts. |
| `WriteBatchFormat.WriteBatch.SetSequence` | ios/Pods/leveldb-library/db/write_batch.cc:94-96 | SetSequence changes the sequence number and nothing else. |
| `VersionEditFormat.ReadManifest` | ios/Pods/leveldb-library/db/version_set.cc:895-945 | A manifest cut at any byte gives exactly the edits wholly before the cut and the counters they set last. On any file the status is OK only if nothing was dropped and every record is an edit of this comparator. |
| `VersionEditFormat.VersionEdit.DecodeFrom` | ios/Pods/leveldb-library/db/version_edit.cc:105-203 | Decoding inverts encoding for every well-formed edit, except that compaction pointers already present are kept. |
| `VersionEditFormat.VersionEdit.EncodeTo` | ios/Pods/leveldb-library/db/version_edit.cc:41-82 | The encoding is the tagged items of the edit in their order. |
| `VersionEditFormat.VersionEdit.DecodeField` | ios/Pods/leveldb-library/db/version_edit.cc:120-190 | One field decodes to what was encoded and sets just its part of the edit. |
| `VersionEditFormat.VersionEdit.Clear` | ios/Pods/leveldb-library/db/version_edit.cc:26-39 | Clear resets everything but the compaction pointers. |
| `VersionEditFormat.ItemsRebuild` | ios/Pods/leveldb-library/db/version_edit.cc:105-203 | Setting the items of an edit one after the other rebuilds it. |
| `VersionEditFormat.DeletionsAreSet` | ios/Pods/leveldb-library/db/version_edit.cc:105-203 | Decoding any items in any order leaves exactly the deletions that were there or are named by an item, in order and each of them once. |
| `Coding.Varint32RoundTrip` | ios/Pods/leveldb-library/util/coding.cc:86-114 | A 32-bit varint decodes to its value whatever follows it. |
| `Coding.Varint64RoundTrip` | ios/Pods/leveldb-library/util/coding.cc:116-143 | So does a 64-bit varint. |
| `Coding.EncodeVarint32IsVarint` | ios/Pods/leveldb-library/util/coding.cc:21-47 | The unrolled encoder writes the same bytes as the loop. |
| `Coding.EncodeVarint64` | ios/Pods/leveldb-library/util/coding.cc:55-64 | The loop writes seven bits a byte, low bits first. |
| `Coding.GetVarint` | ios/Pods/leveldb-library/util/coding.cc:86-102 | The decoding loop computes the value of the varint, cut off at its width. |
| `Coding.DecodeInvertsFixed64` | ios/Pods/leveldb-library/util/coding.h:54-103 | Fixed-width integers decode to their value. |
| `Coding.PrefixedRoundTrip` | ios/Pods/leveldb-library/util/coding.cc:145-164 | A length-prefixed string decodes to itself whatever follows it. |
| `Comparator.CompareIsOrder` | ios/Pods/leveldb-library/include/leveldb/slice.h:100-111 | Bytewise comparison is antisymmetric and tells equal keys from different ones. |
| `Comparator.CompareTransitive` | ios/Pods/leveldb-library/include/leveldb/slice.h:100-111 | It is transitive. |
| `Comparator.RanksRepresentKeys` | ios/Pods/leveldb-library/include/leveldb/slice.h:100-111 | Comparing the ranks of finitely many keys is comparing the keys. |
| `GroupCommit.CommittedOnce` | ios/Pods/leveldb-library/db/db_impl.cc:1195-1266 | Under every interleaving of writer threads a batch answered with OK is whole in exactly one log record, and a sync write is in a synced one. |
| `GroupCommit.SequencedInOrder` | ios/Pods/leveldb-library/db/db_impl.cc:1211-1245 | Batches take increasing, disjoint ranges of sequence numbers in order of arrival. |
| `GroupCommit.FollowersGetLeadersStatus` | ios/Pods/leveldb-library/db/db_impl.cc:1247-1257 | Everyone in a record gets the same answer, and no sync write is carried by a leader that does not sync. |
| `GroupCommit.FinishAnswers` | ios/Pods/leveldb-library/db/db_impl.cc:1240-1258 | When a leader is done, everybody in its group gets the status it ended with. |
| `GroupCommit.AnswersAreFinal` | ios/Pods/leveldb-library/db/db_impl.cc:1204-1206 | An answer never changes. |
| `GroupCommit.NothingAfterSyncError` | ios/Pods/leveldb-library/db/db_impl.cc:1232-1237 | After a failed sync nothing is logged any more, and whoever had no answer then is answered with a failure, if at all. |
| `GroupCommit.NoLostWakeup` | ios/Pods/leveldb-library/db/db_impl.cc:1195-1266 | As long as somebody queues, the head of the queue can take its next step; every answered writer has a signal pending or is gone; tmp_batch_ is empty between leaders. |
| `GroupCommit.InterleavingOk` | ios/Pods/leveldb-library/db/db_impl.cc:1195-1266 | The invariant of queue, phases, pending group and log holds after any events. |
| `GroupCommit.BuildBatchGroup` | ios/Pods/leveldb-library/db/db_impl.cc:1270-1316 | The group is the only one that the rules allow: a follower joins unless it syncs behind a leader that does not, or would take the group above 1 MiB, or for a leader of up to 128 KiB above its own size plus 128 KiB. Its batch is the concatenation of its members, built in tmp_batch_ only when a follower brings a batch. |
| `GroupCommit.NullWriteForcedIffItLed` | ios/Pods/leveldb-library/db/db_impl.cc:1208-1211 | A null write, which asks for a memtable switch, and is answered with OK had the switch made for it if and only if it led: if a group of another writer took it along, it gets the OK of that group and nothing is switched. |
| `GroupCommit.ANullWriteFollows` | ios/Pods/leveldb-library/db/db_impl.cc:1293-1313 | Four events in which a null write queues up behind a write and is answered with OK without a switch, for any writers that do not sync behind one that does not. |
| `BlockFormat.RoundTrip` | ios/Pods/leveldb-library/table/block_builder.cc:61-105 | Building a block of any pairs with any restart interval and reading it from the first entry on gives exactly the pairs, if the block is smaller than 2^32 bytes. |
| `BlockFormat.BlockIter.Seek` | ios/Pods/leveldb-library/table/block.cc:164-202 | On a block with increasing keys, the binary search over restart points and the linear scan end at the first entry with a key at or after the target, or off the end if there is none. |
| `BlockFormat.BlockIter.Prev` | ios/Pods/leveldb-library/table/block.cc:143-162 | Prev from entry i stands at entry i - 1 with its full key and value, or leaves the block before the first entry. |
| `BlockFormat.BlockIter.Next` | ios/Pods/leveldb-library/table/block.cc:138-141 | Next from entry i stands at entry i + 1, or leaves the block after the last one; with Prev, each undoes the other. |
| `BlockFormat.BlockIter.SeekToLast` | ios/Pods/leveldb-library/table/block.cc:209-214 | SeekToLast stands at the last entry. |
| `BlockFormat.BlockIter.SeekToFirst` | ios/Pods/leveldb-library/table/block.cc:204-207 | SeekToFirst stands at the first entry. |
| `BlockFormat.BlockIter.FindRestartPoint` | ios/Pods/leveldb-library/table/block.cc:165-191 | The binary search returns the last restart point whose key is below the target, or the first one. |
| `BlockFormat.BlockIter.ParseNextKey` | ios/Pods/leveldb-library/table/block.cc:225-251 | Parsing rebuilds the next key from the shared prefix and keeps the restart index at the last restart point before the entry, or at it. |
| `BlockFormat.DecodeEntry` | ios/Pods/leveldb-library/table/block.cc:55-78 | The fast path for three short lengths and the varint path give the same result, with the two lengths added up in 32 bits. |
| `BlockFormat.EntryRoundTrip` | ios/Pods/leveldb-library/table/block.cc:55-78 | An encoded entry in a block of less than 2^32 bytes is read back with its lengths, whatever follows it. |
| `BlockFormat.AcceptedIsInside` | ios/Pods/leveldb-library/table/block.cc:73-76 | What the decoder accepts lies within the data if and only if the two lengths add up to less than 2^32. |
| `BlockFormat.WrappingEntry` | ios/Pods/leveldb-library/table/block.cc:73-76 | An input with lengths 2^32 - 1 and 2 is accepted although it reaches behind the data. |
| `BlockFormat.BlockBuilder.Add` | ios/Pods/leveldb-library/table/block_builder.cc:71-105 | Adding appends exactly one pair. Every interval-th entry is a restart point, and every other one shares with the key before it as many bytes as the two have in common. |
| `BlockFormat.BlockBuilder.Finish` | ios/Pods/leveldb-library/table/block_builder.cc:61-69 | The finished block is the entries followed by the restart offsets and their number, with restart points at exactly the multiples of the interval. |
| `BlockFormat.BlockParts` | ios/Pods/leveldb-library/table/block.cc:20-42 | The reader finds the entries, the restart offsets and their number where the builder put them. |
| `PbDecode.RoundTrip` | ios/Pods/nanopb/pb_encode.c:528-580 | Measuring, encoding and decoding a message of any descriptor succeeds exactly if the message respects its array and buffer limits, and gives the same message back at every nesting depth. |
| `PbDecode.DecodeConcatenation` | ios/Pods/nanopb/pb_decode.c:934-1096 | The encodings of two messages written one after the other decode to the merge of the two, field by field as `PbMerge.MergeLaw` says, exactly if the merge is within its limits. |
| `PbMerge.MergeLaw` | ios/Pods/nanopb/pb_decode.c:1537-1542 | Merging one message into another: a submessage in both is merged, any other value of the second replaces the first, arrays are concatenated, a field to which the second contributes nothing stays, except that another field of its union displaces it. There is room at every step exactly if the result is within its limits. |
| `PbMerge.UnionHoldsOne` | ios/Pods/nanopb/pb_decode.c:466-478 | Of a union the merged message holds the field that the second message holds and no other; a union of which the second holds nothing stays as it was. |
| `PbMerge.ApplyLaw` | ios/Pods/nanopb/pb_decode.c:406-483 | One item is combined with what its field held, the other fields of its union go, and nothing else changes. |
| `PbDecode.DecodeNoinit` | ios/Pods/nanopb/pb_decode.c:934-1079 | On any sequence of items, in any order, repeated, and with fields the descriptor does not know, decoding succeeds exactly if each item finds room and each of the first 64 required fields occurs, and then equals applying the items in turn; on any bytes at all, an accepted message respects every type and limit of its struct. An optional submessage that is absent at the start is taken to hold the defaults, as `pb_decode` leaves it; what else a caller may have left in it, and the code would merge into, is not modelled. |
| `PbDecode.Decode` | ios/Pods/nanopb/pb_decode.c:1084-1096 | The same, starting from the defaults. |
| `PbMerge.MergeIntoDefault` | ios/Pods/nanopb/pb_decode.c:917-927 | Merging a message into the defaults gives that message, although the encoder leaves out absent and zero fields; there is room exactly if it is within its limits. |
| `PbMerge.ApplyAllAppend` | ios/Pods/nanopb/pb_decode.c:954-1038 | Decoding can be cut anywhere between two items: the second part continues from the message the first part made. |
| `PbFormat.ZeroIsDefault` | ios/Pods/nanopb/pb_encode.c:240-335 | A singular value that the encoder leaves out is, nested messages included, exactly what the decoder starts from. |
| `PbFormat.DefaultsAreZero` | ios/Pods/nanopb/pb_decode.c:845-928 | The defaults of a message are zeros, empty texts and empty arrays, and no value where a has_ flag or a union says so. |
| `PbFormat.ZeroIff` | ios/Pods/nanopb/pb_encode.c:240-335 | A singular value is left out if and only if it is the default and its type allows that: it has no required field inside and is no array of bytes with a fixed length. |
| `PbFormat.FieldContributes` | ios/Pods/nanopb/pb_encode.c:341-426 | A field contributes to the encoding exactly if it is there and not a default that is left out; a value once. |
| `PbEncode.Encode` | ios/Pods/nanopb/pb_encode.c:528-550 | Encoding succeeds exactly if the message is within its limits and its bytes fit the stream; it then writes exactly the bytes of the format, and a sizing stream counts exactly as many. |
| `PbEncode.EncodeSubmessage` | ios/Pods/nanopb/pb_encode.c:717-765 | The measured length and the bytes written through the limited stream agree, so the length prefix is right at every depth. |
| `PbEncode.EncodeArray` | ios/Pods/nanopb/pb_encode.c:147-231 | Numbers are packed behind one tag and measured length, other entries get a tag each, and too long an array fails. |
| `PbEncode.EncodePacked` | ios/Pods/nanopb/pb_encode.c:163-205 | The length in front of a packed array is the number of bytes the loop then writes, for fixed and for measured sizes. |
| `PbEncode.EncodeBasicField` | ios/Pods/nanopb/pb_encode.c:341-426 | A field is written exactly if its has_ flag, its which_ tag, its count or, for a singular field, its nonzero value says so. |
| `PbEncode.EncodeVal` | ios/Pods/nanopb/pb_encode.c:769-911 | Each value encoder writes the bytes of its type or fails because a limit is exceeded or the stream is full. |
| `PbEncode.OStream.VarintBuffer` | ios/Pods/nanopb/pb_encode.c:614-627 | The loop that sets every continuation bit and then clears the last one writes the varint. |
| `PbEncode.ZigZagBitsIs` | ios/Pods/nanopb/pb_encode.c:630-639 | Shifting and complementing 64-bit patterns computes the zigzag number for every signed 64-bit value. |
| `PbEncode.EncodedSize` | ios/Pods/nanopb/pb_encode.c:567-576 | The reported size is the length of the encoding. |
| `PbEncode.EncodeToBuffer` | ios/Pods/nanopb/pb_encode.c:86-130 | Encoding into a buffer succeeds exactly if the encoding is no longer than the buffer. |
| `PbStream.IStream.DecodeVarint32` | ios/Pods/nanopb/pb_decode.c:187-247 | On any input a varint is accepted exactly if it ends, has no bits beyond 32 in its last byte, and its further digits are zero or repeat the sign; the value is its low 32 bits. Every written 32-bit number is read back. |
| `PbStream.IStream.MakeSubstream` | ios/Pods/nanopb/pb_decode.c:372-400 | On any input the substream and what the parent goes on with are exactly the two parts of what follows the length, and there is one exactly if the length is a varint that the input has room for. |
| `PbStream.IStream.SkipField` | ios/Pods/nanopb/pb_decode.c:321-331 | Skipping an unknown field moves exactly past its payload, for every wire type that there is, and fails for any other. |
| `PbStream.IStream.DecodeTag` | ios/Pods/nanopb/pb_decode.c:298-319 | On any input a tag is a nonzero varint, split into number and wire type; an empty input or a zero byte ends the message. |
| `PbStream.NextDigit` | ios/Pods/nanopb/pb_decode.c:205-231 | One byte of a varint adds seven bits to a 32-bit result without loss, and the last one fits four bits. |
| `PbFields.FieldIter.Find` | ios/Pods/nanopb/pb_common.c:87-104 | From any position, the search ends within one lap and succeeds exactly if some field has the tag. |
| `PbFields.FieldIter.Next` | ios/Pods/nanopb/pb_common.c:29-85 | The iterator wraps around behind the last field, and its required-field index is always the number of required fields before it. |
| `PbFields.SeenBits.AllSeen` | ios/Pods/nanopb/pb_decode.c:1058-1076 | The comparison with whole words and the remaining bits succeeds exactly if all of the first 64 required fields have been marked. |
| `PbFields.CountRequired` | ios/Pods/nanopb/pb_decode.c:1042-1056 | The walk to the last field with its correction counts the required fields, for an empty descriptor too. |
| `PbDecode.DecodeVal` | ios/Pods/nanopb/pb_decode.c:1334-1570 | Each value decoder accepts only values of its C type and size, and reads an encoded value back (a submessage merges into what was there). |
| `PbDecode.DecodeInt` | ios/Pods/nanopb/pb_decode.c:1345-1380 | Negative numbers come back from their 64-bit pattern through the cast to the field width; on any input a number is accepted exactly if it fits the field after that cast. |
| `PbDecode.DecodePacked` | ios/Pods/nanopb/pb_decode.c:424-450 | A packed array is appended entry by entry through a substream and is accepted exactly if it fits. |
| `PbDecode.DecodeField` | ios/Pods/nanopb/pb_decode.c:406-483 | Decoding one item combines it with what the field held, in the count of its array and in the union it lives in, and changes no other field. |
| `TableBuilding.BuildAndGet` | ios/Pods/leveldb-library/table/table.cc:214-242 | For any increasing pairs, block size, restart interval and filter: building the table file, opening it and looking a key up through index, filter and block hands out nothing but the entry that a linear scan finds, and hands that out whenever it has the sought user key. Files below 4 GiB. |
| `TwoLevel.BuildAndIterate` | ios/Pods/leveldb-library/table/two_level_iterator.cc:82-161 | Building a table of any increasing pairs and iterating over it, forwards and then backwards, gives exactly the pairs. |
| `TableBuilding.TableBuilder.Finish` | ios/Pods/leveldb-library/table/table_builder.cc:198-253 | The finished file is a table of exactly the pairs that were added: data blocks with the given restart interval, a filter block exactly if there is a policy, metaindex, index with interval 1, footer. |
| `TableBuilding.TableBuilder.Add` | ios/Pods/leveldb-library/table/table_builder.cc:94-123 | Adding a pair keeps the file, index and filter in step, writes the pending index entry between the two keys, and flushes exactly when the block with the new pair reaches the block size. |
| `TableBuilding.TableBuilder.Flush` | ios/Pods/leveldb-library/table/table_builder.cc:125-139 | A nonempty block goes to the file whole, with its trailer; its index entry becomes pending. |
| `TableBuilding.SeparatorIsIndexKey` | ios/Pods/leveldb-library/table/table_builder.cc:101-108 | A key that separates the last key of a block from the next key separates everything before from everything after, and differs from every later user key unless it is the last key itself. |
| `Tables.Table.InternalGet` | ios/Pods/leveldb-library/table/table.cc:214-242 | On any well-formed table, empty blocks included, the lookup agrees with linear search. |
| `Tables.NothingInTheGap` | ios/Pods/leveldb-library/table/table.cc:217-233 | If the block that the index names has nothing at or after the key, no later entry has the sought user key, although the index key was shortened. |
| `Tables.Rejected` | ios/Pods/leveldb-library/table/table.cc:221-225 | A block that the filter turns away has no entry that the lookup could have handed out. |
| `Tables.Table.Open` | ios/Pods/leveldb-library/table/table.cc:38-134 | Footer, index, metaindex and filter of a well-formed table are found, the filter exactly if there is one and a policy; without a usable filter the table is read without one. |
| `FilterBlock.FilterBlockReader.KeyMayMatch` | ios/Pods/leveldb-library/table/filter_block.cc:90-104 | A key is turned away at the offset of a block exactly if there is a filter for that offset and it does not match the key; so never if it was added for the block. |
| `FilterBlock.FilterBlockBuilder.StartBlock` | ios/Pods/leveldb-library/table/filter_block.cc:21-27 | A filter is closed for every 2 KiB of offsets that is passed, and every key stays under the index of its own block offset. |
| `FilterBlock.FilterBlockBuilder.Finish` | ios/Pods/leveldb-library/table/filter_block.cc:35-49 | The finished block has, for every 2 KiB of offsets, the filter of exactly the keys added there, and none where there were no keys. |
| `Bloom.BloomPolicy.CreateFilter` | ios/Pods/leveldb-library/util/bloom.cc:28-54 | The filter has at least 64 bits, bitsPerKey for each key, set exactly where some key probes, and the number of probes behind them, for any hash function; so it matches every key it was made of. |
| `Bloom.DeltaRotates` | ios/Pods/leveldb-library/util/bloom.cc:43-46 | Bit i of the step between probes is bit i + 17 of the hash, counted around. |
| `Bloom.BloomPolicy.KeyMayMatch` | ios/Pods/leveldb-library/util/bloom.cc:56-80 | The probing loop stops early exactly if one of the probed bits is not set. |
| `Comparator.FindShortestSeparator` | ios/Pods/leveldb-library/db/dbformat.cc:65-82 | The shortened key is the start key cut off behind the first byte that differs and raised by one there, exactly if that leaves it below the other key (and, for internal keys, shorter); otherwise it is the start key. |
| `Comparator.FindShortSuccessor` | ios/Pods/leveldb-library/db/dbformat.cc:84-97 | The shortened key is the key cut off behind the first byte that can be raised, with that byte raised (for internal keys exactly if that is shorter); otherwise the key itself. |
| `Comparator.CmpTransitive` | ios/Pods/leveldb-library/db/dbformat.cc:47-63 | The internal key order is transitive. |
| `TableFormat.ReadBlock` | ios/Pods/leveldb-library/table/format.cc:64-140 | A block is read exactly if it lies in the file, is not compressed and, with verification, has the right checksum; what comes back are its bytes. |
| `TableFormat.DecodeFooter` | ios/Pods/leveldb-library/table/format.cc:42-62 | A footer is accepted exactly if it has the magic number and two handles; an encoded one gives back both. |
| `TwoLevel.TwoLevelIterator.Next` | ios/Pods/leveldb-library/table/two_level_iterator.cc:103-107 | From entry g of the table the iterator goes to entry g + 1 over any number of empty blocks, or becomes invalid after the last one. |
| `TwoLevel.TwoLevelIterator.Prev` | ios/Pods/leveldb-library/table/two_level_iterator.cc:109-113 | It goes back to entry g - 1, or becomes invalid before the first one. |
| `TwoLevel.TwoLevelIterator.Seek` | ios/Pods/leveldb-library/table/two_level_iterator.cc:82-87 | Seek goes to the first entry of the table at or after the target, also if that is in the block after the one the index names. |
| `TwoLevel.TwoLevelIterator.SeekToLast` | ios/Pods/leveldb-library/table/two_level_iterator.cc:96-101 | SeekToLast goes to the last entry of the table, if there is one. |
| `TwoLevel.TwoLevelIterator.InitDataBlock` | ios/Pods/leveldb-library/table/two_level_iterator.cc:146-161 | A data cursor is kept only for the same block: equal handles name the same block. |
| `KnownBytes.PackedKeys` | ios/Pods/leveldb-library/db/dbformat.h:54-61 | The low byte of a packed key is 1 for a value and 0 for a deletion. |
| `KnownBytes.BatchOperations` | ios/Pods/leveldb-library/db/write_batch.cc:98-109 | In a batch the byte 1 marks a Put and 0 a Delete, as in a packed key. |
| `KnownBytes.ABatch` | ios/Pods/leveldb-library/db/write_batch.cc:5-14 | A batch of a Put and a Delete at sequence number 100 in bytes. |
| `KnownBytes.MaskedChecksums` | ios/Pods/leveldb-library/util/crc32c.h:20-39 | Masked checksums of known values. |
| `KnownBytes.AFullRecord` | ios/Pods/leveldb-library/db/log_format.h:14-30 | A record that fits its block is one fragment of type 1. |
| `KnownBytes.ALongRecord` | ios/Pods/leveldb-library/db/log_format.h:14-30 | A record over three blocks is fragments of types 2, 3 and 4 in blocks of 32768 bytes. |
| `KnownBytes.ATrailer` | ios/Pods/leveldb-library/db/log_writer.cc:42-58 | Fewer than seven bytes at the end of a block are zeros. |
| `KnownBytes.EditItems` | ios/Pods/leveldb-library/db/version_edit.cc:14-24 | The tags of names and counters in a version edit. |
| `KnownBytes.EditFiles` | ios/Pods/leveldb-library/db/version_edit.cc:14-24 | The tags of files and compaction pointers. |
| `KnownBytes.EditOrder` | ios/Pods/leveldb-library/db/version_edit.cc:41-88 | The order in which a version edit is written. |
| `KnownBytes.AFooter` | ios/Pods/leveldb-library/table/format.h:53-76 | A footer in bytes, with the magic number. |
| `KnownBytes.ABlock` | ios/Pods/leveldb-library/table/block_builder.cc:61-105 | A block of one entry in bytes. |
| `KnownBytes.AFilterBlock` | ios/Pods/leveldb-library/table/filter_block.cc:35-49 | An empty filter block in bytes. |
| `KnownBytes.WireTypes` | ios/Pods/nanopb/pb_encode.c:666-690 | Numbers, texts and fixed numbers under their tags and wire types. |
| `KnownBytes.APackedArray` | ios/Pods/nanopb/pb_encode.c:147-231 | A packed array in bytes. |
| `KnownBytes.FixedNumbers` | ios/Pods/leveldb-library/util/coding.h:54-62 | Four-byte numbers are stored low byte first. |
| `KnownBytes.WideNumbers` | ios/Pods/leveldb-library/util/coding.h:64-76 | Eight-byte numbers are stored low byte first. |
| `KnownBytes.VariableNumbers` | ios/Pods/leveldb-library/util/coding.cc:10-66 | Varints are stored seven bits a byte, low bits first; a text follows its length. |
| `KnownBytes.AStoredBlock` | ios/Pods/leveldb-library/table/table_builder.cc:177-194 | A stored block is followed by the type byte 0 and the masked checksum of both. |
| `KnownBytes.ANegativeNumber` | ios/Pods/nanopb/pb_encode.c:769-790 | A negative int32 takes ten bytes. |
| `KnownBytes.ANumberWithoutFlag` | ios/Pods/nanopb/pb_encode.c:240-335 | Zero is not encoded where there is no has_ flag, and any other number is. |

## Left out

- The steps of the engine are atomic: a flush does not run inside a compaction, and the mutex is not
  modelled except in `GroupCommit`.
- I/O errors and corrupted files: every read and write of the engine model succeeds. On corrupted files the result
  is stated in full for single fragments of a log, blocks, handles, footers and single numbers of a message; for whole
  logs it is that nothing is made up or passed over silently; for block cursors, batches, version edits and messages
  it is that the result is within its limits.
- A crash cuts the log being written and nothing else; tables, manifest and older logs are complete.
- In the engine, tables are lists of entries and a lookup is `Version.Seek` on that list; the table modules prove
  this of table files, for keys as bytes. The table cache and the block cache are not modelled.
- What a block cursor reads when an accepted entry reaches behind the data: the model ends the iteration there.
- The number of Bloom probes is a parameter, since the code computes it in floating point; so is the hash.
- The engine's output cuts stay nondeterministic; `OutputCut` follows the file size for the input of that run.
- A crash of the engine keeps its whole manifest; `CrashBytes.RecoverManifest` also reads one that is cut.
- When to compact and where to cut an output table (scores, seek charging, ShouldStopBefore, file sizes)
  is chosen nondeterministically; so are recorded file sizes.
- Old versions held by iterators in RemoveObsoleteFiles, `pending_outputs_`, and `PrevLogNumber`, which
  is always 0 for files this code writes.
- Compaction pointers in the engine's version edits; the byte-level edits have them.
- `reuse_logs`, `ReuseManifest`, RepairDB, and log reading from a nonzero initial offset.
- `Database.DB.Write`: the sequence number must stay below 2^56 - 1; the code does not check for exhaustion.
- `GroupCommit` has its own log and counter; the engine's write step is one group.
- Memtables are sorted lists; the skip list and the arena are not modelled.
- The LRU cache, Snappy, the CRC tables and the other vendored libraries.
- nanopb: callbacks, extensions, pointer fields, fixed-count arrays and default values other than zero; a text
  is the characters before its NUL; a message struct is a value that is passed in and returned.
- PbDecode.DecodeNoinit: an absent field has no contents, so a submessage merges into the defaults where the code
  merges into what the struct held, and what decoding leaves in an absent field is not modelled.
- nanopb: sizes and positions do not wrap around, nor does the 8-bit position of `PbStream.IStream.DecodeVarint32` in
  a varint of more than 36 bytes; tag 0 in a message without fields, which meets the terminator, is treated as unknown.
