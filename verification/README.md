# Lumen: durability and replication core

Lumen is a document store. One node keeps a write-ahead log and recovers from it; a cluster keeps a
Raft log and feeds it to the same catalog on every node. This project models that core in Dafny and
proves what its comments and documentation promise about crashes, replays, snapshots and reads.

There are four layers.

1. **The segmented log.** Byte files of frames `[len][crc32c][payload]`, with rotation, suffix
   truncation, prefix purge and torn-tail recovery. The class `SegmentedLogs.SegmentedLog` is proved
   to refine a plain map from index to record (`Frames`, `Segments`, `LogIndex`, `LogDisk`,
   `SegmentedLogs`, `LogRecovery`, `LogGaps`). The Raft log store (`RaftLogs`) and the write-ahead log (`Wals`)
   sit on top of it.
2. **The catalog.** Open collections with their buffered documents, the uuid directories with what
   was last committed and at which mark, and `catalog.pb`. `Commands.Fold` says what a list of
   commands means; everything else is measured against it (`Stores`, `Replays`, `Standalone`,
   `StandaloneRecovery`, `RecoveryCrashes`, `StandaloneRuns`, `CrashOutcomes`, and the classes in
   `Catalogs` and `CatalogRecovery`).
3. **The cluster.** Nodes that apply, commit, restart, build and install snapshots in any order over
   one committed log (`ClusterNodes`, `ClusterRuns`, `StateMachines`, `Installs`), and concurrent
   collection DDL on a leader (`Ddl`).
4. **Mappings and documents.** The validator and the document builder, which are written separately
   and must agree (`Mappings`, `Documents`).

How things are modelled:

- A file is a sequence of bytes with a durable length. The checksum is a parameter: every statement
  holds for any function from payloads to 32-bit words. Wire encodings are parameters too; all that
  is assumed of them is that decoding inverts encoding.
- Tantivy is two maps and a mark: writes change the buffered documents, a commit atomically replaces
  the committed documents and stores its mark. A crash discards the buffered ones.
- Collection names, document ids and uuids enter only through equality and are numbered. Uuids drawn
  for creates are distinct.
- A crash is a loss of power. What is on disk afterwards counts as durable.
- Log positions count from 1. Integers are unbounded where the source has `u64`.
- A clock, randomness (uuids) and the peers of a node are parameters of the operations.
- The order of disk writes inside an operation is stated through ghost histories: the catalog records
  the disk after each write of a directory or of `catalog.pb`, the log store each metadata file it
  writes, and the segmented log the directory after each file a purge deletes.

## What turned out not to hold

Where the code does not do what its documentation says, the model follows the code. Each of these
has a lemma with a concrete case, and a lemma that says exactly when the promise holds.

- `append` promises that any index is allowed when the log is empty. After a purge past the end of
  the log, as a snapshot install does, the next records go into the old file and are read back under
  other indexes, mostly below the purge floor: acknowledged entries are gone after a restart
  (`LogRecovery.GapAppendLost`). A record survives if and only if the append rotates to a new file
  or its index is where the last file ends (`LogRecovery.GapAppendIff` of the segments, and
  `LogRecovery.AppendThenReopen` of the log object and its files). Of a whole batch, the entries that
  fit the active file are found counted from its end, if that is above the floor, and the others under
  their own index (`RaftLogs.AppendThenReopen`).
- A crash inside recovery can lose an acknowledged document
  (`Findings.InterruptedRecoveryLosesDocument`): a replayed create or drop persists `applied_seq`
  past documents that are only buffered. After a crash between any two replayed entries the next
  `open` is exact if and only if no document was last changed after the position its directory stands
  for and at or below the last replayed create or drop that took effect
  (`RecoveryCrashes.InterruptedRecoveryIff`).
- A command too long for a log record uses up a sequence number without being logged, so the next
  one lands past a gap (`Findings.OversizedLeavesGap`). An append is contiguous if and only if the
  numbers used up since the last file was begun are as many as those that crashes have handed back
  since (`StandaloneRuns.EveryAppendContiguousIff`).
- A used-up number can cost an acknowledged document (`Findings.UsedUpNumberLosesDocument`): a
  collection is committed at it, a crash forgets it, and the next document is given the same number
  and taken for committed.
- For both kinds of crash, and every other: every further run recovers if and only if the applied point
  has overtaken no document, and either no live collection is committed above the highest number on
  disk or there is a tail to replay, after which `open` commits everything anew
  (`CrashOutcomes.RecoversIff`). A running catalog's crash overtakes nothing, and without oversized
  commands it forgets nothing.
- A used-up number can also cost a command, if crashes hand back more numbers than a torn rotation
  left room for: records then lie in a file under higher indexes than their numbers, and the next
  rotation begins a file below the end of that one, whose record is read over one of them
  (`Findings.RotationLosesCommand`, with its bytes in `LogRecovery.NewFileShadows`). What was logged
  is read back, and then the new record, if and only if the new file begins at or past the end of the
  last one (`LogRecovery.NewFileIff`, `LogRecovery.NewFileThenReopen` of the log object and
  `Wals.NewFileThenReread` of the write-ahead log).
- A node whose collection was dropped and recreated with another mapping can fail every restart
  (`ClusterFindings.RestartCanFail`): replay meets an old document under the new mapping. So can one
  whose log has a create that was overruled by a live collection of another mapping, since replay
  from a later point installs it (`ClusterFindings.OverruledCreateStopsRestart`). Replay fails if and
  only if a document command is met by a mapping it does not fit: that of the entry replay starts
  with, or of the create it installed last (`Replays.ReplayFailsIff`, `ClusterRuns.RestartFailsIff`,
  `ClusterRuns.SnapshotFailsIff`).
- A crash inside a cluster replay can lose a collection
  (`ClusterFindings.MidReplayCrashLosesCollection`). A restart converges if and only if the persisted
  catalog covers the log up to the reported point (`ClusterRuns.RestartConvergesIff`).
- Document commands in a cluster are checked before they are committed, and not under the DDL lock, so
  one can be committed after its collection was dropped. It has no effect then, but a restart can
  apply it to a recreated collection (`ClusterFindings.StrayDocumentReappears`). A restart that
  succeeds converges if and only if no surviving collection has a document whose last command above
  the mark is such a stray index (`ClusterRuns.RestartStrayIff`).
- `install_snapshot` is documented as safe against a crash. It is so if and only if the archive and
  the local catalog have no collection directory in common (`Installs.InstallAtomicIff` of the renames
  and `StateMachines.InstallCrashIff` of the disks the method passes through); between two
  replicas of one log, if and only if they have no collection in common
  (`Installs.ReplicaInstallIff`). Replicas in the same state have
  (`Installs.CaughtUpReplicasShare`), and a crash between the two renames then leaves a catalog that
  cannot be opened (`ClusterFindings.InstallCrashLosesCatalog`).
- A create can be reported created without having been installed, if the caller of another create
  goes away while that one is in the log and not yet applied: its lock is released too early
  (`Ddl.PatienceNeeded`). Whoever leaves and when, a create reported created was installed if and only
  if the whole log, and not only its applied part, had no such collection when the create was admitted
  (`Ddl.CreatedIff`).

## Model

| member | source | states |
|---|---|---|
| Frames.FrameRecognised | crates/core/src/log.rs:133-137 | A written frame is recognised with its payload, whatever bytes follow it |
| Frames.HeaderBytes | crates/core/src/log.rs:136-139 | A frame begins with the payload's length and then its checksum, each in four bytes, lowest first |
| Frames.HeadIsFrame | crates/core/src/log.rs:307-321 | Whatever the scan accepts at the head of a file is exactly the frame of its payload |
| Frames.ScanAppended | crates/core/src/log.rs:305-326 | Bytes after valid frames never remove one, and are scanned on their own |
| Frames.ScanEncode | crates/core/src/log.rs:126-139 | Scanning the frames of any list of payloads returns that list |
| Frames.ScanReencodes | crates/core/src/log.rs:305-326 | For arbitrary bytes, the valid part is the re-encoding of what was read |
| Frames.ScanFixedPoint | crates/core/src/log.rs:75-86 | Cutting a file at its valid length changes nothing a second scan sees |
| Frames.TornFrame | crates/core/src/log.rs:313-319 | A frame cut short anywhere is not a frame |
| Frames.TornTail | crates/core/src/log.rs:305-326 | Every byte prefix of a file scans to exactly the records that lie wholly inside it |
| Frames.KeptByPrefix | crates/core/src/log.rs:305-326 | Every record whose frame lies inside a byte prefix is read back from that prefix |
| Frames.PayloadAt | crates/core/src/log.rs:130-149 | The position computed for a record is where its payload lies in the file |
| Frames.ScanSegment | crates/core/src/log.rs:305-326 | The scan loop terminates and returns consecutive indexes, exact payload positions and the valid length |
| Segments.TornSegment | crates/core/src/log.rs:60-86 | Of a file cut short, a prefix of the records is read back that contains every synced one |
| LogIndex.ReadsExact | crates/core/src/log.rs:244-262 | Every entry of the index points at the exact payload bytes in its file |
| LogIndex.IndexGrown | crates/core/src/log.rs:141-149 | One more record at the end of the last segment is one more entry of the map, and no position moves |
| LogIndex.IndexTruncated | crates/core/src/log.rs:179-205 | Cutting the segments at an index cuts the map there, positions included |
| LogIndex.IndexPurged | crates/core/src/log.rs:217-238 | Dropping segments at or below a floor leaves exactly the map above the floor |
| LogIndex.CutLoc | crates/core/src/log.rs:180-203 | Above the floor, the index finds the segment to cut: the last one that stays, and no other |
| LogDisk.DiskGrown | crates/core/src/log.rs:138-139 | A frame appended to the last file keeps files, segments and durability consistent |
| LogDisk.DiskRotated | crates/core/src/log.rs:271-289 | A new file at or past the end of the last one, once that is synced, keeps files, segments and durability consistent |
| LogDisk.DiskTruncated | crates/core/src/log.rs:193-204 | The cut file and the deleted files leave exactly the truncated segments |
| LogDisk.DiskSliced | crates/core/src/log.rs:193-238 | Deleting the files outside a range of segments leaves exactly that range |
| SegmentedLogs.SegmentedLog.constructor | crates/core/src/log.rs:52-110 | Of any directory, with damage anywhere and files that overlap: files are read up to the first damaged one, which is cut, and the index points at exactly what they hold, the later file winning; cut short only at its end, gaps between files or not, every segment is read back and files, index and map agree |
| SegmentedLogs.SegmentedLog.Rotate | crates/core/src/log.rs:264-289 | Rotation syncs the old file and continues in the file of the given index, new or reused; the map does not change |
| SegmentedLogs.SegmentedLog.Append | crates/core/src/log.rs:112-152 | An oversized payload changes nothing; exactly one frame is added, to the active file or the one rotated to, and only it is not durable; past a gap or not, the files hold one record more in the last segment, or in a new one if that begins past all that is there; a record placed where a reopen looks for it extends the map by exactly itself |
| SegmentedLogs.SegmentedLog.Sync | crates/core/src/log.rs:154-162 | Everything appended so far is durable, and nothing else changes |
| SegmentedLogs.SegmentedLog.ReadRange | crates/core/src/log.rs:168-173 | Reads through the positions return exactly the map's records of the range, in index order, gaps or overlapping files or not |
| SegmentedLogs.SegmentedLog.ReadAll | crates/core/src/log.rs:164-166 | Reads exactly the map, in index order |
| SegmentedLogs.SegmentedLog.LastIndex | crates/core/src/log.rs:240-242 | The highest index held, none exactly when the log is empty |
| SegmentedLogs.SegmentedLog.TruncateFrom | crates/core/src/log.rs:175-206 | The map loses exactly the records from the index on; above the floor the log stays consistent; at or below it the segments that start below the index stay, uncut, with their files, starts and active segment |
| SegmentedLogs.SegmentedLog.PurgeThrough | crates/core/src/log.rs:208-238 | The map loses exactly the records up to the index, and floors may decrease; exactly the listed files go whose successor begins at most one above the index, one by one from the first, and of the files listed afterwards none but the last has such a successor; with gaps or without, the segments left are those of the files left |
| SegmentedLogs.ReadFiles | crates/core/src/log.rs:52-102 | The loop over the segment files rebuilds starts, index and active segment from the bytes alone, whatever they are: what is read is each whole frame up to the first damage, the later file winning where two claim an index |
| SegmentedLogs.PurgeGrounded | crates/core/src/log.rs:217-238 | A purge keeps files, starts and the index's segments in step, with or without gaps, and never drops the last segment |
| SegmentedLogs.NoneSuperseded | crates/core/src/log.rs:217-238 | After a purge no listed file but the last has a successor that begins at most one above the index, gaps or not |
| LogRecovery.ReopenRefines | crates/core/src/log.rs:52-110 | Reopening a consistent log and applying its floor again gives exactly the map it stood for |
| LogRecovery.TornReadBack | crates/core/src/log.rs:60-101 | Whatever a crash leaves, earlier segments are read back whole and the last as a prefix with every synced record |
| LogRecovery.CrashRefines | crates/core/src/log.rs:60-101 | After a crash the log holds only records it held, unchanged, and every durable one |
| LogRecovery.AppendAtomic | crates/core/src/log.rs:117-152 | Whatever prefix of a frame a crash leaves, the log reads back with the record if the prefix is the whole frame, without it otherwise, and nothing else changes |
| LogRecovery.MidPurgeOk | crates/core/src/log.rs:217-238 | At every point inside a purge the directory is that of a consistent log above the floor in force |
| LogRecovery.CrashInPurge | crates/cluster/src/log_store.rs:154-166 | Wherever a crash stops a purge, before or after its floor was persisted, after any number of deletions and with any torn tail, a reopen under the floor left holds only records the log held, unchanged, and every durable one |
| LogRecovery.NextIsEnd | crates/core/src/log.rs:117-124 | While the log holds a record, the one index allowed next is where its frame is read back |
| LogRecovery.GapAppendIff | crates/core/src/log.rs:112-152 | An append to an empty log is found under its index after a reopen if and only if it rotated or continues the last file; otherwise it is found under the end of the last file |
| LogRecovery.GapAppendFiles | crates/core/src/log.rs:126-139 | Rotated or not, the files after such an append read back as the last segment with one more record, or as a segment of its own |
| LogRecovery.AppendThenReopen | crates/core/src/log.rs:112-152 | Append to an empty log object, then reopen its files: the record is under its index if and only if a rotation was due or the index is where the last file ends |
| LogRecovery.GapAppendLost | crates/core/src/log.rs:112-152 | A concrete append past a gap, allowed by the documentation, of which nothing is left above the floor after a reopen |
| LogRecovery.NewFileOverlay | crates/core/src/log.rs:60-73 | A new file with one record is read at its name, over whatever was there, and nothing else changes |
| LogRecovery.NewFileIff | crates/core/src/log.rs:60-73 | What is read after a new file is what there was and then its record if and only if everything there was lies below the file's name |
| LogRecovery.NewFileThenReopen | crates/core/src/log.rs:112-152 | The same of the log object: read, append with a rotation to a new file, reopen, read again |
| LogRecovery.NewFileShadows | crates/core/src/log.rs:60-73 | Two concrete files of which the second is read over a record of the first |
| LogGaps.SpreadStep | crates/core/src/log.rs:130-152 | One record more of a batch goes to the end of the active file while there is room and no rotation has happened, and after that under its own index |
| LogGaps.FillingIs | crates/core/src/log.rs:264-269 | The records that go to the active file are those written before it reached its limit |
| RaftLogs.ConcreteRange | crates/cluster/src/log_store.rs:169-181 | The half-open range contains exactly the indexes within the bounds, short of `u64::MAX` |
| RaftLogs.LogStore.constructor | crates/cluster/src/log_store.rs:40-53 | Opening applies the persisted floor again: the store holds exactly what is read back above it; if that is all entries without gaps between files it is consistent |
| RaftLogs.LogStore.Append | crates/cluster/src/log_store.rs:122-143 | It fails exactly on an entry too long for a frame; if the first record is placed where a reopen looks for it, exactly the entries are added under their indexes and durable when it answers; past a gap the files hold those that fit the active file counted from its end and the others under their own index |
| RaftLogs.LogStore.Truncate | crates/cluster/src/log_store.rs:145-152 | Exactly the entries from the id on are dropped; above the floor the store stays consistent, at or below it exactly the files named below the index stay, uncut |
| RaftLogs.LogStore.Purge | crates/cluster/src/log_store.rs:154-166 | The floor is in the metadata file and exactly the entries up to it are dropped; at every moment on the way either no file is deleted yet or the metadata file already has the floor |
| RaftLogs.PurgeMoments | crates/cluster/src/log_store.rs:154-166 | Each of those pairs is the old or the new metadata with the first files deleted, the old one only with none |
| RaftLogs.LogStore.GetLogState | crates/cluster/src/log_store.rs:74-93 | The last id is that of the highest entry, or the purged one without entries, and is never below the purged one; it fails exactly when the highest index is `u64::MAX` |
| RaftLogs.LogStore.TryGetLogEntries | crates/cluster/src/log_store.rs:57-68 | Returns exactly the stored entries within the bounds, in index order, short of `u64::MAX` |
| RaftLogs.LogStore.SaveVote | crates/cluster/src/log_store.rs:99-103 | The vote is in the metadata file, the rest of which is unchanged |
| RaftLogs.LogStore.SaveCommitted | crates/cluster/src/log_store.rs:109-116 | The committed id is in the metadata file, the rest of which is unchanged |
| RaftLogs.Reopen | crates/cluster/src/log_store.rs:40-53 | A store reopened from another's files holds exactly the same entries and metadata |
| RaftLogs.AppendThenReopen | crates/cluster/src/log_store.rs:122-143 | A batch appended past a gap and reopened: the entries that fitted the active file are found counted from the end of its records, above the floor, the others under their own index, and nothing else changed |
| RaftLogs.ReopenAfterCrash | crates/cluster/src/log_store.rs:40-53 | After a crash the store holds only entries it held, unchanged, and every durable one |
| RaftLogs.ReopenInsidePurge | crates/cluster/src/log_store.rs:154-166 | A store reopened from any pair of metadata file and directory a purge passes through, with any torn tail, holds only entries it held above the floor left, unchanged, and every durable one |
| Wals.Open | crates/core/src/wal.rs:15-26 | The entries come back decoded, in order, and are exactly those of the segments read back, gaps between files or not; the next index is where those end, torn tail or not |
| Wals.Wal.Write | crates/core/src/log.rs:117-152 | Gaps before it or not, if its number is above all others and its file does not begin below the end of the last one, the files hold exactly the image with the entry added, and all but the one frame is durable |
| Wals.Wal.Append | crates/core/src/wal.rs:28-31 | Under the same condition the files hold the image with the entry durably when it returns; an entry too long changes nothing |
| Wals.TornWrite | crates/core/src/log.rs:117-152 | Whatever a crash leaves of an unsynced frame, with its rotation, the record is read back if every byte is left and not at all otherwise |
| Wals.ReopenInsideAppend | crates/core/src/wal.rs:15-31 | A crash at any byte inside an append, gaps before it or not, reopens to the log with the whole entry if every byte is left, else to the log as it was, with at most an empty file for the same number |
| Wals.NewFileThenReread | crates/core/src/log.rs:112-152 | An append that begins a new file is read back after everything there was if and only if the file begins at or past the end of the last one |
| Wals.ImageUnique | crates/core/src/wal.rs:15-26 | The segments determine the image they decode to |
| Wals.Wal.Trim | crates/core/src/wal.rs:33-35 | No index entry at or below the floor is left; exactly the listed files go whose successor begins at most one above it, one by one; of the entries exactly those in the files left stay, those above the floor among them, and the next index stays; so it is after each deletion |
| Wals.EndIsNext | crates/core/src/log.rs:117-124 | Where the last segment ends is the log's next index, however much was purged |
| Wals.ImageTrimmed | crates/core/src/log.rs:217-238 | Purging whole segments keeps every entry above the floor in the image |
| Wals.TrimsBetween | crates/core/src/log.rs:217-238 | Every directory on the way holds an image with every entry above the floor |
| Wals.TrimmedKeeps | crates/core/src/log.rs:217-238 | An entry stays in the image if and only if a segment holds it whose file is left |
| Commands.FoldOwner | crates/core/src/catalog.rs:507-533 | A live collection carries the uuid, mapping and position of the create that made it |
| Commands.FoldKeeps | crates/core/src/catalog.rs:330-344 | Between drops a collection keeps its identity |
| Commands.FoldUntouched | crates/core/src/catalog.rs:544-579 | A document no command touches keeps its value |
| Commands.AbsentIff | crates/core/src/catalog.rs:507-542 | The fold lacks a name if and only if nothing creates it since a drop of it or since the beginning |
| Commands.LiveIff | crates/core/src/catalog.rs:507-542 | It has a collection with this uuid, mapping and position if and only if that is a create that found none, with no drop since |
| Commands.DocIff | crates/core/src/catalog.rs:544-579 | A document is there with this source if and only if the last command since the creation that touches it writes that source |
| Stores.InstallMatches | crates/core/src/catalog.rs:581-603 | Installing a collection under a fresh uuid keeps one directory per collection and no other directory |
| Stores.ApplyMatches | crates/core/src/catalog.rs:581-612 | Applying a command keeps one directory per collection and no other directory |
| Stores.ApplyPersists | crates/core/src/catalog.rs:507-542 | After every applied command `catalog.pb` lists exactly the live collections |
| Replays.ReadyStep | crates/core/src/catalog.rs:507-579 | One applied command keeps readiness for the rest of the log, in both directions |
| Replays.ReplayConvergesIff | crates/core/src/catalog.rs:330-344 | Replay over work already done ends in the fold of the log if and only if the starting store is ready |
| Replays.StuckIff | crates/core/src/catalog.rs:544-561 | The mapping a replayed document meets is that of the entry replay started with, or of the create it installed last |
| Replays.ReplayFailsIff | crates/core/src/catalog.rs:544-561 | For every log, replay fails if and only if a document command is met by a mapping it does not fit |
| Replays.FailsOnlyBeforeDrop | crates/core/src/catalog.rs:544-561 | From a ready store only a document of a collection dropped later can fail |
| StandaloneRecovery.RecoveryExactIff | crates/core/src/catalog.rs:120-136 | On every sound disk replaying the tail succeeds, and shows the fold of the durable commands if and only if the applied point has overtaken no document |
| StandaloneRecovery.RecoveryIsExact | crates/core/src/catalog.rs:58-136 | From every disk on which no document is overtaken, replaying the tail succeeds and shows exactly the fold of the durable commands |
| StandaloneRecovery.OpenKeeps | crates/core/src/catalog.rs:58-144 | After `open` the catalog is exact, its directories are those of its collections, and its disk recovers again |
| StandaloneRecovery.OpenSucceeds | crates/core/src/catalog.rs:58-144 | `open` never refuses a sound disk |
| StandaloneRecovery.OpenExactIff | crates/core/src/catalog.rs:58-144 | Whatever `open` makes of a sound disk shows the fold of the durable commands if and only if no document was overtaken |
| StandaloneRecovery.RestartableOpens | crates/core/src/catalog.rs:82-144 | On every disk a crash can leave, a crash inside an earlier `open` or one that forgot numbers among them, `open` succeeds with the counter at the highest number on disk, and is exact if and only if no document was overtaken |
| StandaloneRecovery.FallenKeeps | crates/core/src/catalog.rs:82-144 | If moreover no live collection is committed above that number, or there is a tail to replay, the opened catalog is consistent for every later write |
| RecoveryCrashes.ReplayMidway | crates/core/src/catalog.rs:120-136 | Between any two replayed entries, surviving collections have the directories they had, and `catalog.pb` lists the replayed store |
| RecoveryCrashes.CrashIsSound | crates/core/src/catalog.rs:120-136 | A crash inside recovery leaves a sound disk again, so recovery can be interrupted any number of times |
| RecoveryCrashes.InterruptedRecoveryIff | crates/core/src/catalog.rs:120-136 | After a crash between any two replayed entries the next `open` succeeds, and is exact if and only if no document was last changed between its directory's position and the last replayed create or drop that took effect |
| RecoveryCrashes.LastEffective | crates/core/src/catalog.rs:535-542 | The applied point such a crash leaves is that of the last replayed create or drop that took effect |
| RecoveryCrashes.CheckpointCrash | crates/core/src/catalog.rs:138-142 | A crash between the commits of recovery's closing checkpoint leaves a sound disk, and overtakes no document |
| RecoveryCrashes.CrashInOpenKeeps | crates/core/src/catalog.rs:58-144 | A crash anywhere inside `open`, between replayed entries or in the closing checkpoint, used-up numbers or not, leaves a disk that can be opened again |
| StandaloneRuns.AcceptedIsAdmitted | crates/core/src/catalog.rs:146-246 | The checks each write makes before logging are what makes the log well formed |
| StandaloneRuns.ExecuteIsApply | crates/core/src/catalog.rs:146-246 | Executing an accepted write and replaying it later do the same |
| StandaloneRuns.WriteKeeps | crates/core/src/catalog.rs:146-246 | A write, logged and executed, keeps the catalog exact and recoverable |
| StandaloneRuns.LoggedOk | crates/core/src/catalog.rs:162-171 | A command that is logged but not executed leaves a disk from which recovery is exact |
| StandaloneRuns.PersistKeeps | crates/core/src/catalog.rs:477-488 | Writing `catalog.pb` after every commit keeps recovery exact |
| StandaloneRuns.TrimKeeps | crates/core/src/catalog.rs:485-487 | Trimming the log at the persisted point keeps recovery exact |
| StandaloneRuns.SkipKeeps | crates/core/src/catalog.rs:683-685 | A used-up number keeps the catalog exact and recoverable |
| StandaloneRuns.EveryRunRecovers | crates/core/src/catalog.rs:58-246 | In every run of writes, checkpoint steps, torn, logged-only and oversized writes, crashes, crashes inside `open` and opens, the catalog shows exactly its durable commands, and every open succeeds, if no crash overtakes a document or forgets a number a collection is committed at without leaving a tail, and no append begins a file below the end of the last one; without oversized commands only the first can happen |
| StandaloneRuns.NumberedStep | crates/core/src/catalog.rs:82-105 | Every step that begins no file below the end of the last one keeps the log's entries under their numbers, none above the applied point missing, and the counter at the highest number |
| StandaloneRuns.CommandsStay | crates/core/src/catalog.rs:146-246 | In every run whose appends begin no file below the end of the last one, a durable command is never lost and keeps its number |
| StandaloneRuns.EveryAppendContiguousIff | crates/core/src/catalog.rs:683-685 | In every such run a sequence number is the log's next index if and only if the numbers used up since the last file was begun are as many as crashes have handed back since; it is above every number in the log |
| StandaloneRuns.EveryAppendContiguous | crates/core/src/catalog.rs:683-685 | In every run without oversized commands each sequence number is the log's next index |
| StandaloneRuns.EveryTrimSafe | crates/core/src/catalog.rs:477-488 | At every point of every such run the log holds every command above the persisted applied point, under its number |
| CrashOutcomes.CrashRestartable | crates/core/src/catalog.rs:58-144 | Whatever crash ends a run that recovered so far leaves a disk that can be opened again |
| CrashOutcomes.RecoversIff | crates/core/src/catalog.rs:82-144 | From such a disk every further run recovers if and only if no document is overtaken, and no live collection is committed above the highest number on disk or there is a tail to replay |
| CrashOutcomes.ForgetfulRun | crates/core/src/catalog.rs:82-144 | Otherwise, with nothing overtaken: open, write a document, crash and open is a run that loses the document |
| Catalogs.Catalog.LogNext | crates/core/src/catalog.rs:683-685 | The command is durable under the next number, if no file begins below the end of the last one; one too long still uses up its number and nothing else, which leaves a gap exactly when the log has a file |
| Catalogs.Catalog.BeginLog | crates/core/src/catalog.rs:683-685 | Up to the sync, everything but the frame of the command is durable and nothing else has changed |
| Catalogs.Catalog.Create | crates/core/src/catalog.rs:146-181 | Same mapping: no effect; other mapping: conflict; else the logged and executed write of the run model, the directory made only when the command is in the log |
| Catalogs.Catalog.DropCollection | crates/core/src/catalog.rs:183-200 | Missing: error and no effect; else the logged and executed write of the run model, the directory removed only when the command is in the log |
| Catalogs.Catalog.UpsertDocument | crates/core/src/catalog.rs:202-226 | Every rejected document leaves the catalog as it was; every accepted one is logged and buffered, and building it cannot fail |
| Catalogs.Catalog.DeleteDocument | crates/core/src/catalog.rs:234-246 | Missing collection: error and no effect; else the logged and executed write of the run model |
| Catalogs.Catalog.Checkpoint | crates/core/src/catalog.rs:477-488 | Gaps in the log or not, every collection is committed at the high-water mark, `catalog.pb` lists them, and only then the log is trimmed through it: no index entry there is left, superseded files are gone, and so are the entries only they held; from a consistent catalog, recovery is exact from every disk on the way, between commits and between deletions too |
| Catalogs.CommitsSafe | crates/core/src/catalog.rs:663-671 | From a consistent catalog, recovery is exact from the disk after each commit of the loop |
| Catalogs.PersistSafe | crates/core/src/catalog.rs:663-671 | And from the disk with the new `catalog.pb`, which is the last one |
| Catalogs.TrimSafe | crates/core/src/catalog.rs:477-488 | And from every disk whose log directory holds what a trim may leave |
| Catalogs.Catalog.CommitAll | crates/core/src/catalog.rs:663-671 | Every collection's buffer is committed at the mark, one by one, no other directory changes, and `catalog.pb` is rewritten after all of them |
| Catalogs.Catalog.CommitCollection | crates/core/src/catalog.rs:371-382 | The collection is committed exactly when it is behind the mark; its directory is then its buffer with the whole mark, term and node included, and no other directory changes |
| Catalogs.Catalog.Apply | crates/core/src/catalog.rs:330-344 | The catalog becomes what applying the command says, or fails exactly when that fails; only effective DDL rewrites `catalog.pb`, after the directory is made or removed |
| Catalogs.MinCommittedMark | crates/core/src/catalog.rs:350-361 | The whole mark, term and node included, that some collection none is committed below was last committed with, none exactly without collections |
| Catalogs.Catalog.SweepOrphans | crates/core/src/catalog.rs:640-648 | Exactly the directories owned by live collections stay, unchanged; on the way only others go |
| Catalogs.CommittedAll | crates/core/src/catalog.rs:663-671 | With one uuid per collection, the commit loop is the checkpoint the recovery theorem speaks of |
| CatalogRecovery.DroppedInTailOf | crates/core/src/catalog.rs:67-80 | Exactly the names a tail entry drops |
| CatalogRecovery.LoadEntries | crates/core/src/catalog.rs:82-111 | Loads exactly the listed collections that are not dropped; fails exactly when one has no directory |
| CatalogRecovery.TopSeq | crates/core/src/catalog.rs:82-105 | The largest number in the log, in `catalog.pb` or of a loaded collection |
| CatalogRecovery.ReplayTail | crates/core/src/catalog.rs:120-136 | Applying the entries above the applied point, in order, is replaying the log's tail, errors included |
| CatalogRecovery.Open | crates/core/src/catalog.rs:58-144 | On every disk a crash can leave, gaps in its log or not, a crash inside an earlier `open` among them, a catalog is returned, exact if and only if no document was overtaken; it is consistent for the next write unless a forgotten number has a commit and nothing was replayed. With a tail every collection is then committed at the highest number, `catalog.pb` lists them there and the log is trimmed through it; without one directories, `catalog.pb` and log are those found, orphans aside |
| CatalogRecovery.Restart | crates/core/src/catalog.rs:58-144 | From the bytes a crash leaves of a running catalog, gaps in its log or not, opening again gives a catalog that shows exactly the same durable commands, with used-up numbers above them forgotten; it is consistent for the next write if none of those has a commit or there is a tail; with a tail everything is committed and the log trimmed, without one the disk is as found |
| CatalogRecovery.RestartInsideLog | crates/core/src/catalog.rs:683-685 | From the bytes a crash at any point inside the logging of a command leaves, gaps before it or not, opening again shows the commands with this one if every byte of its frame is left, and without it otherwise; what it leaves on disk is stated as for `Restart` |
| ClusterNodes.CaughtUpIsSettled | crates/core/src/catalog.rs:544-579 | Documents each as of some command prefix that reaches the mark are what overlapping replay needs |
| ClusterNodes.ApplyKeeps | crates/core/src/catalog.rs:330-344 | Applying the next entry, replayed or new, keeps the node invariant |
| ClusterNodes.CommitKeeps | crates/core/src/catalog.rs:363-382 | A commit at any mark up to the applied one, even a lower one than before, keeps the node invariant |
| ClusterRuns.RestartConvergesIff | crates/cluster/src/state_machine.rs:70-136 | A restart at any moment ends in the fold of the log if and only if the persisted catalog covers the log up to the reported point |
| ClusterRuns.RestartConverges | crates/cluster/src/state_machine.rs:70-136 | A node restarted outside replay converges to the fold of the log, dropped and recreated names included |
| ClusterRuns.ReopenPossible | crates/core/src/catalog.rs:82-111 | `open` never refuses a node's disk for want of a directory |
| ClusterRuns.RestartStrayIff | crates/cluster/src/cluster.rs:249-273 | Over any log, also with document commands committed after their collection was dropped, a successful restart converges if and only if no surviving collection has a document whose last command above the mark is a stray index |
| ClusterRuns.RestartFailsIff | crates/core/src/catalog.rs:544-561 | For every log, a restart fails if and only if a replayed document is met by a mapping it does not fit |
| ClusterRuns.SnapshotEquivalence | crates/cluster/src/state_machine.rs:149-225 | Installing an archive and applying the log above its last id, if that succeeds, gives the fold of the whole log, also without collections |
| ClusterRuns.SnapshotFailsIff | crates/cluster/src/state_machine.rs:149-225 | Applying the log above an installed archive fails if and only if a document is met by a mapping it does not fit |
| ClusterRuns.SafeAppliedPoint | crates/core/src/catalog.rs:346-361 | Every collection's committed contents reflect all its commands up to the reported point |
| ClusterRuns.LinearizableGet | crates/cluster/src/cluster.rs:284-308 | After the commit at an applied mark, every id's searchable value is at least as new as that mark, and the collection's mark has not gone back; if it was behind, its directory is exactly its buffer with the whole mark |
| ClusterRuns.EveryRunConverges | crates/cluster/src/state_machine.rs:93-136 | In every run of every cluster whose restarts and snapshots happen where the persisted catalog covers the log up to the reported point, a node that is not replaying shows exactly the fold of what it applied |
| ClusterRuns.EveryRunReadsSafely | crates/cluster/src/cluster.rs:284-308 | In every such run the reported point is safe and reads at an applied mark are current |
| StateMachines.StateMachine.Apply | crates/cluster/src/state_machine.rs:93-136 | The loop over the entries is the replay of that stretch of the log, errors included, and what precedes a failing entry stays applied; `catalog.pb` stays in step; the last applied mark is that of the last entry reached, the failing one included; the membership, in memory and on disk, is that of the last membership entry reached, or the old one |
| StateMachines.StateMachine.AppliedState | crates/cluster/src/state_machine.rs:62-91 | With collections the whole mark, term and node included, that some collection none is committed below was last committed with; without, the last applied one; and the membership in force |
| StateMachines.StateMachine.constructor | crates/cluster/src/state_machine.rs:42-56 | A restarted node has the membership its file holds, and has applied nothing |
| StateMachines.StateMachine.InstallSnapshot | crates/core/src/catalog.rs:430-470 | The catalog is exactly the archive's, whatever was there before, with the counter at the largest number the archive mentions; applied mark and membership are the snapshot's, the membership on disk too; on the way the directories are moved in one by one under the old `catalog.pb`, then comes the new one, and then orphans go |
| StateMachines.MoveIn | crates/core/src/catalog.rs:446-458 | Each listed directory is moved in, an old one of its name aside first; the disks passed through are exactly those after each rename, under the old `catalog.pb` |
| StateMachines.InstallCrashIff | crates/core/src/catalog.rs:430-470 | From every disk an install passes through the whole old or the whole new catalog is opened if and only if the two have no directory in common |
| Installs.InstallAtomicIff | crates/core/src/catalog.rs:424-470 | A crash at any rename leaves the whole old or the whole new catalog if and only if they have no directory in common |
| Installs.RenamedIsNew | crates/core/src/catalog.rs:459-464 | After the rename of `catalog.pb` the new catalog is whole, whatever was shared |
| Installs.SharedIsLost | crates/core/src/catalog.rs:446-458 | With a shared directory some crash point leaves a catalog that cannot be opened |
| Installs.SharesIff | crates/core/src/catalog.rs:446-458 | Two replicas have a directory in common if and only if they have a collection made by the same create |
| Installs.ReplicaInstallIff | crates/core/src/catalog.rs:424-470 | Installing one replica's archive on another survives a crash at every rename if and only if they have no collection in common |
| Installs.CaughtUpReplicasShare | crates/core/src/catalog.rs:424-470 | Replicas that applied all they saw share every collection not dropped between their positions |
| Ddl.EveryCreateInstalls | crates/cluster/src/cluster.rs:223-247 | So in every interleaving in which no caller leaves a pending command, every create reported created installed its own mapping at its own log position |
| Ddl.CreatesNeedDrop | crates/cluster/src/cluster.rs:88-91 | In every interleaving, whoever leaves: if two different creates of a name are both reported created, and the whole log was without it when the later one was admitted, a drop of it was committed between them |
| Ddl.StepKeeps | crates/cluster/src/cluster.rs:223-280 | Every step of every call, and every foreign document command, keeps the lock with the one call between its admission and its answer, and free without one |
| Ddl.LockComesFree | crates/cluster/src/cluster.rs:223-280 | In every run, whoever leaves, a waiting call can take the lock if and only if no other call is in progress |
| Ddl.SinceStep | crates/cluster/src/cluster.rs:223-280 | Between the admission of a call and its proposal no other call's command enters the log, whoever leaves |
| Ddl.CreatedIff | crates/cluster/src/cluster.rs:223-247 | In every interleaving, whoever leaves and when, a create reported created is applied by then, and installed its own mapping at its own log position if and only if the whole log had no such collection when it was admitted |
| Ddl.DroppedIff | crates/cluster/src/cluster.rs:274-280 | A drop reported dropped is applied by then, and removed the collection if and only if the whole log had it when the drop was admitted; either way it is absent then |
| Ddl.RefusedIff | crates/core/src/catalog.rs:249-267 | In every run a create is answered existing if and only if the applied catalog had the name with the same mapping at its admission, conflicting if and only if with another; a drop is answered missing if and only if the catalog did not have the name |
| Ddl.RefusedAddsNothing | crates/cluster/src/cluster.rs:223-247 | A call that is refused proposes nothing at any time of the run |
| Ddl.LeaveKeepsIff | crates/cluster/src/cluster.rs:228-240 | A cancelled call leaves every pending DDL command with the lock's holder if and only if its own command is not in the log and unapplied |
| Ddl.LockNeeded | crates/cluster/src/cluster.rs:88-91 | Without the lock there is a run in which two conflicting creates are both reported created |
| Ddl.PatienceNeeded | crates/cluster/src/cluster.rs:228-240 | With the lock, a run in which a caller leaves its pending create and a conflicting create is reported created without being installed |
| Findings.CheckpointedOnceOk | crates/core/src/catalog.rs:58-144 | The disk of the next case is one a crash can leave |
| Findings.InterruptedRecoveryLosesDocument | crates/core/src/catalog.rs:507-542 | From that disk, a concrete crash inside `open`, whatever listing was written, after which an acknowledged document is gone |
| Findings.OversizedLeavesGap | crates/core/src/catalog.rs:683-685 | A concrete state of a run from which an oversized command makes the next append land past a gap |
| Findings.UsedUpNumberLosesDocument | crates/core/src/catalog.rs:683-685 | A concrete run in which a document given a forgotten number again is logged, acknowledged and gone after the next recovery |
| Findings.RotationLosesCommand | crates/core/src/log.rs:60-73 | A concrete run, with a used-up number and a torn rotation, in which a rotation displaces the record of an acknowledged document; every later open is without it |
| ClusterFindings.RestartCanFail | crates/core/src/catalog.rs:544-561 | A concrete consistent node whose every restart fails, and changes nothing on disk |
| ClusterFindings.OverruledCreateStopsRestart | crates/core/src/catalog.rs:544-561 | A concrete consistent node whose restart installs a create the log had overruled, and fails |
| ClusterFindings.MidReplayCrashLosesCollection | crates/core/src/catalog.rs:535-542 | A concrete consistent node and a crash inside its replay, after which the next restart replays nothing and lacks a collection |
| ClusterFindings.StrayDocumentReappears | crates/cluster/src/cluster.rs:249-266 | A concrete consistent node whose log has a document of a dropped collection, which lands in the new one on restart |
| ClusterFindings.InstallCrashLosesCatalog | crates/core/src/catalog.rs:446-458 | Two replicas in one state, and a crash inside the install of one's archive on the other that leaves a catalog that cannot be opened |
| Mappings.New | crates/core/src/mapping.rs:53-58 | A mapping is accepted exactly when no field has an empty or reserved name or is text and fast; the error is one some field has |
| Mappings.ToSchema | crates/core/src/mapping.rs:64-110 | The schema has the two system columns and one column per field that is indexed or fast, of its type, indexed and fast exactly as the field asks; only keywords are kept whole |
| Mappings.DecodesIff | crates/core/src/mapping.rs:273-296 | A wire list decodes exactly when its type codes are 1 to 5 and its names distinct, and to the mapping it spells out: text for 1, keyword for 2, i64 for 3, f64 for 4, date for 5, with both flags |
| Mappings.EncodesIff | crates/core/src/mapping.rs:229-268 | The encoder writes the one message under a name that tells the field's type code and flags |
| Mappings.FirstFault | crates/core/src/mapping.rs:273-296 | Otherwise the error is that of the first field at fault: unspecified for code 0, unknown for any other code, else a duplicate name |
| Mappings.FromProto | crates/core/src/mapping.rs:273-296 | A field error wins; otherwise the mapping spelled out, with the type each code names and both flags, is accepted exactly when it is valid, with an error some field has |
| Mappings.ProtoRoundTrip | crates/core/src/mapping.rs:256-296 | Every valid mapping survives its wire form unchanged, in whatever order its fields are written |
| Documents.ValidateDocument | crates/core/src/mapping.rs:112-130 | A document is accepted exactly when nothing can be held against it: it is an object, every field is mapped and of the mapped type; errors name the culprit |
| Documents.BuildDoc | crates/core/src/document.rs:10-60 | Building succeeds exactly when every field that is indexed or fast converts; the document then holds the id, the source bytes and, once each, the string, integer, number or instant each such field denotes, and nothing else; errors name a real cause |
| Documents.ConvertsIff | crates/core/src/document.rs:42-61 | The converter yields exactly the string, the integer in 64 bits, the number or the instant a value denotes, and yields it whenever there is one |
| Documents.MatchesIffConverts | crates/core/src/mapping.rs:159-168 | The validator's type test and the builder's conversion agree on every value and type |
| Documents.ValidatedBuilds | crates/core/src/document.rs:10-60 | Every validated document of a valid mapping builds |

## Left out

- HTTP, gRPC, the command line, metrics and the mapping of errors to status codes.
- Raft itself: elections, quorums and replication. One committed log is taken as given. That its document commands name a live collection with a mapping they fit is an assumption of the statements about cluster runs: their check is not atomic with their commit.
- Tantivy's segments, queries, ranking and merges, and tar, JSON and protobuf syntax.
- The textual rules for collection names and the syntax of uuids.
- The `created` flag of document writes, which the source calls best-effort.
- Disk errors other than an oversized record, the durability of directory entries of new files, and collisions in the quarantine directory.
- A crash between the deletions of a multi-segment truncation.
- Races the locks do not exclude: looking up a collection before taking the write-ahead log's lock, a commit while a snapshot is built, a checkpoint writing `catalog.pb` while a create does.
- A crash between removing a directory and rewriting `catalog.pb` in an applied drop, and halfway through creating a directory.
- Collections as objects of their own: a collection's buffer, committed documents and mark are values in the fields of the catalog that the catalog's methods reassign, so aliasing of one collection handle by several threads is not modelled.
- SegmentedLogs.SegmentedLog.Append: for a record that is not placed where a reopen looks for it, files and immediate reads are stated, but not that files and index agree, because they do not; `LogRecovery.AppendThenReopen` and `LogRecovery.NewFileThenReopen` say what a reopen finds.
- SegmentedLogs.SegmentedLog.PurgeThrough: with a gap after it, a file whose records are all purged is no longer listed but stays on disk until a reopen lists it again; the contract speaks of the files listed.
- SegmentedLogs.SegmentedLog.TruncateFrom: at or below the purge floor the segment that holds the index is not found and not cut, so the index and the files no longer agree.
- RaftLogs.LogStore.Append: past a gap the map is not stated to be that of the files, because it is not; `RaftLogs.AppendThenReopen` says what a reopen finds, for batches that begin at or past the end of the last file.
- RaftLogs.LogStore.TryGetLogEntries: an entry at index `u64::MAX` is not returned, because the source's range saturates there.
- Mappings.New: with several faults the source reports that of the least name; which one is reported is left open.
- Wals.Open: for directories that hold entries under increasing numbers in files that claim no index twice, with at most the last file cut short.
- Wals.Wal.Append: for a file that begins below the end of the last one the image is not stated; `Wals.NewFileThenReread` says that an entry is then displaced or out of order.
- CatalogRecovery.Restart: the catalog that comes back is not promised to be consistent for the next write when a live collection is committed above the highest number on disk and there is no tail; `CrashOutcomes.RecoversIff` shows that a later run then loses a document.
- RecoveryCrashes.CheckpointCrash: for a replay that lost nothing; after an earlier loss the closing checkpoint makes the loss permanent.
- ClusterRuns.EveryRunConverges: for runs whose restarts and snapshots happen where the persisted catalog covers the log up to the reported point, which `ClusterRuns.RestartConvergesIff` shows to be needed, and for logs whose document commands name a live collection with a mapping they fit; `ClusterRuns.RestartStrayIff` says what other document commands do to a restart.
