# DucklingDB in Dafny

A model of the hard core of DucklingDB and proofs about it. `dafny verify dfyconfig.toml` checks everything.

The system is a replicated key-value store in layers, and the model follows them.

* **LSM engine** (`MemTable`, `MergeIterator`, `LsmLog`, `LsmDisk`, `LsmCrash`, `Compaction`, `LsmEngine`,
  `LsmTables`, `Wal`, `Bloom`, `SSTable`). A skip list on the heap, a write-ahead log, immutable tables in levels, and
  a two-slot metadata file refine one finite map. The log is its bytes, cut at any of them; the engine object performs
  the steps of the crash model, so what is proved of every run with crashes and reopens anywhere holds of it.
* **Clocks** (`Hlc`). Hybrid logical clocks on 64- and 32-bit integers with wrap-around.
* **Multi-version storage** (`MvccKey`, `Engine`, `Mvcc`, `MvccScan`, `Histories`, `MvccWrite`, `MvccPush`, `MvccGc`,
  `MvccStore`, `MvccRuns`). Metadata, versions and write intents encoded as ordered byte keys refine, per key, a set
  of committed versions and at most one intent. `Engine` is the sorted-map view of the LSM engine that this layer
  uses.
* **Raft** (`RaftTypes`, `RaftStorage`, `RaftLogs`, `RaftNode`, `RaftMessages`, `RaftRawNode`, `RaftElection`,
  `RaftAcks`, `RaftTwoLeaders`, `RaftProgress`, `RaftReady`, `RaftReplica`). Node transitions as functions of a value,
  an object that carries them out, and groups of nodes as state machines over arbitrary message delivery.

`Bytes` and `Records` hold byte strings, their order and integer layouts, and sorted runs of records.

Where an object is updated in place, the model is a class whose methods are proved against functions of its state and
carry the guarantees proved of those functions. Clock readings, tower heights, hash values, checksum tables, election
timeouts, message delivery and crash points are parameters, so every result holds for all of them.

Some promises do not hold of the code as written. Each has a lemma showing it fail and the exact condition under which
it holds:

* An acknowledged write survives a crash exactly when it was not appended behind a torn log tail and fits its lengths
  (`LsmCrash.TornTailLosesWrites`, `LsmCrash.WriteSurvivesExactly`, `LsmCrash.CrashSafety`).
* The compaction loop ends exactly when the threshold of level 1 is at least 2 (`Compaction.LoopStopsExactlyWhen`).
* A term has one leader as long as no forgotten vote is asked for again and no stale grant is counted: becoming a
  follower of the same term clears the vote, and vote responses are not compared with the term. Either alone gives a
  term two leaders (`RaftTwoLeaders.TwoLeadersByForgottenVote`, `RaftTwoLeaders.TwoLeadersByStaleGrant`,
  `RaftElection.ElectionSafety`, `RaftElection.SecondGrant`, `RaftElection.VoteForgotten`).
* A node applies the entries its log holds exactly when none of them is replaced in the cycle that commits it: the
  committed entries are read before the new ones are persisted (`RaftReady.ReplacedEntryApplied`,
  `RaftReady.HandsOutLogExactly`).
* Readers see only committed versions unless an intent is rewritten at another timestamp
  (`MvccRuns.MovedRewriteCommits`, `MvccWrite.RewriteExactly`, `MvccRuns.RunReads`).
* Garbage collection keeps the reads at and above its threshold only where no newer version and no intent exists
  (`Histories.CollectLosesReads`, `Histories.CollectReads`, `Histories.CollectThenAbort`).
* A deletion is documented as a put without a value, which it is exactly where no inline value is in place
  (`MvccWrite.DeletionIsPutExactly`); an aborted intent loses one (`MvccRuns.AbortRestores`), and an empty one is not
  read back (`MvccWrite.InlineRoundTrip`).
* A crash inside a push is documented as cleaned up by the next resolve. Behind the first of its three writes that
  holds exactly for a commit at the pushed timestamp; behind the second no resolve cleans up, and an abort names the
  wrong version (`MvccPush.CommitHalfPushed`, `MvccPush.CommitMoved`, `MvccPush.AbortAfterCrash`).
* A read finds its version exactly when no key inside or around this one has an entry on the way. Otherwise it finds
  nothing, or returns another key's metadata as a value, exactly when the first entry on the way is the metadata of a
  key spelling a version key (`Mvcc.NestedKeyHides`, `Mvcc.MimicGarbles`, `Mvcc.ReadExactly`, `Mvcc.ReadNothing`,
  `Mvcc.MetaIsVersionKey`).
* Keys whose twelfth byte from the end is zero are skipped by scans and by garbage collection
  (`MvccKey.DecodeMetaExactly`, `MvccScan.Scan`, `MvccGc.PassRefines`).

## Model

| member | source | states |
|---|---|---|
| MemTable.MemTable.constructor | internal/storage/lsm/memtable.go:42-52 | an empty table: a well-formed skip list holding the empty map |
| MemTable.MemTable.FindPath | internal/storage/lsm/memtable.go:87-102 | on every level the last node below the key, and the node of the key exactly when it is present |
| MemTable.MemTable.InsertNode | internal/storage/lsm/memtable.go:123-157 | splices a tower of any height in at its place on every level: sorted level 0, every level a sublist of the one below, backward pointers inverse to forward ones, tail and length exact |
| MemTable.MemTable.WireForward | internal/storage/lsm/memtable.go:132-138 | each spliced level points where its predecessor pointed, and only the predecessors change |
| MemTable.MemTable.LinkBackward | internal/storage/lsm/memtable.go:139-157 | backward pointers of the enlarged list invert the forward ones; tail is the last node, length the number of entries |
| MemTable.MemTable.Put | internal/storage/lsm/memtable.go:171-191 | the contents become the old map with the key live at the value; the exact change of the size counter against the true footprint, which it over-counts by the key when a tombstone is revived |
| MemTable.MemTable.Delete | internal/storage/lsm/memtable.go:213-233 | the contents become the old map with the key a tombstone; the size counter keeps its distance to the true footprint |
| MemTable.MemTable.Get | internal/storage/lsm/memtable.go:198-207 | finds exactly the latest write: live value, tombstone or nothing |
| MemTable.MemTable.SeekNode | internal/storage/lsm/memtable.go:273-281 | the first node at or above the key, descending level by level |
| MemTable.MemTable.Snapshot | internal/storage/lsm/memtable.go:352-362 | the entries in key order, one per key, denoting exactly the contents |
| MergeIterator.Cursor.Seek | internal/storage/lsm/sstable_reader.go:248-270 | binary search lands on the first record at or above the key |
| MergeIterator.MergeIterator.PickWinner | internal/storage/lsm/iterator.go:32-51 | the winner is the least current key, the lowest-index source on ties |
| MergeIterator.MergeIterator.Seek | internal/storage/lsm/iterator.go:53-60 | every source stands at its first record at or above the key and the winner is least |
| MergeIterator.MergeIterator.Next | internal/storage/lsm/iterator.go:62-76 | all sources step past the current key, so every source stands above it; on an exhausted iterator nothing moves and the answer is false |
| MergeIterator.MergeIterator.WinnerIsNext | internal/storage/lsm/iterator.go:32-76 | the winner is the next key of the merged map with the record of the lowest-index source holding it; no winner exactly when nothing is left |
| MergeIterator.MergeIterator.Drain | internal/storage/lsm/iterator.go:53-76 | Seek and Next until invalid enumerate the merged map from the start key: strictly sorted, complete, nothing else |
| MergeIterator.DeletedFilterIterator.Seek | internal/storage/lsm/iterator.go:130-140 | skipping tombstones loses no live key |
| MergeIterator.DeletedFilterIterator.Next | internal/storage/lsm/iterator.go:142-150 | moves to the next live key of the merged map and says whether there is one; on an exhausted iterator nothing moves |
| MergeIterator.DeletedFilterIterator.CurrentIsNextLive | internal/storage/lsm/iterator.go:116-150 | the current record is the least live key remaining |
| MergeIterator.DeletedFilterIterator.Drain | internal/storage/lsm/iterator.go:130-150 | enumerates exactly the live part of the merged map, in order |
| LsmDisk.LoadIsLastSaved | internal/storage/lsm/metadata.go:45-79 | after any mix of complete and torn saves, Load returns the last completely saved levels and neither files nor log change |
| LsmDisk.CompactionSplits | internal/storage/lsm/compaction.go:172-256 | compacting a level replaces a consecutive stretch of the flattened level stack by the output; when the target is the bottom level nothing lies deeper |
| LsmDisk.CompactionPreservesReads | internal/storage/lsm/compaction.go:172-247 | replacing the inputs by the merged output preserves every read over the whole stack, tombstones stripped at the bottom level included; elsewhere even the tombstones |
| LsmDisk.BottomKeepsNoTombstones | internal/storage/lsm/compaction.go:209-247 | merging into the deepest level that holds anything leaves no deletion markers |
| LsmDisk.FlushSwitch | internal/storage/lsm/compaction.go:72-96 | the metadata switch of a flush adds the new table on top of all others, all named files readable and distinct |
| LsmDisk.CompactionSwitch | internal/storage/lsm/compaction.go:223-230 | the metadata switch of a compaction keeps every visible value and names no input any more |
| LsmLog.ReadUpTo | internal/storage/lsm/wal.go:46-66 | a log of complete records followed by anything that does not decode is read back to exactly those records |
| LsmLog.ReadCut | internal/storage/lsm/wal.go:46-66 | cutting the last record anywhere, the bytes of the log read back to all records before it |
| LsmCrash.ReadsAppended | internal/storage/lsm/wal.go:46-66 | as long as nothing was appended behind a cut, replaying the bytes of the log yields exactly the records appended, and recovery the tables under them |
| LsmCrash.StepKeepsInv | internal/storage/lsm/lsm.go:50-275 | every disk step of Put, Delete, flush and compaction, an append cut at any byte, a torn metadata save, a crash and a reopen keep the invariant that tables and log bytes hold the acknowledged writes, or those and the one in flight |
| LsmCrash.RunKeepsInv | internal/storage/lsm/lsm.go:50-275 | so does every run |
| LsmCrash.CrashSafety | internal/storage/lsm/lsm.go:50-117 | in every reachable state the named tables are readable and the served map is the acknowledged writes; the writes promised to callers, kept across reopens, are all still there, and recovery from the bytes on disk yields them or them plus the write in flight, unless a log was reopened with bytes behind a cut |
| LsmCrash.WriteSurvivesExactly | internal/storage/lsm/lsm.go:89-117 | a write that is appended, acknowledged and followed by a crash is recovered if and only if the log did not end in a cut and the record fits its 32-bit lengths, or the write changed nothing, for bytes behind a cut that do not pass for an entry |
| LsmCrash.TornTailLosesWrites | internal/storage/lsm/lsm.go:89-102 | for every checksum: an append cut after its header, a reopen, and a shorter acknowledged write lose that write at the next crash; the bytes of the log are given, their replay is empty, and so is the recovered map |
| LsmTables.TablesReadBack | internal/storage/lsm/sstable_writer.go:43-117 | in every run whose records fit 32-bit lengths, with crashes and reopens on any log bytes, the bytes written for each table stand for exactly the records the crash model takes it for |
| Compaction.LevelThreshold | internal/storage/lsm/compaction.go:152-158 | the loop computes the level's file threshold: truncated product of the level-0 threshold and powers of the growth factor |
| Compaction.WholeGrowth | internal/storage/lsm/compaction.go:152-158 | with a whole growth factor the threshold of a level is that of level 0 times a power of the factor |
| Compaction.FirstOverThreshold | internal/storage/lsm/compaction.go:141-148 | the first level over its threshold, or -1 when none is |
| Compaction.RoundProgress | internal/storage/lsm/compaction.go:101-122 | a compaction round lowers the number of files, or keeps it and lowers that of level 0, and keeps the termination condition |
| Compaction.LoopStopsExactlyWhen | internal/storage/lsm/compaction.go:101-158 | from a reachable shape with level 0 over its threshold, the compaction loop ends if and only if the threshold of level 1 is at least 2; then one round settles it |
| Compaction.StuckRounds | internal/storage/lsm/compaction.go:101-158 | with a level-1 threshold of at most 1 a non-empty stack is over its threshold after every number of rounds |
| Compaction.SettledBound | internal/storage/lsm/compaction.go:101-158 | a settled stack of reachable shape holds at most as many tables as the level-0 threshold |
| Compaction.CompactedShape | internal/storage/lsm/compaction.go:223-226 | compacting level 0 of a reachable shape leaves exactly one table, at level 1 |
| LsmEngine.TableGet | internal/storage/lsm/sstable_reader.go:175-206 | binary search equals linear lookup in a sorted table |
| LsmEngine.LSMEngine.constructor | internal/storage/lsm/lsm.go:50-105 | opening on any directory a crash may leave, the end of the log torn or not, is the reopen step of the crash model and serves exactly what recovery yields from the bytes, with the documented defaults for options not given |
| LsmEngine.LSMEngine.Get | internal/storage/lsm/lsm.go:119-165 | memtable first, then tables newest to oldest: the value in the contents, or nothing |
| LsmEngine.LSMEngine.Put | internal/storage/lsm/lsm.go:107-117 | the contents become the old map with the key at the value, and every disk write on the way, flush and compaction included, is an enabled step of the crash model |
| LsmEngine.LSMEngine.Delete | internal/storage/lsm/lsm.go:167-177 | the contents become the old map without the key, again by enabled steps of the crash model |
| LsmEngine.LSMEngine.CrashNow | internal/storage/lsm/lsm.go:50-117 | between calls the bytes on disk recover to the contents, as long as nothing was appended behind a cut |
| LsmEngine.LSMEngine.ReopensAnywhere | internal/storage/lsm/lsm.go:50-275 | a crash at any disk step of any call, torn or complete, leaves a directory with levels the constructor opens |
| LsmEngine.LSMEngine.BufferPut | internal/storage/lsm/lsm.go:107-117 | log and memtable gain the write, which is then in flight, by two enabled crash-model steps |
| LsmEngine.LSMEngine.Scan | internal/storage/lsm/lsm.go:289-324 | iteration from a start key yields exactly the contents at or above it, sorted, so iteration and Get agree |
| LsmEngine.ScanBeginsAtCeiling | internal/storage/lsm/lsm.go:289-324 | seeking in an engine iterator lands on the least key of the contents at or above the target |
| LsmEngine.LSMEngine.FlushMemTable | internal/storage/lsm/compaction.go:72-96 | the new level-0 table overlays the memtable on the tables |
| LsmEngine.LSMEngine.FlushActiveMemTableLocked | internal/storage/lsm/lsm.go:215-244 | a flush keeps the contents, empties the log and leaves at most level-0-threshold tables |
| LsmEngine.LSMEngine.StartOver | internal/storage/lsm/lsm.go:226-238 | an empty log and a fresh memtable, with the acknowledged and in-flight writes kept |
| LsmEngine.LSMEngine.MaybeFlushLocked | internal/storage/lsm/lsm.go:208-213 | flushes exactly when the size counter has reached the threshold: then the log is empty and the tables within their bound, otherwise nothing on disk changes; the write is acknowledged either way |
| LsmEngine.LSMEngine.CompactLevelLocked | internal/storage/lsm/compaction.go:172-237 | merges two levels into one table, keeps every visible value, and puts the output where the metadata says |
| LsmEngine.LSMEngine.WriteMerged | internal/storage/lsm/compaction.go:199-221 | writing the merged table is an enabled crash-model step that changes no level and no log byte |
| LsmEngine.LSMEngine.SwitchLevels | internal/storage/lsm/compaction.go:223-230 | the metadata switch is an enabled crash-model step after which the levels name the merged table for its inputs |
| LsmEngine.LSMEngine.MergeFiles | internal/storage/lsm/compaction.go:190-221 | the merged run is sorted and denotes the overlay of the inputs, live entries only at the bottom |
| LsmEngine.LSMEngine.RemoveFiles | internal/storage/lsm/compaction.go:232-235 | deleting unnamed files changes nothing that is read |
| LsmEngine.LSMEngine.MaybeTriggerCompaction | internal/storage/lsm/compaction.go:101-122 | the loop terminates with every level within its threshold and every visible value kept; each deeper level keeps at most one table |
| LsmEngine.LSMEngine.ReloadLevels | internal/storage/lsm/lsm.go:248-275 | the open readers are those of the saved levels |
| LsmEngine.LSMEngine.WalAppend | internal/storage/lsm/wal.go:36-42 | the log grows by the bytes of the record, which is the append step of the crash model |
| Wal.UpdateConcat | internal/storage/lsm/entry.go:39-52 | the checksum over two pieces is the checksum over their concatenation, for any table |
| Wal.RoundTrip | internal/storage/lsm/entry.go:39-80 | decoding an encoded entry returns it and the rest of the file if and only if the lengths of key and value add up to less than 2^32 |
| Wal.DecodeExactly | internal/storage/lsm/entry.go:54-80 | an entry is decoded if and only if the bytes are its own encoding, checksum included, and its lengths fit |
| Wal.PanicsExactly | internal/storage/lsm/entry.go:54-80 | decoding goes out of bounds if and only if the two lengths overflow 32 bits and the bytes they still announce carry their checksum |
| Wal.EntryBytes | internal/storage/lsm/entry.go:39-52 | the layout on two examples: lengths, operation code, key, value |
| Wal.ReadAll | internal/storage/lsm/wal.go:46-66 | the loop yields exactly the entries whose encodings, checksum included, the file begins with, up to bytes that end or fail their checksum: nothing is replayed that is not in the log |
| Wal.ReplayExactly | internal/storage/lsm/wal.go:46-66 | replay yields these entries if and only if the file begins with their encodings and goes on with bytes that end or fail their checksum |
| Wal.TornTail | internal/storage/lsm/wal.go:46-66 | a log cut anywhere inside its last entry replays to all entries before it |
| Wal.TearSwallowsLaterEntries | internal/storage/lsm/wal.go:18-66 | anything appended behind an entry cut at or after its header is read as the announced payload and lost, while the file stays shorter than that entry would have been, for every checksum |
| Bloom.BloomFilter.Add | internal/storage/lsm/bloom.go:82-92 | sets exactly the key's positions and clears none |
| Bloom.BloomFilter.MayContain | internal/storage/lsm/bloom.go:97-107 | true if and only if all positions of the key are set |
| Bloom.BloomFilter.AddAll | internal/storage/lsm/bloom.go:82-107 | no added key is ever filtered out, for any hash |
| Bloom.PositionsAndBits | internal/storage/lsm/bloom.go:82-107 | positions and bits on an example: two base hashes combined linearly, bits from the lowest up |
| Bloom.RoundTrip | internal/storage/lsm/bloom.go:110-130 | decoding an encoded filter returns it if and only if its dimensions fit 32 bits |
| Bloom.BloomFilter.FromData | internal/storage/lsm/bloom.go:120-130 | a decoded filter has the encoded bits and dimensions |
| SSTable.RecordRoundTrip | internal/storage/lsm/sstable_reader.go:138-167 | a record written at any offset is read back there if and only if its lengths fit 32 bits |
| SSTable.RecordBytes | internal/storage/lsm/sstable_writer.go:43-70 | the layout on two examples: lengths, deletion flag, key, value |
| SSTable.SSTableWriter.Add | internal/storage/lsm/sstable_writer.go:43-70 | the file, offsets and keys grow by exactly the record |
| SSTable.SSTableWriter.Finish | internal/storage/lsm/sstable_writer.go:74-117 | the file is the records, their offsets, a filter holding every key, and the footer |
| SSTable.OpenWritten | internal/storage/lsm/sstable_reader.go:58-126 | opening a written file recovers offsets and filter, and every record is read back at its offset |
| SSTable.TableOfWritten | internal/storage/lsm/sstable_reader.go:58-126 | the bytes of a written file stand for exactly the records written |
| SSTable.SSTableReader.Get | internal/storage/lsm/sstable_reader.go:175-206 | filter and binary search over the file equal linear lookup in the records |
| SSTable.WriteOpenGet | internal/storage/lsm/sstable_writer.go:43-117 | writing any strictly sorted list, reopening it and looking a key up equals linear lookup in the list |
| Hlc.NextIsSuccessor | internal/util/hlc/timestamp.go:40-47 | Next is the immediate successor in the timestamp order |
| Hlc.PrevInvertsNext | internal/util/hlc/timestamp.go:40-56 | Prev and Next undo each other away from the ends of the range |
| Hlc.Clock.Now | internal/util/hlc/hlc.go:53-66 | the least timestamp past the old state and not behind the reading, unless the counter wraps, which is exactly when it does not move forward |
| Hlc.Clock.Update | internal/util/hlc/hlc.go:71-117 | strictly past the old state if and only if that is not the end of the range, and, unless a counter wraps, the least timestamp past the remote one and the reading too |
| Hlc.NowStrictlyForward | internal/util/hlc/hlc.go:53-66 | Now moves strictly forward if and only if it does not overflow the logical counter |
| Hlc.UpdateStrictlyForward | internal/util/hlc/hlc.go:71-117 | Update moves strictly past the clock's own state except at the very end of the range |
| Hlc.UpdatePastRemote | internal/util/hlc/hlc.go:71-117 | Update passes the remote timestamp if and only if the remote counter does not overflow into it |
| Hlc.ClockIsLeast | internal/util/hlc/hlc.go:53-117 | unless a counter wraps, Now is the least timestamp past the clock's state and not behind the reading, and Update the least also past the remote one |
| Hlc.CausalOrder | internal/util/hlc/hlc.go:53-117 | in every run of clocks exchanging timestamps, with arbitrary physical readings and no step wrapping a counter, happens-before implies a strictly smaller timestamp |
| Hlc.WallTimesAreReadings | internal/util/hlc/hlc.go:53-117 | no wall time exceeds the readings: each is zero or a physical reading taken no later in the run |
| Hlc.ShortRunsDoNotOverflow | internal/util/hlc/hlc.go:53-117 | runs of fewer than 2^31 - 1 events do not overflow, whatever the readings |
| MvccKey.TimestampRoundTrip | internal/storage/mvcc/key.go:101-128 | decoding inverts the complemented encoding on every timestamp |
| MvccKey.TimestampBytesRoundTrip | internal/storage/mvcc/key.go:101-128 | and encoding inverts decoding on every 12 bytes |
| MvccKey.TimestampOrder | internal/storage/mvcc/key.go:101-112 | byte order reverses the unsigned order of the fields: the timestamp order when no field is negative |
| MvccKey.DecodeVersioned | internal/storage/mvcc/key.go:44-97 | Decode inverts Encode on every non-empty timestamp |
| MvccKey.DecodeMetaExactly | internal/storage/mvcc/key.go:59-97 | Decode inverts EncodeMeta if and only if the key is shorter than 12 bytes or its twelfth byte from the end is not zero; otherwise it reads a version |
| MvccKey.VersionOrder | internal/storage/mvcc/key.go:44-64 | within a key newer versions sort first and metadata before all of them |
| MvccKey.EncodeInjective | internal/storage/mvcc/key.go:44-54 | version keys determine raw key and timestamp |
| MvccKey.MetaOrder | internal/storage/mvcc/key.go:59-64 | metadata keys sort like the raw keys |
| MvccKey.KeyBytes | internal/storage/mvcc/key.go:44-112 | the layout on an example: key, separator, complemented wall time and counter |
| Mvcc.SeekFindsNewest | internal/storage/mvcc/mvcc.go:244-262 | seeking to the encoded read timestamp lands on the newest version at or below it, or on nothing of this key |
| Mvcc.GetReadsNewest | internal/storage/mvcc/mvcc.go:188-272 | a read returns the newest version at or below its timestamp, unless the metadata reports a visible foreign intent or an uncertain write |
| Mvcc.ReadExactly | internal/storage/mvcc/mvcc.go:240-272 | whatever the keys of the store, a read finds its version if and only if no entry lies between the seek position and the version; such an entry is of a key inside or around this one by a 0x00 byte, and the read then returns that key's metadata as a value if the first such entry is the metadata of a key made of this one, 0x00 and eleven bytes, and finds nothing otherwise |
| Mvcc.ReadNothing | internal/storage/mvcc/mvcc.go:240-272 | without a version at or below its timestamp a read finds nothing, unless the first entry it meets is such a metadata key, whose metadata it returns as a value |
| Mvcc.MetaIsVersionKey | internal/storage/mvcc/key.go:44-64 | the metadata key of one key is a version key of another if and only if the first is the second, 0x00 and the first eleven bytes of an encoded timestamp whose logical counter ends in 0xff |
| Mvcc.MimicGarbles | internal/storage/mvcc/mvcc.go:240-272 | on any store, a read at such a timestamp returns the other key's metadata as a value |
| Mvcc.NestedKeyHides | internal/storage/mvcc/key.go:15-64 | for every key and every two timestamps there is a key, its extension by 0x00 and twelve bytes, whose first write makes a version at the earlier timestamp unreadable at the later one |
| MvccScan.Scan | internal/storage/mvcc/mvcc.go:415-487 | on every store, exactly the point reads of the keys in range whose metadata decodes as metadata, sorted without repeats; on failure the error of the first such key that fails, or a malformed engine key |
| Histories.ReadsOnlyCommitted | internal/storage/mvcc/mvcc.go:188-272 | a reader not holding the intent reads the value of the newest committed version at or below its timestamp and never the intent's |
| Histories.WriteIsRead | internal/storage/mvcc/mvcc.go:276-404 | an accepted value, or deletion, is read by its writer from its timestamp on and changes no read below it |
| Histories.CollectReads | internal/storage/mvcc/gc.go:62-100 | collection changes a read of an intent-free key if and only if the version read is live, at or below the threshold and not the key's newest |
| Histories.CollectSparesLatest | internal/storage/mvcc/gc.go:8-18 | reads at or above the newest version survive collection at any threshold |
| Histories.CollectLosesReads | internal/storage/mvcc/gc.go:89-97 | a read at the threshold itself is lost when a newer version exists above it |
| Histories.CollectThenAbort | internal/storage/mvcc/gc.go:62-100 | under a pending intent the newest committed version is unprotected: after an abort a read is lost if and only if its version is live and at or below the threshold |
| MvccWrite.GetRefines | internal/storage/mvcc/mvcc.go:188-272 | a point read of the store is the read of the history it represents |
| MvccWrite.WriteRefines | internal/storage/mvcc/mvcc.go:276-404 | Put and Delete carry out the write of the history, refusals with their errors included, when an intent's holder rewrites it at its timestamp |
| MvccWrite.WriteReadBack | internal/storage/mvcc/mvcc.go:150-404 | on the store: after an accepted put the writer reads back exactly the value put from its timestamp on, after a deletion nothing, and reads below are unchanged |
| MvccWrite.InlineRoundTrip | internal/storage/mvcc/mvcc.go:291-301 | a value put at timestamp zero is read back there if and only if it is not empty |
| MvccWrite.DeletionIsPutExactly | internal/storage/mvcc/mvcc.go:349-404 | a deletion and a put leave the same value at timestamp zero if and only if there was none in place |
| MvccWrite.InlineRefines | internal/storage/mvcc/mvcc.go:291-301 | a write at timestamp zero leaves versions, intent and all versioned reads alone |
| MvccWrite.RewriteExactly | internal/storage/mvcc/mvcc.go:305-340 | a rewrite by the holder represents the rewritten history if and only if it keeps the intent's timestamp |
| MvccWrite.PushRefines | internal/storage/mvcc/intent.go:187-262 | a push moves the holder's intent strictly forward and nothing else |
| MvccWrite.CommitRefines | internal/storage/mvcc/intent.go:68-108 | a commit carries out the commit of the history if and only if no committed version lies above the commit timestamp |
| MvccWrite.AbortRefines | internal/storage/mvcc/intent.go:110-149 | an abort removes the intent, and the metadata names the newest committed version again or disappears |
| MvccWrite.FindsPrevious | internal/storage/mvcc/intent.go:151-185 | the entry after the intent is the newest older version with its tombstone status, or there is none |
| MvccWrite.PushThenCommit | internal/storage/mvcc/intent.go:68-262 | pushing to a timestamp and committing there gives the same store and error as committing there, on every store |
| MvccWrite.OtherKeysKept | internal/storage/mvcc/intent.go:27-262 | operations on one key leave the histories of all others alone |
| MvccPush.CommitHalfPushed | internal/storage/mvcc/intent.go:240-262 | after a crash behind the first write of a push a commit cleans up if and only if it commits at the pushed timestamp, and the push can be repeated |
| MvccPush.CommitMoved | internal/storage/mvcc/intent.go:240-262 | after a crash behind the second write no commit and no push cleans up, so neither the push nor a commit cut there can be finished: each is refused, except a commit at the old timestamp, which names a version that is gone |
| MvccPush.AbortAfterCrash | internal/storage/mvcc/intent.go:110-262 | after either crash an abort leaves the pushed copy, which reads at or above it return as if committed whenever metadata is left; the metadata names the newest committed version after the first write and the one before it after the second, and is removed if there is none |
| MvccPush.SkipsNewest | internal/storage/mvcc/intent.go:151-185 | with no entry at the intent's timestamp the search for the previous version skips the newest one below |
| MvccGc.CollectVersions | internal/storage/mvcc/gc.go:108-154 | all versions of a key, newest first, with their tombstone status; none when its metadata key reads as a version of a shorter key |
| MvccGc.CollectRefines | internal/storage/mvcc/gc.go:62-100 | removing the dropped entries of a key carries out the collection of its history, pending intents included |
| MvccGc.PassRefines | internal/storage/mvcc/gc.go:19-60 | a pass collects the history of every unambiguous key and leaves all others |
| MvccStore.MVCC.Put | internal/storage/mvcc/mvcc.go:276-347 | on a store representing a history it carries out the write of that history or refuses it with the same error, other keys untouched; the writer then reads back exactly the value put; at timestamp zero the history stays; the metadata records the sizes |
| MvccStore.MVCC.Delete | internal/storage/mvcc/mvcc.go:352-404 | carries out the write of a deletion to the represented history, after which the writer reads nothing, or refuses it with the same error |
| MvccStore.MVCC.Push | internal/storage/mvcc/intent.go:207-262 | the represented history's intent of the holder moves forward, and nothing else |
| MvccStore.MVCC.Resolve | internal/storage/mvcc/intent.go:27-66 | a commit carries out the commit of the represented history if and only if no committed version lies above the commit timestamp; an abort always carries out the abort |
| MvccStore.MVCC.ResolveCommit | internal/storage/mvcc/intent.go:70-108 | the represented history's intent becomes a committed version, if and only if none lies above it |
| MvccStore.MVCC.ResolveAbort | internal/storage/mvcc/intent.go:112-149 | the represented history loses its intent, and its metadata is reverted or removed |
| MvccStore.MVCC.CollectKey | internal/storage/mvcc/gc.go:64-100 | the loops delete exactly the dropped entries of the key |
| MvccStore.MVCC.GarbageCollect | internal/storage/mvcc/gc.go:19-60 | the scan collects exactly the keys whose metadata decodes as metadata |
| MvccRuns.StepRefines | internal/storage/mvcc/mvcc.go:276-404 | one step of any operation on a represented store yields a store representing the stepped histories |
| MvccRuns.RunRefines | internal/storage/mvcc/mvcc.go:276-404 | after every admissible run of puts, deletes, inline puts, pushes, commits, aborts and collections the metadata of each key names its newest version, its tombstone status and its intent, and the entries are its history |
| MvccRuns.RunReads | internal/storage/mvcc/mvcc.go:188-272 | after every admissible run a read is the read of the key's history; strangers read the newest committed version at or below their timestamp, and every value read was put to that key by some operation of the run |
| MvccRuns.HistoriesWereWritten | internal/storage/mvcc/mvcc.go:276-404 | every version and intent after a run was written to its key by one of the run's operations, value and deletions included |
| MvccRuns.AbortRestores | internal/storage/mvcc/intent.go:110-149 | writing a first intent and aborting it restores every versioned read; the inline read if and only if there was no inline value |
| MvccRuns.MovedRewriteCommits | internal/storage/mvcc/mvcc.go:305-340 | rewriting an intent at a later timestamp lets strangers read its first version while it is pending, and the version outlives an abort |
| RaftStorage.LogKeyOrder | internal/raft/storage.go:30-35 | log keys sort like their indices |
| RaftStorage.LogKeyBytes | internal/raft/storage.go:30-35 | the key of a log entry on an example: prefix, then the index in big-endian order |
| RaftStorage.LSMLogStorage.ScanLastIndex | internal/raft/storage.go:112-141 | the scan finds the highest index of log and snapshot |
| RaftStorage.LSMLogStorage.LastIndex | internal/raft/storage.go:100-110 | cached or scanned, the highest index of log and snapshot; the cache is that index whenever it is valid |
| RaftStorage.LSMLogStorage.AppendEntries | internal/raft/storage.go:203-219 | entries land under their indices and remove nothing; a valid cache stays the last index |
| RaftStorage.LSMLogStorage.SaveSnapshot | internal/raft/storage.go:265-285 | the snapshot is stored and nothing else changes; an empty one is refused |
| RaftStorage.LSMLogStorage.Compact | internal/raft/storage.go:293-327 | removes exactly the log entries at or below the index, though it stops at the first larger key |
| RaftStorage.CompactedView | internal/raft/storage.go:293-327 | what remains is the entries above the index and the same snapshot |
| RaftLogs.RaftLog.Restore | internal/raft/log.go:108-131 | a snapshot beyond the commit index becomes pending, moves both positions and drops the entries it covers; any other changes nothing |
| RaftLogs.AppendAnswers | internal/raft/log.go:133-195 | after an append every index below the first new one answers as before, every new entry answers with its term, and the last index is that of the last new entry |
| RaftLogs.RaftLog.Append | internal/raft/log.go:177-195 | every index below the first new one answers as before, the new entries answer with their terms, and they end the log |
| RaftLogs.RaftLog.CommitTo | internal/raft/log.go:237-241 | the commit index becomes the greater of the old and the given one, and nothing else changes |
| RaftLogs.RaftLog.AppliedTo | internal/raft/log.go:244-251 | the applied index becomes the greater of the old and the given one, never passing the commit index, and nothing else changes |
| RaftLogs.RaftLog.StableTo | internal/raft/log.go:271-288 | exactly the entries above a persisted one stay unstable |
| RaftLogs.PersistKeepsTerms | internal/raft/log.go:262-288 | persisting the unstable entries and marking them stable empties the list and changes the term of no index |
| RaftLogs.InstallKeepsAnswers | internal/raft/log.go:133-175 | installing a pending snapshot in storage changes neither the last index nor the term of any index from the snapshot on |
| RaftRawNode.RawNode.Step | internal/raft/raft.go:438-625 | the node obeys the rule of the message's kind (RaftMessages), keeps the ballot rules of election safety, its log takes one of the shapes of in-order delivery, and its appends carry consecutive entries |
| RaftRawNode.RawNode.Tick | internal/raft/raft.go:408-435 | the rule of a tick (RaftMessages.TickExactly) and the same three guarantees |
| RaftRawNode.RawNode.StartCampaign | internal/raft/raft.go:330-349 | a pre-election leaves term and vote; an election votes for itself at the next term; every other peer is asked with the end of the log; it leads at once only with a quorum of its own |
| RaftRawNode.RawNode.ToLeader | internal/raft/raft.go:292-315 | term, vote and tally stay, one empty entry of the term is added, nobody else is taken to hold anything, and every other peer is told |
| RaftRawNode.RawNode.TallyVotes | internal/raft/raft.go:352-360 | the number of granted votes |
| RaftRawNode.RawNode.StepDownOnQuorumLoss | internal/raft/raft.go:394-405 | gives up leadership exactly when fewer than a quorum were in contact |
| RaftRawNode.RawNode.AppendTo | internal/raft/raft.go:198-250 | the entries from the peer's next index with the term before them and the commit index; or the snapshot, exactly when they are gone or the peer is more than 8 behind and it helps; term, vote and role stay |
| RaftRawNode.RawNode.AdvanceCommit | internal/raft/raft.go:763-786 | with readable, never falling terms the loop commits the greatest index of its term a quorum holds, or nothing |
| RaftRawNode.RawNode.CompactableIndex | internal/raft/raft.go:664-678 | the least of the snapshot index and, on a leader, what every other peer is known to hold |
| RaftMessages.FreshnessOrder | internal/raft/log.go:290-299 | comparing logs by last term, then last index, is a total order: total, transitive and antisymmetric |
| RaftMessages.VoteExactly | internal/raft/raft.go:438-498 | a vote or pre-vote request is ignored behind the leader lease and answered once otherwise, granted if and only if its term is not earlier, no other vote or known leader of the term stands in the way, and its last term is later or equal with an index no smaller; what each answer carries and what the voter remembers |
| RaftMessages.AppendExactly | internal/raft/raft.go:533-561 | an append is accepted if and only if its term is not earlier and it starts the log or the log answers its term at its index; then every sent entry is in the log, nothing below changes, the answer names the last index, and the commit index is the greater of the old one and the lesser of the leader's and the last index; otherwise the log stays and the answer hints at its end |
| RaftMessages.HeartbeatExactly | internal/raft/raft.go:586-593 | a heartbeat of no earlier term resets the timer, names the leader and commits the lesser of what it says and the last index, never falling; it is always answered |
| RaftMessages.SendExactly | internal/raft/raft.go:190-250 | what an append carries, and exactly when a snapshot or nothing is sent instead |
| RaftMessages.AckExactly | internal/raft/raft.go:563-585 | a positive answer makes what the leader takes that peer to hold the greater of the old and the acknowledged index and moves nobody else's; a rejection takes nothing back and is answered from after the hint, or one back; a commit that rises is of the own term and held by a quorum |
| RaftMessages.PulseExactly | internal/raft/raft.go:594-602 | a heartbeat answer marks its sender active and is answered with an append if and only if the sender is not known to hold the whole log |
| RaftMessages.LeadExactly | internal/raft/raft.go:292-315 | a new leader adds one empty entry of its term, takes every other peer to hold nothing and itself its last index, and tells every other peer |
| RaftMessages.TallyExactly | internal/raft/raft.go:500-507 | a candidate counts each answer once and leads if and only if a quorum has granted |
| RaftMessages.PollExactly | internal/raft/raft.go:509-517 | a pre-candidate counts each answer once and runs if and only if a quorum has granted |
| RaftMessages.ProposeExactly | internal/raft/raft.go:519-531 | only a leader takes a proposal: exactly its data, in order, at the next indices and the own term, counted for itself only and sent to every other peer |
| RaftMessages.SnapshotExactly | internal/raft/raft.go:603-624 | a snapshot of no earlier term beyond the commit index becomes pending, answers at its index and drops exactly the entries it covers; any other leaves the log; what the answer names |
| RaftMessages.CampaignExactly | internal/raft/raft.go:319-349 | a campaign asks every other peer with the end of the log: at the same term for a pre-election, at the next with the own vote for an election; a single node leads at once |
| RaftMessages.TickExactly | internal/raft/raft.go:394-435 | a tick campaigns if and only if the election timer runs out; a leader gives up if and only if a due sweep finds less than a quorum in contact, and otherwise sends heartbeats to everybody on every third tick and nothing on the others |
| RaftMessages.StepObeys | internal/raft/raft.go:438-625 | every message is handled by the rule of its kind |
| RaftAcks.StepAcknowledged | internal/raft/raft.go:563-585 | every step of any node keeps: what a leader takes a peer to hold, that peer acknowledged to it |
| RaftAcks.CommitsAcknowledged | internal/raft/raft.go:763-786 | over every run of any group, with messages lost, repeated, delayed and reordered and nodes restarting, a leader's commit index rises only to an entry of its term whose index a quorum of nodes has acknowledged to it |
| RaftElection.StepBallot | internal/raft/raft.go:438-507 | how one message may move term, vote, role and granted votes |
| RaftElection.TickBallot | internal/raft/raft.go:394-435 | and how one tick may |
| RaftElection.CastKept | internal/raft/raft.go:362-507 | under the two delivery provisos no vote once cast is recast within its term |
| RaftElection.StepKeepsInv | internal/raft/raft.go:253-507 | every step of any node keeps: votes remembered and granted were cast, tallies count cast votes, leaders have a quorum behind them |
| RaftElection.ElectionSafety | internal/raft/raft.go:253-507 | over every run of any group, with messages lost, repeated, delayed and reordered and nodes restarting, a term has at most one leader, provided no granted vote is delivered in a later term and no vote request at a term whose vote the node has forgotten |
| RaftElection.OneLeader | internal/raft/raft.go:107 | two quorums share a voter |
| RaftElection.SecondGrant | internal/raft/raft.go:367-507 | a node that voted grants a second candidate of the term if and only if it has forgotten the vote, knows no leader, and the candidate's last term is later, or equal with an index no smaller |
| RaftElection.StaleGrantCounts | internal/raft/raft.go:500-507 | a candidate counts a granted vote of any earlier term as one of its own, and becomes leader with it if the tally reaches the quorum |
| RaftElection.VoteForgotten | internal/raft/raft.go:253-265 | a message makes a node forget its vote within a term if and only if it is an append or snapshot of that term |
| RaftTwoLeaders.TwoLeadersByForgottenVote | internal/raft/raft.go:253-550 | a run of three fresh nodes at default settings, every delivered message really sent and no grant delivered late, in which one term gets two leaders |
| RaftTwoLeaders.TwoLeadersByStaleGrant | internal/raft/raft.go:253-550 | another such run, in which no node votes at a term whose vote it forgot and one term gets two leaders |
| RaftProgress.CommitsGreatest | internal/raft/raft.go:763-786 | with readable, never falling terms within its own, a leader commits the greatest index of its term that a quorum holds, or nothing when there is none |
| RaftProgress.HeartbeatsClamped | internal/raft/raft.go:150-174 | heartbeats go to every other peer and carry the lesser of the commit index and what the peer is known to hold |
| RaftProgress.ProbeBindsNothing | internal/raft/raft.go:134-149 | a pre-vote probe changes nothing at its receiver but the outbox |
| RaftProgress.IsolatedNode | internal/raft/raft.go:271-349 | a node that hears nobody keeps term and log for any number of ticks and becomes neither candidate nor leader |
| RaftProgress.IsolatedLeader | internal/raft/raft.go:387-435 | a leader that hears nobody steps down within two election timeouts |
| RaftProgress.WithinThirtyEightTicks | internal/raft/raft.go:394-435 | 38 ticks are enough with timeouts as drawn |
| RaftProgress.Patient | internal/raft/raft.go:408-435 | with timeouts as drawn, a node whose timer was just reset sits out nine silent ticks unchanged |
| RaftReady.StepStepped | internal/raft/raft.go:438-625 | one message from a settled log leaves new entries that continue or overlap the persisted ones, or one pending snapshot and nothing else |
| RaftReady.ReactedProper | internal/raft/raft.go:198-250 | every append a node sends carries consecutive entries after the index it names |
| RaftReady.NextConsecutive | internal/raft/log.go:197-260 | the committed entries handed out are exactly those from the applied to the committed index |
| RaftReady.NextAre | internal/raft/log.go:197-260 | a committed index is handed out with the persisted entry as far as storage reaches, and with the new one beyond |
| RaftReady.CycleSettles | internal/raft/raft.go:706-752 | persisting and advancing after one step leaves nothing unstable or pending, storage without holes, everything committed applied, and of an installed snapshot the record and no entry it covers |
| RaftReady.CycleOutputs | internal/raft/raft.go:706-752 | a cycle hands out a snapshot or committed entries, never both, right after the applied index |
| RaftReady.HandsOutLogExactly | internal/kv/kvserver/replica.go:211-286 | what a cycle hands out is what the log holds afterwards if and only if no entry being committed is replaced in the same cycle |
| RaftReady.ReplacedEntryApplied | internal/kv/kvserver/replica.go:211-286 | a follower whose uncommitted entry the next leader replaces and commits in one append persists the new entry and applies the old one, for all data |
| RaftReady.TrimKeepsAnswers | internal/kv/kvserver/replica.go:290-322 | taking a snapshot and truncating changes the term of no index from the snapshot on and leaves no entry at or below the point truncated to |
| RaftReady.DeliveryInOrder | internal/kv/kvserver/replica.go:189-288 | over every run of a group each node hands out indices in order, skipping only what a snapshot covers, up to its commit index; commit and applied never fall |
| RaftReady.NeverRepeated | internal/kv/kvserver/replica.go:189-288 | no index is handed out twice |
| RaftReplica.Replica.HandleReady | internal/kv/kvserver/replica.go:211-286 | one cycle, in the driver's order, sends everything the node had to send; after one step of an up-to-date node it is up to date again: nothing unstable or pending, everything committed handed out, and all outputs so far in order |
| RaftReplica.Replica.Receive | internal/kv/kvserver/replica.go:189-210 | taking a message and running a cycle keeps the node up to date, its outputs in order and its commit index from falling |
| RaftReplica.Replica.Elapse | internal/kv/kvserver/replica.go:189-210 | and so does taking a tick |
| RaftReplica.Replica.InstallSnapshot | internal/kv/kvserver/replica.go:342-364 | the snapshot is stored and the entries it covers are removed |

## Left out

- gRPC, protobuf, SQL, the client, the server, gossip, liveness and the command line: plumbing or thin wrappers,
  easier than the rest.
- Transactions (coordinator, records, timestamp cache): not part of this model.
- Raft log matching and state-machine safety on contents: a conflicting persisted suffix is overwritten but never
  deleted, and append responses are not compared with the term. Commits are tied to acknowledgements
  (RaftAcks.CommitsAcknowledged) and outputs to the node's own log (RaftReady.HandsOutLogExactly), not across nodes.
- Backward iteration (Prev) of all iterators.
- Batch atomicity across a crash: entries of a batch are logged one by one, each a write of its own here.
- Crashes between the engine writes of a multi-version operation other than a push or a commit.
- Input/output errors other than a crash, fsync, file names, directory scans, reference counts and locks.
- Concurrency inside a node: operations of one engine, store or node are atomic, as the locks make them.
- JSON: metadata, entries and snapshot records are values; only the dropping of an empty inline value is kept, and
  that serialized metadata read as a version passes for a live one (`Garbled`).
- Compaction.LevelThreshold: the growth factor and its powers are exact reals, where the code multiplies in 64-bit
  floating point and may round before truncating.
- RaftReplica.Replica.InstallSnapshot: wiping and reloading the state machine and recording the applied index are not
  modelled; the snapshot and the log are.
- Bloom filter sizing and false-positive rates: dimensions are parameters.
- The hash and checksum functions themselves: any function will do in every result.
- Wrap-around of 64-bit Raft terms and indices: terms and indices are unbounded.
- HardState and SoftState change detection (HasReady): a cycle without work changes nothing, so every step is followed
  by a cycle; term and vote are persisted with the step that changes them.
- Reopening a node's log (NewRawNode, newRaftLog): a restart keeps term and vote in the election results; delivery
  results are for runs between restarts, after which entries applied but not yet recorded come again.
- Matching proposals to entries, channels and goroutines of the replica, and the contents of snapshots.
- Negative timestamps, which no clock produces, and nested keys, one of which extends another by a 0x00 byte: their
  entries interleave. Point reads and scans are stated for stores with nested keys too (Mvcc.ReadExactly,
  MvccScan.Scan); writes and runs for stores without.
- Mvcc.SeekFindsNewest: for stores without nested keys; Mvcc.ReadExactly has the others.
- Mvcc.GetReadsNewest: for stores without nested keys; Mvcc.ReadExactly has the others.
- MvccGc.CollectVersions: for stores without nested keys, whose entries end the walk over the outer key's versions
  early.
- MvccStore.MVCC.CollectKey: for stores without nested keys, like MvccGc.CollectVersions.
- MvccStore.MVCC.GarbageCollect: for stores without nested keys, like MvccGc.CollectVersions.
- RaftLogs.RaftLog.StableTo: an index beyond the unstable entries, on which the code would panic, changes nothing
  here; RaftReady.CycleSettles shows it does not occur.
- LsmEngine.LSMEngine.constructor: opens a directory whose levels have the shape the engine leaves at every disk step
  (LsmEngine.LSMEngine.ReopensAnywhere), with a level-1 threshold of at least 2; with a smaller one the first
  compaction never ends (Compaction.StuckRounds).
- LsmCrash.CrashSafety: a table file is the records written to it. That is what its bytes stand for as long as keys
  and values are shorter than 2^32 bytes (LsmTables.TablesReadBack); longer ones are not read back
  (SSTable.RecordRoundTrip), which the crash model and the engine do not show.
- LsmCrash.WriteSurvivesExactly: bytes behind a cut that happen to pass the checksum would be replayed as an entry;
  which bytes do depends on the checksum table, a parameter here.
- Bloom.BloomFilter.Add: positions are taken from two hash values of the key, which are parameters.
