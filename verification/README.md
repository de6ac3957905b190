# Verified models of LevelDB, libuv and nanopb

This project models the storage engine, the timers, the worker pool, the Punycode encoder and the
protobuf coder that the application ships in its pods, and proves what their code promises.

**LevelDB.** The specification is a set of entries: user key, sequence number, value or
tombstone. A read at a sequence number returns the newest entry at or below it
(`InternalKey`). Every layer is proved against it:

- `Versions`, `Compaction`, `CompactionMeaning`, `CompactionRun`, `Lsm`, `Selection`: lookup
  through the levels, the choice of compaction inputs, the compaction loop and its drop rules, and
  what installing a compaction does to every read.
- `Store`, `SplitKey`: a state machine of writes, memtable switches, flushes, trivial moves, compactions and
  snapshots. In every reachable state every read at a live snapshot is what the whole history says.
- `DbIter`, `Merger`: iterators in both directions, proved against an abstract cursor.
- `SkipLists`: the memtable's skip list with single link stores, and a reader that runs among them.
- `GroupCommit`: the write queue, its groups and their sequence numbers, over every interleaving.
- `LogFormat`, `LogRecovery`, `LogFile`: the write-ahead log and crash recovery at any byte.
- `LogIntegrity`: what any file, however damaged, can make the reader of the log return.
- `WriteBatches`, `LogReplay`: the bytes of a batch, and what replaying a log that was cut, or any file, recovers.
- `VersionEdits`, `VersionBuilder`, `Recovery`, `FileNumbers`, `RunEdits`: the manifest, its encoding
  and its replay, the numbers of the files, and the manifest of a run of the store.
- `Coding`, `Blocks`: varints, and table blocks with prefix compression.
- `Separators`, `Bloom`, `FilterBlocks`, `TableFormat`, `TableBuilders`, `TableLookup`, `Tables`: a
  table file from its first key to its footer, and lookup in it as a linear search of its pairs.
- `TwoLevelIterators`: the iterator over a table as a position in its pairs.
- `LruCache`, `LruLinks`: the block cache with its hash table and reference counts, and the links of
  its lists and chains.

**libuv.**

- `TimerHeap`, `TimerLoop`: the intrusive heap of pointers and the timers on it.
- `ThreadPools`: the worker pool, slow work, wake-ups and cancellation, over every interleaving.
- `Punycode`, `PunycodeUniqueness`, `PunycodeSamples`: label encoding with its 32-bit arithmetic, against the
  decoder of RFC 3492; a label has one encoding only, and samples show which.

**nanopb.**

- `PbWire`: message types, values and their wire form (Protocol Buffers Encoding guide, sections "Base
  128 Varints", "Signed Integers" and "Packed Repeated Fields").
- `PbEncoders`, `PbFields`: the sizing and the writing pass over output streams; the field iterator.
- `PbParse`, `PbDecoders`: what any bytes mean to the decoder; its streams, substreams and loops.
- `PbRoundTrips`: decoding undoes encoding, with the exact condition.
- `PbCompatibility`, `PbMerge`, `PbLenient`: readers that know fewer or more fields than the writer, messages
  one after the other, and bytes that no encoder writes.

Code that changes things in place is modelled by classes and methods with loops; their contracts
tie the new state to a specification function or relation, and lemmas prove what that means.
A concurrent protocol is a class whose methods are the critical sections (or the single stores)
of its threads, with a method that runs them in any order.

User keys enter the store only through the user comparator, so `InternalKey` represents a key by its
rank in the comparator's order. A table's file in `Versions` carries its contents. Checksums are
any function of the bytes. The height of a skip-list node, the outcome of a file operation and the
thread schedule are parameters.

`Formats` has samples of every format byte by byte. `Common` has the small definitions that several
modules share.

## Findings

- A compaction may bring a deleted value back when a file of the next level that shares a user key
  with the inputs is not among them: `SetupOtherInputs` adds boundary files to the inputs of the
  lower-numbered level only. `SplitKey.SplitKeyResurrects` is a run of the store that gets there, by
  two flushes to the levels that the code picks and one manual compaction;
  `CompactionMeaning.PreservesReadsExactly` is the exact condition, and the store's compaction step
  takes the closure of the next level's inputs as its guard.
- The version builder keeps a deleted file when an edit adds another file with its number on the
  same level (`VersionBuilder.ReusedNumberResurrects`). `VersionBuilder.CollectedIsAppliedExactly` is
  the exact condition, and `RunEdits.RunIsFresh` and `RunEdits.ReplayGivesVersion` show that the edits
  of the store's own runs meet it.
- The block iterator adds the key and value lengths of an entry in 32 bits, so an entry whose sum wraps
  around is accepted and its key is read from past the block (`Blocks.ReadsPastTheBlock`).
  `Blocks.EntryEndsInside` is the exact condition; the blocks of a builder meet it.
- `VersionEdit::Clear` leaves the compact pointers in place, so decoding into a used object keeps
  the old ones in front (`VersionEdits.DecodeUndoesEncode`).
- Where 32 bits are expected, `pb_decode_varint32` accepts some varints of 64 bits that are not a number of 32
  bits sign-extended, and reads their low 32 bits (`PbLenient.OtherIsRead`);
  `PbLenient.ReadVarint32Exactly` is the exact condition.
- `pb_encode` accepts a text that fills its field without a terminator and `pb_decode` refuses it; the same
  holds for a part of 4 GB or more. `PbRoundTrips.RoundTripsExactly` shows that nothing else is lost.

## Model

| member | source | states |
|---|---|---|
| `DbIter.MovesDeterministic` | ios/Pods/leveldb-library/db/db_iter.cc:141-299 | The abstract cursor over the visible keys has exactly one next state for each move. |
| `DbIter.ViewIsRead` | ios/Pods/leveldb-library/db/db_iter.cc:168-198 | The map that the cursor walks holds exactly the keys that a read at the iterator's sequence number finds, with the values that it returns. |
| `DbIter.DBIter.FindNextUserEntry` | ios/Pods/leveldb-library/db/db_iter.cc:168-198 | The forward scan stops at the first entry that the view shows, past tombstones, hidden and unparsable entries, and reports each of the last. |
| `DbIter.DBIter.FindPrevUserEntry` | ios/Pods/leveldb-library/db/db_iter.cc:227-267 | The backward scan stops before the entries of the greatest key of the view at or before the start, with that key and value saved, and reports each unparsable entry that it passes. |
| `DbIter.DBIter.Next` | ios/Pods/leveldb-library/db/db_iter.cc:141-166 | Next moves the abstract cursor to the least greater visible key, also after a move in the other direction. |
| `DbIter.DBIter.Prev` | ios/Pods/leveldb-library/db/db_iter.cc:200-225 | Prev moves the abstract cursor to the greatest smaller visible key, also after a move in the other direction. |
| `DbIter.DBIter.Seek` | ios/Pods/leveldb-library/db/db_iter.cc:269-281 | Seek moves the cursor to the least visible key at or after the target. |
| `DbIter.DBIter.SeekToFirst` | ios/Pods/leveldb-library/db/db_iter.cc:283-292 | The cursor moves to the least visible key. |
| `DbIter.DBIter.SeekToLast` | ios/Pods/leveldb-library/db/db_iter.cc:294-299 | The cursor moves to the greatest visible key. |
| `Merger.MergingIterator.Next` | ios/Pods/leveldb-library/table/merger.cc:55-79 | Next moves one position up in the sorted union of the children, also after moving backwards. |
| `Merger.MergingIterator.Prev` | ios/Pods/leveldb-library/table/merger.cc:81-108 | Prev moves one position down in the sorted union, also after moving forwards. |
| `Merger.MergingIterator.Seek` | ios/Pods/leveldb-library/table/merger.cc:47-53 | Seek positions at the first entry of the union at or after the target. |
| `Merger.MergingIterator.TurnForward` | ios/Pods/leveldb-library/table/merger.cc:62-75 | The direction switch leaves the position alone and puts all other children after it. |
| `Merger.MergingIterator.TurnReverse` | ios/Pods/leveldb-library/table/merger.cc:88-104 | The direction switch leaves the position alone and puts all other children before it. |
| `Merger.MergingIterator.FindSmallest` | ios/Pods/leveldb-library/table/merger.cc:148-161 | With all children at a position of the union or after it, the smallest child is the one that owns the position. |
| `Merger.MergingIterator.FindLargest` | ios/Pods/leveldb-library/table/merger.cc:163-176 | With all children at a position of the union or before it, the largest child is the one that owns the position. |
| `Versions.FindFile` | ios/Pods/leveldb-library/db/version_set.cc:88-106 | The binary search returns the first file whose largest key is not before the target, or the number of files. |
| `Versions.NewestFirstSettles` | ios/Pods/leveldb-library/db/version_set.cc:346-361 | Searching overlapping level-0 files from the highest number down, the first file that knows the key answers as the whole version would. |
| `Versions.FoundFileSettles` | ios/Pods/leveldb-library/db/version_set.cc:362-379 | Past level 0 the one file found by binary search answers for its level. |
| `Versions.Get` | ios/Pods/leveldb-library/db/version_set.cc:326-421 | First-hit level-by-level lookup equals the newest visible entry over all files of the version. |
| `Compaction.CompactionState.IsBaseLevelForKey` | ios/Pods/leveldb-library/db/version_set.cc:1533-1552 | The one-way scan with level_ptrs_ agrees with a full scan of all deeper files, for every non-decreasing run of keys. |
| `Compaction.DecideDrop` | ios/Pods/leveldb-library/db/db_impl.cc:927-966 | An entry is dropped exactly if a newer one of its key is at or below the smallest snapshot, or if it is a tombstone at or below it with nothing in deeper levels. |
| `Compaction.CompactionState.ShouldStopBefore` | ios/Pods/leveldb-library/db/version_set.cc:1554-1578 | A new output is called for exactly if the grandparent files that end before the key, since the last call for one and not before the first key, have more bytes than the limit. |
| `Compaction.DoCompactionWork` | ios/Pods/leveldb-library/db/db_impl.cc:890-998 | The concatenated outputs are exactly the surviving entries in order; no output reaches its size limit before its last entry or has more grandparent bytes behind it than the limit, and none but the last ends without having reached its size or passed more grandparent bytes than that. |
| `Compaction.SurvivorsAre` | ios/Pods/leveldb-library/db/db_impl.cc:927-966 | An entry is in the output if and only if the drop rules keep it. |
| `Compaction.SurvivorsSorted` | ios/Pods/leveldb-library/db/db_impl.cc:968-989 | The output stays sorted. |
| `CompactionMeaning.KeptExactly` | ios/Pods/leveldb-library/db/db_impl.cc:927-966 | In the fields of the entries: dropped is what is older than another entry of its key at or below the smallest snapshot, and a tombstone at or below it whose key is in the range of no file two or more levels below. |
| `CompactionMeaning.NewestSurvives` | ios/Pods/leveldb-library/db/db_impl.cc:946-966 | The newest visible entry of a key survives unless it is a droppable tombstone. |
| `CompactionMeaning.NothingSurvives` | ios/Pods/leveldb-library/db/db_impl.cc:949-966 | When a droppable tombstone was the newest visible entry, nothing visible of its key survives. |
| `CompactionMeaning.PreservesReadsExactly` | ios/Pods/leveldb-library/db/db_impl.cc:890-998 | A compaction leaves every read at or past the smallest snapshot unchanged if and only if no droppable tombstone has a value of its key left outside the inputs. |
| `CompactionMeaning.ClosedPreservesReads` | ios/Pods/leveldb-library/db/db_impl.cc:890-998 | Reads are unchanged when no older entry of an input key stays behind outside deeper levels. |
| `SplitKey.SplitKeyResurrects` | ios/Pods/leveldb-library/db/version_set.cc:1403-1416 | A concrete run of the store, with the flush levels that the code picks, ends in a version where the inputs that the code selects leave out a level+1 file that shares a user key, and compacting them brings a deleted value back. |
| `SplitKey.SplitReached` | ios/Pods/leveldb-library/db/version_set.cc:1403-1416 | The states of that run, from the empty store on, follow the store's steps. |
| `SplitKey.PickedLevels` | ios/Pods/leveldb-library/db/version_set.cc:491-516 | Run on the versions of the two flushes, the descent picks the levels that the run flushes to. |
| `CompactionRun.MakeTables` | ios/Pods/leveldb-library/db/db_impl.cc:811-858 | The pieces become tables with the right smallest and largest keys, in separate key ranges. |
| `CompactionRun.RunCompaction` | ios/Pods/leveldb-library/db/db_impl.cc:878-1048 | Running the compaction over the merged inputs and installing the result is a compaction step of the store. |
| `CompactionRun.WriteLevel0Table` | ios/Pods/leveldb-library/db/db_impl.cc:491-537 | Building a table from the immutable memtable and installing it on the chosen level is a flush step of the store. |
| `CompactionRun.TrivialMove` | ios/Pods/leveldb-library/db/db_impl.cc:718-731 | A lone input that meets no file of the next level, and not too much two levels down, is moved, and no other; moving it down is a move step of the store. |
| `CompactionRun.SomeFileOverlapsRange` | ios/Pods/leveldb-library/db/version_set.cc:122-155 | True if and only if some file of the level meets the user-key range, on sorted and on overlapping levels. |
| `CompactionRun.PickLevelForMemTableOutput` | ios/Pods/leveldb-library/db/version_set.cc:491-516 | The chosen level is the deepest one that the descent permits: it overlaps no file on any level passed, each step down is permitted, and the next one is not. |
| `Lsm.ReplaceKeepsValid` | ios/Pods/leveldb-library/db/db_impl.cc:860-876 | Replacing compaction inputs by tables made from their entries keeps levels sorted and disjoint and newer entries above older ones. |
| `Store.WriteInv` | ios/Pods/leveldb-library/db/db_impl.cc:1201-1235 | A write keeps the store's invariant. |
| `Store.FlushInv` | ios/Pods/leveldb-library/db/db_impl.cc:491-566 | Flushing the immutable memtable to a permitted level keeps the invariant. |
| `Store.MoveInv` | ios/Pods/leveldb-library/db/db_impl.cc:713-731 | A trivial move keeps the invariant. |
| `Store.CompactInv` | ios/Pods/leveldb-library/db/db_impl.cc:860-876 | Installing the result of a compaction whose inputs are closed in the next level keeps the invariant, for any smallest snapshot at or below the current one. |
| `Store.StartedEarlier` | ios/Pods/leveldb-library/db/db_impl.cc:890-897 | The smallest snapshot only grows along a run, so the one that was fixed when a compaction started may be used when it is installed. |
| `Store.RunInv` | ios/Pods/leveldb-library/db/version_set.cc:326-421 | In every state of every run of writes, memtable switches, flushes, moves, compactions and snapshots, newer entries of a key are above older ones and levels past 0 are disjoint. |
| `Store.EveryRunReadsHistory` | ios/Pods/leveldb-library/db/db_impl.cc:1100-1145 | In every reachable state a read at a held snapshot, or at the last sequence number, gives the newest entry at or below it that any write step of the run wrote. |
| `Store.SnapshotsAreStable` | ios/Pods/leveldb-library/db/db_impl.cc:1100-1145 | As long as a snapshot is held it gives the same answer for every key, whatever is written, flushed, moved and compacted meanwhile. |
| `Store.ReadsOwnWrite` | ios/Pods/leveldb-library/db/db_impl.cc:1185-1258 | The next read of a key gives what was written last. |
| `Store.Get` | ios/Pods/leveldb-library/db/db_impl.cc:1100-1145 | Memtable, immutable memtable, tables: the first hit is what the whole history says. |
| `Selection.GetOverlappingInputs` | ios/Pods/leveldb-library/db/version_set.cc:519-559 | Past level 0 exactly the files that meet the range, in order; at level 0 it ends with the least closed extension of the range and exactly the files that meet it. |
| `Selection.FindSmallestBoundaryFile` | ios/Pods/leveldb-library/db/version_set.cc:1344-1361 | The file with the smallest start among those that continue the largest key's user key after it, if there is one. |
| `Selection.AddBoundaryInputs` | ios/Pods/leveldb-library/db/version_set.cc:1378-1401 | It ends, only adds files, and no remaining file starts after the chosen largest key on its user key. |
| `Selection.SetupOtherInputs` | ios/Pods/leveldb-library/db/version_set.cc:1403-1447 | The given inputs stay; the result is a permitted selection; the inputs are grown to all files that meet the range of both levels' inputs if these are more, need no more parents and stay below the limit, and not otherwise. |
| `Selection.PickCompaction` | ios/Pods/leveldb-library/db/version_set.cc:1270-1321 | The file picked by size (the first past the compact pointer, or else the first) or by seeks is among the inputs, and these are a permitted selection. |
| `Selection.FirstAfter` | ios/Pods/leveldb-library/db/version_set.cc:1284-1296 | The first file whose largest key comes after the compact pointer, or the first of the level. |
| `Selection.CompactRange` | ios/Pods/leveldb-library/db/version_set.cc:1464-1498 | Nothing is compacted if and only if no file meets the range; otherwise the files that meet it, as far as the size limit lets them, are among a permitted selection. |
| `Selection.CutAtSize` | ios/Pods/leveldb-library/db/version_set.cc:1472-1487 | All files but the last kept one are below the size limit together; when the inputs were cut, the kept ones reach it. |
| `SkipLists.SkipList.FindGreaterOrEqual` | ios/Pods/leveldb-library/db/skiplist.h:261-281 | The result is the earliest node at or after the key, and the previous node on every level is the last one before it. |
| `SkipLists.SkipList.FindLessThan` | ios/Pods/leveldb-library/db/skiplist.h:284-305 | The result is the last node before the key, or the head. |
| `SkipLists.SkipList.FindLast` | ios/Pods/leveldb-library/db/skiplist.h:307-325 | The result is the last node, or the head. |
| `SkipLists.SkipList.Contains` | ios/Pods/leveldb-library/db/skiplist.h:371-378 | True if and only if the key is in the list. |
| `SkipLists.SkipList.Insert` | ios/Pods/leveldb-library/db/skiplist.h:337-368 | The list holds exactly one key more. |
| `SkipLists.SkipList.Publish` | ios/Pods/leveldb-library/db/skiplist.h:362-368 | After every single store of a link each level is still strictly sorted and a sublist of the level below. |
| `SkipLists.SkipList.Prepare` | ios/Pods/leveldb-library/db/skiplist.h:362-368 | Storing the new node's own link changes no level. |
| `SkipLists.SkipList.SplitLands` | ios/Pods/leveldb-library/db/skiplist.h:261-281 | The successor of the last node before a key on the lowest level is the earliest node at or after it in the whole list. |
| `SkipLists.Writer.Step` | ios/Pods/leveldb-library/db/skiplist.h:337-368 | Every store of an insertion keeps the list valid and no node ever leaves a level. |
| `SkipLists.FindAmidInserts` | ios/Pods/leveldb-library/db/skiplist.h:261-281 | A search interleaved load by load with any number of the writer's stores, from any stale height, returns the earliest node at or after the key at its last load, and misses no key that was in the list before it began. |
| `LogFormat.UnmaskMask` | ios/Pods/leveldb-library/util/crc32c.h:29-38 | Unmask undoes Mask. |
| `LogFile.Writer.AddRecord` | ios/Pods/leveldb-library/db/log_writer.cc:34-80 | A record is appended as its fragments, laid out from the file's current offset. |
| `LogFile.Writer.EmitPhysicalRecord` | ios/Pods/leveldb-library/db/log_writer.cc:82-108 | One physical record is appended: masked checksum, length, type, payload. |
| `LogFile.Reader.ReadPhysicalRecord` | ios/Pods/leveldb-library/db/log_reader.cc:189-271 | The buffered reader returns what parsing the file at its position gives, for any file contents. |
| `LogFile.Reader.ReadRecord` | ios/Pods/leveldb-library/db/log_reader.cc:56-174 | The reader puts logical records together as the format says and reports as many corruptions, for any file contents. |
| `LogFile.ReadRecords` | ios/Pods/leveldb-library/db/version_set.cc:929-933 | Calling ReadRecord until there is none gives all the records of a file. |
| `LogRecovery.ParseLayout` | ios/Pods/leveldb-library/db/log_reader.cc:189-271 | In a log that was cut anywhere, a fragment that is wholly there is read back, and a torn one is the end of the file without a corruption. |
| `LogRecovery.ReadSplit` | ios/Pods/leveldb-library/db/log_reader.cc:56-174 | The fragments of a record give the record if all are there, and nothing, without a corruption, otherwise. |
| `LogRecovery.LogConcat` | ios/Pods/leveldb-library/db/log_writer.cc:26-29 | A writer that goes on at the end of a log makes the log of all the records. |
| `LogRecovery.ReadUndoesWrite` | ios/Pods/leveldb-library/db/log_writer.cc:34-80 | Reading a log from its start returns exactly the records that were written, with no corruption. |
| `LogRecovery.CrashRecovery` | ios/Pods/leveldb-library/db/log_reader.cc:189-271 | Reading any byte prefix of a log returns exactly the records wholly inside the prefix and reports no corruption. |
| `LogRecovery.WholeRecordsExist` | ios/Pods/leveldb-library/db/log_reader.cc:56-174 | Every cut has such a number of whole records. |
| `LogIntegrity.ParsedIsStored` | ios/Pods/leveldb-library/db/log_reader.cc:217-269 | Whatever is in the file, a fragment that is accepted is, byte for byte, a physical record as the writer would write it, with its checksum, inside one block. |
| `LogIntegrity.NothingInvented` | ios/Pods/leveldb-library/db/log_reader.cc:56-174 | Whatever is in the file, every record that is returned is a run of whole physical records next to each other, a full one, or a first one, middle ones and a last one; none is returned twice or out of order. |
| `LogIntegrity.SilentLosesNothing` | ios/Pods/leveldb-library/db/log_reader.cc:88-170 | Whatever is in the file, if no corruption is reported the records together have every payload in it, but for the front part of a record that the file ends in. |
| `WriteBatches.WriteBatch.Put` | ios/Pods/leveldb-library/db/write_batch.cc:98-103 | A put is one operation more, in the bytes and in the count. |
| `WriteBatches.WriteBatch.Delete` | ios/Pods/leveldb-library/db/write_batch.cc:105-109 | A deletion is one operation more. |
| `WriteBatches.WriteBatch.Append` | ios/Pods/leveldb-library/db/write_batch.cc:144-148 | The batch has the operations of both, with the sequence number of the first. |
| `WriteBatches.WriteBatch.SetSequence` | ios/Pods/leveldb-library/db/write_batch.cc:94-96 | The same operations with another sequence number. |
| `WriteBatches.WriteBatch.Iterate` | ios/Pods/leveldb-library/db/write_batch.cc:42-80 | For any bytes the handler gets the operations up to the first one that cannot be parsed; success means that all were parsed and counted. |
| `WriteBatches.BatchRoundTrip` | ios/Pods/leveldb-library/db/write_batch.cc:42-80 | Every operation of a batch is handed out, in order. |
| `WriteBatches.AcceptedBatch` | ios/Pods/leveldb-library/db/write_batch.cc:42-80 | Whatever bytes are accepted count their operations, and the batch that is written from these is accepted with the same operations. |
| `WriteBatches.WriteBatch.InsertInto` | ios/Pods/leveldb-library/db/write_batch.cc:132-137 | The operations are inserted with consecutive sequence numbers from the batch's on. |
| `LogReplay.RecoverLogFile` | ios/Pods/leveldb-library/db/db_impl.cc:405-452 | For any file: short records and bad batches are ignored or, with paranoid checks, end the recovery; the greatest sequence number is kept. |
| `LogReplay.RecoversAll` | ios/Pods/leveldb-library/db/db_impl.cc:418-452 | Whatever is in the file, without paranoid checks the operations of all records that can be read are recovered, in order, and it is no error. |
| `LogReplay.ParanoidExactly` | ios/Pods/leveldb-library/db/db_impl.cc:398-436 | Whatever is in the file, with paranoid checks the recovery fails if and only if the log has a corruption or a record that is no sound batch, and gives the same as without them otherwise. |
| `LogReplay.CrashRecovers` | ios/Pods/leveldb-library/db/db_impl.cc:405-452 | From a log cut at any byte exactly the operations of the batches whose records are whole are recovered, in order, with their sequence numbers, and no error, with paranoid checks or without. |
| `GroupCommit.WriteQueue.BuildBatchGroup` | ios/Pods/leveldb-library/db/db_impl.cc:1260-1306 | The group is the longest front part of the queue in which no sync writer follows a non-sync leader and no batch takes it past 1 MB, or past 128 KB more than a first batch of at most 128 KB; it has all their operations in order. |
| `GroupCommit.WriteQueue.Lead` | ios/Pods/leveldb-library/db/db_impl.cc:1197-1205 | The front writer leads: it leaves alone if it fails or has no batch, and forms the longest permitted group otherwise. |
| `GroupCommit.WriteQueue.Leave` | ios/Pods/leveldb-library/db/db_impl.cc:1238-1255 | The writers of a group leave in order, each with the group's status, and the last sequence number moves to the end of the group. |
| `GroupCommit.WriteQueue.AddToLog` | ios/Pods/leveldb-library/db/db_impl.cc:1212-1234 | A group is logged before it is inserted; after a failure nothing is inserted and its sequence numbers stay unused. |
| `GroupCommit.WriteQueue.InsertNext` | ios/Pods/leveldb-library/db/write_batch.cc:115-135 | An inserted entry has a sequence number past all that readers were given. |
| `GroupCommit.EntriesMean` | ios/Pods/leveldb-library/db/write_batch.cc:115-131 | What operations mean to a reader, apart from how entries encode it: a put makes a read of its key find its value, a deletion makes it find nothing, the last operation on a key counts; inserting their entries does exactly that. |
| `GroupCommit.WriteQueue.Close` | ios/Pods/leveldb-library/db/db_impl.cc:1224-1255 | When a group is inserted, for every key a read at the new last sequence number gives what the batches of the group's writers, one after another, make of what it gave before. |
| `GroupCommit.WriteQueue.InsertFails` | ios/Pods/leveldb-library/db/db_impl.cc:1224-1236 | When an insertion into the memtable fails, the writers leave with the error and the last sequence number moves past the whole group; for every key a read then gives what the operations inserted before the failure make of what it gave before the group. |
| `GroupCommit.WriteQueue.SnapshotsAtomic` | ios/Pods/leveldb-library/db/db_impl.cc:1201-1236 | In every reachable state what a snapshot sees is exactly what was inserted for the groups that ended by it: all of a successful group, never a part of one. |
| `GroupCommit.WriteQueue.SnapshotReads` | ios/Pods/leveldb-library/db/db_impl.cc:1201-1236 | In every reachable state a read at a snapshot gives, for every key, what the operations of the groups that ended by then make of nothing, group after group in the order of the queue. |
| `GroupCommit.WriteQueue.LastRead` | ios/Pods/leveldb-library/db/db_impl.cc:1100-1113 | In every reachable state a read at the last sequence number gives what the operations of all groups served make of nothing. |
| `GroupCommit.WriteQueue.LoggedFirst` | ios/Pods/leveldb-library/db/db_impl.cc:1213-1223 | Everything in the memtable is in a record of the log. |
| `GroupCommit.Run` | ios/Pods/leveldb-library/db/db_impl.cc:1185-1258 | Every interleaving, with failing log writes, syncs and insertions, keeps: writers leave once and in FIFO order, groups take adjacent sequence ranges, and no group, served or failed, that a non-sync writer led carries a sync writer. |
| `Coding.EncodeVarint` | ios/Pods/leveldb-library/util/coding.cc:81-90 | The loop writes seven bits a byte, low bits first. |
| `Coding.GetVarintPtr` | ios/Pods/leveldb-library/util/coding.cc:112-128 | The loop reads what such bytes stand for, and nothing if they do not end in time. |
| `Coding.Varint32RoundTrip` | ios/Pods/leveldb-library/util/coding.cc:112-128 | A 32-bit varint that stands anywhere in a byte string is read back, with its end. |
| `Coding.Varint64RoundTrip` | ios/Pods/leveldb-library/util/coding.cc:142-157 | A 64-bit varint is read back likewise. |
| `Coding.Fixed32RoundTrip` | ios/Pods/leveldb-library/util/coding.cc:9-18 | A little-endian word is read back. |
| `Blocks.EntryRoundTrip` | ios/Pods/leveldb-library/table/block.cc:54-76 | A block entry is read back, on the one-byte fast path and on the varint path. |
| `Blocks.BlockBuilder.Add` | ios/Pods/leveldb-library/table/block_builder.cc:72-105 | The block holds one pair more; its key is stored whole at a restart point, every interval pairs, and otherwise without exactly what it shares with the key before. |
| `Blocks.BlockBuilder.Finish` | ios/Pods/leveldb-library/table/block_builder.cc:62-70 | If its entries are smaller than 4 GB, the finished block stands for exactly the pairs added; its length is the size estimate. |
| `Blocks.OpenBlock` | ios/Pods/leveldb-library/table/block.cc:24-39 | The restart array is found from the block's end, or the contents are refused. |
| `Blocks.Iter.Next` | ios/Pods/leveldb-library/table/block.cc:137-140 | Next moves to the next pair. |
| `Blocks.Iter.Prev` | ios/Pods/leveldb-library/table/block.cc:142-161 | Prev moves to the previous pair, through the restart point before it; it undoes Next. |
| `Blocks.Iter.Seek` | ios/Pods/leveldb-library/table/block.cc:163-201 | Seek lands on the first key that does not come before the target. |
| `Blocks.Iter.SeekToFirst` | ios/Pods/leveldb-library/table/block.cc:203-206 | It lands on the first pair. |
| `Blocks.Iter.SeekToLast` | ios/Pods/leveldb-library/table/block.cc:208-213 | It lands on the last pair. |
| `Blocks.Iter.ParseNextKey` | ios/Pods/leveldb-library/table/block.cc:224-251 | On any bytes: an entry is accepted as the code does, with the lengths added in 32 bits; the next one is further on; its key and value are inside the entries if and only if the lengths do not wrap around. |
| `Blocks.EntryEndsInside` | ios/Pods/leveldb-library/table/block.cc:54-76 | An accepted entry ends inside the entries if and only if its key and value lengths add up to less than 2^32. |
| `Blocks.OverlongIsAccepted` | ios/Pods/leveldb-library/table/block.cc:72-74 | Eight bytes that are accepted as an entry with a key of 2^32 - 1 bytes. |
| `Blocks.ReadsPastTheBlock` | ios/Pods/leveldb-library/table/block.cc:203-206 | A run of the iterator over a block of sixteen bytes whose first key is read from 4 GB of memory. |
| `Blocks.RoundTrip` | ios/Pods/leveldb-library/table/block_builder.cc:62-105 | For any strictly increasing pairs and any restart interval, iterating over the finished block gives exactly the pairs; the block fits whenever the keys, values and 15 bytes a pair stay below 4 GB. |
| `Separators.FindShortestSeparator` | ios/Pods/leveldb-library/util/comparator.cc:29-50 | The result is the start, or ends at its first difference from the limit with a byte one higher, exactly if there is a byte between; it is at or after the start and before the limit. |
| `Separators.LessMeans` | ios/Pods/leveldb-library/include/leveldb/slice.h:101-111 | The order of keys in numbers: at the first difference a smaller byte, or a shorter key. |
| `Separators.InternalSeparator` | ios/Pods/leveldb-library/db/dbformat.cc:69-86 | The separator of two internal keys is not before the first one and before the second one. |
| `Separators.InternalSuccessor` | ios/Pods/leveldb-library/db/dbformat.cc:88-101 | The successor is not before the key. |
| `Bloom.BloomFilterPolicy.CreateFilter` | ios/Pods/leveldb-library/util/bloom.cc:28-54 | The bits that are set are exactly the probes of the keys; the array has as many bytes as the bits per key need, and at least eight. |
| `Bloom.BloomFilterPolicy.KeyMayMatch` | ios/Pods/leveldb-library/util/bloom.cc:56-80 | The loop tests all probes for the key, and takes unknown encodings for a match. |
| `Bloom.MatchesExactly` | ios/Pods/leveldb-library/util/bloom.cc:56-80 | A key matches a filter if and only if each of its probes is one for some key of the filter. |
| `Bloom.AddedKeyMatches` | ios/Pods/leveldb-library/util/bloom.cc:56-80 | No false negatives, whatever bits per key the reader is set to. |
| `FilterBlocks.FilterBlockBuilder.StartBlock` | ios/Pods/leveldb-library/table/filter_block.cc:21-27 | One filter is made for every 2 KB of offsets up to the block's. |
| `FilterBlocks.FilterBlockBuilder.GenerateFilter` | ios/Pods/leveldb-library/table/filter_block.cc:51-75 | The pending keys, cut back out of their flattened form, get their filter. |
| `FilterBlocks.FilterBlockBuilder.Finish` | ios/Pods/leveldb-library/table/filter_block.cc:35-49 | The finished block serves the keys of every group, when its offset array starts below 4 GB. |
| `FilterBlocks.FilterBlockReader.KeyMayMatch` | ios/Pods/leveldb-library/table/filter_block.cc:90-104 | A key that was added for the block's offset always may match; for any other contents nothing is read outside. |
| `TableFormat.HandleRoundTrip` | ios/Pods/leveldb-library/table/format.cc:15-29 | A block handle anywhere in a byte string is read back, with its end. |
| `TableFormat.BlockRoundTrip` | ios/Pods/leveldb-library/table/format.cc:64-139 | A block that was written with its trailer is read back, with checksums verified or not. |
| `TableFormat.FooterRoundTrip` | ios/Pods/leveldb-library/table/format.cc:31-62 | The footer is read back. |
| `Formats.LogRecord` | ios/Pods/leveldb-library/db/log_writer.cc:82-100 | A physical record byte by byte: masked checksum of type and payload, length, type, payload. |
| `Formats.MaskBytes` | ios/Pods/leveldb-library/util/crc32c.h:22-32 | The mask of one checksum, byte by byte. |
| `Formats.SixBytesLeft` | ios/Pods/leveldb-library/db/log_writer.cc:44-55 | With six bytes left in a block they are zero and the record starts in the next block. |
| `Formats.SevenBytesLeft` | ios/Pods/leveldb-library/db/log_writer.cc:44-76 | With seven bytes left an empty first fragment fills the block and the last one is in the next. |
| `Formats.BatchBytes` | ios/Pods/leveldb-library/db/write_batch.cc:5-14 | A batch byte by byte: sequence number, count, a put of type 1 and a deletion of type 0. |
| `Formats.FieldBytes` | ios/Pods/leveldb-library/db/version_edit.cc:14-80 | Each field of a version edit byte by byte, with its tag. |
| `Formats.EditOrder` | ios/Pods/leveldb-library/db/version_edit.cc:41-80 | The order of the fields. |
| `Formats.HandleBytes` | ios/Pods/leveldb-library/table/block_builder.cc:92-100 | A block handle and a block entry byte by byte. |
| `Formats.BlockBytes` | ios/Pods/leveldb-library/table/table_builder.cc:177-195 | A stored block byte by byte: contents, type 0, masked checksum of both. |
| `Formats.FilterBytes` | ios/Pods/leveldb-library/table/filter_block.cc:36-50 | A filter block byte by byte: filters, their offsets, the offset of that array, and 11. |
| `Formats.FooterBytes` | ios/Pods/leveldb-library/table/format.cc:32-41 | The footer byte by byte: the two handles, zeros up to byte 40, and the magic number. |
| `Formats.InternalKeyBytes` | ios/Pods/leveldb-library/db/dbformat.cc:14-23 | An internal key: user key, then sequence number above the type byte. |
| `Formats.BloomProbes` | ios/Pods/leveldb-library/util/bloom.cc:19-58 | Ten bits per key give six probes; the second probe of a hash, with its rotation by 17 bits; the place of a bit in its byte. |
| `Formats.MessageBytes` | ios/Pods/nanopb/pb_encode.c:609-706 | Tags and numbers on the wire byte by byte: each wire type, a varint, zigzag, two's complement in ten bytes, little-endian words. |
| `Formats.VarintLimits` | ios/Pods/leveldb-library/util/coding.cc:116-165 | A varint of 32 bits has at most five bytes, of 64 bits ten; higher bits are dropped. |
| `Formats.LastSequences` | ios/Pods/leveldb-library/db/db_impl.cc:431-435 | The last sequence number of a batch, with a signed count and 64 bits. |
| `TableBuilders.TableBuilder.Add` | ios/Pods/leveldb-library/table/table_builder.cc:94-123 | The table that is being written holds one pair more: every full block has its index separator, every key is in the filter of its block's offset. |
| `TableBuilders.TableBuilder.Flush` | ios/Pods/leveldb-library/table/table_builder.cc:125-139 | The pairs of the current block are in the file, and its index entry waits for the next key. |
| `TableBuilders.TableBuilder.Finish` | ios/Pods/leveldb-library/table/table_builder.cc:198-253 | The file is a table of exactly the pairs that were added: data blocks, filter block, metaindex, index and footer. |
| `TableLookup.SeparatorsAscend` | ios/Pods/leveldb-library/table/table_builder.cc:102-109 | The index keys ascend strictly. |
| `TableLookup.BlockAnswers` | ios/Pods/leveldb-library/table/table.cc:216-244 | The first entry at or after the target in the block that the index finds answers for the whole table. |
| `TableLookup.FilteredOut` | ios/Pods/leveldb-library/table/table.cc:224-228 | When no key of the block's filter group has the target's user key, nothing in the table answers. |
| `Tables.Table.BlockReader` | ios/Pods/leveldb-library/table/table.cc:155-208 | An index entry of a builder's table leads to an iterator over its block. |
| `Tables.Table.InternalGet` | ios/Pods/leveldb-library/table/table.cc:216-244 | Lookup equals linear search: it reports the newest entry of the target's user key at or below its sequence number, if and only if there is one; another entry or none otherwise. |
| `TwoLevelIterators.NewTableIterator` | ios/Pods/leveldb-library/table/table.cc:210-214 | A new iterator over a builder's table stands nowhere. |
| `Tables.ReadMeta` | ios/Pods/leveldb-library/table/table.cc:84-111 | The filter block of a builder's table is found through the metaindex. |
| `Tables.Open` | ios/Pods/leveldb-library/table/table.cc:38-82 | A builder's table is opened. |
| `Tables.WriteAndGet` | ios/Pods/leveldb-library/table/table_builder.cc:94-253 | For all strictly increasing pairs, block sizes, restart intervals and filter policies: what is looked up in a table of less than 4 GB is what a linear search of the pairs gives. |
| `TwoLevelIterators.TwoLevelIterator.Seek` | ios/Pods/leveldb-library/table/two_level_iterator.cc:82-87 | The position is the first pair of the table at or after the target, in whatever block. |
| `TwoLevelIterators.TwoLevelIterator.SeekToFirst` | ios/Pods/leveldb-library/table/two_level_iterator.cc:89-94 | The position is the first pair. |
| `TwoLevelIterators.TwoLevelIterator.SeekToLast` | ios/Pods/leveldb-library/table/two_level_iterator.cc:96-101 | The position is the last pair. |
| `TwoLevelIterators.TwoLevelIterator.Next` | ios/Pods/leveldb-library/table/two_level_iterator.cc:103-107 | The position moves up by one, from block to block. |
| `TwoLevelIterators.TwoLevelIterator.Prev` | ios/Pods/leveldb-library/table/two_level_iterator.cc:109-113 | The position moves down by one, from block to block. |
| `TwoLevelIterators.TwoLevelIterator.Current` | ios/Pods/leveldb-library/table/two_level_iterator.cc:32-39 | Key and value are those of the pair at the position. |
| `LruCache.HandleTable.Insert` | ios/Pods/leveldb-library/util/cache.cc:78-92 | The table holds one handle more, in the place of one with the same key. |
| `LruCache.HandleTable.Lookup` | ios/Pods/leveldb-library/util/cache.cc:74-76 | The handle with the key, if and only if the table has one. |
| `LruCache.HandleTable.Remove` | ios/Pods/leveldb-library/util/cache.cc:94-102 | The table loses exactly the handle with the key. |
| `LruCache.HandleTable.Resize` | ios/Pods/leveldb-library/util/cache.cc:122-148 | Rehashing keeps the contents and makes the table at least as long as it has elements. |
| `LruCache.Cache.Insert` | ios/Pods/leveldb-library/util/cache.cc:266-303 | The new entry is cached, another with its key is not; the entries evicted are the oldest idle ones and no more than bring the usage within the capacity, or nothing idle is left; entries in use stay. |
| `LruCache.Cache.Lookup` | ios/Pods/leveldb-library/util/cache.cc:252-259 | A hit takes one more client reference. |
| `LruCache.Cache.Release` | ios/Pods/leveldb-library/util/cache.cc:261-264 | A client's reference is given back; an entry that only the cache holds then is the newest evictable one, and the deleter runs exactly when that was the last reference. |
| `LruCache.Cache.Erase` | ios/Pods/leveldb-library/util/cache.cc:318-321 | The cache loses exactly the entry with the key; clients keep theirs. |
| `LruCache.Cache.Prune` | ios/Pods/leveldb-library/util/cache.cc:323-333 | Exactly the entries that only the cache holds leave and are deleted; entries in use stay. |
| `LruCache.Cache.EvictOldest` | ios/Pods/leveldb-library/util/cache.cc:294-301 | The oldest evictable entry leaves the table, the list and the usage, and goes to its deleter. |
| `LruCache.Cache.Destroy` | ios/Pods/leveldb-library/util/cache.cc:205-215 | At the end every entry that nobody holds was given to its deleter once. |
| `LruCache.Cache.Promises` | ios/Pods/leveldb-library/util/cache.cc:180-195 | At any time the hash table is exactly the two lists, split by whether clients hold the entry too, usage is the sum of their charges, and an entry was deleted once if and only if nobody refers to it. |
| `LruLinks.Remove` | ios/Pods/leveldb-library/util/cache.cc:239-242 | Linking the neighbours of an entry to each other takes exactly it out of its circular list. |
| `LruLinks.Append` | ios/Pods/leveldb-library/util/cache.cc:244-250 | The four stores put an entry last in a circular list. |
| `LruLinks.Move` | ios/Pods/leveldb-library/util/cache.cc:217-237 | An entry goes from one list to the end of the other; nothing else changes in either. |
| `LruLinks.Oldest` | ios/Pods/leveldb-library/util/cache.cc:294-301 | The entry after the head is the oldest one, or the head itself if the list is empty. |
| `LruLinks.HandleTable.FindPointer` | ios/Pods/leveldb-library/util/cache.cc:114-120 | The pointer to a pointer is that of the entry with the key, or the end of its chain. |
| `LruLinks.HandleTable.Write` | ios/Pods/leveldb-library/util/cache.cc:94-102 | A store through it makes the chain go on elsewhere from there, and changes no other chain. |
| `LruLinks.HandleTable.Remove` | ios/Pods/leveldb-library/util/cache.cc:94-102 | Exactly the entry with the key leaves its chain. |
| `LruLinks.HandleTable.Link` | ios/Pods/leveldb-library/util/cache.cc:78-82 | An entry takes the place of one with its key in the chain, or comes last. |
| `LruLinks.HandleTable.Insert` | ios/Pods/leveldb-library/util/cache.cc:78-92 | The table has exactly the entry more, in the place of one with its key, and as many buckets as entries. |
| `LruLinks.HandleTable.Resize` | ios/Pods/leveldb-library/util/cache.cc:122-148 | Relinking every entry at the front of its new chain keeps the entries, each in one chain once. |
| `VersionEdits.VersionEdit.EncodeTo` | ios/Pods/leveldb-library/db/version_edit.cc:41-85 | An edit is written as its fields in their order. |
| `VersionEdits.VersionEdit.DecodeFrom` | ios/Pods/leveldb-library/db/version_edit.cc:107-205 | A record is parsed field by field, for any bytes. |
| `VersionEdits.FieldRoundTrip` | ios/Pods/leveldb-library/db/version_edit.cc:41-85 | Every field is read back from its tag and parts. |
| `VersionEdits.DecodeUndoesEncode` | ios/Pods/leveldb-library/db/version_edit.cc:107-205 | Decoding undoes encoding; the compact pointers that the object held before stay in front. |
| `VersionBuilder.Builder.Apply` | ios/Pods/leveldb-library/db/version_set.cc:650-692 | After any edits the builder holds, for every level, the deletions that no later addition took back and the additions in order without those that compare equal to one before; the compact pointers are the last ones set. |
| `VersionBuilder.Builder.SaveTo` | ios/Pods/leveldb-library/db/version_set.cc:695-739 | For any edits, also when a number is used twice: the saved level is a sorted list of exactly what is saved of the base files and the additions, each as often as it stands there; strictly sorted when nothing stands there twice. |
| `VersionBuilder.CollectedIsAppliedExactly` | ios/Pods/leveldb-library/db/version_set.cc:650-692 | Collecting edits and dropping deleted files at the end equals applying the edits one at a time if and only if no file comes back (it is gone, an edit adds another file of its number, and the number is not deleted again) and no file is shut out by one that compares equal. |
| `VersionBuilder.FreshIsApplied` | ios/Pods/leveldb-library/db/version_set.cc:650-692 | No file comes back and none is shut out when every added number is new to its level. |
| `VersionBuilder.FreshNothingTwice` | ios/Pods/leveldb-library/db/version_set.cc:695-739 | When every added number is new to its level, no file stands twice among those that are merged, so the saved level is strictly sorted. |
| `FileNumbers.NumbersNeverReused` | ios/Pods/leveldb-library/db/version_set.h:190-202 | In every run of the store in which flushed and compacted tables take their numbers from the counter, no step gives a level a number that the level had before. |
| `RunEdits.RunIsFresh` | ios/Pods/leveldb-library/db/db_impl.cc:860-876 | The edits of any part of a run are fresh to the version builder on every level, so it never keeps a deleted file. |
| `RunEdits.StepHasEdit` | ios/Pods/leveldb-library/db/db_impl.cc:860-876 | Every step has an edit that deletes its inputs and adds its outputs, each once. |
| `RunEdits.ReplayGivesVersion` | ios/Pods/leveldb-library/db/version_set.cc:650-739 | Collecting the edits of any part of a run onto the files before it gives exactly the files of the version after it. |
| `VersionBuilder.ReusedNumberResurrects` | ios/Pods/leveldb-library/db/version_set.cc:689-690 | A run of the builder: one edit deletes a file and adds another with its number, and the saved level has both. |
| `Recovery.WriteSnapshot` | ios/Pods/leveldb-library/db/version_set.cc:1088-1116 | The snapshot edit names the comparator, sets the compact pointers that are not empty in the order of the levels, and adds every file in its place. |
| `Recovery.SnapshotThenEdits` | ios/Pods/leveldb-library/db/version_set.cc:886-1000 | A snapshot followed by edits gives what the edits make of the snapshot's files. |
| `Recovery.Recover` | ios/Pods/leveldb-library/db/version_set.cc:886-1000 | Replay gives the files that the builder saves of the edits, the last of each number and the last compact pointer of each level, and fails exactly if a record is bad or a number is missing. |
| `Recovery.RecoversExactly` | ios/Pods/leveldb-library/db/version_set.cc:886-1000 | A recovered level is what applying the edits one at a time gives if and only if they bring no file back and shut none out. |
| `Recovery.PointersThenEdits` | ios/Pods/leveldb-library/db/version_set.cc:1088-1116 | The compact pointers of a snapshot followed by edits are those of the snapshot's version as the edits change them. |
| `Recovery.CutManifest` | ios/Pods/leveldb-library/db/version_set.cc:929-938 | From a manifest cut at any byte exactly the edits whose records are wholly there are decoded. |
| `Recovery.ReplayCutManifest` | ios/Pods/leveldb-library/db/version_set.cc:886-1000 | Whatever byte a manifest was cut at, recovery gives the files, as sorted lists, the numbers and the compact pointers after exactly the edits that are wholly there. |
| `TimerHeap.ComputePath` | ios/Pods/Libuv-gRPC/src/heap-inl.h:117-121 | The loop computes the path bits and their number for the slot. |
| `TimerHeap.Heap.NodeSwap` | ios/Pods/Libuv-gRPC/src/heap-inl.h:72-104 | Swapping a node with its child relinks all neighbours: the tree keeps its shape with the two nodes exchanged. |
| `TimerHeap.Heap.Insert` | ios/Pods/Libuv-gRPC/src/heap-inl.h:106-148 | The heap stays complete, linked and ordered and holds exactly one node more. |
| `TimerHeap.Heap.Remove` | ios/Pods/Libuv-gRPC/src/heap-inl.h:150-237 | Removing any member keeps the heap complete, linked and ordered and removes exactly that node. |
| `TimerHeap.RootIsLeast` | ios/Pods/Libuv-gRPC/src/heap-inl.h:67-69 | No node has an earlier timeout than the root, or the same timeout and an earlier start. |
| `TimerLoop.Loop.Start` | ios/Pods/Libuv-gRPC/src/timer.c:66-94 | The timer is armed at the loop time plus its timeout, saturating at 64 bits, after all that were started before. |
| `TimerLoop.Loop.Stop` | ios/Pods/Libuv-gRPC/src/timer.c:97-107 | The timer leaves the heap and nothing else changes. |
| `TimerLoop.Loop.Again` | ios/Pods/Libuv-gRPC/src/timer.c:110-120 | A repeating timer is restarted with its repeat; one that was never started is refused. |
| `TimerLoop.Loop.NextTimeout` | ios/Pods/Libuv-gRPC/src/timer.c:133-151 | The time to the earliest timer, capped at the greatest int when no timer is due before it, 0 if one is due and -1 if there is none. |
| `TimerLoop.Loop.RunTimers` | ios/Pods/Libuv-gRPC/src/timer.c:154-171 | It ends and fires each due timer exactly once, by ascending timeout and, for equal timeouts, in the order in which they were started, restarting those that repeat; the others keep timeout and start number. |
| `ThreadPools.ThreadPool.Submit` | ios/Pods/Libuv-gRPC/src/threadpool.c:142-161 | A new request waits in the queue of its kind, with the slow-work message posted when it is needed. |
| `ThreadPools.ThreadPool.Insert` | ios/Pods/Libuv-gRPC/src/threadpool.c:156-159 | An item is appended and a waiting worker signalled, so that no wake-up is lost, whichever worker the signal reaches. |
| `ThreadPools.ThreadPool.Wait` | ios/Pods/Libuv-gRPC/src/threadpool.c:71-78 | A worker waits, and is counted as idle. |
| `ThreadPools.ThreadPool.Wake` | ios/Pods/Libuv-gRPC/src/threadpool.c:76-77 | A worker comes back with a signal or without one, and is counted as idle no more. |
| `ThreadPools.ThreadPool.Take` | ios/Pods/Libuv-gRPC/src/threadpool.c:70-114 | A worker takes the head of the queue: a request; slow work if fewer than (n + 1) / 2 of the n workers run some, with the message put back while more waits; or nothing but the message, put back at that cap and dropped when the slow work was cancelled. |
| `ThreadPools.ThreadPool.Execute` | ios/Pods/Libuv-gRPC/src/threadpool.c:116-119 | A worker that runs a work function runs the one that was submitted, never the aborting one. |
| `ThreadPools.ThreadPool.HandOver` | ios/Pods/Libuv-gRPC/src/threadpool.c:121-126 | A finished request goes to the loop's queue, marked as done executing. |
| `ThreadPools.ThreadPool.CancelBegin` | ios/Pods/Libuv-gRPC/src/threadpool.c:269-283 | Cancelling succeeds if and only if no worker has started the request. |
| `ThreadPools.ThreadPool.DoneNext` | ios/Pods/Libuv-gRPC/src/threadpool.c:295-315 | The callback gets the cancelled status if and only if the work never ran. |
| `ThreadPools.ThreadPool.Kept` | ios/Pods/Libuv-gRPC/src/threadpool.c:57-160 | The invariant gives: at most (n + 1) / 2 of n workers run slow work; a worker waits exactly when the queue is empty or has only the slow-work message at that cap, so slow work waits for a willing worker only at the cap; the message is in the queue exactly once while slow work waits; each work function runs and each callback is called at most once; no wake-up is lost. |
| `ThreadPools.Run` | ios/Pods/Libuv-gRPC/src/threadpool.c:57-315 | All of this holds in every state of every interleaving of submits, cancels, callbacks and workers, and every request submitted is known to the pool. |
| `Punycode.DecodeEncodeInt` | ios/Pods/Libuv-gRPC/src/idna.c:192-218 | A generalized variable-length integer is read back by the loop of section 6.2 of RFC 3492. |
| `Punycode.EmitInt` | ios/Pods/Libuv-gRPC/src/idna.c:192-218 | The digit loop writes exactly that integer. |
| `Punycode.AdaptBias` | ios/Pods/Libuv-gRPC/src/idna.c:220-237 | The bias loop computes the adaptation of section 6.1 of RFC 3492, stated in numbers: the delta divided by 700 the first time and by 2 later, plus its share of the new length, divided by 35 until at most 455, 36 for each division, and 36 e / (e + 38) of the rest e. |
| `Punycode.NextValue` | ios/Pods/Libuv-gRPC/src/idna.c:167-172 | The next value to encode is the least code point at or past the last one that is still to be encoded. |
| `Punycode.OverflowIsOverlong` | ios/Pods/Libuv-gRPC/src/idna.c:174-187 | The overflow error is returned only for a label that is too long. |
| `Punycode.ToAsciiLabel` | ios/Pods/Libuv-gRPC/src/idna.c:120-246 | For a label with a non-ASCII member the output is ASCII: the prefix, the label's ASCII characters and a hyphen if there are any, and lower-case letters and digits, from which the decoder of section 6.2 of RFC 3492 recovers exactly the code points; an ASCII label is copied. |
| `PunycodeUniqueness.OnlyEncoding` | ios/Pods/Libuv-gRPC/src/idna.c:161-242 | A label has only one encoding in ASCII with lower-case digits, so that decoding to the label determines the encoder's output to the last character. |
| `PunycodeUniqueness.EncodeAs` | ios/Pods/Libuv-gRPC/src/idna.c:120-246 | The encoder's output is the prefix and the one encoding of the label, whichever way that is known. |
| `PunycodeSamples.SampleL` | ios/Pods/Libuv-gRPC/src/idna.c:161-242 | Sample (L) of section 7.1 of RFC 3492, decoded integer by integer: ASCII characters in between, six insertions, and biases after no, one and two divisions. |
| `PunycodeSamples.Samples` | ios/Pods/Libuv-gRPC/src/idna.c:120-246 | The encoder's output for two labels, character by character: one without ASCII characters, and sample (L) of section 7.1 of RFC 3492. |
| `PbWire.ZeroIsInitial` | ios/Pods/nanopb/pb_encode.c:240-337 | A message that counts as absent because all of it is zero is the message that the decoder starts from. |
| `PbFields.FieldIter.Next` | ios/Pods/nanopb/pb_common.c:29-85 | The iterator goes to the next field and counts the required ones before it, and from the last one back to the first. |
| `PbFields.FieldIter.Find` | ios/Pods/nanopb/pb_common.c:87-104 | From wherever it is, the circular search finds the field with the number if and only if there is one. |
| `PbEncoders.OStream.Write` | ios/Pods/nanopb/pb_encode.c:103-124 | Bytes are appended exactly if they fit, or only counted. |
| `PbEncoders.OStream.EncodeVarint` | ios/Pods/nanopb/pb_encode.c:608-628 | The loop with its ten-byte buffer writes the base-128 form. |
| `PbEncoders.OStream.EncodeSubmessage` | ios/Pods/nanopb/pb_encode.c:717-765 | The writing pass writes exactly as many bytes as the sizing pass counted, so the size never changes between them. |
| `PbEncoders.OStream.EncodeArray` | ios/Pods/nanopb/pb_encode.c:147-236 | Packed where the kind allows it, with the size that the elements take; refused exactly if there are too many or one of them is refused. |
| `PbEncoders.OStream.EncodeField` | ios/Pods/nanopb/pb_encode.c:341-426 | A field is written just when it is present, and for a field without a flag just when it is not zero. |
| `PbEncoders.OStream.Encode` | ios/Pods/nanopb/pb_encode.c:528-550 | Encoding succeeds if and only if counts and sizes are within the descriptor's limits and the message fits the stream; then exactly the message's wire form was appended. |
| `PbEncoders.GetEncodedSize` | ios/Pods/nanopb/pb_encode.c:567-576 | The sizing pass gives the length of the bytes that the writing pass writes. |
| `PbParse.Parse` | ios/Pods/nanopb/pb_decode.c:1084-1096 | Whatever bytes are decoded, a value that comes out is one of the message type (numbers in range, texts without a zero, at most one member of a union) and, when the defaults are, within its storage: arrays within their limits, byte fields within their capacity, texts with room for the terminator. |
| `PbDecoders.IStream.DecodeVarint` | ios/Pods/nanopb/pb_decode.c:255-275 | The loop of shifts in 64 bits reads what a varint of at most ten bytes stands for. |
| `PbDecoders.IStream.DecodeVarint32` | ios/Pods/nanopb/pb_decode.c:187-247 | The loop with its sign-extension test and its eight-bit position agrees with the specification on all bytes. |
| `PbDecoders.Clamped` | ios/Pods/nanopb/pb_decode.c:1345-1428 | The casts to the size of the field keep a number exactly if it is in range. |
| `PbDecoders.IStream.MakeSubstream` | ios/Pods/nanopb/pb_decode.c:372-385 | The substream may read what the length says, the stream what comes after. |
| `PbDecoders.IStream.DecodePacked` | ios/Pods/nanopb/pb_decode.c:425-453 | A packed array is read to its end; what does not fit the field is an error. |
| `PbDecoders.IStream.DecodeField` | ios/Pods/nanopb/pb_decode.c:406-483 | One field is read onto the value as its rule says; a union member puts the others out. |
| `PbDecoders.CheckRequired` | ios/Pods/nanopb/pb_decode.c:1039-1079 | The check holds exactly if all required fields, of the first 64, were seen. |
| `PbDecoders.IStream.Decode` | ios/Pods/nanopb/pb_decode.c:934-1082 | Reading fields in any order and multiplicity, with unknown ones skipped, up to the end or a zero tag, agrees with the reading of messages that PbCompatibility, PbMerge and PbRoundTrips show to mean what was written. |
| `PbDecoders.Decode` | ios/Pods/nanopb/pb_decode.c:1084-1096 | Decoding starts from the initial values. |
| `PbRoundTrips.ReadVarint32Back` | ios/Pods/nanopb/pb_decode.c:187-247 | A varint is read back if its number has 32 bits, and refused otherwise. |
| `PbRoundTrips.ReadTagBack` | ios/Pods/nanopb/pb_encode.c:669-673 | A field number and a wire type are read back. |
| `PbRoundTrips.ReadPackedBack` | ios/Pods/nanopb/pb_decode.c:425-453 | A packed array is read back. |
| `PbRoundTrips.ReadSlotBack` | ios/Pods/nanopb/pb_decode.c:406-483 | What was written for a field, present or not, is read back onto the fields before it, or refused. |
| `PbRoundTrips.RoundTripsExactly` | ios/Pods/nanopb/pb_decode.c:934-1082 | For every well-formed descriptor and every value that can be encoded: decoding the bytes gives the value if every text is terminated in its field and every delimited part is shorter than 4 GB, and fails otherwise. |
| `PbCompatibility.UnknownSkipped` | ios/Pods/nanopb/pb_decode.c:319-332 | A field that the message type does not have, of any kind, changes nothing in front of any bytes, or makes the message unreadable when a length that it is written with has more than 32 bits. |
| `PbCompatibility.OldReader` | ios/Pods/nanopb/pb_decode.c:953-995 | For every part of the fields that a reader knows, wherever the others are in between: it reads exactly the values of those it knows, and fails exactly if one of them cannot be read or one of the others cannot be skipped. |
| `PbCompatibility.NewReader` | ios/Pods/nanopb/pb_decode.c:1025-1079 | For every part of the fields that a writer knows: a reader of the whole type reads them and has the initial values in the others, and fails exactly if one cannot be read or one of its first 64 required fields is not among them. |
| `PbMerge.ConcatenationMerges` | ios/Pods/nanopb/pb_decode.c:406-483 | Two messages one after the other are read as the second merged into the first, and refused exactly if one of the parts cannot be restored or an array has no room. |
| `PbMerge.MergeAt` | ios/Pods/nanopb/pb_decode.c:406-483 | What merging means for a field: arrays are joined, a single value is replaced or, if it is a message, merged, a zero value of a field without a flag changes nothing, and the other members of a union are gone. |
| `PbMerge.UnpackedIsRead` | ios/Pods/nanopb/pb_decode.c:425-465 | An array whose elements come one by one is read like the packed one. |
| `PbLenient.ReadVarint32Exactly` | ios/Pods/nanopb/pb_decode.c:187-247 | Of all numbers of 64 bits, those of 32 bits are read where 32 are expected, and those with bits 63 and 31 whose groups of seven bits from bit 35 on are all zeros or all ones give their low 32 bits; all others are refused. |
| `PbLenient.NegativeIsRead` | ios/Pods/nanopb/pb_decode.c:187-247 | A negative number of 32 bits, sign-extended to 64, gives its 32 bits. |
| `PbLenient.OtherIsRead` | ios/Pods/nanopb/pb_decode.c:213-229 | 0x8000000080000000, which is no number of 32 bits sign-extended, is accepted as 0x80000000. |
| `PbLenient.AnyNumberIsTrue` | ios/Pods/nanopb/pb_decode.c:1334-1343 | Any number but zero is true. |
| `PbLenient.TextEndsAtZero` | ios/Pods/nanopb/pb_decode.c:1487-1527 | A text ends at its first zero byte. |
| `PbRoundTrips.AcceptedRoundTrips` | ios/Pods/nanopb/pb_decode.c:1084-1096 | Whatever bytes were accepted, the value can be encoded, and if its delimited parts are shorter than 4 GB, decoding what it is encoded to gives it back. |
| `PbDecoders.IStream.DecodeElements` | ios/Pods/nanopb/pb_decode.c:436-448 | The elements of a packed array are read to the end of the substream, never more than the field has room for. |

## Left out

- Store.Next: a memtable flush in the middle of a running compaction is not a step, because the level of the flushed table is chosen from the current version alone; flush and compaction are separate steps.
- Store.EveryRunReadsHistory: compaction steps require that no unselected file of the next level shares a user key with the inputs, because the property is false without it (see Findings).
- DbIter.DBIter.Current: read sampling and the capacity trimming of the saved value are not modelled.
- Versions.Get: read errors and seek statistics are not modelled.
- LruCache.Cache: the lists and chains are sequences here; that the pointer operations do the same to the links is proved apart, in `LruLinks`. The sixteen shards and the mutex are not modelled.
- LruCache.Cache.Destroy: the list is emptied as the entries are released.
- Blocks.Iter.ReadMemory: bytes past the block are any bytes; that such a read may fault is not modelled.
- LogFile.Reader.ReadRecord: a non-zero initial offset, resynchronisation and read errors are not modelled; the database opens logs at offset 0.
- LogFile.Writer.AddRecord: append and flush errors are not modelled.
- GroupCommit.WriteQueue.Lead: waiting in MakeRoomForWrite and the memtable switch are not modelled; its outcome is a parameter.
- GroupCommit.WriteQueue.AddToLog: a failed append adds no record; that every write after a failed sync is refused is not modelled.
- ThreadPools.ThreadPool.Submit: one event loop.
- ThreadPools.Run: a request is not cancelled after its callback has started, and identifiers of requests are not reused.
- TimerLoop.Loop.RunTimers: callbacks do not touch timers.
- Punycode.ToAsciiLabel: the destination is large enough; the UTF-8 decoder and the dots between labels are not modelled.
- Recovery.Recover: the CURRENT file, reuse of the manifest and MarkFileNumberUsed are not modelled.
- Versions: range size estimates, compaction scores and seek budgets are heuristics.
- Tables.Table.InternalGet: the block cache is not modelled; the user comparator is the bytewise one; a file that no builder made is read without a claim on the answer.
- Tables.WriteAndGet: the answer is promised for files below 4 GB, because offsets in blocks have 32 bits; `TableSpec.SizesFit` is the weaker condition on the parts.
- TableBuilders.TableBuilder.Add: append and flush errors and compression are not modelled.
- TwoLevelIterators.TwoLevelIterator.Seek: only over tables of a builder, without read errors.
- PbEncoders.OStream.Encode: sizes are below 2^64 and do not wrap in `size_t`; pointer fields, callbacks, extensions, fixed-count arrays, and descriptors with other integer sizes are not modelled.
- PbWire: the struct is a value: a list of present values for every field, instead of offsets, flags and counts in memory; a text is its characters before the terminator.
- PbParse.Parse: field number 0 sent to a message type without fields reads a boolean, as the terminator of the field list looks like one; where it is stored is not modelled.
- LogReplay.RecoverLogFile: a memtable that grows too large is not flushed on the way; its entries stay in one list. Sequence numbers of the inserter do not wrap.
- Memtable entries: their byte encoding is not modelled.
- SplitKey.SplitKeyResurrects: where the outputs of the first compaction are cut is a choice, as file sizes are.
- C++ memory orderings: every load and store is a single sequentially consistent step.
- Snappy, file locks, sync calls and the repair tool.
