# KlyroDB core, modelled and verified in Dafny

KlyroDB is a relational engine in C++: pages with checksums, a buffer pool over a clock replacer, a
write-ahead log with crash recovery, snapshot-isolated version chains, a lock manager with deadlock
detection, slotted table and index pages, value and row codecs, and a Pratt parser. This project models
that core and proves what it is for.

The objects that the C++ code updates in place are classes here, their loops are loops, and each method is
tied by its postcondition to a function of the old state. The laws are then proved about those functions,
over every input or every run:

- **Recovery** leaves every byte of every page as its last newer writer in the log left it, from any crash point
  of any earlier redo, and from a log whose last segment was cut at any byte.
- **Snapshot reads** are repeatable across any steps of other transactions; who reads which data follows from the
  operations of the run alone, and along disciplined runs a read returns the one version its reader sees.
- **The buffer pool** shows each page's last written bytes in every run, and no page reaches the disk before
  its log record is in a segment, also in the states between the log flush and the page write of a step.
- **Locks** stay compatible and grants fair in every run, and who holds and who waits for what is decided by the
  last grants, releases and requests; cycle detection answers exactly when a cycle exists,
  and its possible victims over all iteration orders are known exactly.
- **Slotted pages** refine a map from slot id to bytes, and index leaves a sorted multimap, through in-place
  compaction and splits.
- **The parser** returns a tree of a layered grammar exactly when the tokens it consumed spell it; **codecs**
  invert each other for exactly the values listed; **decimals** agree with exact rationals under exact conditions;
  **checksums** catch every one-byte change.

Where a promise of the code or its comments does not hold, the model keeps the code's behaviour, a lemma gives
the failing input, and another says exactly when the promise holds:

- an append that finds records in a full log buffer publishes an LSN that is in no segment
  (`FullBufferBreaksPromise`, `AppendPromiseExact`), and after a refused append every later flush of records does
  (`LostExact`, `FlushPromiseExact`, `RunFlushPromiseExact`);
- a transaction that updates one version twice forks the chain, and only an update of a version that already has
  a successor ever does (`UpdatingTwiceForks`, `LinearExact`, `LinearRunExact`);
- a queued lock upgrade is never granted, and nobody behind it is served meanwhile (`UpgradeNeverGranted`,
  `WakeExact`, `ReleaseServesNext`);
- a repeated request may be granted without covering the mode asked for or the mode held
  (`ExclusiveHolderDowngraded`, `RepeatedRequestExact`);
- a deadlock victim may be a bystander (`VictimMayBeABystander`, `AnswersExact`, `VictimDeadlockedExact`);
- zeros whose scales are more than 18 apart compare wrongly (`FarZerosMiscompared`, `EqualsExact`, `LessExact`);
- a row mixing NULL and present variable-length fields is read at the wrong place (`TextBeforeNullIsCut`,
  `RowReadBackExact`, `RowRoundTripExact`);
- stored JSON comes back as one JSON string (`JsonBecomesString`, `RoundTripExact`);
- a bare star in a call leaves no trace in the tree (`BareStarForgotten`, `ConsumedExact`, `ParseIsTheTree`);
- splitting a leaf does not give back the directory space of the entries it moved (`Leaf.Split`).

Preconditions that are not written in the C++ code state what its callers rely on: an update's after-image
lies within the page (the redo copy is unchecked), and at most one request per transaction is outstanding.
Integers are unbounded except where a width is written out: LSNs, transaction ids and page counters do not
wrap around in the model, while lengths, offsets, checksums, decimal coefficients and scales have their real
widths.

Files: `Arith`, `Bytes`, `ByteOrder` and `Results` hold shared vocabulary; every other file is one component
named after what it models. `dafny verify dfyconfig.toml` checks all of them.

## Model

| member | source | states |
|---|---|---|
| Bytes.ReadWriteLE | include/klyro/storage/serialization.hpp:13-59 | reading a little-endian field gives back any value that fits its width |
| Bytes.WriteReadLE | include/klyro/storage/serialization.hpp:13-59 | writing back the value read from a field gives back its bytes |
| Bytes.LittleEndian | include/klyro/storage/serialization.hpp:13-59 | byte i of a stored number is its i-th digit to the base 256 |
| Checksum.BuildTable | src/storage/checksum.cpp:14-30 | every table entry is its index pushed through eight single-bit steps of the shift register |
| Checksum.TableStep | src/storage/checksum.cpp:36-43 | one table lookup does the work of eight single-bit steps, from every register state and for every byte |
| Checksum.CalculateChecksum | src/storage/checksum.cpp:36-43 | the table-driven loop computes the bit-at-a-time CRC32C (section 12.1 of RFC 3720) of every byte string |
| Checksum.PolynomialTopBit | src/storage/checksum.cpp:12 | the page and log polynomials have their top bit set, which makes a step reversible |
| Checksum.CastagnoliTerms | src/storage/checksum.cpp:12 | the pages' polynomial has exactly the terms of Castagnoli's |
| Checksum.LogTerms | src/wal/log_record.cpp:8-17 | the log's polynomial has exactly the terms of that of IEEE 802.3 |
| Checksum.CrcOfOnes | src/storage/checksum.cpp:36-43 | for any polynomial the checksum of nothing is zero and that of four bytes of ones is all ones |
| Checksum.ShiftBitsInjective | src/storage/checksum.cpp:17-28 | different register states stay different through any number of steps |
| Checksum.OneByteChangeDetected | src/storage/checksum.cpp:36-43 | changing exactly one byte of a string always changes its checksum, for any polynomial with its top bit set |
| DiskPages.HeaderRoundTrip | src/storage/page_header.cpp:6-36 | reading a serialized page header gives back every field |
| DiskPages.HeaderLayout | src/storage/page_header.cpp:6-36 | each header field stands at its offset |
| DiskPages.RewriteHeader | src/storage/page_header.cpp:6-36 | reading the header and writing it back with another LSN and checksum changes only those two fields |
| DiskPages.RewriteChecksum | src/storage/disk_manager.cpp:244-261 | zeroing and refilling the checksum through the header touches only its four bytes |
| DiskPages.StampVerifies | src/storage/disk_manager.cpp:210-261 | a page stamped as by a write passes the check of a read |
| DiskPages.VerifiedIsStamp | src/storage/disk_manager.cpp:210-261 | a page that passes the check is exactly what stamping it again would produce |
| DiskPages.OneByteChangeRejected | src/storage/disk_manager.cpp:210-242 | a stored page changed in exactly one byte, header, checksum field or body, fails the check |
| DiskPages.Stored | src/storage/disk_manager.cpp:244-261 | the stored form of a page passes the check of a read and keeps body and LSN, page 0 aside |
| DiskPages.OffsetCheckExact | src/storage/disk_manager.cpp:195-208 | dividing the 64-bit product back finds every wrapped page offset and no other |
| DiskPages.CalculateOffset | src/storage/disk_manager.cpp:195-208 | the offset is the true product, refused for the invalid id and exactly when the product leaves 64 bits |
| DiskPages.DiskManager.WritePage | src/storage/disk_manager.cpp:244-261 | the caller's buffer becomes the stored form of the page and is stored; nothing changes on error |
| DiskPages.DiskManager.ReadPage | src/storage/disk_manager.cpp:210-242 | exactly the stored image, or the error for each cause: closed, bad id, missing, or failing its checksum |
| ClockReplacer.VictimExact | src/storage/clock_replacer.cpp:9-48 | no victim exactly when no frame is evictable; else the first evictable frame from the hand with a clear reference bit, or the first evictable one when all are referenced; and all bits afterwards |
| ClockReplacer.Replacer.ChooseVictim | src/storage/clock_replacer.cpp:9-48 | the loop of at most two turns computes that victim and those bits |
| ClockReplacer.Replacer.Pin | src/storage/clock_replacer.cpp:50-56 | the pinned frame stops being evictable and every other frame stays what it was; out-of-range ids do nothing |
| ClockReplacer.Replacer.Unpin | src/storage/clock_replacer.cpp:58-66 | the unpinned frame becomes evictable, no other does, and all reference bits stay |
| ClockReplacer.Replacer.RecordAccess | src/storage/clock_replacer.cpp:68-73 | the accessed frame, pinned or not, gets its reference bit and so loses its spent second chance; nothing else changes |
| ClockReplacer.PinProtects | src/storage/clock_replacer.cpp:9-56 | a pinned frame is never the victim, and pinning leaves no victim exactly when no other frame was evictable |
| ClockReplacer.UnpinUndoesPin | src/storage/clock_replacer.cpp:50-66 | unpinning an evictable frame that was pinned gives back the same replacer state |
| ClockReplacer.AccessDefers | src/storage/clock_replacer.cpp:9-73 | a frame just accessed is chosen only when no other frame had a spent second chance |
| LogRecords.LogChecksum | src/wal/log_record.cpp:8-17 | the log's eight-shifts-a-byte loop is the same bitwise CRC with the log's polynomial |
| LogRecords.DecodeEncode | src/wal/log_record.cpp:55-116 | a record is decoded from its own bytes whatever follows them |
| LogRecords.RecordLayout | src/wal/log_record.cpp:55-116 | each field of an encoded record stands at its offset, and the checksum covers everything but itself |
| LogRecords.FieldsOfDecoded | src/wal/log_record.cpp:82-116 | the decoded header fields re-encode to the bytes read |
| LogRecords.DecodeChecks | src/wal/log_record.cpp:19-53 | a complete record is accepted exactly when its checksum field matches the bytes it covers |
| LogRecords.CorruptRecordRejected | src/wal/log_record.cpp:82-116 | a one-byte change anywhere outside the length field makes the record unreadable |
| WriteAheadLog.FlushConserves | src/wal/wal_manager.cpp:50-98 | flushing and rolling segments neither lose, invent nor reorder a record |
| WriteAheadLog.AppendConserves | src/wal/wal_manager.cpp:28-48 | an append adds exactly its record with its LSN at the end, or nothing |
| WriteAheadLog.AppendExact | src/wal/wal_manager.cpp:28-48 | in bytes: refused exactly when 41 and the payload exceed the capacity; the buffered records go to the segments first exactly when there are some and they leave no room |
| WriteAheadLog.RunBounded | include/klyro/wal/log_buffer.hpp:21-31 | in every run the buffered bytes stay within the capacity, closed segments have reached 16 MiB, and no segment exceeds that by a buffer |
| WriteAheadLog.RunHoldsAccepted | src/wal/wal_manager.cpp:28-113 | after every run of appends, flushes and rolls, segments then buffer hold exactly the accepted records in increasing LSN order |
| WriteAheadLog.AppendDurableIffFits | src/wal/wal_manager.cpp:28-48 | an append keeps the LSNs dense and the published LSN a count of the written records if and only if the record fits the buffer as it stands |
| WriteAheadLog.AppendPromiseExact | src/wal/wal_manager.cpp:28-48 | after an append every LSN up to the published one is in a segment if and only if the record fits or the buffer was empty |
| WriteAheadLog.FullBufferBreaksPromise | src/wal/wal_manager.cpp:28-48 | on the full-buffer path the published LSN names a record that is in no segment |
| WriteAheadLog.DurableMeansWritten | src/wal/wal_manager.cpp:61-98 | while the published LSN counts the written records, each LSN up to it is in a segment |
| WriteAheadLog.FlushKeepsDurable | src/wal/wal_manager.cpp:61-98 | a flush keeps the LSNs dense and the published LSN truthful |
| WriteAheadLog.FlushUpToWrites | src/wal/wal_manager.cpp:104-113 | after flushing up to an LSN that was handed out, its record is in a segment |
| WriteAheadLog.RunDurable | src/wal/wal_manager.cpp:28-113 | in every run that never finds the buffer full, every LSN up to the published one is in a segment |
| WriteAheadLog.LostExact | src/wal/wal_manager.cpp:28-48 | in every run the LSNs handed out are the records in the log plus the refused appends |
| WriteAheadLog.FlushPromiseExact | src/wal/wal_manager.cpp:61-98 | a flush of buffered records keeps the published LSN truthful if and only if no LSN was lost before |
| WriteAheadLog.RunFlushPromiseExact | src/wal/wal_manager.cpp:28-113 | after any run, a flush of buffered records publishes only written LSNs if and only if the run refused no append |
| WriteAheadLog.WalManager.AppendRecord | src/wal/wal_manager.cpp:28-48 | the object computes the append above on bytes, is refused exactly for a record longer than the buffer, and keeps the buffer within its capacity |
| WriteAheadLog.WalManager.FlushBuffer | src/wal/wal_manager.cpp:61-98 | all buffered records are in the segments afterwards, in order, and the last LSN handed out is published when there were any |
| WriteAheadLog.WalManager.AppendToCurrent | src/wal/wal_manager.cpp:61-98 | bytes written to the current segment extend its record list |
| WriteAheadLog.WalManager.RollSegmentIfNeeded | src/wal/wal_manager.cpp:50-59 | a full segment is followed by an empty one |
| WriteAheadLog.WalManager.FlushLogUpTo | src/wal/wal_manager.cpp:104-113 | nothing happens when the target is published; else all buffered records are in the segments |
| LogReading.ParseRecord | src/wal/log_reader.cpp:72-120 | a complete record at the cursor is returned |
| LogReading.ParseTorn | src/wal/log_reader.cpp:72-120 | a record cut short in its header or payload is not returned |
| LogReading.ReadTornLog | src/wal/log_reader.cpp:72-120 | with the last segment cut at any byte, the reader returns exactly the records wholly before the cut, in order, then stops |
| LogReading.ReadBackWritten | src/wal/log_reader.cpp:46-120 | reading an undamaged log returns every written record in LSN order |
| LogReading.ReadInRange | src/wal/log_reader.cpp:72-120 | whatever bytes the segments hold, every LSN read fits 64 bits |
| LogReading.ReadHere | src/wal/log_reader.cpp:72-120 | the two reads at the cursor, header then whole record, return the record there or nothing |
| LogReading.LogReader.SeekToFirst | src/wal/log_reader.cpp:46-49 | the cursor stands before the whole log |
| LogReading.LogReader.ReadNext | src/wal/log_reader.cpp:72-120 | each call returns the next record of what is left, and nothing at the end |
| LogReading.LogReader.SeekToLsn | src/wal/log_reader.cpp:51-70 | the cursor stands before the first record with at least that LSN, found exactly when there is one |
| Recovery.AnalyzeCovers | src/wal/recovery_manager.cpp:52-87 | the dirty-page filter built from a log never drops one of its records |
| Recovery.DirtyPagesExact | src/wal/recovery_manager.cpp:70-82 | the dirty page table holds exactly the pages named in the log, each with the LSN of the first record naming it |
| Recovery.RedoIsFullReplay | src/wal/recovery_manager.cpp:89-159 | redo from the computed start under the filter equals applying every record from the first under the page-LSN guard alone |
| Recovery.ReplayAppliesNewer | src/wal/recovery_manager.cpp:123-159 | the guard applies exactly the updates newer than the page was at the start, in log order |
| Recovery.ReplayRestoresBytes | src/wal/recovery_manager.cpp:123-159 | after replay each byte outside the LSN field is that of the last update in the log, newer than the page, whose range covers it, or unchanged when there is none |
| Recovery.ReplayRestoresLsn | src/wal/recovery_manager.cpp:123-159 | and the page LSN is that of the newest update of the page, when one is newer than the page was |
| Recovery.ReplayFrom | src/wal/recovery_manager.cpp:123-159 | replaying a longer or shorter prefix over a replayed page leaves it at the longer of the two |
| Recovery.RedoAgain | src/wal/recovery_manager.cpp:98-159 | rerunning redo after a crash that left each page at any intermediate state, with whatever checksum its last write stamped, gives the same page bodies |
| Recovery.RedoSurvivesCrashes | src/wal/recovery_manager.cpp:98-159 | and so after any number of crashes during redo |
| Recovery.ReplaySame | src/wal/recovery_manager.cpp:123-159 | replay does not look at the checksum field: pages alike in their bodies stay alike |
| Recovery.RunLogQualifies | src/wal/wal_manager.cpp:28-113 | the segments of every log run, cut after any record, have positive increasing LSNs, as recovery relies on |
| Recovery.LosersExact | include/klyro/wal/transaction_table.hpp:21-50 | the losers are exactly the transactions whose last word in the log is neither commit nor end |
| Recovery.EntryExact | include/klyro/wal/transaction_table.hpp:21-33 | an entry's state and last LSN are its transaction's last record's, and its undo LSN is the first since the log last ended the transaction |
| Recovery.RedoStartLsn | include/klyro/wal/dirty_page_table.hpp:24-32 | the smallest LSN in the table, or the largest LSN of all for an empty table |
| Recovery.RecoveryManager.PhaseAnalysis | src/wal/recovery_manager.cpp:36-96 | the scan builds the dirty-page and transaction tables of the whole log and the redo start |
| Recovery.RecoveryManager.NoteRecord | src/wal/recovery_manager.cpp:54-86 | one record's effect on both tables |
| Recovery.RecoveryManager.PhaseRedo | src/wal/recovery_manager.cpp:98-121 | redoes the log from the start LSN, or from its beginning when no record reaches it |
| Recovery.RecoveryManager.RedoRemaining | src/wal/recovery_manager.cpp:109-118 | every record still to be read is redone in order |
| Recovery.RecoveryManager.RedoRecord | src/wal/recovery_manager.cpp:123-159 | one record under the filter and the page-LSN guard |
| Recovery.RecoveryManager.RedoOnPage | src/wal/recovery_manager.cpp:123-159 | the after-image is at its offset, the LSN is the record's, and every other byte is as before; other records leave the page alone |
| Recovery.RecoveryManager.Recover | src/wal/recovery_manager.cpp:13-121 | from segment bytes cut anywhere to pages whose every byte is as the last newer surviving update left it, and the transaction table of the surviving records |
| BufferPool.ClaimIsIdle | src/storage/buffer_pool.cpp:59-70 | the frame claimed for a miss has no live handle, and none can be claimed exactly when every frame is pinned |
| BufferPool.FetchInv | src/storage/buffer_pool.cpp:37-133 | a fetch, hit or miss, successful or not, keeps the pool's invariant and what callers see |
| BufferPool.FetchExact | src/storage/buffer_pool.cpp:37-133 | it succeeds exactly for a cached page, or one on disk when some frame is unpinned; it pins one frame and leaves every pinned frame alone |
| BufferPool.FetchProtects | src/storage/buffer_pool.cpp:43-133 | the frame fetched counts as accessed and will not be the next victim |
| BufferPool.DropInv | src/storage/page_handle.cpp:46-58 | dropping a handle changes nothing callers see |
| BufferPool.WriteInv | src/storage/page_handle.cpp:34-44 | writing through a handle changes exactly that page |
| BufferPool.FlushPageInv | src/storage/buffer_pool.cpp:146-178 | a flush leaves its page clean and changes nothing callers see |
| BufferPool.StepRefines | src/storage/buffer_pool.cpp:29-208 | each step keeps the page table injective and pin counts equal to live handles, and shows what a plain map of pages would |
| BufferPool.RunShowsLastWrites | src/storage/buffer_pool.cpp:29-208 | every sequential run shows for each page exactly the last bytes written to it, checksum field aside |
| BufferPool.StepKeepsRule | src/storage/buffer_pool.cpp:89-111 | a step that stamps pages only with handed-out LSNs and appends only into room keeps cached pages at handed-out LSNs and pages on disk at written ones |
| BufferPool.StepPassesRule | src/storage/buffer_pool.cpp:89-208 | the intermediate states of an eviction, a flush or a flush of all pages obey the rule as well |
| BufferPool.RunObeysRule | src/storage/buffer_pool.cpp:161-203 | in every state of every disciplined run, and in every state between the log flush and the page write of its steps, each page on disk has LSN 0 or the LSN of a record in a segment |
| BufferPool.StartOk | src/storage/buffer_pool.cpp:9-27 | a started pool over a readable disk and a truthful log meets what the run theorems ask of the first state |
| BufferPool.FlushAllCleans | src/storage/buffer_pool.cpp:180-208 | flushing pages in any order changes nothing callers see and leaves those pages clean |
| BufferPool.FlushedSurvives | src/storage/buffer_pool.cpp:146-178 | a page flushed before a crash is shown by the next pool as callers last saw it |
| BufferPool.AllFlushedSurvives | src/storage/buffer_pool.cpp:180-208 | after a flush of all pages a crash loses nothing that callers saw |
| BufferPool.BufferPoolManager.FetchPage | src/storage/buffer_pool.cpp:37-133 | the object, with its replacer and log, computes the fetch above |
| BufferPool.BufferPoolManager.PinCached | src/storage/buffer_pool.cpp:43-54 | the hit branch |
| BufferPool.BufferPoolManager.FetchMissing | src/storage/buffer_pool.cpp:56-133 | the miss branch |
| BufferPool.BufferPoolManager.InstallPage | src/storage/buffer_pool.cpp:113-133 | the page read is entered into the table, pinned and counted as accessed |
| BufferPool.BufferPoolManager.ClaimFrame | src/storage/buffer_pool.cpp:59-70 | the free list first, then the clock |
| BufferPool.BufferPoolManager.VacateFrame | src/storage/buffer_pool.cpp:72-111 | the claimed frame's page is written back when dirty and leaves the table |
| BufferPool.BufferPoolManager.ReturnFrame | src/storage/buffer_pool.cpp:115-122 | a failed read gives the frame back |
| BufferPool.BufferPoolManager.WriteBackIfDirty | src/storage/buffer_pool.cpp:161-174 | a dirty page is written back, and at the moment of the write its log record is in a segment |
| BufferPool.BufferPoolManager.WriteToDisk | src/storage/buffer_pool.cpp:98-111 | the one place where a page reaches the disk; it notes whether the log held the page's record at that moment |
| BufferPool.BufferPoolManager.DropHandle | src/storage/buffer_pool.cpp:29-35 | dropping the last handle makes the frame evictable |
| BufferPool.BufferPoolManager.WriteThrough | src/storage/page_handle.cpp:34-44 | the frame holds the new bytes and is dirty |
| BufferPool.BufferPoolManager.FlushOne | src/storage/buffer_pool.cpp:146-178 | the object computes the flush above |
| BufferPool.BufferPoolManager.FlushAll | src/storage/buffer_pool.cpp:180-208 | afterwards no cached page is dirty and callers see what they saw, in whatever order the table is walked, and each page was written after its log record |
| WaitForGraph.FinishNode | src/concurrency/wait_for_graph.cpp:65-91 | a node whose successors are finished can be finished without leaving a cycle behind |
| WaitForGraph.NoCycleLeft | src/concurrency/wait_for_graph.cpp:38-63 | when every node is finished the graph has no cycle |
| WaitForGraph.PathReachesCycle | src/concurrency/wait_for_graph.cpp:65-91 | everything on a closed search path reaches a cycle |
| WaitForGraph.SearchFinds | src/concurrency/wait_for_graph.cpp:38-91 | under every iteration order the whole search finds a path without repeats that closes a cycle, or there is no cycle |
| WaitForGraph.DfsVisit | src/concurrency/wait_for_graph.cpp:65-91 | the recursive visit terminates and computes the search from a node under any iteration order, restoring stack and path when nothing is found |
| WaitForGraph.Graphs.AddEdge | src/concurrency/wait_for_graph.cpp:6-10 | exactly the new edge is added, and none from a transaction to itself |
| WaitForGraph.Graphs.RemoveEdge | src/concurrency/wait_for_graph.cpp:12-21 | exactly that edge goes, and no node is left without edges |
| WaitForGraph.Graphs.RemoveTransaction | src/concurrency/wait_for_graph.cpp:23-36 | all edges from and to the transaction go, and nodes left without edges |
| WaitForGraph.Graphs.DetectCycle | src/concurrency/wait_for_graph.cpp:38-63 | a victim if and only if the graph has a directed cycle; it is one of the possible answers over all iteration orders and reaches a cycle |
| WaitForGraph.Graphs.Enumerate | src/concurrency/wait_for_graph.cpp:38-72 | whatever order the containers yield, it lists every node and every successor once |
| WaitForGraph.AnswersExact | src/concurrency/wait_for_graph.cpp:38-91 | the possible victims over all iteration orders are exactly the youngest nodes of the simple closing paths |
| WaitForGraph.NoVictimExact | src/concurrency/wait_for_graph.cpp:38-63 | no victim is a possible answer exactly for graphs without a cycle |
| WaitForGraph.VictimDeadlockedExact | src/concurrency/wait_for_graph.cpp:38-91 | every possible victim is on a cycle if and only if each simple closing path from a bystander passes a younger transaction |
| WaitForGraph.NoBystanders | src/concurrency/wait_for_graph.cpp:38-91 | when every transaction that reaches a cycle is on one, the victim is deadlocked |
| WaitForGraph.VictimMayBeABystander | src/concurrency/wait_for_graph.cpp:38-91 | a graph for which an iteration order makes detection answer a transaction that is on no cycle |
| LockManager.CompatibilitySymmetric | include/klyro/concurrency/lock_mode.hpp:16-34 | the compatibility table does not depend on who came first |
| LockManager.CompatibilityExact | include/klyro/concurrency/lock_mode.hpp:16-34 | two modes are compatible exactly when neither reads everything while the other may write, nor writes everything |
| LockManager.ExclusiveIsAlone | src/concurrency/lock_manager.cpp:16-138 | an exclusive holder is the only holder |
| LockManager.AskInv | src/concurrency/lock_manager.cpp:29-69 | a request, upgrade or not, keeps distinct holders compatible and upgrades ahead of newcomers |
| LockManager.WakeExact | src/concurrency/lock_manager.cpp:103-135 | a waiter is granted exactly when it is first, compatible with every holder and holds nothing itself |
| LockManager.GiveUpKeeps | src/concurrency/lock_manager.cpp:118-130 | a timed-out or aborted waiter leaves and the others keep their order |
| LockManager.GiveUpInv | src/concurrency/lock_manager.cpp:118-130 | giving up keeps the invariant |
| LockManager.ReleaseInv | src/concurrency/lock_manager.cpp:140-161 | a release keeps the invariant |
| LockManager.GrantsAreFair | src/concurrency/lock_manager.cpp:63-69 | a non-holder is never granted before an earlier request that is still waiting |
| LockManager.RunOk | src/concurrency/lock_manager.cpp:16-161 | in every state of every run holders are pairwise compatible and newcomers wait in arrival order |
| LockManager.HoldsExact | src/concurrency/lock_manager.cpp:29-161 | after any number of steps of any run a transaction holds a mode exactly when its last grant was of that mode and no release followed |
| LockManager.WaitsExact | src/concurrency/lock_manager.cpp:29-135 | and waits for a mode exactly when its last queued request was for that mode and was neither granted nor given up since |
| LockManager.UnusedIsGranted | src/concurrency/lock_manager.cpp:63-69 | a newcomer on an unused resource is granted at once |
| LockManager.ReleaseServesNext | src/concurrency/lock_manager.cpp:103-161 | after a release the first waiter that holds nothing is granted by its next wake exactly when no queued upgrade stands before it and every remaining holder is compatible |
| LockManager.UpgradeNeverGranted | src/concurrency/lock_manager.cpp:103-113 | in no run does a waiting holder pass the wait predicate: its own lock is in the way |
| LockManager.RepeatedRequestExact | src/concurrency/lock_manager.cpp:29-62 | a granted repeat covers the mode asked for exactly unless an intent-shared holder asked for more, and covers the mode held exactly when the two are equal, compatible or ordered |
| LockManager.ExclusiveHolderDowngraded | src/concurrency/lock_manager.cpp:29-62 | an exclusive holder that asks for a shared lock holds only the shared lock afterwards |
| LockManager.LockTable.Lock | src/concurrency/lock_manager.cpp:29-97 | granted; or aborted as a possible victim with every trace of the request removed; or waiting with its edges added, when detection may answer otherwise |
| LockManager.LockTable.AddWaitEdges | src/concurrency/lock_manager.cpp:71-76 | edges to every other holder and no more |
| LockManager.LockTable.TryWake | src/concurrency/lock_manager.cpp:103-135 | one evaluation of the wait predicate and its grant |
| LockManager.LockTable.StopWaiting | src/concurrency/lock_manager.cpp:118-130 | the request and the transaction's edges are gone |
| LockManager.LockTable.Unlock | src/concurrency/lock_manager.cpp:140-161 | the transaction holds nothing there afterwards, every other holder keeps its mode and the queue its order, other resources are untouched, and an unused entry is forgotten |
| LockManager.CheckOthers | src/concurrency/lock_manager.cpp:44-52 | an upgrade looks at every other holder |
| Mvcc.StepKeepsRead | src/storage/table_heap.cpp:110-138 | one step of another transaction leaves every read of an existing record as it was |
| Mvcc.RepeatableRead | src/transaction/visibility.cpp:7-57 | in every run a read of one record with one snapshot gives the same answer at any two steps between which the reader does nothing |
| Mvcc.FinishedIsFrozen | src/transaction/snapshot.cpp:10-20 | what a snapshot calls finished keeps its state for ever |
| Mvcc.VisibilityExact | src/transaction/visibility.cpp:7-57 | at any later step: the creator is the reader or had committed before the snapshot, and the deleter is neither |
| Mvcc.DeleterNeverChanges | src/storage/table_heap.cpp:140-259 | a version's deleter is set by at most one transaction |
| Mvcc.LaterUpdatersRefused | src/storage/table_heap.cpp:140-259 | once a version has a deleter every other transaction's update or erase of it is refused, even after an abort |
| Mvcc.ChainsOkStep | src/storage/table_heap.cpp:140-259 | a step whose writer sees its target keeps every chain linear, acyclic and properly linked |
| Mvcc.RunChainsOk | src/storage/table_heap.cpp:26-259 | and so in every state of every disciplined run |
| Mvcc.AtMostOneVisible | src/storage/table_heap.cpp:110-138 | at most one version of a chain is visible to a reader |
| Mvcc.LookupFindsVisible | src/storage/table_heap.cpp:110-138 | the walk returns a visible version of the chain and fails exactly when there is none |
| Mvcc.ChainComplete | src/storage/table_heap.cpp:110-138 | the walk ends only where a version has no predecessor |
| Mvcc.RunReadsTheVisibleVersion | src/storage/table_heap.cpp:110-138 | in any disciplined run a read from the head returns the one version its reader sees |
| Mvcc.UpdatingTwiceForks | src/storage/table_heap.cpp:140-221 | two updates of one version by one transaction leave two versions, both visible to it |
| Mvcc.WrittenStays | src/storage/table_heap.cpp:26-221 | a version keeps for ever the creator, the data and the predecessor of the insert or update that wrote it |
| Mvcc.SlotsExact | src/storage/table_heap.cpp:26-221 | the versions there are at any step are those at the start and those written since |
| Mvcc.DeleterExact | src/storage/table_heap.cpp:140-259 | a version's deleter is exactly the transaction whose update or erase of it went through |
| Mvcc.OpenExact | src/transaction/transaction_manager.cpp:12-106 | a transaction is active exactly when it began and neither committed nor aborted since |
| Mvcc.CommittedExact | src/transaction/transaction_manager.cpp:37-64 | a transaction has committed exactly when the commit of an active one went through |
| Mvcc.ReadsOwnWrite | src/storage/table_heap.cpp:26-221 | a transaction reads the data it has just inserted or updated, under every snapshot |
| Mvcc.OwnDeletionSeen | src/storage/table_heap.cpp:140-259 | and no longer sees the version it has just erased or replaced |
| Mvcc.WrittenVisibleExact | src/transaction/visibility.cpp:7-57 | the version a step wrote is visible exactly when its writer is the reader or had committed at the snapshot and nobody of whom that holds has deleted it since |
| Mvcc.ReadsCommittedWrite | src/storage/table_heap.cpp:110-138 | and then a read of it returns the data argument of that step |
| Mvcc.DeletedIsGone | src/storage/table_heap.cpp:223-259 | an erased or replaced version is invisible under every snapshot taken after the commit |
| Mvcc.GoneWithItsPast | src/storage/table_heap.cpp:110-138 | and in well-linked chains a read of it finds nothing: its predecessors are invisible too |
| Mvcc.LinearExact | src/storage/table_heap.cpp:140-221 | a step from linear chains keeps them linear if and only if it is not an update, going through, of a version that already has a successor |
| Mvcc.LinearRunExact | src/storage/table_heap.cpp:26-259 | the chains are linear after any number of steps of any run if and only if they were at the start and no step forked one |
| Transactions.GetActive | src/transaction/transaction_registry.cpp:42-51 | exactly the unfinished transactions |
| Transactions.GetOldestActive | src/transaction/transaction_registry.cpp:53-64 | the smallest unfinished id, or the invalid id when there is none |
| Transactions.SortActive | src/transaction/transaction_manager.cpp:119-133 | a sorted permutation |
| Transactions.SearchActive | src/transaction/snapshot.cpp:10-20 | the binary search decides membership between the bounds |
| Transactions.TransactionManager.BeginTxn | src/transaction/transaction_manager.cpp:12-35 | the begin step of the run model |
| Transactions.TransactionManager.CommitTxn | src/transaction/transaction_manager.cpp:37-64 | the commit step, refused unless the transaction is active |
| Transactions.TransactionManager.AbortTxn | src/transaction/transaction_manager.cpp:66-106 | the abort step, refused unless the transaction is active |
| Transactions.TransactionManager.CreateSnapshot | src/transaction/transaction_manager.cpp:119-133 | bounds and sorted active list of the registry as it stands |
| Transactions.TableHeap.InsertRecord | src/storage/table_heap.cpp:26-97 | the insert step of the run model; its transaction reads the new data under every snapshot |
| Transactions.TableHeap.GetRecord | src/storage/table_heap.cpp:110-138 | the loop terminates on acyclic chains and computes the walk above |
| Transactions.TableHeap.UpdateRecord | src/storage/table_heap.cpp:140-221 | the update step with its three refusals; its transaction reads the new data under every snapshot; without room the old version stays marked |
| Transactions.TableHeap.EraseRecord | src/storage/table_heap.cpp:223-259 | the erase step with its refusals |
| SlottedPages.SortLive | src/storage/table_page.cpp:203-220 | every live slot once, by descending offset |
| SlottedPages.MoveStep | src/storage/table_page.cpp:228-237 | moving the next record up against the cursor keeps every live record's bytes |
| SlottedPages.Repack | src/index/bplus_tree_node.cpp:78-116 | in-place packing keeps every live slot's bytes and leaves no free byte above the new bound; both page kinds use it |
| SlottedPages.MoveOne | src/storage/table_page.cpp:228-237 | one move through the temporary copy |
| SlottedPages.MoveBytes | src/storage/table_page.cpp:228-237 | the bytes end up at the new place whatever the overlap |
| SlottedPages.LiveBytesFit | src/storage/table_page.cpp:197-249 | records that do not overlap need their total length: no arrangement holds more |
| TablePages.TablePage.constructor | src/storage/table_page.cpp:12-26 | an empty page |
| TablePages.TablePage.Insert | src/storage/table_page.cpp:57-113 | the first dead slot or a new one gets the record; refused exactly when too large or when the gap is too small |
| TablePages.TablePage.Get | src/storage/table_page.cpp:115-134 | the bytes of a live slot of this page, or which error |
| TablePages.TablePage.EraseSlot | src/storage/table_page.cpp:136-154 | exactly that record goes |
| TablePages.TablePage.Update | src/storage/table_page.cpp:156-195 | exactly that record changes, in place or moved; refused exactly when it grows beyond the gap |
| TablePages.TablePage.Compact | src/storage/table_page.cpp:197-249 | every live id keeps its bytes, all dead bytes and trailing dead slots are reclaimed |
| TablePages.TablePage.TrimDirectory | src/storage/table_page.cpp:241-245 | only the dead tail of the directory goes |
| TablePages.RefusedMeansFull | src/storage/table_page.cpp:57-86 | on a compacted page an insertion is refused only when no arrangement of the page could hold it |
| ByteOrder.BelowTotal | src/index/bplus_tree_leaf.cpp:52-69 | the byte comparison is a strict total order |
| ByteOrder.BelowTransitive | src/index/bplus_tree_leaf.cpp:52-69 | and transitive |
| ByteOrder.BelowExact | src/index/bplus_tree_leaf.cpp:52-69 | the first byte that differs decides, and without one the shorter string comes first |
| IndexEntries.CompareKeys | src/index/bplus_tree_leaf.cpp:54-64 | the comparison loop decides below, equal or above |
| IndexEntries.WithSorted | src/index/bplus_tree_leaf.cpp:73-120 | inserting before the first larger key keeps the order |
| IndexEntries.WithForKey | src/index/bplus_tree_leaf.cpp:86-98 | a new entry becomes the last of its key's entries |
| IndexEntries.WithoutFirstForKey | src/index/bplus_tree_leaf.cpp:122-144 | a removal takes the oldest match from its key's entries and no other |
| IndexEntries.SortedUnique | src/index/bplus_tree_leaf.cpp:50-144 | a sorted leaf is determined by what it holds for each key |
| IndexEntries.RunIsSortedMultimap | src/index/bplus_tree_leaf.cpp:73-144 | every run of insertions and removals leaves the sorted list with each key's entries in insertion order |
| IndexEntries.SplitSeparates | src/index/bplus_tree_leaf.cpp:170-191 | both halves of a cut sorted list are sorted and the key at the cut separates them |
| BPlusLeaves.EntryRoundTrip | src/index/bplus_tree_leaf.cpp:100-106 | an entry's key and record id are read back from its bytes |
| BPlusLeaves.Leaf.constructor | src/index/bplus_tree_leaf.cpp:12-24 | an empty leaf |
| BPlusLeaves.Leaf.KeyAt | src/index/bplus_tree_leaf.cpp:146-150 | the key of the entry at a position |
| BPlusLeaves.Leaf.RecordIdAt | src/index/bplus_tree_leaf.cpp:152-161 | the record id of the entry at a position |
| BPlusLeaves.Leaf.FindLowerBound | src/index/bplus_tree_leaf.cpp:26-71 | the first position not below the key, exact if and only if the leaf holds the key |
| BPlusLeaves.Leaf.FindInsertPosition | src/index/bplus_tree_leaf.cpp:85-98 | the first position above the key |
| BPlusLeaves.Leaf.Insert | src/index/bplus_tree_leaf.cpp:73-120 | the entry goes after all entries not above it; refused if and only if it does not fit even after compaction, and then nothing is lost |
| BPlusLeaves.Leaf.Place | src/index/bplus_tree_leaf.cpp:100-119 | shifting the directory and writing the bytes inserts exactly that entry |
| BPlusLeaves.Leaf.MakeSlotRoom | src/index/bplus_tree_node.cpp:54-63 | the slots from the position on move one place right |
| BPlusLeaves.Leaf.WriteEntry | src/index/bplus_tree_node.cpp:44-52 | the bytes are written just below the used area |
| BPlusLeaves.Leaf.EraseSlot | src/index/bplus_tree_node.cpp:65-74 | the slots after the position move one place left |
| BPlusLeaves.Leaf.Remove | src/index/bplus_tree_leaf.cpp:122-144 | removes the first equal entry, and answers whether there was one |
| BPlusLeaves.Leaf.FindEntry | src/index/bplus_tree_leaf.cpp:122-144 | scanning the equal keys finds the first equal entry of the whole leaf |
| BPlusLeaves.Leaf.ScanEqual | src/index/bplus_tree_leaf.cpp:126-143 | the scan over equal keys |
| BPlusLeaves.Leaf.Compact | src/index/bplus_tree_node.cpp:76-116 | the entries are unchanged and all free bytes are in the gap |
| BPlusLeaves.Leaf.Split | src/index/bplus_tree_leaf.cpp:170-191 | left then right entries are the old entries, the lower half stays, and left keys <= separator <= right keys |
| BPlusLeaves.Leaf.CopyFrom | src/index/bplus_tree_leaf.cpp:171-181 | inserting the upper half into the fresh leaf never fails and copies it exactly |
| BPlusLeaves.Leaf.Truncate | src/index/bplus_tree_leaf.cpp:185-188 | the lower half stays; the directory bound does not shrink |
| Parser.ParsesToItself | src/sql/parser.cpp:76-153 | the tokens of a proper tree bring the climbing loop to exactly that tree |
| Parser.ExpressionSound | src/sql/parser.cpp:76-153 | every successful parse is a proper tree that stops where nothing continues it, and what it consumed is the tree's tokens up to the bare stars in it |
| Parser.ConsumedExact | src/sql/parser.cpp:76-153 | a successful parse consumed exactly its tree's tokens if and only if there is no bare star among the tokens it consumed |
| Parser.TokensNoBareStar | src/sql/parser.cpp:107-131 | the tokens of a proper tree hold no bare star |
| Parser.PrecedenceTheorem | src/sql/parser.cpp:53-153 | a tree of the grammar's layer k, written out and followed by anything, is read back with the rest left over if and only if the rest starts with no operator of class k or tighter and opens no call |
| Parser.ProperIsDerived | src/sql/parser.cpp:53-153 | the trees the parser can return are exactly those of the layered grammar over the six operator classes |
| Parser.TwoOperators | src/sql/parser.cpp:53-93 | of two operators in a row the first groups first exactly when its class is the second's or a tighter one |
| Parser.OperandForms | src/sql/parser.cpp:95-145 | what single tokens, prefixed operands and calls of two arguments parse to |
| Parser.ParseReadsLayer | src/sql/parser.cpp:76-93 | a successful parse at a precedence is a tree of that layer, not continued by the rest, and consumed its tokens if and only if it consumed no bare star |
| Parser.ParseIsTheDerivation | src/sql/parser.cpp:76-153 | for all tokens: without bare stars, the parse is the grammar's tree written at the front |
| Parser.TreeReadBack | src/sql/parser.cpp:76-153 | the same round trip in terms of precedences |
| Parser.ParseIsTheTree | src/sql/parser.cpp:76-153 | for all tokens: the parse is this tree with this rest, no bare star consumed, if and only if the tree is proper, written at the front, and the rest does not continue it |
| Parser.Unambiguous | src/sql/parser.cpp:53-74 | no token list is the writing of two proper trees |
| Parser.BareStarForgotten | src/sql/parser.cpp:117-120 | `f(*)` parses to the tree of `f()` |
| Parser.SqlParser.Check | src/sql/parser.cpp:30-33 | compares with the next token, false at the end |
| Parser.SqlParser.Advance | src/sql/parser.cpp:35-38 | takes the next token |
| Parser.SqlParser.Match | src/sql/parser.cpp:40-46 | takes the next token if it is the given one |
| Parser.SqlParser.ParseExpression | src/sql/parser.cpp:76-93 | the loop over infix operators computes the parse of the remaining tokens, a tree of the grammar's layer for that precedence, and leaves the cursor behind it |
| Parser.SqlParser.ParsePrefix | src/sql/parser.cpp:95-145 | likewise for prefix forms |
| Parser.SqlParser.ParseCallTail | src/sql/parser.cpp:107-131 | likewise for the inside of a call |
| Parser.SqlParser.ParseArguments | src/sql/parser.cpp:115-125 | likewise for the argument loop, which a star ends |
| Parser.SqlParser.ParseInfix | src/sql/parser.cpp:147-153 | likewise for the right operand at the operator's precedence |
| Decimals.ScaleUp | src/types/decimal.cpp:12-29 | the exact product with the power of ten, refused exactly beyond 18 digits or 64 bits |
| Decimals.EqualsExact | src/types/decimal.cpp:33-46 | equality is that of the rationals if and only if the operands are not two zeros with scales more than 18 apart |
| Decimals.LessExact | src/types/decimal.cpp:48-59 | the order is that of the rationals except exactly for such a zero below a positive or above a negative number |
| Decimals.FarZerosMiscompared | src/types/decimal.cpp:33-59 | two concrete pairs that compare wrongly |
| Decimals.AddSubExact | src/types/decimal.cpp:61-92 | sum and difference are exact at the larger scale, and refused exactly when an operand at that scale or the result overflows |
| Decimals.MulExact | src/types/decimal.cpp:94-112 | refused exactly when the coefficient overflows; otherwise exact if and only if the scales add up within a byte or the product is zero |
| Decimals.DivTruncates | src/types/decimal.cpp:114-131 | refused exactly for a zero divisor or a dividend without room for six digits; otherwise within one last-place unit of the quotient, toward zero |
| Decimals.QuotientFits | src/types/decimal.cpp:119-128 | the 64-bit division never overflows |
| Values.SortKeys | src/types/type_serializer.cpp:127-129 | whatever order the dictionary yields its keys in, the sorted list is the same |
| Values.TypeCodes | include/klyro/types/type_id.hpp:8-43 | the stored code of every type |
| Values.TwosComplement | src/types/type_serializer.cpp:41-112 | signed numbers are stored in two's complement |
| Values.PartsLayout | src/types/type_serializer.cpp:41-112 | a decimal is its coefficient then its scale, an interval its months, days and microseconds |
| Values.NestedLayout | src/types/type_serializer.cpp:113-144 | a nested value is its type code, its length and its bytes, and a pair its key's length, its key and its value |
| Values.RoundTrip | src/types/type_serializer.cpp:41-260 | a plain value at any depth of nesting is read back from its own bytes |
| Values.RoundTripExact | src/types/type_serializer.cpp:41-260 | reading inverts writing if and only if the value holds no null, enum, JSON or zoned timestamp and its arrays name no element type |
| Values.ReadBackPlain | src/types/type_serializer.cpp:41-260 | a value that is read back from its own bytes is plain, at any depth of nesting |
| Values.JsonBecomesString | src/types/type_serializer.cpp:208-209 | no JSON value is read back: its rendering returns as the text of a JSON string |
| Values.DecodedIsProducible | src/types/type_serializer.cpp:154-260 | everything that can be read is plain up to the JSON strings made of stored JSON |
| Values.DecodeNeeds | src/types/type_serializer.cpp:154-260 | a plain value is never read from fewer bytes than writing it produces |
| Values.EqualBytes | src/types/type_serializer.cpp:41-152 | plain values of one type have equal bytes exactly when they are equal |
| Values.Serialize | src/types/type_serializer.cpp:41-152 | the recursive writer computes the byte form |
| Values.SerializeItems | src/types/type_serializer.cpp:113-125 | the loop over array elements appends each element's form |
| Values.SerializePairs | src/types/type_serializer.cpp:126-144 | the loop over sorted keys appends each pair's form |
| Values.Deserialize | src/types/type_serializer.cpp:154-260 | the recursive reader computes the inverse, or fails where it does |
| Values.DeserializeItem | src/types/type_serializer.cpp:216-226 | one nested value at an offset, with its three bounds checks |
| Values.DeserializeItems | src/types/type_serializer.cpp:210-229 | the loop over array elements |
| Values.DeserializePairs | src/types/type_serializer.cpp:230-256 | the loop over pairs, a later key replacing an earlier one |
| IndexKeys.KeyRoundTrip | src/index/index_key.cpp:40-105 | a composite key with NULLs is read back from its bytes and its column types |
| IndexKeys.KeyBytesIdentify | src/index/index_key.cpp:40-63 | for fixed column types two keys have equal bytes exactly when they are the same key |
| IndexKeys.SerializeKey | src/index/index_key.cpp:40-63 | the loop writes count, then length and bytes or the NULL mark for each value |
| IndexKeys.SerializePart | src/index/index_key.cpp:49-60 | one value, or the NULL mark |
| IndexKeys.DeserializeKey | src/index/index_key.cpp:65-105 | the loop reads the values back, failing on a count beyond the columns or a short buffer |
| IndexKeys.DeserializePart | src/index/index_key.cpp:79-102 | one value or NULL at an offset |
| Records.TupleLayout.AddColumn | src/storage/tuple_layout.cpp:6-23 | fixed columns get consecutive offsets; variable columns are counted |
| Records.FieldIsRight | src/storage/record_view.cpp:78-122 | NULL and fixed-length fields are found again in every stored row, variable-length ones when none of them is NULL |
| Records.StartExact | src/storage/record_view.cpp:57-64 | the reader looks for a variable field where the writer put it if and only if no variable field is NULL, else four bytes further per NULL one |
| Records.LastFieldExact | src/storage/record_view.cpp:78-122 | the last present variable field is read without as many first bytes as the offset array is short, or refused when it has fewer |
| Records.RowReadBackExact | src/storage/record_view.cpp:78-122 | all fields of a stored row are found again if and only if its variable-length fields are all present or all NULL |
| Records.TextBeforeNullIsCut | src/storage/record_view.cpp:90-121 | any text of four bytes or more followed by a NULL text is read without its first four bytes |
| RecordSerializer.FieldRoundTrip | src/storage/record_view.cpp:78-122 | NULL and fixed-length values are read back from every stored row, variable-length ones when none of them is NULL |
| RecordSerializer.LastFieldLost | src/storage/record_view.cpp:78-122 | the last present variable value of a mixed row is never read back |
| RecordSerializer.RowRoundTripExact | src/storage/record_view.cpp:78-122 | a stored row is read back value by value if and only if its variable-length fields are all present or all NULL |
| RecordSerializer.WriteBitmap | src/storage/record_serializer.cpp:53-66 | bit i is set exactly when field i is NULL |
| RecordSerializer.WriteFixed | src/storage/record_serializer.cpp:67-82 | the zeroed area with each present field copied to its offset is the fields one after another; refused exactly on a wrong size |
| RecordSerializer.CountActive | src/storage/record_serializer.cpp:88-95 | the present variable fields are counted |
| RecordSerializer.WriteVariable | src/storage/record_serializer.cpp:84-128 | the offset array and the data of the present variable fields, each offset pointing at its data |
| RecordSerializer.HasNulls | src/storage/record_serializer.cpp:39-45 | whether any field is NULL |
| RecordSerializer.SerializeRow | src/storage/record_serializer.cpp:32-149 | header, bitmap, fixed area, offsets and data of the row; refused exactly for a wrong field count or a field that cannot be stored |
| RecordSerializer.RecordView.Open | src/storage/record_view.cpp:34-65 | refused exactly when shorter than a header |
| RecordSerializer.RecordView.FieldIsNull | src/storage/record_view.cpp:67-76 | the bitmap bit of a field |
| RecordSerializer.RecordView.Field | src/storage/record_view.cpp:78-122 | the lazy reader computes the field above |
| RecordSerializer.RecordView.CountBefore | src/storage/record_view.cpp:90-96 | how many present variable fields come before |
| RecordSerializer.RecordView.FindNext | src/storage/record_view.cpp:101-115 | where the next present variable field starts, as the reader computes it |

## Left out

- Recovery undo and transaction rollback: the undo LSN keeps the first LSN seen and rolling back a transaction's records is an empty loop, so there is no law to prove.
- Checkpoints: the end record carries no tables; the model recovers from the first record.
- The B+ tree above its leaves: a new root's first child is overwritten, so no refinement of the tree holds as coded.
- Disk errors other than a failed read in a fetch, a pool without a log manager, page allocation, and moves of page handles. The pool's disk is a map of pages in the disk manager's stored form.
- Segment files and directories: a segment is its record area as bytes, and opening it succeeds.
- Threads: every operation, and every stretch of the lock manager under its lock, is one step; sharding and wake-ups are not modelled.
- Liveness of waiting requests, beyond the queued upgrades that are never granted.
- Stale wait-for edges between graph updates of different resources.
- Wrap-around of 64-bit LSNs and transaction ids.
- Slot directories as bytes: the directory is a field of slots beside the page's byte array, at its real size; the other header fields of table and index pages are fields too.
- Version bytes inside a row: a stored row's version fields are a parameter, and the heap keeps versions as records with payloads.
- Choice of the page that receives a new row: the slot is a parameter of the heap's steps.
- Transactions.TableHeap.GetRecord: proved on acyclic chains, which disciplined runs keep; on a cyclic chain the code's walk does not end.
- Recovery.RecoveryManager.Recover: asks for positive increasing LSNs, which every log run has (`RunLogQualifies`), and after-images within the page, because the code copies without checking; undo is not part of it.
- BufferPool.RunObeysRule: for runs whose appends find room in the log buffer and whose writes put a handed-out LSN or 0 into the page; `WriteAheadLog.AppendPromiseExact` shows what a full buffer breaks. Page 0 is exempt: it holds the file header and no page LSN.
- BPlusLeaves.Leaf.Split: asks for a non-empty leaf and a fresh one of the same page size, because the code reads the middle slot unconditionally and ignores a refused insertion.
- Values.RoundTripExact: for values whose lengths and counts fit their four-byte fields, because the code truncates longer ones.
- Records.FieldIsRight: for layouts without columns typed NULL or INVALID, which hold no values and are not counted as variable.
- Decimals.DivTruncates: says nothing of quotients whose scale leaves a byte.
- JSON trees: a JSON value is its rendering, which is all that its equality, its hash and its byte form use; path lookups and updates are not modelled.
- Values of columns typed NULL or INVALID.
- Reads outside the bytes of a malformed row: undefined in the code, an error here.
- Statements other than expressions, the lexer, the conversion of integer literals, and tree printing.
- Key values in index leaves: leaves hold key bytes; that reading and rewriting a key keeps its bytes is `IndexKeys.KeyRoundTrip`.
- API, Python bindings, logging, binder, planner, catalog, sessions and worker pools: wrappers and bookkeeping that would only add easy members.
