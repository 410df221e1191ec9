# ReactFS core, modelled and proved

ReactFS keeps data in block files. A block is an append-only log of records in a memory-mapped region, written
under transactions; an indexed block adds a second mapped region of fixed-size entries that leads straight to a
record. Processes coordinate through lock records in shared memory. This project models those parts in Dafny and
proves what they keep over all runs.

The project has two layers. Pure modules (`RecordLog`, `RecordIndex`, `IndexedLog`, `LockProtocol`, `LockTables`,
...) say what each operation makes of an abstract state, and hold the theorems over whole runs of operations; three of
them (`LogEffects`, `IndexedEffects`, `LockEffects`) state the caller's side, on the fields of the state alone: when an
operation is accepted, what it leaves, what a search or read finds afterwards, and how long a lock lasts. Classes
(`BaseBlock`, `BlockIndex`, `IndexedBlock`, `SharedRecord`, `ReadWriteLock`, `LockTable`, `Semaphore`, `ExclusiveLock`,
`BucketPage`, `EnvLog`, `Bitset`) do the work in place, on arrays at the source's own byte offsets, with the source's
loops, and every method is proved to do exactly what the abstract operation says. A check that throws is a `Result`; a
step that would leave the mapped region, which the source does not check, is a `requires`.

| file | what it holds |
|---|---|
| `RecordLog.dfy`, `RecordLayout.dfy`, `BaseBlock.dfy`, `LogRuns.dfy`, `LogEffects.dfy` | the plain block: abstract log, byte layout, the class, theorems over runs, what its callers can rely on |
| `RecordIndex.dfy`, `BlockIndex.dfy` | the index: abstract entries, the class |
| `IndexedLog.dfy`, `IndexedBlock.dfy`, `IndexedEffects.dfy` | the coupled pair: theorems over runs, the class, what its callers can rely on |
| `LockProtocol.dfy`, `ReadWriteLock.dfy`, `LockEffects.dfy` | the read/write lock between processes: theorems over runs, the classes, what its clients can rely on |
| `ManagerRun.dfy` | the manager's sweeps and resets beside the clients, look by look |
| `SlotRace.dfy` | a release and the manager's sweep at one reader slot, access by access |
| `LockTable.dfy`, `ExclusiveLock.dfy` | the table of lock records; the semaphore lock, access by access |
| `HashBucket.dfy`, `ByteCodec.dfy`, `EnvLog.dfy`, `Bitset.dfy`, `Primes.dfy` | hash bucket, string codec, environment log, bit allocator, prime search |
| `Outcomes.dfy`, `Words.dfy`, `Division.dfy` | results and errors, the widths of unsigned numbers, facts about division |

## Where the code differs from what it is for

The model follows the code. Where that makes a wanted property false, a concrete run or input shows it, and a lemma
says exactly when the property holds.

- A record can be staged for deletion twice in one transaction, and counts twice
  (`LogRuns.RepeatedDeleteBreaksSanity`). The sanity check of a block passes after a run exactly when the repeated and
  uncommitted deletes that its commits carried out are a multiple of 2^32, and there are none exactly when every commit was
  clean (`LogRuns.SaneExactlyWhenCommitsAreClean`).
- The range test of a delete admits the first uncommitted number. On an indexed block such a delete ends with the
  entry deleted and the record readable (`IndexedLog.DeleteOfPendingSplits`, `IndexedLog.CommitAgreesExactly`).
- `get_free_space` falls back to the committed figure once the transaction's own is used up
  (`LogRuns.FallBackOverfills`, `LogRuns.WriteKeepsBudgetExactly`); and record headers are not counted, so small
  records run past the mapped region (`LogRuns.SmallRecordsRunPastTheRegion`, `LogRuns.WriteStaysInsideExactly`,
  `LogRuns.RunStaysInsideExactly`).
- The free space of an index subtracts the file header, which the size does not include, and the growth factor 15/10
  is an integer division: an index takes four entries fewer than estimated (`RecordIndex.CapacityIsFourShort`), and one
  estimated for fewer than four records wraps around (`RecordIndex.TinyIndexOverruns`). When the index refuses an
  entry the record stays pending without one; committing then puts log and index out of step for good
  (`IndexedLog.CommitPublishesUnindexed`, `IndexedLog.InStepExactlyWhenCommitsAre`, `IndexedLog.OutOfStepForGood`).
- Asked for readable records, the sequential read returns deleted ones too; the indexed read does not
  (`IndexedLog.ScanReturnsDeleted`, `IndexedLog.ReadableReadsDiffer`).
- Starting a transaction again inside one drops its pending records but keeps its staged deletes
  (`LogRuns.RestartKeepsDelete`, `LogRuns.RestartIsAFreshStartExactly`).
- An exclusive lock is posted before its owner is cleared. A thread of the same process that is let through in between
  can have what it has written cleared by the thread that leaves, and the lock is lost
  (`ExclusiveLocks.LateClearingLosesTheLock`, `ExclusiveLocks.BalancedExactly`); a thread of another process and the one that
  leaves both find themselves with the lock for a while (`ExclusiveLocks.TwoFindThemselvesWithTheLock`,
  `ExclusiveLocks.MutualExclusion`). The end of an inner guard gives up the outer hold
  (`ExclusiveLocks.InnerGuardEndsTheHold`).
- The manager's sweep looks at the first slot's time stamp for every reader slot
  (`LockProtocol.LiveReaderIsSwept`, `LockProtocol.SweepIsFairExactly`). After an expiry a stale release can free
  another reader's slot and let a writer in beside that reader (`LockProtocol.StrayReleaseAdmitsWriter`), and a process
  whose write lease expired can never write-lock again (`LockProtocol.LeaseIsLost`, `LockProtocol.LostLeaseIsForGood`).
- Sweep and reset take no lock. A sweep and a release at the same slot can both lower the count
  (`SlotRaces.CrossingWrapsTheCount`, `SlotRaces.CountIsRightExactly`); a reset can store a count that misses a reader
  (`ManagerRuns.LateRecountAdmitsWriter`, `ManagerRuns.RecountIsRightExactly`, `ManagerRuns.RunStaysSoundExactly`); and a
  writer that locks between the manager's look at a lease and its clearing loses a fresh lease
  (`ManagerRuns.FreshLeaseIsCleared`, `ManagerRuns.CondemnedIsClearedExactly`).
- `write_lock` is documented as reentrant and refuses a second call (`LockProtocol.WriteLockSucceedsExactly`).
- `add_lock` takes a free record before the one that has the name, so a name can be registered twice
  (`LockTables.NameIsDoubled`, `LockTables.AddKeepsNamesDistinctExactly`).
- The space check of the environment log leaves the 64-byte key out (`EnvLogs.AcceptedRecordOverruns`); keys that fill
  the key field or hold a zero byte come back changed after a restart (`EnvLogs.KeySurvivesExactly`); and the loader
  does not reach records that begin at 4 GiB or beyond (`EnvLogs.LoadReadsTheLogExactly`).
- Writing a string clears one byte after it (`ByteCodec.WriteStringSpills`), and a string whose length and closing zero do
  not fit the length prefix is cut (`ByteCodec.RoundTripExactly`).
- A mapped bit set counts its bits in 16 bits; one of more than 65504 bits, mapped again, has none
  (`Bitsets.MappedAgain`).

## Model

| member | source | states |
|---|---|---|
| IndexedLog.SoundExactlyWhenCommitsAreClean | core/src/base_indexed_block.cpp:96-195 | after every run of start, write, delete, commit, rollback, finish and archive on a new indexed block, index and log stay linked; clean commits leave entry and record states in agreement; when they agree, the sanity check passes if and only if no commit published a record without entry and the wrong deletes are a multiple of 2^32; below 2^32 of them, agreement and sanity hold if and only if there was neither |
| IndexedLog.DeleteOfPendingSplits | core/src/base_indexed_block.cpp:101-124 | a run on a new block that ends with an entry deleted and its record readable |
| IndexedLog.CommitPublishesUnindexed | core/src/base_indexed_block.cpp:7-19 | a run on a new block that ends with two records and one entry |
| IndexedLog.ScanReturnsDeleted | core/src/base_block.cpp:383-401 | a run after which the sequential read returns a deleted record as readable and the indexed read does not |
| IndexedLog.RunKeepsAligned | core/src/base_indexed_block.cpp:7-31 | every run keeps each entry numbered in turn and pointing at the offset and size of the record with its number; the index can fall behind only when full |
| IndexedLog.InStepExactlyWhenCommitsAre | core/src/base_indexed_block.cpp:96-132 | log and index hold equally many records after a run if and only if no commit of the run was made while a record was pending without its entry |
| IndexedLog.OutOfStepForGood | core/src/base_indexed_block.cpp:7-19 | once out of step, no later run of operations brings log and index back together |
| IndexedLog.RunRefinesPlain | core/src/base_indexed_block.cpp:7-141 | over every run, the log of an indexed block is the log a plain block would have under the corresponding operations |
| IndexedLog.CommitAgreesExactly | core/src/base_indexed_block.cpp:101-124 | a commit keeps entry and record states in agreement if and only if it carries out no delete of a pending record |
| IndexedLog.AlwaysAgreeExactly | core/src/base_indexed_block.cpp:96-132 | entry and record states agree at every moment of a run if and only if no commit of it carries out a delete of a pending record |
| IndexedLog.PendingStageSplits | core/src/base_indexed_block.cpp:101-124 | the only pending record that can be staged is the first of an empty block, and it ends readable with its entry deleted |
| IndexedLog.DriftOverRun | core/src/base_indexed_block.cpp:101-111 | over a run the deleted counter runs ahead of the deleted records by exactly the repeated and uncommitted deletes carried out, which are none if and only if every commit's stage was clean |
| IndexedLog.WriteKeepsAligned | core/src/base_indexed_block.cpp:7-19 | a write whose record was accepted is entered in the index if and only if the index is not full |
| IndexedLog.ReadersSeeOnlyCommits | core/src/base_indexed_block.cpp:33-94 | without a commit no run changes the committed records or the committed entries |
| IndexedLog.AbandonedWorkLeavesNoTrace | core/src/base_indexed_block.cpp:134-141 | whatever an uncommitted stretch of operations did, abandoning it gives both files back as they were |
| IndexedLog.IndexReadsLikeScan | core/src/base_indexed_block.cpp:60-85 | asked for deleted, dirty or all records, the indexed read selects the records of the sequential read, in order; which these are is `LogEffects.ScansOneState` and `LogEffects.ScansAll` |
| IndexedLog.IndexReadsTheReadable | core/src/base_indexed_block.cpp:60-85 | asked for readable records it selects the first `count` readable ones at or after the number, in order, none skipped |
| IndexedLog.ReadableReadsDiffer | core/src/base_block.cpp:383-401 | the two reads agree on readable records if and only if the window holds no deleted record |
| IndexedLog.NoDirtyRecordIsRead | core/src/base_block.cpp:383-401 | no committed record is ever dirty, so a request for dirty records returns none |
| IndexedLog.EntryHasRoom | core/src/base_block_index.cpp:141-179 | unless the index is out of space, the next record's entry is next in turn and lies in the region |
| IndexedEffects.NewBlock | core/includes/base_indexed_block.h:124-140 | a new indexed block has no record and no entry, and an index for four entries fewer than estimated |
| IndexedEffects.StartsExactly | core/src/base_indexed_block.cpp:26-31 | a start is accepted if and only if the block is updateable and there is an id; both files enter under it, and what was pending in either and staged in the index goes |
| IndexedEffects.WritesExactly | core/src/base_indexed_block.cpp:7-19 | a write is taken by the log if and only if the block is writable, has room and the caller owns the transaction; the entry has the next number, the place behind all records and the payload's length, and is refused if and only if the index has no room for it |
| IndexedEffects.DeletesCommitted | core/includes/base_indexed_block.h:150-173 | a committed record that the index knows, whatever its number, can be deleted if and only if it is readable, the block writable and the caller the owner; the number is staged in the index and nothing else changes |
| IndexedEffects.DeletesNoOther | core/includes/base_indexed_block.h:150-173 | of all other numbers only the first one of an index without committed entries passes, and exactly when |
| IndexedEffects.RefusesDeletes | core/includes/base_indexed_block.h:150-173 | why a delete is refused, in the order of the tests |
| IndexedEffects.CommitsRecords | core/src/base_indexed_block.cpp:96-132 | what a commit makes of the log, record by record: staged ones deleted, pending ones readable, payloads and places kept, and the counters |
| IndexedEffects.CommitsEntries | core/src/base_indexed_block.cpp:96-132 | what a commit makes of the index, entry by entry: staged ones gone, pending ones included, other pending ones live; numbers, offsets and sizes kept |
| IndexedEffects.RollsBackExactly | core/src/base_indexed_block.cpp:134-141 | anyone else's commit or rollback is refused; the owner's rollback drops what is pending and staged in either file and nothing else |
| IndexedEffects.FinishedForGood | core/includes/base_block.h:616-628 | a finished or archived indexed block takes neither writes nor deletes after any run |
| IndexedEffects.ReadsTheWanted | core/src/base_indexed_block.cpp:33-94 | for every requested state the read returns the payloads of the first `count` wanted records at or after the number, in order, none skipped: by the record's state for deleted and dirty ones, all for all, by the entry's state for readable ones; it fails if and only if it has to go on and comes to a record without an entry |
| IndexedEffects.SaneIsARecount | core/src/base_indexed_block.cpp:164-195 | what the sanity check compares: one entry for each record, the total with the records, the deleted counter with the number of entries not live, in 32 bits |
| IndexedBlocks.IndexedBlock.LookupAgreesWithScan | core/src/base_block.cpp:226-275 | for every committed number the entry leads to the very offset where the linear scan ends, its size is the record's, and entry and record states agree when the files do |
| IndexedBlocks.IndexedBlock.constructor | core/includes/base_indexed_block.h:124-140 | a new indexed block is valid and has the fresh state of both files |
| IndexedBlocks.IndexedBlock.StartTransaction | core/src/base_indexed_block.cpp:26-31 | both files start the transaction with one id, or nothing changes |
| IndexedBlocks.IndexedBlock.WriteRecord | core/src/base_indexed_block.cpp:7-19 | the in-place write of record and entry is the abstract write, also when the index refuses; the entry never leaves its region |
| IndexedBlocks.IndexedBlock.LookUp | core/src/base_indexed_block.cpp:61-68 | a look-up succeeds exactly for indexed numbers and arrives at the record's offset |
| IndexedBlocks.IndexedBlock.DeleteRecord | core/includes/base_indexed_block.h:150-173 | in place, a delete is staged in the index, and only there, when the abstract delete accepts it; `IndexedEffects.DeletesCommitted` and `IndexedEffects.DeletesNoOther` say when that is |
| IndexedBlocks.IndexedBlock.Commit | core/src/base_indexed_block.cpp:96-132 | striking, index commit and publishing together make the abstract commit; none of their internal checks can fail |
| IndexedBlocks.IndexedBlock.Rollback | core/src/base_indexed_block.cpp:134-141 | both files drop the transaction, or nothing changes |
| IndexedBlocks.IndexedBlock.Read | core/src/base_indexed_block.cpp:33-94 | the loop over entries returns the abstract indexed read, an error exactly when it runs into a record without entry; what that returns for each requested state is `IndexedEffects.ReadsTheWanted` |
| IndexedBlocks.IndexedBlock.CheckSanity | core/src/base_indexed_block.cpp:164-195 | the recount over the index passes if and only if the counters agree with the entries and the loop's 32-bit counter reaches the last number |
| LogRuns.SaneExactlyWhenCommitsAreClean | core/src/base_block.cpp:476-503 | after every run on a new block the 32-bit counters agree with the records if and only if the repeated and uncommitted deletes carried out are a multiple of 2^32; they are none if and only if every commit's staged deletes were distinct and committed |
| LogRuns.RepeatedDeleteBreaksSanity | core/includes/base_block.h:732-750 | a run that deletes one record twice in a transaction leaves the counters wrong |
| LogRuns.RunKeepsConsistent | core/src/base_block.cpp:410-457 | in every run committed records are readable or deleted, pending ones dirty, staged ones readable, and the total is right |
| LogRuns.CommitCounts | core/src/base_block.cpp:415-439 | a commit adds to the counter's error exactly one for each staged number that is repeated or uncommitted |
| LogRuns.RestartIsAFreshStartExactly | core/includes/base_block.h:235-253 | starting again inside a transaction equals abandoning it and starting anew if and only if no delete is staged |
| LogRuns.RestartKeepsDelete | core/includes/base_block.h:235-253 | a run in which a delete asked for before the second start is carried out, and the write before it is not |
| LogRuns.CommittedTransaction | core/src/base_block.cpp:410-443 | a committed transaction leaves exactly the old log with the asked deletes carried out, followed by the written records in order, all readable |
| LogRuns.ReadersSeeOnlyCommits | core/src/base_block.cpp:367-408 | without a commit no run changes the committed log or its counters |
| LogEffects.NewBlock | core/src/base_block.cpp:47-110 | a new block is empty, and its first transaction takes any record that leaves room for one header |
| LogEffects.StartsExactly | core/includes/base_block.h:235-253 | a start is accepted if and only if the block is updateable and there is an id; the id of a running transaction is kept, pending records go |
| LogEffects.WritesExactly | core/src/base_block.cpp:175-224 | a write is accepted if and only if the block is updateable and writable, payloads and one header fit (pending ones left out once they have filled the block), and the caller owns the transaction; it appends one dirty record and does nothing else |
| LogEffects.DeletesExactly | core/includes/base_block.h:732-752 | when a delete is accepted and why it is refused, in the order of the tests, for every number; it stages the number and does nothing else |
| LogEffects.DeletesTheReadable | core/includes/base_block.h:732-752 | in every block that runs reach a delete is accepted for exactly the readable committed records, the first pending one, and a number behind the log that looks valid |
| LogEffects.CommitsExactly | core/src/base_block.cpp:410-443 | a commit, if and only if by the owner, leaves every committed record in place, deleted if staged, and behind them every pending one, readable; total, deleted and commit counter grow by what was published, staged and one |
| LogEffects.RollsBackExactly | core/src/base_block.cpp:445-457 | a rollback, if and only if by the owner, drops what is pending and staged and changes nothing else |
| LogEffects.CommitsAreCounted | core/src/base_block.cpp:438 | over a run the commit counter grows by the commits that went through |
| LogEffects.FinishedForGood | core/includes/base_block.h:616-628 | a finished or archived block takes no write after any run, and is open for deletes if and only if the last of the two was a finish |
| LogEffects.FinishAndArchive | core/includes/base_block.h:785-796 | what a finished and an archived block still accept |
| LogEffects.SaneIsARecount | core/src/base_block.cpp:476-503 | what the sanity check compares: the total with the records, the deleted counter with the number of records not readable, in 32 bits |
| LogRuns.AbandonedWorkLeavesNoTrace | core/src/base_block.cpp:445-457 | abandoning any uncommitted stretch of operations gives the block back as it was |
| LogRuns.RolledBackStretchCanBeCut | core/src/base_block.cpp:445-457 | cutting a rolled-back stretch out of any run changes nothing that follows, numbers and offsets included |
| LogRuns.WriteKeepsBudgetExactly | core/includes/base_block.h:398-409 | an accepted write stays within the block size less one header if and only if the transaction's own free-space figure was not exhausted (or an empty record met an exactly full block) |
| LogRuns.BudgetOverRun | core/includes/base_block.h:297-300 | runs whose accepted writes all had own space keep committed and pending payload within the budget |
| LogRuns.FallBackOverfills | core/includes/base_block.h:398-409 | a run in which the fall-back figure lets a write overfill the block |
| LogEffects.OwnSpaceAddsUp | core/includes/base_block.h:400-404 | with space of its own a transaction is told exactly what block, header, committed and pending payload leave over, and a commit does not change the figure |
| LogEffects.OtherSpaceIsTheReaders | core/includes/base_block.h:405-408 | otherwise the figure is that of the block as readers see it: what header and committed payload leave over, or zero |
| LogRuns.WriteStaysInsideExactly | core/src/base_block.cpp:198-213 | an accepted write ends inside the mapped region if and only if all payloads with one header for each record fit in it |
| LogRuns.RunStaysInsideExactly | core/src/base_block.cpp:41-43 | a run keeps its records inside the region at every moment if and only if each accepted write met that condition |
| LogRuns.LargeWritesStayInside | core/src/base_block.cpp:41-43 | every run of writes of at least ten headers, into space of their own, stays inside the region at every moment |
| LogRuns.SmallRecordsRunPastTheRegion | core/src/base_block.cpp:41-43 | in every block of two headers or more a run of accepted one-byte writes within the budget ends past the region |
| BaseBlocks.BaseBlock.constructor | core/src/base_block.cpp:27-100 | a new block is valid, its data region zero and 110 percent of the block size |
| BaseBlocks.BaseBlock.GetFreeSpace | core/includes/base_block.h:398-409 | in place, the abstract figure; what it adds up to is `LogEffects.OwnSpaceAddsUp` and `LogEffects.OtherSpaceIsTheReaders` |
| BaseBlocks.BaseBlock.StartTransaction | core/includes/base_block.h:235-253 | the shadow counters restart at the header's, dropping pending records |
| BaseBlocks.BaseBlock.WriteRecord | core/src/base_block.cpp:175-224 | the record is laid down at the end of the transaction with the next number, no byte before it changes, and refusals change nothing |
| BaseBlocks.BaseBlock.LargeWriteHasRoom | core/src/base_block.cpp:175-224 | what the write asks of its caller holds after every run of large writes into space of their own |
| BaseBlocks.BaseBlock.WriteHasRoomExactly | core/src/base_block.cpp:175-224 | it holds if and only if payloads and headers fit in the region |
| BaseBlocks.BaseBlock.ReadRecord | core/src/base_block.cpp:249-275 | the scan arrives at the record's offset; its inner checks cannot fail, and only the first uncommitted number can be a mismatch |
| BaseBlocks.BaseBlock.ReadRecordAt | core/src/base_block.cpp:226-247 | the direct read succeeds exactly when the number is in range and the header agrees |
| BaseBlocks.BaseBlock.DeleteRecord | core/includes/base_block.h:732-750 | a delete is staged exactly when the abstract delete accepts it, stale bytes after the log included |
| BaseBlocks.BaseBlock.PublishRecords | core/src/base_block.cpp:425-434 | the walk by sizes makes every pending record readable, meets nothing else and leaves every committed byte as it was |
| BaseBlocks.BaseBlock.Publish | core/src/base_block.cpp:425-443 | the header's counters move past the published records and the transaction closes; no byte below the old end changes |
| BaseBlocks.BaseBlock.StrikeStaged | core/src/base_block.cpp:415-424 | every staged record is marked deleted and counted, in order, and every look-up succeeds |
| BaseBlocks.BaseBlock.Commit | core/src/base_block.cpp:410-443 | the in-place commit is the abstract commit, or nothing changes |
| BaseBlocks.BaseBlock.Rollback | core/src/base_block.cpp:445-457 | pending records and staged deletes are dropped without touching a byte of the region |
| BaseBlocks.BaseBlock.Read | core/src/base_block.cpp:367-408 | the scan in place returns the abstract scan behind what the caller had; what that reads for each requested state is `LogEffects.ScansOneState` and `LogEffects.ScansAll` |
| BaseBlocks.BaseBlock.CheckSanity | core/src/base_block.cpp:476-503 | the recount passes if and only if the counters agree with the records and the 32-bit loop counter reaches the last number |
| BaseBlocks.BaseBlock.Finish | core/includes/base_block.h:616-619 | the block is closed for writes and still open for deletes, nothing else changes |
| BaseBlocks.BaseBlock.Archive | core/includes/base_block.h:624-627 | the block is closed for both, nothing else changes |
| RecordLayout.ScanFindsOffset | core/src/base_block.cpp:256-264 | on a laid-out region the linear scan from any record arrives at the target's own offset |
| RecordLayout.AppendedLayout | core/src/base_block.cpp:198-213 | a record laid down at the end of a run, with nothing before it changed, extends the layout |
| RecordLayout.LayoutSetState | core/src/base_block.cpp:417-434 | storing a state into one header changes that record's state and no other record |
| RecordLayout.RecordBytes | core/includes/block_common_structs_v0.h:128-148 | number, offset, state and size lie at bytes 0, 8, 16 and 24 of a header of 48 bytes, the code of each state, and the payload behind the header |
| RecordLog.RecordsAreDisjoint | core/src/base_block.cpp:212-213 | each record ends at or before the start of every later one |
| RecordLog.SelectTakesTheFirst | core/src/base_block.cpp:383-401 | a selection is in order, skips nothing it should keep, and stops early only when full |
| LogEffects.ScansOneState | core/src/base_block.cpp:383-401 | asked for deleted or dirty records the scan reads the payloads of the first `count` records in that very state at or after the number, in order, none skipped |
| LogEffects.ScansAll | core/src/base_block.cpp:383-401 | asked for anything else, readable records included, it reads the next `count` records whatever their state |
| RecordIndex.FreeSpaceDoesNotWrap | core/includes/base_block_index.h:464-471 | while entries fit, the unsigned subtraction does not wrap and space is refused exactly when the index is full |
| RecordIndex.AcceptedEntryFits | core/src/base_block_index.cpp:141-179 | an accepted entry keeps the bound and lies inside the region |
| RecordIndex.CapacityIsFourShort | core/src/base_block_index.cpp:23-43 | an index sized for n >= 4 records takes exactly n - 4 |
| RecordIndex.TinyIndexOverruns | core/includes/base_block_index.h:464-471 | an index smaller than its header accepts entries past its own end |
| RecordIndex.NextNumberIsAccepted | core/src/base_block_index.cpp:152-155 | the next number in turn always passes the sequence check |
| RecordIndex.SettlingKeepsTurn | core/includes/base_block_index.h:389-415 | commit keeps the entries numbered in turn |
| RecordIndex.EntryBytes | core/includes/block_common_structs_v0.h:170-175 | number, state, offset and size of an entry lie at bytes 0, 8, 16 and 24 of its 32, and the code of each state |
| IndexedEffects.IndexSpaceAddsUp | core/includes/base_block_index.h:464-471 | the figure, the header and the entries make up the size of the index, pending entries counted only in a transaction |
| IndexedEffects.EntriesExactly | core/src/base_block_index.cpp:140-179 | when an entry is accepted and why it is refused, in the order of the tests: space, owner, the start number or the next one |
| IndexedEffects.IndexCommitsExactly | core/includes/base_block_index.h:383-417 | a commit of the index asks for the transaction's id only, and makes pending entries live before it carries out the staged deletes |
| BlockIndexes.BlockIndex.constructor | core/src/base_block_index.cpp:23-43 | a new index is valid, zero-filled and of the source's size |
| BlockIndexes.BlockIndex.StartTransaction | core/includes/base_block_index.h:154-174 | shadow counters restart at the header's; pending entries and staged deletes go |
| BlockIndexes.BlockIndex.GetFreeSpace | core/includes/base_block_index.h:464-471 | the figure modulo 2^64 |
| BlockIndexes.BlockIndex.WriteEntry | core/src/base_block_index.cpp:140-179 | the entry is stored at the next place with the given number, offset and size, or nothing changes |
| BlockIndexes.BlockIndex.ReadEntry | core/src/base_block_index.cpp:181-206 | direct addressing finds an entry exactly when the number is in range and stored there |
| BlockIndexes.BlockIndex.DeleteEntry | core/src/base_block_index.cpp:208-225 | a delete is staged exactly when the transaction is the caller's and the place carries the number |
| BlockIndexes.BlockIndex.PublishEntries | core/includes/base_block_index.h:389-400 | every pending entry is made live, none found committed already, no other cell than states changed |
| BlockIndexes.BlockIndex.Commit | core/includes/base_block_index.h:383-417 | the in-place commit is the abstract commit: live entries, then staged ones deleted |
| BlockIndexes.BlockIndex.Rollback | core/includes/base_block_index.h:424-438 | pending entries and staged deletes are dropped, or nothing changes |
| LockProtocol.RunKeepsExclusive | common/includes/read_write_lock.h:400-551 | in every run of all processes, with sweeps broken up slot by slot and whole resets among the steps, the reader count is the number of used slots and a writer excludes readers |
| LockProtocol.UnusedIsKept | common/includes/read_write_lock.h:245-271 | a new lock record with processes that have not used it has every property that the runs keep |
| LockProtocol.UndisturbedSweep | common/src/read_write_lock_manager.cpp:51-76 | the steps of a sweep that nobody comes between add up to the whole sweep |
| LockProtocol.ReadersCountTheHolds | common/includes/read_write_lock.h:462-512 | without expiry the reader count is the number of threads of all processes that have a read lock |
| LockProtocol.WriteLockSucceedsExactly | common/includes/read_write_lock.h:400-441 | an attempt succeeds if and only if the process has no transaction id and nobody writes or reads; the holder's second call is refused |
| LockProtocol.ErrorsAreUnreachable | common/includes/read_write_lock.h:198-217 | no reader ever finds the slots exhausted below the maximum, no held slot is released against a zero count, and when each call succeeds |
| LockProtocol.RunKeepsRegistered | common/includes/read_write_lock.h:462-512 | without expiry, the processes' thread lists and the used slots match one to one |
| LockProtocol.RunKeepsWriterKnown | common/includes/read_write_lock.h:400-441 | the owner named in the record is the process with the transaction id; without expiry no other has one |
| LockProtocol.WhoHasTheWriteLock | common/includes/read_write_lock.h:334-349 | the write lock is held by the owner's process and there by exactly the threads whose id the owner's begins with |
| LockProtocol.OneWriterExactly | common/includes/read_write_lock.h:334-349 | no thread besides the owner has the write lock if and only if no thread id in use is a proper prefix of the owner's |
| LockProtocol.ReleaseFreesOwnHold | common/includes/read_write_lock.h:198-217 | without expiry a release leaves every other hold |
| LockProtocol.ReleaseFreesWhatTheSlotNames | common/includes/read_write_lock.h:198-217 | in general a release ends exactly the holds that name the caller's slot |
| LockProtocol.LostLeaseIsForGood | common/includes/read_write_lock.h:400-441 | a process whose write lease expired keeps its stale id through every later run |
| LockProtocol.StrayReleaseAdmitsWriter | common/src/read_write_lock_manager.cpp:67-76 | a run in which an expired reader's release lets a writer in beside a live reader |
| LockProtocol.SweepCounts | common/src/read_write_lock_manager.cpp:67-76 | the sweep's decrements are exactly the slots it clears |
| LockProtocol.SweepIsAllOrNothing | common/src/read_write_lock_manager.cpp:67-76 | with one clock reading the sweep clears every reader or none, by the first slot's stamp |
| LockProtocol.SweepIsFairExactly | common/src/read_write_lock_manager.cpp:67-76 | a reader is treated as its own lease asks if and only if the first slot's stamp has expired just as its own |
| LockProtocol.LiveReaderIsSwept | common/src/read_write_lock_manager.cpp:67-76 | a run in which a reader whose lease has just begun is swept |
| LockProtocol.LeaseIsLost | common/src/read_write_lock_manager.cpp:57-66 | a run after which a process is refused the write lock although nobody writes or reads |
| LockEffects.WriteLocksExactly | common/includes/read_write_lock.h:400-441 | a successful attempt gives the lock, under the new id and from now on, to the caller and to no thread whose id the caller's does not begin with; in any other case nothing changes |
| LockEffects.ReleasesWriteExactly | common/includes/read_write_lock.h:531-551 | a release is refused without an id, does nothing for a caller whose process, id or thread the record does not name, and else frees the lock and the id |
| LockEffects.OtherThreadIsRefused | common/includes/read_write_lock.h:531-551 | a thread of the owner's own process that does not have the lock cannot give it up |
| LockEffects.ReadLocksExactly | common/includes/read_write_lock.h:462-512 | unless somebody writes, a thread that has a slot keeps it and another one gets the first slot not in use, with its names and the time; in any other case nothing changes |
| LockEffects.ReleasesReadExactly | common/includes/read_write_lock.h:198-217 | a release by a thread that has a slot frees that slot, lowers the count and forgets that thread; by another it does nothing |
| LockEffects.SweepsWriterExactly | common/src/read_write_lock_manager.cpp:57-66 | the sweep leaves a writer its lock if and only if no more than the time-out has gone by since its stamp, whoever holds it |
| LockEffects.ResetsWriterExactly | common/src/read_write_lock_manager.cpp:93-111 | a reset leaves a writer its lock if and only if besides that its process is alive |
| LockEffects.WriterKeepsLockExactly | common/src/read_write_lock_manager.cpp:57-111 | over every run of all others a writer that does not release keeps its lock if and only if no sweep or reset comes when its lease is over and no reset finds its process dead |
| LockEffects.LeaseLasts | common/src/read_write_lock_manager.cpp:57-111 | from the moment it is let in a writer has its lock for the five minutes of its lease, through every run of the others, sweeps and resets included |
| LockEffects.ReaderKeepsLock | common/includes/read_write_lock.h:198-217 | without expiry a reader that does not release keeps its lock over every run |
| LockEffects.SweepsSlotExactly | common/src/read_write_lock_manager.cpp:69-74 | a look frees a slot if and only if it is used and the first slot's stamp is over, and lowers the count with it; no other slot changes |
| LockEffects.ResetsReadersExactly | common/src/read_write_lock_manager.cpp:112-133 | a reset leaves in use exactly the used slots of live processes, unless the first slot's stamp is over, and stores their number |
| LockEffects.SweepsReadersExactly | common/src/read_write_lock_manager.cpp:67-76 | a sweep nobody comes between leaves in use exactly the used slots, unless that stamp is over, and their number |
| LockEffects.ExpiresExactly | common/src/read_write_lock_manager.cpp:60 | when the unsigned difference of clock readings exceeds the time-out, also with a stamp ahead of the clock |
| ManagerRuns.RunStaysSoundExactly | common/src/read_write_lock_manager.cpp:51-136 | over every run in which critical sections come between the manager's looks, its clearings and its storing of a count, exclusion and the right count hold at every moment outside of resets if and only if each reset stores its count while the slots it has passed have gained as many holders as they have lost |
| ManagerRuns.RecountIsRightExactly | common/src/read_write_lock_manager.cpp:112-133 | a reset that has looked at every slot, with whatever critical sections in between, stores the right count if and only if as many holders came to slots it had passed as left them |
| ManagerRuns.UndisturbedReset | common/src/read_write_lock_manager.cpp:86-136 | the acts of a reset that nobody comes between add up to the whole reset |
| ManagerRuns.LateRecountAdmitsWriter | common/src/read_write_lock_manager.cpp:112-133 | a run in which a reader comes to a slot already passed, the count that misses it is stored, and a writer is let in beside it |
| ManagerRuns.CondemnedIsClearedExactly | common/src/read_write_lock_manager.cpp:57-66 | when the manager clears a writer it is the one whose lease it found over if and only if no attempt at the write lock has succeeded since its look |
| ManagerRuns.FreshLeaseIsCleared | common/src/read_write_lock_manager.cpp:57-66 | a run in which a writer that has just locked has its lease cleared |
| ManagerRuns.LookCondemnsExactly | common/src/read_write_lock_manager.cpp:57-103 | the manager condemns a writer if and only if it finds the lease over or, in a reset, the process dead |
| ManagerRuns.WriterKeepsLockExactly | common/src/read_write_lock_manager.cpp:57-66 | whatever comes between the manager's acts, a writer that does not release keeps its lock if and only if the manager clears no writer |
| ManagerRuns.RunningLeaseIsKept | common/src/read_write_lock_manager.cpp:57-111 | a writer has its lock for as long as the manager's looks find its lease running and its process alive |
| ManagerRuns.UndisturbedLease | common/src/read_write_lock_manager.cpp:57-66 | look and clearing that nobody comes between are the sweep's step for the writer |
| ManagerRuns.SweepLookIsItsStep | common/src/read_write_lock_manager.cpp:69-74 | the sweep's look at a slot is its step |
| SlotRaces.CountIsRightExactly | common/src/read_write_lock_manager.cpp:69-75 | a release and a sweep at one slot, in any order of their accesses, leave the right count if and only if neither found the slot used while the other was about to clear it; otherwise it is one too low |
| SlotRaces.UndisturbedRelease | common/includes/read_write_lock.h:198-217 | the accesses of a release that the sweep does not come between are the critical section |
| SlotRaces.UndisturbedSweep | common/src/read_write_lock_manager.cpp:69-75 | the accesses of a sweep's look at one slot that no release comes between are its step |
| SlotRaces.CrossingWrapsTheCount | common/includes/read_write_lock.h:201-209 | an order that leaves a count of 2^64 - 1 |
| ReadWriteLocks.SharedRecord.FindFreeReader | common/includes/read_write_lock.h:159-168 | the first free slot is taken and no other touched; -1 exactly when all are used |
| ReadWriteLocks.SharedRecord.CheckLockState | common/src/read_write_lock_manager.cpp:51-76 | in place, one whole sweep of the record; whom it leaves the lock is `LockEffects.SweepsWriterExactly` and `LockEffects.SweepsReadersExactly` |
| ReadWriteLocks.SharedRecord.Reset | common/src/read_write_lock_manager.cpp:86-136 | the loop with its recount is the abstract reset |
| ReadWriteLocks.ReadWriteLock.TryWriteLock | common/includes/read_write_lock.h:400-441 | one attempt is the abstract write-lock step |
| ReadWriteLocks.ReadWriteLock.TryReadLock | common/includes/read_write_lock.h:462-512 | one attempt is the abstract read-lock step |
| ReadWriteLocks.ReadWriteLock.ReleaseReadLock | common/includes/read_write_lock.h:198-217 | the release is the abstract step |
| ReadWriteLocks.ReadWriteLock.ReleaseWriteLock | common/includes/read_write_lock.h:531-551 | the release is the abstract step; a stale transaction id is not cleared |
| ReadWriteLocks.ReadWriteLock.HasWriteLock | common/includes/read_write_lock.h:334-349 | the test with its prefix comparisons |
| ReadWriteLocks.ReadWriteLock.HasThreadLock | common/includes/read_write_lock.h:357-370 | the test over the thread list and the slot |
| LockTables.RunKeepsTidy | common/src/read_write_lock.cpp:27-135 | in every run of adds and removes the used count is the number of used records, and unused records are cleared |
| LockTables.AddFindsARecord | common/src/read_write_lock.cpp:35-73 | below the maximum count an add returns a record that has the name |
| LockTables.AddKeepsNamesDistinctExactly | common/src/read_write_lock.cpp:39-71 | names stay distinct if and only if the name is new or no record before its own is free |
| LockTables.NameIsDoubled | common/src/read_write_lock.cpp:39-71 | a run of three adds and a remove that registers a name twice |
| LockTables.RunKeepsNamesDistinct | common/src/read_write_lock.cpp:27-135 | runs whose adds all meet that condition keep the names distinct |
| LockTables.AddThenRemoveRestoresExactly | common/src/read_write_lock.cpp:81-135 | add and then remove gives the table back if and only if the add took a record; otherwise the remove takes another's away |
| LockTables.AddsExactly | common/src/read_write_lock.cpp:27-79 | when an add is accepted, and that it takes or returns the first record that is free or has the name and changes no other |
| LockTables.RemovesExactly | common/src/read_write_lock.cpp:81-135 | a remove drops one reference of the first record that has the name, and with the last one the record |
| LockTables.LockTable.AddLock | common/src/read_write_lock.cpp:27-79 | the slot search and update in place is the abstract add |
| LockTables.LockTable.RemoveLock | common/src/read_write_lock.cpp:81-135 | the slot search and clearing in place is the abstract remove |
| ExclusiveLocks.MutualExclusion | common/includes/exclusive_lock.h:253-325 | with every access to the semaphore and to a field a step of its own, at every moment of every run in which resets find the semaphore free, at most one thread that is not on its way out finds itself with the lock, and then nobody can be let through |
| ExclusiveLocks.RunKeeps | common/includes/exclusive_lock.h:253-325 | in those runs the value and the thread let through add up to one, only that thread is inside a hold, and every recorded owner is that thread or on its way out |
| ExclusiveLocks.StartIsKept | common/includes/exclusive_lock.h:227-237 | a new lock, with two processes that use it, is in such a state, and its books balance |
| ExclusiveLocks.BalancedExactly | common/includes/exclusive_lock.h:312-325 | between calls the semaphore value and the recorded holders add up to one if and only if no clearing in the run wiped what a thread let through had written; otherwise nobody has the lock and nobody can get it |
| ExclusiveLocks.OnlyAWipeEndsAHold | common/includes/exclusive_lock.h:123-126 | a thread that has the lock and does nothing has it after a run if and only if nothing was wiped |
| ExclusiveLocks.WithoutOvertakingNothingIsWiped | common/includes/exclusive_lock.h:312-325 | nothing is wiped if no thread is let through while another of its process is between its post and its clearing |
| ExclusiveLocks.OvertakingAloneDoesNoHarm | common/includes/exclusive_lock.h:253-266 | a run in which a thread is let through between another's post and its clearing, and the books balance |
| ExclusiveLocks.LateClearingLosesTheLock | common/includes/exclusive_lock.h:312-325 | a run of two threads of one process after which nobody has the lock and nobody can get it |
| ExclusiveLocks.TwoFindThemselvesWithTheLock | common/includes/exclusive_lock.h:186-192 | a run in which threads of two processes find themselves with the lock, one of them on its way out |
| ExclusiveLocks.ResetBalancesExactly | common/includes/exclusive_lock.h:198-222 | a reset between calls leaves the books in order, also after a lost lock, if and only if no other process has the lock |
| ExclusiveLocks.UndisturbedTry | common/includes/exclusive_lock.h:253-266 | the steps of a try that nobody disturbs add up to the whole call |
| ExclusiveLocks.UndisturbedRelease | common/includes/exclusive_lock.h:312-325 | likewise for a release |
| ExclusiveLocks.UndisturbedReset | common/includes/exclusive_lock.h:198-222 | likewise for a reset |
| ExclusiveLocks.CallsExactly | common/includes/exclusive_lock.h:198-325 | an undisturbed try ends with the lock if and only if the thread had it or the semaphore was free; a release gives up what the thread has and nothing else; after a reset no thread of the process has the lock and the semaphore is free |
| ExclusiveLocks.InnerGuardEndsTheHold | common/includes/exclusive_lock.h:347-404 | any number of nested acquisitions is ended by one release |
| ExclusiveLocks.ExclusiveLock.TryLock | common/includes/exclusive_lock.h:253-266 | the effect of one undisturbed try |
| ExclusiveLocks.ExclusiveLock.ReleaseLock | common/includes/exclusive_lock.h:312-325 | the effect of one undisturbed release |
| ExclusiveLocks.ExclusiveLock.ResetLock | common/includes/exclusive_lock.h:198-222 | the loop of tries and posts ends with the value at one or above, the handle free |
| HashBuckets.RunKeepsPacked | core/includes/typed_index_base.h:158-240 | every run with last-first rollbacks and updates of used cells keeps cells below the count in use and the others free |
| HashBuckets.RollbackKeepsPackedExactly | core/includes/typed_index_base.h:194-203 | undoing a write keeps the bucket packed if and only if it undoes the last one |
| HashBuckets.UpdateKeepsPackedExactly | core/includes/typed_index_base.h:210-227 | an update keeps the bucket packed if and only if the cell is in use |
| HashBuckets.WriteKeepsPacked | core/includes/typed_index_base.h:158-179 | in a packed bucket a write succeeds exactly when there is room, its internal check never failing |
| HashBuckets.FindIsTheFirstMatch | core/includes/typed_index_base.h:242-268 | in a packed bucket a search never fails and finds the first matching cell in use, or none exactly when there is none |
| HashBuckets.UndoRestoresSearches | core/includes/typed_index_base.h:194-203 | undoing any sequence of writes in reverse gives every search its old result |
| HashBuckets.RemovedIsNotFound | core/includes/typed_index_base.h:229-240 | a removed cell is no longer found, and every search that found another cell, or none, finds the same |
| HashBuckets.WrittenIsNotFound | core/includes/typed_index_base.h:158-179 | a record written and not committed changes no search for live records |
| HashBuckets.CommittedIsFound | core/includes/typed_index_base.h:181-192 | once committed it is found and leads to its own data, unless a live record was there before under its hash and key; every other search finds what it found |
| HashBuckets.CommitMakesFound | core/includes/typed_index_base.h:181-192 | committing any written cell, and no other, makes a live search for its hash and key find it unless it found an earlier one; no other search and no other cell changes |
| HashBuckets.RemoveUndoesCommit | core/includes/typed_index_base.h:229-240 | removing a committed record gives every live search back what it found before the write |
| HashBuckets.UpdatedLeadsToNewData | core/includes/typed_index_base.h:210-227 | an update points a live cell at the new offset and size, and every search finds the cell it found |
| HashBuckets.SearchFinds | core/includes/typed_index_base.h:242-268 | a search for a state finds the first cell in use that is in it and has hash and key |
| HashBuckets.SearchOfAnyState | core/includes/typed_index_base.h:242-268 | a search for free cells is answered with the first cell in use that has hash and key, whatever its state |
| HashBuckets.RefusesExactly | core/includes/typed_index_base.h:158-240 | when a write, a rollback, a removal and an update are refused |
| HashBuckets.BucketPage.WriteCell | core/includes/typed_index_base.h:158-179 | the cell at the count is filled, in place, or nothing changes |
| HashBuckets.BucketPage.CommitCell | core/includes/typed_index_base.h:181-192 | in place, a written cell is made readable, or nothing changes; that it is found from then on is `HashBuckets.CommitMakesFound` |
| HashBuckets.BucketPage.RollbackCell | core/includes/typed_index_base.h:194-203 | a written cell is freed and the count drops by one, or nothing changes |
| HashBuckets.BucketPage.RemoveCell | core/includes/typed_index_base.h:229-240 | a used cell with the hash is marked deleted, or nothing changes |
| HashBuckets.BucketPage.UpdateCell | core/includes/typed_index_base.h:210-227 | a cell with the hash gets new data and is readable; refused on a full bucket |
| HashBuckets.BucketPage.FindCell | core/includes/typed_index_base.h:242-268 | the loop is the search |
| EnvLogs.RestartAgreesExactly | core/includes/node_env.h:129-164 | the index a restart loads is the one that was in memory if and only if every record kept its key or repeated a known key under a known name; a name lost is never made good |
| EnvLogs.ShortNamesSurviveExactly | core/includes/node_env.h:144-157 | with keys shorter than 64 bytes that holds if and only if no key contains a zero byte |
| EnvLogs.KeySurvivesExactly | core/includes/node_env.h:82-88 | when a single key, of any length, comes back unchanged |
| EnvLogs.RestartsLeaveNoTrace | core/includes/server/node_server_env.h:135-162 | with good keys, restarts anywhere in a run change nothing in the final state |
| EnvLogs.LoadReadsTheLog | core/includes/node_env.h:136-163 | loading a file whose records all begin below 4 GiB gives the first record of every name and consumes exactly what was written |
| EnvLogs.LoadReadsTheLogExactly | core/includes/node_env.h:136-163 | when the last record's name is new, that holds if and only if the last record begins below 4 GiB |
| EnvLogs.RestartChangesNothing | core/includes/node_env.h:129-164 | with good keys the loaded index equals the index in memory and the final offset is the write offset less the header, in 32 bits |
| EnvLogs.AddExtends | core/includes/node_env.h:76-97 | every accepted write extends the file by its record and keeps the earlier ones readable in place |
| EnvLogs.FirstWriteWins | core/includes/server/node_server_env.h:153 | the index gives every key the place of its first record, however many follow |
| EnvLogs.FoundDataIsThere | core/includes/node_env.h:247-256 | a key is in the index if and only if some record has it, and its place is where the data of the first such record lies in the file |
| EnvLogs.AddedIsFound | core/includes/server/node_server_env.h:135-162 | a record added under a new key is found with its data; every other key leads to the data it led to |
| EnvLogs.StoredBytes | core/includes/node_env.h:82-95 | 64 bytes of key filled up with zeros, four of length, little end first, and the data; of a longer key the rest lies behind them; nothing else changes |
| EnvLogs.ShortFileIsRefused | core/includes/node_env.h:136-163 | a file that ends before the records it is said to hold is refused, as a mismatch or as out of range depending on where it ends |
| EnvLogs.AcceptedRecordOverruns | core/includes/node_env.h:79 | the space check lets a record leave the region if and only if less is missing than the key field, or than what a longer key reaches beyond length and data |
| EnvLogs.EnvLog.Write | core/includes/node_env.h:69-97 | key, length and data are stored in place behind the earlier records, or nothing changes |
| EnvLogs.EnvLog.AddData | core/includes/server/node_server_env.h:135-162 | write, count and index entry together are the abstract add |
| EnvLogs.EnvLog.LoadData | core/includes/node_env.h:129-164 | the loop rebuilds the index as the abstract load, over any file it can read |
| EnvLogs.EnvLog.Get | core/includes/node_env.h:247-256 | a key is found exactly when some record has it, and leads to the data of the first |
| EnvLogs.EnvLog.constructor | core/includes/node_env.h:99-113 | a new file is empty |
| ByteCodec.ListRoundTrip | common/includes/buffer_utils.h:110-161 | any list of strings, each short enough for its own length prefix, reads back equal and ends at the same offset |
| ByteCodec.RoundTripExactly | common/includes/buffer_utils.h:230-285 | one string reads back if and only if its length and closing zero fit the prefix, or its length comes out zero and the variable held it already |
| ByteCodec.WriteStringSpills | common/includes/buffer_utils.h:110-161 | what follows a stored string is left alone if and only if it begins with a zero byte or nothing is cleared, that is when the stored length comes out zero or is the largest of four bytes |
| ByteCodec.DecodeEncode | common/includes/buffer_utils.h:47-58 | a number stored in w bytes reads back modulo 256^w |
| ByteCodec.LittleEndFirst | common/includes/buffer_utils.h:47-58 | byte i of a stored number counts how often 256^i goes into it |
| ByteCodec.StoredBytes | common/includes/buffer_utils.h:110-161 | what lies where after a string that fits its prefix is stored: length with closing zero, text, the zero and one more byte cleared, and when those two are not |
| ByteCodec.StoreString | common/includes/buffer_utils.h:110-161 | length, clearing and text are stored in place and the offset moves past them |
| ByteCodec.LoadString | common/includes/buffer_utils.h:230-285 | the text and the next offset |
| Bitsets.Bitset.GetFreeBit | common/includes/__bitset.h:225-243 | the least clear bit below the limit is returned and set, no other bit touched; -1 exactly when there is none; also when the 16-bit index wraps |
| Bitsets.Bitset.Check | common/includes/__bitset.h:127-139 | membership, for offsets below the limit |
| Bitsets.Bitset.Set | common/includes/__bitset.h:147-155 | adds exactly one member |
| Bitsets.Bitset.Clear | common/includes/__bitset.h:162-170 | removes exactly one member |
| Bitsets.Bitset.CheckAndSet | common/includes/__bitset.h:112-121 | adds the offset, cut to 16 bits, and says whether it was new |
| Bitsets.Bitset.Any | common/includes/__bitset.h:177-186 | whether some bit is set in the words counted |
| Bitsets.Bitset.None | common/includes/__bitset.h:193-202 | whether no bit is set in the words counted |
| Bitsets.Bitset.ClearAll | common/includes/__bitset.h:249-251 | the set is empty |
| Bitsets.RefusedExactlyWhenFull | common/includes/__bitset.h:225-243 | after any run of takes and drops the next take is refused if and only if as many numbers are out as there is room for |
| Bitsets.RunCounts | common/includes/__bitset.h:225-243 | no number is handed out twice: those in use are as many as were taken and not dropped |
| Bitsets.DroppedComesBackExactly | common/includes/__bitset.h:162-243 | a dropped number is the next one taken if and only if it is in range and no lower one is free |
| Bitsets.ByteSizeIsLeast | common/includes/__bitset.h:259-268 | the storage is the least whole number of words with room for the bits |
| Bitsets.MembersAreBits | common/includes/__bitset.h:127-139 | number i is a member if and only if bit i % 32 of word i / 32, from the low end, is one |
| Bitsets.MappedAgain | common/includes/__bitset.h:276-282 | the storage of a set, mapped again, has its bits if and only if they are at most 65504; otherwise it has none |
| Primes.FindPrime | common/includes/common_utils.h:560-579 | the least prime from max(n, 2) on and below its double; zero exactly when there is none or the double leaves 32 bits |
| Primes.TrialIsEnough | common/includes/common_utils.h:567-572 | dividing up to the square root is enough |

## Left out

- Files, `mmap`, shared memory, `flush`, paths, metrics, timers, logging and usage statistics: a mapped region is an array.
- Opening an existing block or index again, and record time stamps other than being stored: `update_time` and the like are not modelled.
- A multi-byte header or entry field of a block, an index or a lock is held whole in the cell of its first byte; the string codec and the environment log are modelled byte by byte.
- Compression and encryption: payloads are taken as they are stored.
- The clock is a parameter and a retry loop is one attempt; time-outs that only end a retry loop are not modelled.
- The write lock of a block (`write_lock.h`) and its manager: a transaction has one token, given to `StartTransaction`; resetting a stale lock inside `in_transaction` is not part of this model.
- The 64-bit counters of block and index do not wrap around here, except in the index's free-space figure; the 32-bit record counters and the 32-bit loop counter of the sanity check do.
- The write state of an index and its `finish`: the state is writable throughout.
- IndexedBlocks.IndexedBlock.constructor: asks for at least five estimated records and room for one record header. Smaller index regions take no entry at all (four) or overrun (`RecordIndex.TinyIndexOverruns`), so that look-ups of the start number meet bytes nobody has written; smaller blocks do not hold a header.
- BaseBlocks.BaseBlock.WriteRecord: asks the caller that an accepted record stay inside the mapped region, which the source does not check; `BaseBlocks.BaseBlock.WriteHasRoomExactly` says when it does.
- IndexedBlocks.IndexedBlock.WriteRecord: asks the same.
- BaseBlocks.BaseBlock.ReadRecord: asks, for the first uncommitted number only, that a header be left in the region behind the log; the source reads past the region otherwise.
- BaseBlocks.BaseBlock.DeleteRecord: asks the same.
- BaseBlocks.BaseBlock.StartTransaction: one attempt by the caller who gets or has the lock; waiting for a lock held elsewhere is not modelled.
- BlockIndexes.BlockIndex.WriteEntry: leaves out the numbers that the source accepts out of turn, the start number again and the one after it on an empty index; an indexed block never passes them.
- BlockIndexes.BlockIndex.DeleteEntry: leaves out pending numbers, which the source does not test for; an indexed block has looked the number up among the committed ones before.
- ReadWriteLocks.SharedRecord.CheckLockState: does not remove long-unused records.
- ReadWriteLocks.ReadWriteLock.HasWriteLock: takes the check that the record is still the caller's to pass.
- ReadWriteLocks.ReadWriteLock.HasThreadLock: takes the same check to pass.
- LockProtocol.RunKeepsExclusive: a look at the writer's lease with its clearing, a look at one slot with its clearing and decrement, and a whole reset are single steps, although the manager takes no lock; `ManagerRuns` and `SlotRaces` break them up.
- ManagerRuns.RunStaysSoundExactly: a client's critical section is one act, so the manager's accesses do not fall between its taking of a slot and its count; between a release and a sweep that is `SlotRaces.CountIsRightExactly`. The clearings of a writer's fields are one act, and decrements are single accesses.
- ExclusiveLocks.MutualExclusion: a thread's look at `locked` and the owner is one access; since only the thread itself writes its own id, the two reads come to the same as one. Torn reads of the owner's characters are not modelled, and thread ids are not empty.
- BaseBlocks.BaseBlock.CheckSanity: asks that the last index fit 32 bits when the start index is zero, because the source's loop does not end otherwise.
- Lock records: names and ids are strings, the removal of long-unused records inside the sweep and the reference counts of clients are not modelled, and the check that a record has been released by the manager is taken to pass.
- The stop-start of processes with the same id: process ids are taken to be distinct over a run.
- LogRuns.BudgetOverRun: one direction only, since a rollback can bring an overfilled block back within its budget.
- LockTables.RunKeepsNamesDistinct: one direction only, since removing a name registered twice can make the names distinct again.
- HashBuckets.RunKeepsPacked: one direction only, since later rollbacks can close a gap.
- ExclusiveLocks.WithoutOvertakingNothingIsWiped: one direction only, since a thread that overtakes may write only after the other has cleared (`ExclusiveLocks.OvertakingAloneDoesNoHarm`); the exact condition is in `ExclusiveLocks.BalancedExactly`.
- HashBuckets.BucketPage.RollbackCell: asks for a packed bucket, in which the 8-bit count cannot drop below zero.
- Overflow chains of the hash index, key comparison beyond equality, `typed_block` and the index file around a bucket.
- The variants of the string codec that take a character pointer and a length; of these the 8-bit one clears one byte less.
- EnvLogs.LoadReadsTheLogExactly: asks that the last record's name be new; a far record that repeats a name changes nothing in the index, but what the loader reads in its place may.
- EnvLogs.RestartsLeaveNoTrace: for runs whose records begin below 4 GiB, the reach of the loader.
- EnvLogs.EnvLog.Write: asks that a record the check lets through stay inside the region, which the source does not check.
- Words of a bit set are numbers below 2^32, and or-ing or and-ing with a one-bit mask is written by its effect on the number; `__bitset::all` tests for zero words only and is left out.
- Primes.FindPrime: that there always is a prime in the range (Bertrand's postulate) is not proved.
- The block map of a mount (`mm_struct_header.h`), the metrics ring, the thread pool, the registry and the configuration tree: shallow, or not deep enough to be worth a model.
