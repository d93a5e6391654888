# Verification of the key-value engine's core

The repository holds the parts of a key-value engine for persistent memory. This project models five
of them in Dafny 4.11 and proves what they are for. `dafny verify dfyconfig.toml` checks it all.

**The skip list** (`nvm_engine/InlineSkiplist.hpp`) is modelled twice. `SkipListOrder`, `SkipList` and
`SkipListValidate` are the structure in memory: nodes with links, the splice with its two arrays, the
searches, the insert that repairs a cached splice, the iterator and `TEST_Validate`. The abstract value
of a list is, for each level, the set of nodes linked on it; a list is valid if every link leads to the
immediate successor in key order. `ConcurrentSkipList`, `ConcurrentSteps`, `ConcurrentRuns`,
`ConcurrentProgress`, `ConcurrentClosing`, `ConcurrentScan` and `Linearizability` are a state machine for
any number of overlapping inserts and lookups: one shared read, one CAS or one access to `max_height_` is
one step, and the scheduler is arbitrary. The safety, progress and linearizability results are about this
machine.

**The log** (`nvm_example/NvmExample.cpp`) is modelled as bytes. `LogFormat` says what a log is and what
recovery makes of any bytes; `LogProgram` is the sequence of actions of an append, byte by byte;
`LogCrash` and `LogRuns` add a medium behind a cache that may write back any byte at any time, the
counter as a whole, and power failures anywhere. `NvmLog` holds the classes, which work in place on an
array and perform exactly those actions.

**The hash table** (`nvm_engine/Cache.hpp`) is `CacheTable.dfy`: an array of slots, `nextHash` links,
pointers to links, and resizing in place, against a map from hash and key to handle.

**The value store** (`nvm_engine/PersistantPool.hpp`) is `ValueStore.dfy`, blocks in pools behind
references, `ValueRuns.dfy`, whole runs of it, and `ValuePublish.dfy`.

**The generator** (`judge/random.cpp`, `judge/random.h`) is `Mwc.dfy`, its arithmetic, and
`RandomGenerator.dfy`, its lanes, buffer and windows.

## Where the code does not do what it is said to do

- The repository's README.md:14 asks that data survive a power failure once the call has returned. The
  increment of the counter (NvmExample.cpp:76) is not followed by a barrier, so the last records can be
  lost: `LogRuns.AppendedRecordCanBeLost`, and exactly when in `LogRuns.DurableIffCounterEvicted`. What
  does hold is that a prefix is recovered.
- `Set` does not check for room: on a region that has none left it writes behind the mapping and answers
  `Ok` (NvmExample.cpp:98-108, 131-136). It stays inside exactly if the record fits:
  `LogProgram.StaysInIffFits`.
- `_persist` takes a 32-bit length (NvmExample.cpp:89), so longer slices are not covered by their
  barrier: `LogRuns.SafeIffLengthsFit`. The size in a value reference is cut likewise
  (PersistantPool.hpp:211): `ValueStore.Store.KVSEncodeValue`.
- Above 2^31 handles the loop that picks the table length does not end (Cache.hpp:105):
  `TableLengths.DoublingReaches`.
- Reading single random numbers between windows makes the windows miss the refill and leave the buffer,
  unless a multiple of 24 is read (random.h:70-75): `RandomGenerator.SingleNumbersBreakWindows`. Single
  numbers never cause a refill, and a `maxValue` of 2^32 - 1 divides by zero (random.h:75):
  `RandomGenerator.Random.NextNumber`.
- The window method steps before it hands out, so no window ever holds the first 24 numbers of the stream
  (random.h:70-74): `RandomGenerator.Random.NextWindow`.
- Seeds that are multiples of m 2^16 - 1 give a constant half (random.cpp:105-112):
  `Mwc.StuckIffMultiple`.
- `InsertConcurrently` writes its sentinel at index `max_height` of arrays with 32 entries
  (InlineSkiplist.hpp:429-430, 499), while the assert before it (495) admits 32. A node of height 32
  breaks the arrays (`ConcurrentRuns.HighestNodeOverruns`), and nothing else does
  (`ConcurrentRuns.SentinelsFitIffHeightsFit`).
- `InlineSkiplist.hpp` does not compile as it stands (`UnStashHeight`, the parameter of `SetNext`,
  `FindGreaterorEqual`, and `KeyIsAfterNode`, which is used but not declared). The model follows the
  evident intent; `KeyIsAfterNode` is what its uses at 303-305 make it.

## Model

| member | source | states |
|---|---|---|
| ConcurrentRuns.EveryLevelIsASortedList | nvm_engine/InlineSkiplist.hpp:439-464 | In every state that any interleaving of any number of inserts and lookups can reach, following the links of any level from the head ends and meets exactly the nodes linked there, in strictly increasing key order, and every level is contained in the one below |
| ConcurrentRuns.NothingIsLost | nvm_engine/InlineSkiplist.hpp:487-574 | Along every run no linked node is ever lost on any level and `max_height_` never shrinks |
| ConcurrentRuns.OrderingAssertsHold | nvm_engine/InlineSkiplist.hpp:258-565 | The ordering asserts of both searches, and those before every CAS on every level, hold in every reachable state; a node is linked on all levels below the one it is about to be linked on, and on no other |
| ConcurrentRuns.ExactlyOneWinner | nvm_engine/InlineSkiplist.hpp:546-573 | Whenever all inserts of a key have returned, exactly one of them returned true |
| ConcurrentRuns.AtMostOneWinner | nvm_engine/InlineSkiplist.hpp:546-573 | Two inserts of one key never both return true |
| ConcurrentRuns.LoserHasWinner | nvm_engine/InlineSkiplist.hpp:548-558 | An insert returns false only because another insert of its key is linked on level 0 |
| ConcurrentRuns.ReturnedInsertIsLinked | nvm_engine/InlineSkiplist.hpp:546-626 | In every run an insert that has returned true is linked on level i exactly if i is below its height, and one that has returned false on no level |
| ConcurrentRuns.EveryScheduleHasARun | nvm_engine/InlineSkiplist.hpp:478-626 | No step is ever blocked: whichever threads are scheduled, in whatever order, there is a run |
| ConcurrentRuns.RunKeepsInv | nvm_engine/InlineSkiplist.hpp:478-626 | The invariant over lists, splices and program states holds in every reachable state |
| ConcurrentRuns.InitOk | nvm_engine/InlineSkiplist.hpp:370-391 | The list the constructor builds satisfies the invariant |
| ConcurrentRuns.SentinelsFitIffHeightsFit | nvm_engine/InlineSkiplist.hpp:427-435 | In every interleaving all inserts write their sentinels inside the 32 entries of their arrays, if and only if no inserted node has height 32, which the asserts on heights admit |
| ConcurrentRuns.HighestNodeOverruns | nvm_engine/InlineSkiplist.hpp:485-501 | The failing run: one insert of a node of height 32 raises `max_height_` to 32, passes the assert, and writes index 32 of 32 |
| ConcurrentSteps.LocalStepOk | nvm_engine/InlineSkiplist.hpp:243-626 | Every step of an insert or a lookup keeps the invariant of the lists and of the stepping thread, and changes a level by at most linking its own node |
| ConcurrentSteps.ThreadStable | nvm_engine/InlineSkiplist.hpp:439-626 | What a thread knows about its splice and about the lists survives every step of every other thread |
| ConcurrentSteps.SearchOk | nvm_engine/InlineSkiplist.hpp:443-463 | A step of the search for a bracket either moves to a smaller linked node or closes the bracket, which then is exact |
| ConcurrentSteps.StoreOk | nvm_engine/InlineSkiplist.hpp:549-563 | The duplicate test is right to give up, and the private store changes no list |
| ConcurrentSteps.CasOk | nvm_engine/InlineSkiplist.hpp:564-572 | A CAS that succeeds links the node, one that fails sends the insert back to a search from a smaller linked node |
| ConcurrentSteps.LinkKeepsLevel | nvm_engine/InlineSkiplist.hpp:563-564 | A successful CAS puts the node between two neighbours and keeps the level a sorted list |
| ConcurrentSteps.CasFailsOk | nvm_engine/InlineSkiplist.hpp:564-572 | A CAS fails only if another node was linked on the level since the splice was read |
| ConcurrentSteps.UpperLevelsNeedNoTest | nvm_engine/InlineSkiplist.hpp:548-562 | On upper levels the successor has a larger key although no duplicate test is made there |
| ConcurrentSteps.ReadOk | nvm_engine/InlineSkiplist.hpp:253-275 | A lookup keeps its bracket when it moves on or changes level, `last_bigger` included, and answers true exactly if its key is linked on level 0 at its last read |
| ConcurrentProgress.FailuresArePaidFor | nvm_engine/InlineSkiplist.hpp:564-573 | The CAS failures of an insert on a level are at most the number of other nodes linked on that level since its call began |
| ConcurrentProgress.StartIsWhenTheCallBegan | nvm_engine/InlineSkiplist.hpp:480-487 | That number counts from the step with which the call began |
| ConcurrentProgress.FailuresAreCounted | nvm_engine/InlineSkiplist.hpp:564-572 | The failures counted are exactly the steps of the run in which the insert attempted its CAS on the level and was not linked afterwards |
| ConcurrentProgress.MaxHeightIsTheMaximum | nvm_engine/InlineSkiplist.hpp:487-494 | `max_height_` is the maximum of 1 and the heights of the inserts that have passed the raising loop |
| ConcurrentProgress.StepUsesBudget | nvm_engine/InlineSkiplist.hpp:243-626 | Every step of a thread that has not returned, other than a spurious failure of the weak CAS on `max_height_`, uses up part of a bound on the steps it still takes, whatever the others do |
| ConcurrentProgress.OtherStepsChangeNothing | nvm_engine/InlineSkiplist.hpp:487-494 | A spurious failure of that CAS, and a step of a thread that has returned, change nothing, so they leave every bound as it is |
| ConcurrentProgress.EveryRunIsFinite | nvm_engine/InlineSkiplist.hpp:443-574 | In every run, under every schedule and with any spurious failures, the steps that do something are bounded by a number fixed beforehand: with finitely many operations every retry loop and every search ends |
| ConcurrentProgress.EveryOperationIsBounded | nvm_engine/InlineSkiplist.hpp:443-574 | Every single operation returns within a number of its own such steps that is fixed beforehand, however the others are scheduled |
| Linearizability.RunsAreLinearizable | nvm_engine/InlineSkiplist.hpp:545-636 | Every reachable state has a linearization against a sequential set: legal answers, each operation at most once, every returned operation with the answer it returned, and exactly the keys linked on level 0 |
| Linearizability.LinearizationRespectsRealTime | nvm_engine/InlineSkiplist.hpp:545-636 | An operation that returned before another began precedes it in the linearization |
| Linearizability.ContainsAnswersForItsLastRead | nvm_engine/InlineSkiplist.hpp:243-276 | A lookup, with levels half linked and heights raised meanwhile, answers for level 0 at an instant between its call and its return |
| Linearizability.StepSimulates | nvm_engine/InlineSkiplist.hpp:478-636 | Each step is either invisible to the sequential set or performs exactly one operation on it with the right answer |
| Linearizability.LinkAtLevelZero | nvm_engine/InlineSkiplist.hpp:546-567 | The CAS on level 0 adds exactly its key, which was absent |
| Linearizability.OneEventEach | nvm_engine/InlineSkiplist.hpp:545-636 | Each operation takes effect exactly once, with the answer it returns |
| ConcurrentScan.ScanIsSortedAndComplete | nvm_engine/InlineSkiplist.hpp:181-215 | A scan by `SeekToFirst` and `Next` that overlaps with inserts meets strictly increasing keys, only linked nodes, and every node that was linked when it began |
| ConcurrentClosing.ClosingAssertsHold | nvm_engine/InlineSkiplist.hpp:602-621 | In every run, whatever overlaps: when an insert has linked its node on all its levels and no CAS has failed above level 0, all closing asserts hold |
| ConcurrentClosing.SearchEndOrders | nvm_engine/InlineSkiplist.hpp:439-476 | A search that ends puts its level in order with the level above: predecessors do not increase and successors do not decrease going up, although others have inserted meanwhile |
| ConcurrentClosing.StepCloses | nvm_engine/InlineSkiplist.hpp:546-573 | Every step keeps the splice in order, searching level 0 again included, until a CAS fails above level 0 |
| SkipList.SkipList.InsertWith | nvm_engine/InlineSkiplist.hpp:478-626 | Both instances of the template, with either value of `allow_partial_splice_fix` and any splice earlier inserts left: returns false and changes no level if the key is present, otherwise links the node on exactly its levels; the list stays valid and the splice fit for the next insert |
| SkipList.SkipList.Insert | nvm_engine/InlineSkiplist.hpp:422-425 | Adds the key to the set of keys, links the node on exactly its levels and returns true; or, if the key is there, returns false and leaves keys and levels as they are. Either way `max_height_` is raised to the height and the splice stays fit |
| SkipList.SkipList.InsertConcurrently | nvm_engine/InlineSkiplist.hpp:427-435 | The same with linking by CAS and a splice of its own; the list's own splice, now stale, stays fit |
| SkipList.SkipList.PrepareSplice | nvm_engine/InlineSkiplist.hpp:497-542 | After the repair the splice is exact on all recomputed levels and brackets the key above; the recomputed height is at most `max_height` |
| SkipList.SkipList.FirstBracket | nvm_engine/InlineSkiplist.hpp:503-538 | The level at which the repair loop stops brackets the key or is the sentinel level |
| SkipList.SkipList.SkipSame | nvm_engine/InlineSkiplist.hpp:514-529 | The loops that skip levels with the same node end at the sentinel at the latest |
| SkipList.SkipList.RecomputeSpliceLevels | nvm_engine/InlineSkiplist.hpp:466-476 | The recomputed levels hold the last node before and the first node from the key |
| SkipList.SkipList.FindSpliceForLevel | nvm_engine/InlineSkiplist.hpp:437-464 | The bracket found is the last node before and the first node from the key on the level |
| SkipList.SkipList.LinkLevels | nvm_engine/InlineSkiplist.hpp:576-600 | Linking without CAS succeeds exactly if the key was absent |
| SkipList.SkipList.LinkLevelsByCas | nvm_engine/InlineSkiplist.hpp:546-574 | Linking by CAS without overlap succeeds exactly if the key was absent |
| SkipList.SkipList.LinkLevelByCas | nvm_engine/InlineSkiplist.hpp:547-573 | Without overlap the retry loop of a level ends after at most one failed CAS, and links the node exactly if the key was absent |
| SkipList.SkipList.CasAt | nvm_engine/InlineSkiplist.hpp:563-564 | The CAS links the node exactly if the link still is what the splice says, and otherwise changes no list |
| SkipList.SkipList.LinkAt | nvm_engine/InlineSkiplist.hpp:594-599 | The two stores put the node between a node and its successor and keep every level a sorted list |
| SkipList.SkipList.FinishSplice | nvm_engine/InlineSkiplist.hpp:602-624 | If the splice is still valid, all closing asserts hold; otherwise its height is zeroed; in both cases it is fit for the next insert |
| SkipList.SkipList.RaiseMaxHeight | nvm_engine/InlineSkiplist.hpp:487-494 | `max_height_` becomes the larger of itself and the height |
| SkipList.SkipList.FindGreaterOrEqual | nvm_engine/InlineSkiplist.hpp:241-276 | The first node of level 0 with a key of at least the target, or null |
| SkipList.SkipList.FindLessThanFrom | nvm_engine/InlineSkiplist.hpp:284-320 | The last node before the key on the bottom level, and in `prev` the last one on every level searched |
| SkipList.SkipList.FindLessThan | nvm_engine/InlineSkiplist.hpp:278-282 | The last node of level 0 before the key, or the head |
| SkipList.SkipList.FindLast | nvm_engine/InlineSkiplist.hpp:322-340 | The node with the largest key, or the head of an empty list |
| SkipList.SkipList.Contains | nvm_engine/InlineSkiplist.hpp:628-636 | True exactly if the key is in the set of keys |
| SkipList.SkipList.constructor | nvm_engine/InlineSkiplist.hpp:370-391 | An empty valid list with a fit splice |
| SkipList.Splice.constructor | nvm_engine/InlineSkiplist.hpp:409-420 | Room for one entry more than there are levels |
| SkipList.SkipList.OrderIsSorted | nvm_engine/InlineSkiplist.hpp:241-276 | The links of level 0 enumerate exactly the linked nodes in strictly increasing order |
| SkipList.Iterator.Next | nvm_engine/InlineSkiplist.hpp:181-184 | From entry k of the sorted enumeration to entry k + 1, or off the end |
| SkipList.Iterator.Prev | nvm_engine/InlineSkiplist.hpp:187-193 | From entry k to entry k - 1, or off the beginning |
| SkipList.Iterator.Seek | nvm_engine/InlineSkiplist.hpp:196-198 | To the first key of at least the target |
| SkipList.Iterator.SeekToFirst | nvm_engine/InlineSkiplist.hpp:213-215 | To the first entry |
| SkipList.Iterator.SeekToLast | nvm_engine/InlineSkiplist.hpp:218-223 | To the last entry |
| SkipList.Iterator.SeekForPrev | nvm_engine/InlineSkiplist.hpp:201-210 | To the greatest key not above the target, after at most one `Prev`; invalid exactly if there is none |
| SkipListOrder.LinkingKeepsList | nvm_engine/InlineSkiplist.hpp:594-599 | The two stores that link a node keep all levels sorted, nested and complete |
| SkipListOrder.WalkEnumerates | nvm_engine/InlineSkiplist.hpp:241-276 | Following links ends and meets exactly the nodes of a level, sorted |
| SkipListOrder.StaleSpliceStaysOk | nvm_engine/InlineSkiplist.hpp:497-542 | A splice stays fit when other inserts link nodes and raise the height |
| SkipListOrder.BracketsUpwards | nvm_engine/InlineSkiplist.hpp:533-536 | If one level of a splice brackets the key, all levels above do |
| SkipListOrder.StrictSuccessor | nvm_engine/InlineSkiplist.hpp:582-596 | The duplicate test on level 0 is exact, and no other level needs one |
| SkipListOrder.ClosingAssertsHold | nvm_engine/InlineSkiplist.hpp:606-621 | The asserts that close a successful insert hold |
| SkipListOrder.NodeBecomesPredecessor | nvm_engine/InlineSkiplist.hpp:602-605 | Predecessors never increase and successors never decrease going up, after the new node has become the predecessor |
| SkipListOrder.NextAndPrevAreInverse | nvm_engine/InlineSkiplist.hpp:181-193 | `Next` and `Prev` undo each other away from the ends |
| SkipListValidate.TestValidate | nvm_engine/InlineSkiplist.hpp:638-674 | Passes exactly if every level is strictly sorted and contained in the level below, although it walks all levels together and breaks off early |
| SkipListValidate.AdvanceUpperLevels | nvm_engine/InlineSkiplist.hpp:654-669 | A failed assert means that the levels are not valid, and in valid levels no node is skipped |
| SkipListValidate.AdvanceBottom | nvm_engine/InlineSkiplist.hpp:647-652 | The assert on level 0 fails only if the levels are not valid |
| SkipListValidate.UpperLevelsEnded | nvm_engine/InlineSkiplist.hpp:671-673 | The closing asserts hold exactly if every level has been walked to its end |
| SkipListValidate.UpperLevelsStay | nvm_engine/InlineSkiplist.hpp:661-667 | If a level does not advance with a node, no level above may |
| SkipListValidate.ValidListPasses | nvm_engine/InlineSkiplist.hpp:638-674 | Every list that inserts have built passes |
| CacheTable.HandleTable.Insert | nvm_engine/Cache.hpp:64-76 | Afterwards the handle is in the table; what is returned is the one handle of the table that had its hash and its key, which has left the table, or null exactly if none had; all other handles stay and none is added; the length stays or doubles |
| CacheTable.HandleTable.Remove | nvm_engine/Cache.hpp:78-86 | What is returned is the one handle of the table with this hash and this key, which has left the table, or null exactly if there was none; all other handles stay and none is added |
| CacheTable.HandleTable.Lookup | nvm_engine/Cache.hpp:60-62 | A handle of the table that has this hash and this key, or null exactly if none has both |
| CacheTable.HandleTable.FindPointer | nvm_engine/Cache.hpp:93-101 | A pointer into the chain of slot hash % length: the link behind all handles that differ in hash or key, which holds the handle that has both, or the null at the end |
| CacheTable.HandleTable.HandleIsInItsSlot | nvm_engine/Cache.hpp:93-94 | Every handle of the table is in the chain of slot hash % length and in no other, and no two handles have the same hash and key |
| CacheTable.HandleTable.Resize | nvm_engine/Cache.hpp:103-127 | Keeps every binding; the length is a power of two of at least 4, at least the number of handles and less than twice it; every handle is relinked once |
| CacheTable.HandleTable.MoveAll | nvm_engine/Cache.hpp:110-123 | The new chains hold exactly the old bindings, and `count` is their number |
| CacheTable.HandleTable.MoveChain | nvm_engine/Cache.hpp:112-121 | One old chain is moved, handle by handle, and nothing else |
| CacheTable.HandleTable.CountOne | nvm_engine/Cache.hpp:69-74 | The new handle is counted and the load stays at most one |
| CacheTable.HandleTable.NewLength | nvm_engine/Cache.hpp:104-107 | The doubling loop ends without overflow for at most 2^31 handles |
| CacheTable.HandleTable.constructor | nvm_engine/Cache.hpp:57-57 | An empty table of length 4 |
| CacheTable.HandleTable.ResizingIsAmortised | nvm_engine/Cache.hpp:64-127 | Over any run of calls at most three handles are relinked for each `Insert`, and the load is at most one |
| CacheTable.EditedTableOk | nvm_engine/Cache.hpp:64-86 | Writing one link edits one chain: chains stay acyclic, disjoint, null-terminated and in the right bucket, and hold exactly the edited map |
| CacheTable.SearchFindsBinding | nvm_engine/Cache.hpp:93-101 | Where the search of a chain stops is the binding of the map |
| CacheTable.BindingIsFound | nvm_engine/Cache.hpp:93-101 | The binding of the map is the one handle with this hash and key, told by its fields |
| CacheTable.BoundHandles | nvm_engine/Cache.hpp:64-76 | Binding a handle adds it to the handles of the table and takes out exactly the one with the same hash and key |
| CacheTable.LengthDoubles | nvm_engine/Cache.hpp:71-73 | A resize for one handle too many doubles the length exactly |
| TableLengths.DoublingReaches | nvm_engine/Cache.hpp:104-107 | The doubling loop ends if and only if there are at most 2^31 handles: beyond that the 32-bit length becomes zero and stays zero |
| TableLengths.MaskIsRemainder | nvm_engine/Cache.hpp:94-94 | Masking a hash with the length less one is its remainder, for powers of two |
| LogRuns.CrashRecoversAPrefix | nvm_example/NvmExample.cpp:19-108 | If the power fails at any point of any run of appends, write-backs, failures and recoveries, recovery finds a log of a prefix of the records appended so far |
| LogRuns.PersistedRecordsStay | nvm_example/NvmExample.cpp:63-108 | Records whose counter has reached the medium are never lost by later appends, failures or recoveries |
| LogRuns.HistoryStep | nvm_example/NvmExample.cpp:73-78 | The history of a run changes only by an append, which adds its own record, and by a failure, which cuts it to a prefix |
| LogRuns.DurableIffCounterEvicted | nvm_example/NvmExample.cpp:73-78 | After `Append` has returned, its record survives the next failure, whatever is appended before that, if and only if the cache wrote the counter back in between |
| LogRuns.EvictedRecordStays | nvm_example/NvmExample.cpp:63-108 | Once the counter has been written back after an append, its record survives every later failure too |
| LogRuns.AnyBytesMayBeWrittenBack | nvm_example/NvmExample.cpp:89-108 | From every state of every run the cache may write back any choice of bytes, with or without the counter, and no other: the crash results cover every partial write-back |
| LogRuns.AppendedRecordCanBeLost | nvm_example/NvmExample.cpp:131-136 | For every log and every record there is a run in which the call has returned and a failure loses the record: the increment of the counter is not persisted |
| LogRuns.SafeIffLengthsFit | nvm_example/NvmExample.cpp:89-108 | A record is recovered from correctly after every failure, on every log, if and only if its key and its value are shorter than 2^32 bytes: the barrier takes a 32-bit length |
| LogRuns.NewRegionIsEmptyLog | nvm_example/NvmExample.cpp:46-61 | A region of zeros is the empty log |
| LogCrash.MediumIsLog | nvm_example/NvmExample.cpp:19-35 | In every state the medium holds a log of a prefix of the history |
| LogCrash.StepKeepsInv | nvm_example/NvmExample.cpp:63-108 | Every store, barrier, increment, write-back, failure and recovery keeps the invariant |
| LogCrash.CrashKeepsInv | nvm_example/NvmExample.cpp:19-71 | After a failure and recovery the history is the prefix that the counter on the medium counts |
| LogProgram.AppendIsOrderly | nvm_example/NvmExample.cpp:73-108 | An append writes its bytes in order, every barrier covers all that is written and not persisted, and everything is persisted before the counter moves |
| LogProgram.StaysInIffFits | nvm_example/NvmExample.cpp:73-108 | An append, which checks nothing, touches only bytes of the region if and only if its record fits behind the end of the log |
| LogProgram.RecordProgramAt | nvm_example/NvmExample.cpp:73-108 | The crash model takes the actions of an append one by one, in the order in which the appender performs them |
| LogFormat.RecoverLog | nvm_example/NvmExample.cpp:63-71 | Replay rebuilds the history of a log and finds its end |
| LogFormat.ReplayEncoded | nvm_example/NvmExample.cpp:27-44 | Replay undoes the encoding of any history, empty keys and values included |
| LogFormat.LogIsUnique | nvm_example/NvmExample.cpp:63-71 | A region holds at most one history |
| LogFormat.LogBytes | nvm_example/NvmExample.cpp:63-108 | Every byte of a log: the number of records in the first eight bytes, lowest byte first, and each record behind those before it, key and value each behind an eight-byte length |
| LogFormat.ByteIsDigit | nvm_example/NvmExample.cpp:98-101 | Byte i of a stored number n is n / 256^i % 256 |
| LogFormat.MapHoldsLastSet | nvm_example/NvmExample.cpp:69-69 | The map of a history binds exactly the keys set, each to the value set last |
| NvmLog.NvmExample.Set | nvm_example/NvmExample.cpp:131-136 | Binds the key to the value and changes no other binding; the bytes of earlier records stay |
| NvmLog.NvmExample.Get | nvm_example/NvmExample.cpp:121-129 | The value set last, or not found exactly if the key was never set |
| NvmLog.NvmExample.constructor | nvm_example/NvmExample.cpp:110-113 | On a region with a log, whoever wrote it, the store has the map of its history |
| NvmLog.ReopenedIsSame | nvm_example/NvmExample.cpp:110-138 | Closing and opening again gives the same history, the same map and the same end of the log |
| NvmLog.LogAppender.Append | nvm_example/NvmExample.cpp:73-78 | The region becomes a log of one record more by exactly the actions of the crash model; returned slices hold key and value; earlier bytes stay |
| NvmLog.LogAppender.PushBack | nvm_example/NvmExample.cpp:98-108 | Writes length and bytes behind the end, with a barrier after each, and nothing else |
| NvmLog.LogAppender.BumpCounter | nvm_example/NvmExample.cpp:76-76 | Increments the 64-bit counter, which wraps, and changes no other byte |
| NvmLog.LogAppender.PersistRange | nvm_example/NvmExample.cpp:89-96 | A barrier whose length is cut to 32 bits |
| NvmLog.LogAppender.Recovery | nvm_example/NvmExample.cpp:63-71 | The hash map has the bindings of the history, as slices of the region, and the end is behind the last record |
| NvmLog.RecoveryHelper.Next | nvm_example/NvmExample.cpp:27-35 | The next record of the log; null only behind the last one, so an empty key does not end recovery |
| NvmLog.RecoveryHelper.GetSlice | nvm_example/NvmExample.cpp:37-44 | The slice at the end so far, which moves behind it |
| Mwc.StepIsExact | judge/random.cpp:123-133 | Neither the 32-bit product nor the 32-bit sum of a step overflows |
| Mwc.StepCongruent | judge/random.cpp:123-133 | 2^16 times the next state is the state plus a multiple of m 2^16 - 1 |
| Mwc.IterateCongruent | judge/random.cpp:115-139 | After n steps, 2^(16 n) times the state is the seed modulo m 2^16 - 1 |
| Mwc.StepInRange | judge/random.cpp:123-133 | On 0 to m 2^16 - 1 the step stays in range, is undone by `Back`, and leads from a nonzero state to a nonzero state |
| Mwc.BackInRange | judge/random.cpp:123-133 | On that range `Back` is undone by the step: the step is a bijection |
| Mwc.StepIsInjective | judge/random.cpp:123-133 | Different states of that range have different successors |
| Mwc.NeverZero | judge/random.cpp:115-139 | A nonzero seed never reaches zero, whatever 32-bit number it is |
| Mwc.InRangeAfterTwo | judge/random.cpp:105-139 | Every 32-bit seed is in range after two steps |
| Mwc.FixedPoints | judge/random.cpp:99-133 | For both multipliers exactly 0 and m 2^16 - 1 are followed by themselves |
| Mwc.StuckIffMultiple | judge/random.cpp:99-133 | A seed ends in a constant sequence if and only if it is a multiple of m 2^16 - 1 |
| Mwc.TwiceModulusGetsStuck | judge/random.cpp:105-112 | There are 32-bit seeds besides the fixed points that do |
| RandomGenerator.OutputHalves | judge/random.cpp:135-138 | A result holds the low halves of both states of its lane |
| RandomGenerator.SeedHalves | judge/random.cpp:105-112 | Seeds 4 i to 4 i + 3 are the lower and the upper half of `a` and then of `b` of lane i |
| RandomGenerator.DrawnSeeds | judge/random.cpp:45-50 | Without seeds, numbers 2 i and 2 i + 1 from `rand()` seed `a` and `b` of lane i |
| RandomGenerator.Random.constructor | judge/random.cpp:45-66 | The lanes have the given seeds, or those from `rand()` if none are given, and the buffer holds the first 9600 numbers of their stream |
| RandomGenerator.Random.Generate | judge/random.cpp:115-139 | Every lane makes one step, a to 18000 (a % 2^16) + a / 2^16 and b likewise with 30903; the result has the low half of the new a as its upper half and that of b as its lower half, and is the next number of its part of the stream |
| RandomGenerator.Random.RefillRandomUnsignedInts | judge/random.cpp:68-82 | The used numbers, rounded up to a multiple of four, are replaced by the next numbers of the stream; the others stay |
| RandomGenerator.Random.NextWindow | judge/random.h:70-74 | Windows of 24 lie in the buffer; if only windows are taken, the n-th holds the numbers from place 24 n of the stream on, across refills, so the windows follow one another without gap or overlap and none holds the first 24 numbers |
| RandomGenerator.Random.NextNumber | judge/random.h:75-75 | The next number of the stream modulo `maxValue` + 1, and one position on; undefined exactly at the end of the buffer, which is not refilled, and for `maxValue` = 2^32 - 1, where the 32-bit divisor is zero |
| RandomGenerator.InsideIffAligned | judge/random.h:70-75 | With the offset as a 32-bit number, windows stay inside the buffer forever if and only if they begin at a multiple of 24 below 9600, or at 2^32 - 24, which wraps to zero |
| RandomGenerator.SingleNumbersBreakWindows | judge/random.h:70-75 | After single numbers read from an aligned offset, windows stay inside if and only if a multiple of 24 was read and the buffer is not used up |
| ValueStore.Store.KVSEncodeValue | nvm_engine/PersistantPool.hpp:197-242 | Encoding 3 with the value itself as payload, or 2 with the compressed value; the reference decodes to the value, for an uncompressed one if and only if it is shorter than 2^32 bytes; every other live reference decodes as before |
| ValueStore.Store.KVSDumpFromValueRef | nvm_engine/PersistantPool.hpp:257-277 | What is handed out, with encoding 0 or 1 in front, decodes by itself to what the reference decoded to; the block is freed and every other live reference decodes as before |
| ValueStore.Store.KVSDecodeValueRef | nvm_engine/PersistantPool.hpp:279-323 | The value of a stored item, inline or behind a reference, compressed or not |
| ValueStore.Store.ReservePmem | nvm_engine/PersistantPool.hpp:168-195 | Of the pools that offer a block, the one fewest places behind the next in the round gives it, counting upwards and from the last pool to pool 0; if all refuse, the store counts as full |
| ValueStore.Store.FreePmem | nvm_engine/PersistantPool.hpp:244-255 | Gives back exactly the block; a full store is available again once more than the minimum has been freed |
| ValueStore.Store.KVSFreeValue | nvm_engine/PersistantPool.hpp:336-342 | For a reference whose encoding is neither 0 nor 1, exactly its block is freed and availability returns above the minimum; for any other item nothing changes |
| ValueStore.OtherDecodes | nvm_engine/PersistantPool.hpp:279-323 | Writing in one block leaves the decoding of references to others unchanged |
| ValueStore.DumpDecodes | nvm_engine/PersistantPool.hpp:261-273 | A dumped value decodes to what its reference decoded to |
| ValueStore.PlacedOk | nvm_engine/PersistantPool.hpp:205-239 | What is put into a free block is what its reference leads to if and only if it is shorter than 2^32 bytes, and no other reference is disturbed |
| ValueRuns.RefsKeepTheirValues | nvm_engine/PersistantPool.hpp:197-342 | Over every run of encodes, dumps and frees, a reference decodes to the value it was encoded from until its block is given back |
| ValueRuns.DumpsGiveTheirValues | nvm_engine/PersistantPool.hpp:257-277 | At any later point of a run, a dump of a reference hands out bytes that decode by themselves to the value it was encoded from |
| ValueRuns.RefsDiffer | nvm_engine/PersistantPool.hpp:168-195 | References whose blocks have not been given back are to different blocks |
| ValuePublish.KVSPublish | nvm_engine/PersistantPool.hpp:360-385 | An action behind c others for its pool is entry c % 32 of batch c / 32 given to that pool; every pool is given exactly its own actions, in as many non-empty batches of at most 32 as needed and no more |
| ValuePublish.PublishPool | nvm_engine/PersistantPool.hpp:369-381 | The batches put together are the actions of the pool |
| ValuePublish.ForPoolConserves | nvm_engine/PersistantPool.hpp:363-368 | Every action goes to its own pool, as often as it was reserved, and to no other |
| ValuePublish.ForPoolAt | nvm_engine/PersistantPool.hpp:363-368 | The order of the actions of a pool is kept: an action comes after exactly the earlier ones for its pool |

## Left out

- SkipList.SkipList.InsertConcurrently: models a call that does not overlap with others; overlapping calls are the subject of the state machine.
- ConcurrentProgress.EveryRunIsFinite: bounds the steps that do something; spurious failures of the weak compare-exchange on `max_height_` change nothing and may come any number of times.
- LogRuns.CrashRecoversAPrefix: for keys and values shorter than 2^32 bytes; `LogRuns.SafeIffLengthsFit` shows that this cannot be dropped.
- NvmLog.LogAppender.Append: the same.
- CacheTable.HandleTable.Insert: asks for fewer than 2^31 handles before a new one is added; `TableLengths.DoublingReaches` shows why.
- NvmLog.NvmExample.Set: asks for room in the region, which the program does not check; `LogProgram.StaysInIffFits` shows that this is exactly what keeps it inside the region.
- ValueStore.Store.KVSDecodeValueRef: answers nothing where the program asserts or aborts.
- Keys of the skip list are reals under their usual order, into which every countable strict total order embeds; decoding of keys is not modelled.
- Node layout in memory (negative indices, the stashed height, key bytes behind the node), prefetching and alignment; a node is a key, a height and an array of links.
- Memory orders weaker than sequential consistency, and reclamation of nodes, which the list does not do.
- `RandomHeight`: a node may have any height from 1 to the number of levels.
- `EstimateCount`, which makes no exact promise.
- Comparators that are not strict total orders, and inserting a node that is linked already.
- Machines that do not store the lowest byte of a word first.
- Mapping files, `pmem_map_file`, `mmap`, and the build without `USE_LIBPMEM`, in which nothing is persistent.
- The mutex of `NvmExample`: `Set` and `Get` are modelled one at a time, as it makes them.
- `NvmExample.hpp`, which describes a different engine than `NvmExample.cpp`; the declaration of `LogAppender` is not part of this model, its fields are taken from their uses.
- The fields of a cache handle that the hash table does not use, and the LRU functions, which are not written.
- Pool files, `KVSOpen`, pool headers and the allocator of libpmemobj: its answers are a parameter, free blocks or refusals, and crash states of the pools are not modelled.
- Snappy: a pair of functions; where values come back, uncompressing is taken to undo compressing, and `SNAPPY` to be defined.
- Threads in the value store: the atomic counters are modelled one call at a time.
- `rand()`: its numbers are a parameter.
- `NvmEngine.cpp`, `Table.hpp`, `Index.hpp`, `Iterator.hpp`, the abstract `Cache`, `judge.cpp`, tests and makefiles: stubs, declarations or plumbing.
