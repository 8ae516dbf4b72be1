# A verified model of GoDB

GoDB is a small database engine written in Go. This project models the parts of it that are
hard to get right and proves what they are for:

- **Locks.** The lock manager is a monitor with five modes, barging grants and a depth-first
  deadlock search (`LockTable`, `LockManagement`). `LockModes` gives the modes their meaning as
  rights on a resource and its parts. `LockRuns` takes any number of
  transactions, each with at most one outstanding call, and any interleaving of the monitor's
  atomic segments: start of a call, wake-up, unlock. `TransactionLocks` adds the per-transaction
  record of held locks.
- **Buffer pool.** `BufferPoolSteps` cuts `GetPage`, `UnpinPage` and the flush at every point
  where another thread can act. `BufferPoolObject` is the object itself with its clock, run
  without interference, and each of its operations is a sequence of those steps.
- **Heap storage.** Bits, bytes, bitmaps and slotted pages (`Bits`, `PageBytes`, `Bitmaps`,
  `HeapPages`, `HeapPageFrames`, `HeapSlots`), the table heap and its iterator (`TableHeaps`,
  `HeapIterator`), values and tuples as bytes (`Values`, `Serialization`, `Tuples`).
- **Query rewriting.** Expressions under three-valued logic, logical plans and what they
  compute, predicate pushdown and the driver around it, disjunctive normal form, binding,
  shifting and fusing (`Expressions`, `LogicalPlans`, `PredicatePushdown`, `PushdownMeaning`,
  `PushdownPlacement`, `PushdownFixpoint`, `DisjunctiveForm`, `Binding`).
- **Join and indexes.** The block nested loop join (`BlockJoin`), the concurrent hash index
  (`Records`, `HashIndexSteps`), and the insert, update, delete, lookup and rebuild code that
  keeps indexes and table in agreement (`IndexContents`, `RowTables`, `IndexMaintenance`).

Objects whose methods update fields are classes. Each method is proved equal to a function on
values, and the properties are proved about that function. Threads are interleaved steps of a
state machine. Bytes are numbers below 256 and machine words numbers below 2^64, with the
bitwise operators written out bit by bit.

Where code and comments disagree, the model follows the code:

- The modes are described as standard multi-granularity locking, with SIX compatible only with IS.
  The code also grants S and SIX together, and that is its only deviation
  (`CompatibleIffNoClash`, `ClashOnlyAsSharedAndSix`); `SharedAndSixTogether` is a run that
  reaches it.
- `VacuumPage` is documented to spare slots that some transaction has locked. The code looks at
  no lock and takes no page latch.
- A mode change in `AcquireLock` gives up the old lock before it has the new one, and keeps
  recording it (`ModeChangeKeepsLockIffNoConflict`). `UpgradeLosesLock` and
  `FailedUpgradeLosesLock` are runs in which it is lost.
- `DeleteEntry` walks the old slice while the live one shrinks. On a bucket of `n` ids with `k`
  copies of the one to delete it panics exactly when the last copy is not among the first
  `n - k + 1`, and otherwise removes them all (`SweepMeaning`, `SweepableByLastCopy`). Two copies
  alone panic, with another id behind them they do not (`TwoCopies`). If every row is indexed
  once no deletion panics (`OnceIndexedNeverPanics`).
- The block nested loop join asks its left child for an error only after a row, so it reports
  none: after a run it has an error exactly if the right child failed and was asked (`Drain`,
  `LeftFailureIsDropped`).
- `OptimizeWithRule` applies the rule once per node on the way down. It leaves nothing to push
  exactly when no filter sits on one that is absorbed and that it could have followed
  (`SettledIffNoneLeftBehind`); of two filters on a scan the upper one stays
  (`UpperFilterStays`).
- The insert and update executors compute index keys from the values before they are stored. The
  indexes agree with the table afterwards exactly if nothing hides behind a NUL in a key column
  (`InsertAgreesIff`, `UpdatesAgreeIff`).

## Model

| member | source | states |
|---|---|---|
| LockManagement.LockManager.Dfs | transaction/lock.go:286-310 | The search with its shared visited set ends, for any map order; found means a path to the start exists, and not found leaves a closed set of explored transactions |
| LockManagement.LockManager.HasDeadLock | transaction/lock.go:281-284 | True exactly when the transaction reaches itself by a non-empty waits-for path |
| LockManagement.LockManager.HasConflict | transaction/lock.go:116-127 | The scan over the holders finds a conflict exactly when some other holder's mode is incompatible |
| LockManagement.LockManager.RemoveFromWaitQueue | transaction/lock.go:265-279 | Removes the first occurrence of the transaction, and the queue when it empties |
| LockManagement.LockManager.Lock | transaction/lock.go:101-167 | From entry to grant, deadlock error or first wait, the whole table and queue become what the segment's specification gives |
| LockManagement.LockManager.Recheck | transaction/lock.go:135-167 | A wake-up is granted exactly when every other holder of the tag is compatible; it then leaves the queue and takes the lock, and otherwise waits on |
| LockManagement.LockManager.Unlock | transaction/lock.go:170-192 | Releases exactly the caller's entry or reports it missing, and broadcasts exactly when the tag has waiters |
| LockManagement.LockManager.LockHeld | transaction/lock.go:195-206 | True exactly when some transaction holds the tag |
| LockModes.CompatibleIffNoClash | transaction/lock.go:209-261 | Two modes are compatible exactly when the rights they give do not clash, but for the one pair S and SIX |
| LockRuns.StepKeepsInv | transaction/lock.go:101-192 | Every segment keeps: no waits-for cycle, compatible holders, queues that list exactly the blocked calls, no empty entries |
| LockRuns.RunKeepsInv | transaction/lock.go:101-192 | Hence every state of every run has that invariant |
| LockRuns.NeverDeadlocked | transaction/lock.go:128-134 | In every reachable state, under every interleaving, the waits-for graph has no cycle |
| LockRuns.HoldersAlwaysCompatible | transaction/lock.go:209-261 | In every reachable state two holders of a tag are compatible in both directions and an X holder is alone |
| LockRuns.ClashOnlyAsSharedAndSix | transaction/lock.go:209-261 | In every reachable state two holders of a tag have clashing rights only as holders of S and of SIX |
| LockRuns.SomeoneCanProceed | transaction/lock.go:101-167 | From any transaction, following conflicting holders ends at one that is not waiting or can be granted now |
| LockRuns.BlockedHoldersCannotStall | transaction/lock.go:101-167 | If every holder waits, some waiter can be granted now |
| LockRuns.FailedCallDropsOldMode | transaction/lock.go:101-134 | A call that ends in a deadlock error leaves every queue and every other entry as it was; the caller's old mode on the tag is gone |
| LockRuns.CallOutcome | transaction/lock.go:101-134 | Granted at once exactly if the mode is held or every other holder is compatible; otherwise a deadlock error exactly if some other holder waits, directly or not, for the caller; otherwise blocked |
| LockRuns.CallEffect | transaction/lock.go:101-167 | What a call does to the holders and queue of every tag, for each outcome |
| LockRuns.WakeGrantsIffCompatible | transaction/lock.go:135-167 | A woken call is granted exactly when every other holder of its tag is compatible with the mode it waits for; it then has that mode and has left the queue, and otherwise nothing changes |
| LockRuns.ReleaseEffect | transaction/lock.go:170-192 | A release takes away exactly the caller's entry and reports whether there was one |
| LockRuns.ProceedingWaiterIsGranted | transaction/lock.go:135-167 | A waiter that can proceed is one whose next wake-up is a grant |
| TransactionLocks.TransactionContext.AcquireLock | transaction/transaction_context.go:109-130 | A covered request changes nothing; any other is a lock-manager call, recorded exactly when granted; table entries stay recorded with their mode |
| TransactionLocks.TransactionContext.ResumeAcquire | transaction/transaction_context.go:125-130 | The same for a blocked call after a wake-up |
| TransactionLocks.TransactionContext.ReleaseAllLocks | transaction/transaction_context.go:142-147 | Afterwards the transaction holds nothing anywhere, and no other transaction's entry has changed |
| TransactionLocks.CoversIffStronger | transaction/transaction_context.go:111-124 | A held mode answers a request at once exactly if it gives more rights than the one asked for, or both are X |
| TransactionLocks.StepKeepsEntriesKnown | transaction/transaction_context.go:109-147 | Every step of every transaction keeps each table entry known to its owner |
| TransactionLocks.TableEntriesAreRecorded | transaction/transaction_context.go:109-147 | In every run each table entry of a transaction is recorded with the same mode, also after failed mode changes |
| TransactionLocks.NothingHeldAfterRelease | transaction/transaction_context.go:142-147 | In every run, when the release ends the transaction holds nothing anywhere |
| TransactionLocks.ModeChangeKeepsLockIffNoConflict | transaction/transaction_context.go:109-130 | The converse fails: the recorded lock is still in the table after a request for a mode it does not cover exactly when no other holder conflicts |
| TransactionLocks.UpgradeLosesLock | transaction/transaction_context.go:109-130 | A run that reaches this: two holders of S, one asks for X, and its lock is on record but not in the table |
| TransactionLocks.FailedUpgradeLosesLock | transaction/transaction_context.go:109-130 | A mode change can fail and leave a transaction running with a lock on record that it no longer has, and a request which that mode covers is then answered without any lock |
| TransactionLocks.SharedAndSixTogether | transaction/lock.go:209-261 | A run in which one transaction holds S and another SIX on the same tag |
| TransactionLocks.StepProjects | transaction/transaction_context.go:109-147 | Every transaction step is a lock-manager step or none |
| TransactionLocks.TransactionRunsSafe | transaction/transaction_context.go:109-147 | So the lock manager's invariant holds in every run of transactions |
| BufferPoolSteps.StepKeepsInv | storage/buffer_pool.go:55-232 | Every step of every interleaving keeps the invariant that ties frames, page table, pins, loaders and disk |
| BufferPoolSteps.RunKeepsInv | storage/buffer_pool.go:55-232 | Hence every state of every run has it |
| BufferPoolSteps.StepRefinesPlainMap | storage/buffer_pool.go:55-232 | Every step is a step of a plain page map: only a pin holder's write or an allocation changes what a page holds |
| BufferPoolSteps.RunRefinesPlainMap | storage/buffer_pool.go:55-232 | After any run a page holds what was last written to it, zeros if it was allocated since, or else what the disk held at the start |
| BufferPoolSteps.NewPageIsBlank | storage/disk_storage.go:45-63 | A page comes into being only by an allocation and then holds zeros |
| BufferPoolSteps.NoPageLiveTwice | storage/buffer_pool.go:55-187 | No page is live in two frames |
| BufferPoolSteps.PinnedFrameShowsLatest | storage/buffer_pool.go:55-199 | A pinned frame is its page's and shows the page's latest bytes, whatever else is in flight |
| BufferPoolSteps.PinnedFrameNeverEvicted | storage/buffer_pool.go:88-136 | A pin keeps its frame and page; a victim is never pinned |
| BufferPoolSteps.GetEndsPinnedOrFailed | storage/buffer_pool.go:55-187 | A `GetPage` ends with a new pin of its page or after its read has failed |
| BufferPoolSteps.ReadFailsOnlyOnMissingPage | storage/buffer_pool.go:166-182 | Its read fails only if there is no such page |
| BufferPoolSteps.WriteBackInBounds | storage/disk_storage.go:82-95 | The page a dirty frame will be written to exists, so neither eviction nor flush meets the bounds error |
| BufferPoolSteps.MissEvicts | storage/buffer_pool.go:55-187 | An undisturbed `GetPage` that misses, taken step by step from any idle one-frame pool, writes the old page back exactly if it was dirty, unmaps it and pins the frame on the new page's disk bytes |
| BufferPoolSteps.WrittenPageIsEvicted | storage/buffer_pool.go:55-199 | For any two pages and any bytes there is a run in which a written page is evicted for the other: it leaves the table and the disk keeps the bytes written |
| BufferPoolObject.VictimUnique | storage/buffer_pool.go:88-136 | The clock-free rule for the victim determines it |
| BufferPoolObject.HotFrameGoesLast | storage/buffer_pool.go:88-136 | In a pool of at most 1000 a frame at the maximal count is chosen only if every unpinned frame is at it |
| BufferPoolObject.BufferPool.SweepRound | storage/buffer_pool.go:96-125 | One round stops at the first frame in clock order that qualifies, or shows there is none; exactly the frames it passed have lost references |
| BufferPoolObject.BufferPool.Sweep | storage/buffer_pool.go:88-136 | The sweep finds a victim exactly when some frame is unpinned, and it is the one the rule names; nothing but reference counts changes, and the count of every frame afterwards is given |
| BufferPoolObject.BufferPool.PinFound | storage/buffer_pool.go:58-66 | A hit adds a pin and a reference, up to two references, and touches no other frame |
| BufferPoolObject.BufferPool.EvictOld | storage/buffer_pool.go:129-163 | The old page reaches the disk if dirty, then leaves the table; the frame is the new page's, pinned once and clean |
| BufferPoolObject.BufferPool.ReadInto | storage/buffer_pool.go:164-187 | The new page's bytes are read, or the frame and the table entry are given back when there is no such page |
| BufferPoolObject.BufferPool.GetPage | storage/buffer_pool.go:55-187 | Is a run of protocol steps; returns a pinned frame with the page's current bytes, changes no page's content, and fails only on a missing page or when all frames are pinned |
| BufferPoolObject.BufferPool.UnpinPage | storage/buffer_pool.go:190-199 | Is one protocol step; gives back one pin and changes no page's content |
| BufferPoolObject.BufferPool.FlushFrame | storage/buffer_pool.go:201-217 | Writes the frame if it is dirty, within the file's bounds, and marks it clean |
| BufferPoolObject.BufferPool.FlushAllPages | storage/buffer_pool.go:220-232 | Is a run of protocol steps; meets no error, leaves no frame dirty and no page changed, and the disk up to date when nobody is mid-write |
| BufferPoolObject.HitIsSteps | storage/buffer_pool.go:57-69 | A hit is these three protocol steps and finds the page's latest bytes |
| BufferPoolObject.MissIsSteps | storage/buffer_pool.go:71-187 | A miss is these five steps, six for a page that does not exist |
| BufferPoolObject.FlushIsSteps | storage/buffer_pool.go:201-217 | The flush of a dirty frame is these two steps, and its page exists |
| BufferPoolObject.SilentSteps | storage/buffer_pool.go:55-232 | Any run of steps without writes and allocations keeps the invariant and every page's content |
| Bits.MaskTest | storage/bitmap.go:57-64 | A word AND a one-bit mask is non-zero exactly when that bit is set |
| Bits.SetBits | storage/bitmap.go:49-50 | OR with a one-bit mask sets that bit and no other, and stays a 64-bit word |
| Bits.ClearBits | storage/bitmap.go:51-53 | AND with the complement clears that bit and no other |
| Bits.ReadThrough | storage/bitmap.go:58-64 | Reading through the mask gives that bit; a negative `k` reads false |
| Bits.WriteThrough | storage/bitmap.go:43-55 | Writing through the mask `1 << k` sets or clears that bit; a negative `k` changes nothing |
| Bits.MaskedBits | storage/bitmap.go:81-83 | OR with the low mask hides exactly the bits before the hint |
| Bits.FirstClear | storage/bitmap.go:84-86 | Trailing zeros of the complement is the lowest clear bit, and there is one unless the word is all ones |
| Bitmaps.BitAfterSet | storage/bitmap.go:43-55 | Setting a bit of the buffer changes that bit and no other |
| Bitmaps.BitElsewhere | storage/bitmap.go:43-55 | Bitmaps elsewhere in the buffer keep their bits |
| Bitmaps.Bitmap.SetBit | storage/bitmap.go:43-55 | In place: the buffer with that bit set; returns the previous value. Indices -63 to -1 change nothing and return false |
| Bitmaps.Bitmap.LoadBit | storage/bitmap.go:58-64 | The bit as it is in the buffer, false for indices -63 to -1 |
| Bitmaps.ScanIsFirstZero | storage/bitmap.go:66-72 | The plain cyclic scan is characterised: the clear bit the least way ahead of the hint, or -1 when all are set |
| Bitmaps.ScanGivesUp | storage/bitmap.go:66-72 | It returns -1 exactly when every bit is set |
| Bitmaps.Bitmap.FindFirstZero | storage/bitmap.go:72-105 | The word-wise search with masks, wrap-around and padding is the plain cyclic scan from the hint modulo the length, for every length and hint |
| HeapPages.CountSlots | storage/heap_page.go:36-45 | The slot loop finds the maximal number of slots, at least one for every legal row size |
| HeapPages.PageLayout | storage/heap_page.go:36-39 | The layout in numbers: 16 header bytes, two bitmaps of a word per 64 slots, rows behind each other |
| HeapPages.RowsApart | storage/heap_page.go:106-110 | Slots do not overlap |
| HeapPages.RowInPage | storage/heap_page.go:106-110 | Slots lie inside the page |
| HeapPages.SetAllocView | storage/heap_page.go:79-81 | Writing an allocation bit changes that bit of the page's parts and nothing else |
| HeapPages.SetDeletedView | storage/heap_page.go:101-104 | Writing a deleted bit changes that bit and nothing else |
| HeapPages.SetUsedView | storage/heap_page.go:21-23 | Writing the counter changes the counter and nothing else |
| HeapPages.WriteRowView | storage/heap_page.go:106-110 | Writing a slot's bytes changes that row and nothing else |
| HeapPages.FreshView | storage/heap_page.go:33-54 | An initialised page has all slots free and none used |
| HeapPageFrames.InitializeHeapPage | storage/heap_page.go:33-54 | The frame holds row size and the maximal number of slots at bytes 8 and 10 and zeros elsewhere |
| HeapPageFrames.HeapPage.FindFreeSlot | storage/heap_page.go:69-72 | The first unallocated slot, -1 when all are allocated |
| HeapPageFrames.HeapPage.MarkAllocated | storage/heap_page.go:79-94 | Sets the bit, moves the counter by one when the bit changes, and clears the deleted bit |
| HeapPageFrames.HeapPage.MarkDeleted | storage/heap_page.go:101-104 | Sets one deleted bit and changes nothing else |
| HeapPageFrames.HeapPage.AccessTuple | storage/heap_page.go:106-110 | The byte range of the slot, inside the page, holding the slot's row |
| HeapSlots.InsertedOk | execution/table_heap.go:70-79 | Inserting keeps counter, bitmaps and padding consistent, makes the free slot live with the row, and touches no other slot |
| HeapSlots.DeletedOk | execution/table_heap.go:117-122 | Deleting turns one live slot into a tombstone, consistently |
| HeapSlots.UpdatedOk | execution/table_heap.go:154-160 | Updating changes one live row, consistently |
| HeapSlots.VacuumedOk | execution/table_heap.go:174-182 | Vacuuming frees the page's tombstones, keeps the page consistent and changes no live row |
| TableHeaps.TableHeap.InsertTuple | execution/table_heap.go:48-104 | Returns an id that was neither live nor tombstoned, stores the row there and changes no other id; it is the first free slot of the last page, or the first of a page added when that one is full |
| TableHeaps.TableHeap.ReadTuple | execution/table_heap.go:127-143 | Succeeds exactly on live ids and copies out the row; a missing page is an I/O error, any other id is reported deleted |
| TableHeaps.TableHeap.UpdateTuple | execution/table_heap.go:146-163 | Succeeds exactly on live ids, replaces that row and changes no other id |
| TableHeaps.TableHeap.DeleteTuple | execution/table_heap.go:109-123 | Succeeds exactly on live ids, leaves a tombstone and changes no other id |
| TableHeaps.TableHeap.VacuumPage | execution/table_heap.go:168-183 | Frees exactly the tombstones of the page |
| HeapIterator.EntriesAreTheLiveRows | execution/table_heap.go:205-216 | The rows a scan is to yield: each live row exactly once, in page and slot order |
| HeapIterator.AccountedAfter | execution/table_heap.go:225-301 | A call that matches the change of position keeps the calls in order and accounts for what the iterator owns |
| HeapIterator.TableHeapIterator.Next | execution/table_heap.go:225-265 | Yields the next of those rows. No pin or latch is given back that is not held, latches are on pinned pages only, and at the end each was given back as often as taken |
| HeapIterator.TableHeapIterator.CurrentTuple | execution/table_heap.go:269-283 | The id and row under the cursor |
| HeapIterator.TableHeapIterator.Close | execution/table_heap.go:291-301 | Makes exactly the calls that give back what is still out, latch before pin, at any point of the scan |
| HeapIterator.Scan | execution/table_heap.go:187-301 | A whole scan ends, yields exactly those rows in that order, and its calls are balanced at the end and never overdrawn on the way |
| Values.CompareZero | common/types.go:332-364 | Compare is zero exactly on equal values |
| Values.CompareIsOrder | common/types.go:332-364 | Compare is -1 exactly when the first value comes before the second, 1 when after, else 0: integers by size, strings by first difference, NULL first |
| Values.CompareIsTotalOrder | common/types.go:332-364 | Compare is a total order on the values of a type, NULL first |
| Values.CompareBytesDecides | common/types.go:354-361 | Strings are ordered by their first difference, a proper prefix first |
| Values.WrapIsCongruent | planner/expr.go:436-467 | The wrapped result is the one 64-bit integer congruent to the exact one |
| Values.QuotientTruncates | planner/expr.go:436-467 | Division truncates and the remainder has the dividend's sign |
| Serialization.AsString | common/types.go:154-176 | The scan loop reads the string up to its first zero byte |
| Serialization.StoredBytes | common/types.go:301-327 | The bytes of each value: two's complement lowest byte first, string bytes then zeros, and the two NULL sentinels |
| Serialization.RoundTripIffCanonical | common/types.go:301-327 | Writing then reading a value gives it back exactly when it is canonical |
| Serialization.ReadIsCanonical | common/types.go:146-179 | What is read from storage is always canonical and of the field's type |
| Serialization.CompareIsByteEquality | common/types.go:332-364 | On canonical values Compare is zero exactly when the stored bytes are equal |
| Serialization.TrailingNulIsLost | common/types.go:318-326 | A non-canonical pair: different strings with equal bytes |
| Serialization.KeyBytesSurviveIff | execution/insert_executor.go:60-75 | The key bytes of a value before storing are those of the stored row exactly when nothing follows a NUL or a leading NULL marker |
| Serialization.EmbeddedNulLosesKey | execution/insert_executor.go:60-75 | A string with a NUL inside has other key bytes once it is stored |
| Tuples.NewRawTupleDesc | storage/tuple.go:62-80 | The offset of each field and the row size; panics exactly on a size that is unaligned or leaves less than 32 bytes of a page |
| Tuples.FieldAfterPut | storage/tuple.go:49-58 | Setting a field changes that field's bytes and no other's |
| Tuples.WrittenFieldsHold | storage/tuple.go:54-58 | Storable values written to fields of any schema read back as storage gives them, and the other fields keep their bytes |
| Tuples.AllStoredIffCanonical | storage/tuple.go:54-58 | A list of values reads back unchanged exactly when all are canonical |
| Tuples.WriteToBuffer | storage/tuple.go:147-163 | A tuple of stored and computed columns becomes a stored row with its values as storage gives them back |
| Tuples.Stitched | storage/tuple.go:172-175 | Stitching two stored rows gives a row that reads as the left values, then the right ones |
| Tuples.WrittenOneByOne | storage/tuple.go:176-186 | So does serializing them one by one |
| Tuples.MergeTuples | storage/tuple.go:168-188 | By either path the buffer holds the left values, then the right ones, as storage gives them back |
| Tuples.WrittenBuffer | storage/tuple.go:158-162 | Writing every field determines the bytes, whatever the buffer held |
| Expressions.ColumnEqualsSymmetric | planner/logical_plan_types.go:61-74 | Looking a column up and being looked up are the same comparison |
| Expressions.EqualFoldIgnoresCase | planner/logical_plan_types.go:70 | Names are equal exactly when they agree letter by letter up to case |
| Expressions.ColumnsToldApart | planner/logical_plan_types.go:28-74 | Columns differ if their names differ in more than case, or their types; with both the same, attached references decide by id, otherwise by alias |
| Expressions.FieldOfUniqueName | planner/physical_plan_builder.go:20-27 | A column whose name no other column has, up to case, is found at its own place |
| Expressions.LogicIsThreeValued | planner/expr.go:203-323 | AND is the minimum, OR the maximum and NOT the reversal of false, unknown, true; the result is 0, 1 or NULL |
| Expressions.ComparisonTruth | planner/expr.go:157-186 | A comparison with NULL is unknown; otherwise it is true exactly when its relation holds in the order of values, and false otherwise |
| Expressions.ArithmeticMeaning | planner/expr.go:436-467 | NULL on NULL operands and division by zero, else the 64-bit integer congruent to the exact sum, difference, product, truncated quotient or remainder |
| Expressions.TestsAndStrings | planner/expr.go:362-603 | Null checks are never unknown; concatenation is left then right; LIKE asks the matcher; NULL operands give NULL |
| Expressions.EvalHasType | planner/expr.go:157-603 | A well-typed expression on a fitting row has its declared type, so no type assertion fails |
| Expressions.EvalDependsOnReported | planner/expr.go:196-201 | An expression depends on a row only through the columns it reports |
| Expressions.Merge | planner/expr.go:293-302 | The loop builds the left-deep conjunction, nil for no conditions |
| Expressions.SplitKeepsMeaning | planner/expr.go:284-291 | A predicate is true exactly when all its split parts are, NULLs included |
| Expressions.MergeKeepsMeaning | planner/expr.go:293-302 | A merged predicate is true exactly when all its parts are |
| LogicalPlans.LeftIsInnerAndUnmatched | planner/predicate_pushdown.go:78-85 | A left outer join preserves its left side: the inner join plus the padded unmatched left rows |
| LogicalPlans.RightIsInnerAndUnmatched | planner/predicate_pushdown.go:87-93 | A right outer join is the inner join plus the padded unmatched right rows |
| LogicalPlans.InnerMembers | planner/predicate_pushdown.go:67-76 | An inner join yields exactly the pairs that meet its conditions |
| LogicalPlans.UnmatchedMembers | planner/predicate_pushdown.go:78-85 | The padded rows are those of the left rows that no right row joins |
| LogicalPlans.FullIsInnerAndUnmatched | planner/predicate_pushdown.go:94-96 | A full outer join is the inner join plus the padded rows of both sides |
| PredicatePushdown.PushThroughJoin | planner/predicate_pushdown.go:53-136 | The loop with its four lists and the rebuilding of the join compute `PushedThroughJoin`, whose result the placement lemmas describe |
| PredicatePushdown.Distribute | planner/predicate_pushdown.go:62-108 | The loop fills the four lists and settles the join type as `SharesOf` says for the whole list |
| PredicatePushdown.ApplyShrinks | planner/predicate_pushdown.go:16-35 | The rule adds no operator and no filter on top: the measure by which the driver ends |
| PredicatePushdown.OptimizeWithRule | planner/optimizer.go:35-67 | The driver loop and its recursion end, and compute the recursive rewrite |
| PushdownPlacement.InnerPlacement | planner/predicate_pushdown.go:67-136 | On the plan returned for an inner or cross join: the conjuncts over one side's columns alone are, in order, the filter on that side, all others are added to the join condition, no filter stays above, and a cross join with a condition becomes inner |
| PushdownPlacement.OuterPlacement | planner/predicate_pushdown.go:78-136 | For a left or right outer join: the conjuncts over the preserved side's columns alone are the filter on that side, all others stay above |
| PushdownPlacement.FullOuterPlacement | planner/predicate_pushdown.go:94-96 | For a full outer join everything stays above |
| PushdownPlacement.ScanPlacement | planner/predicate_pushdown.go:16-49 | A scan takes in the filter above it exactly when the filter mentions its columns only |
| PushdownPlacement.OneSidedReachScan | planner/optimizer.go:35-67 | The driver takes the conjuncts over the left columns alone, above an inner join of two scans, all the way into the left scan and takes in no others there |
| PushdownMeaning.UniqueRefIDsSeparate | planner/logical_plan_builder.go:319-323 | Unique reference ids keep the columns of a join's two sides apart |
| PushdownMeaning.PartsHold | planner/predicate_pushdown.go:62-108 | The conjuncts hold on a joined row exactly when those sent to each side hold on that side and the others on the whole |
| PushdownMeaning.InnerPush | planner/predicate_pushdown.go:67-76 | Filtering an inner or cross join is joining the filtered sides under the enlarged condition |
| PushdownMeaning.LeftPush | planner/predicate_pushdown.go:78-85 | Filtering a left outer join is filtering its left side first and keeping the rest above |
| PushdownMeaning.RightPush | planner/predicate_pushdown.go:87-93 | The mirror image for right outer joins |
| PushdownMeaning.JoinPush | planner/predicate_pushdown.go:65-108 | All five join types, with NULL padding |
| PushdownMeaning.ApplyKeepsRows | planner/predicate_pushdown.go:16-136 | One application of the rule keeps rows, order, schema and well-formedness |
| PushdownMeaning.OptimizeKeepsRows | planner/optimizer.go:35-67 | Pushdown as the driver runs it yields the same rows in the same order on every database, for every plan tree |
| PushdownFixpoint.RuleMovesIffPushable | planner/predicate_pushdown.go:16-136 | Where something is pushable the rule changes the node; elsewhere a filter keeps its child and conjuncts |
| PushdownFixpoint.SettledIffNoneLeftBehind | planner/optimizer.go:35-67 | The driver leaves nothing to push anywhere exactly when no filter sits on one that is absorbed and that it could have followed |
| PushdownFixpoint.UnstackedPlansSettle | planner/optimizer.go:35-67 | In particular nothing is left if no filter sat directly below a filter or a join |
| PushdownFixpoint.UpperFilterStays | planner/optimizer.go:35-67 | And otherwise something can be: of two filters on a scan that could both be pushed, the upper one stays |
| DisjunctiveForm.CrossProduct | planner/scan_rules.go:146-154 | The nested loops pair every term with every term |
| DisjunctiveForm.CrossValue | planner/scan_rules.go:136-155 | The OR of the paired terms is the AND of the two ORs, in three-valued logic |
| DisjunctiveForm.DnfKeepsValue | planner/scan_rules.go:123-202 | Wherever the transformation succeeds on integer-valued leaves it keeps the value and is not empty; the negated form has the negation's value |
| DisjunctiveForm.LogicTreeToLiterals | planner/scan_rules.go:123-202 | On AND/OR/NOT trees over comparisons, null checks and LIKE it never panics and leaves only literals |
| DisjunctiveForm.DnfOfLogicTree | planner/scan_rules.go:123-202 | The normal form of such a tree: literals, at least one term, the same three-valued result; likewise the negation |
| DisjunctiveForm.PredicatesDnfSelects | planner/scan_rules.go:204-209 | A row passes all predicates of a scan exactly when it passes all literals of some term |
| Binding.Lookup | planner/physical_plan_builder.go:20-27 | The first field whose column equals the one looked up, if any |
| Binding.BindKeepsValue | planner/physical_plan_builder.go:18-70 | Binding succeeds exactly when the schema has every column, and the bound expression on a tuple has the logical expression's value |
| Binding.UniqueColumnBinds | planner/physical_plan_builder.go:18-30 | A column whose name no other column has, up to case, is bound to its own field and evaluates to it |
| Binding.ReportsExactlyColumns | planner/expr.go:196-201 | Where the report of columns is complete it lists exactly the columns inside |
| Binding.ShiftKeepsValue | planner/physical_plan_builder.go:74-123 | A shifted expression on left ++ right has the original's value on right |
| Binding.ShiftOfBoundRight | planner/physical_plan_builder.go:74-123 | Binding to the right input and shifting is binding to the joined schema |
| Binding.FuseKeepsValue | planner/physical_plan_builder.go:134-233 | Fusion succeeds exactly on logical expressions over the child's columns, and equals evaluating after the child |
| Binding.ApplyProjectionRule | planner/physical_plan_rule.go:135-168 | The rule's loops compute the planned projection, fused or bound |
| Binding.PlannedProjectionKeepsRows | planner/physical_plan_rule.go:135-168 | The physical projection yields the logical projection's rows; it is refused exactly when a column is missing |
| Binding.StackedProjectionsFuse | planner/physical_plan_rule.go:135-168 | Stacked projections become one exactly when the upper one's expressions are logical |
| Binding.WrappedFilterKeepsRows | planner/physical_plan_rule.go:29-39 | The one bound filter passes a row exactly when all logical predicates do |
| BlockJoin.BlocksAreNestedLoop | execution/block_nested_loop_join_executor.go:67-132 | For any split into blocks the output is the bag of the plain nested loop |
| BlockJoin.OutputIsNestedLoop | execution/block_nested_loop_join_executor.go:90-132 | So a join whose right child does not fail yields exactly the accepted pairs, empty sides included |
| BlockJoin.LoopIsInnerJoin | execution/block_nested_loop_join_executor.go:115-127 | The plain nested loop is the inner join of the logical plans |
| BlockJoin.BlockNestedLoopJoin.LoadLeftBlock | execution/block_nested_loop_join_executor.go:67-80 | The next block is the next left rows, up to the byte budget and at least one; it never returns an error, also when the left child has one |
| BlockJoin.BlockFillsBudget | execution/block_nested_loop_join_executor.go:67-80 | All rows of a block but the last stay below 32 KiB, and a block stops short of the rows only when it has reached that |
| BlockJoin.RowSizeIsStored | execution/block_nested_loop_join_executor.go:82-88 | The size of a row is that of its stored form |
| BlockJoin.BlockNestedLoopJoin.Init | execution/block_nested_loop_join_executor.go:45-65 | The whole output is to come, also on a second start |
| BlockJoin.BlockNestedLoopJoin.Next | execution/block_nested_loop_join_executor.go:90-132 | Yields the next row of the output or ends; an error is set exactly when the right child fails |
| BlockJoin.Drain | execution/block_nested_loop_join_executor.go:45-132 | Successive calls end and yield exactly the output; afterwards there is an error exactly if the right child failed and the left had a row, while a failed left child holds its own |
| BlockJoin.LeftFailureIsDropped | execution/block_nested_loop_join_executor.go:67-80 | For every left child that fails: the run yields the join of the rows it gave, and no error is reported |
| Records.SwapRemove | indexing/mem_hash_index.go:112-124 | The loop over the old slice while the live one shrinks; panics exactly when some copy lies past the end of what is left |
| Records.SweepMeaning | indexing/mem_hash_index.go:112-124 | Panics exactly as said; otherwise no copy is left and every other id is there as often as before |
| Records.SweepableByLastCopy | indexing/mem_hash_index.go:112-124 | With `k` copies among `n` ids the loop does not panic exactly if the last copy's index plus `k` is at most `n` |
| Records.SweepOfDistinct | indexing/mem_hash_index.go:112-124 | On distinct ids the loop is a plain removal and never panics |
| Records.TwoCopies | indexing/mem_hash_index.go:112-124 | Two copies alone panic; with another id behind them both are removed |
| Records.WithoutIsRemoval | indexing/mem_hash_index.go:112-118 | That is removal of one id from the bag, and keeps ids distinct |
| HashIndexSteps.StepKeepsInv | indexing/mem_hash_index.go:45-151 | Every step of every interleaving keeps the invariant tying buckets, outer map, locks and operations |
| HashIndexSteps.StoredBucketIsMapped | indexing/mem_hash_index.go:66-75 | In every reachable state a stored bucket not removed is the one mapped for its key, and a deleter unmaps its own emptied bucket, never a replacement |
| HashIndexSteps.StepAppliesEffect | indexing/mem_hash_index.go:69-124 | What a key shows changes only by an append, which adds its pair once, or a removal, which takes all copies of its pair |
| HashIndexSteps.RunAppliesEffects | indexing/mem_hash_index.go:45-127 | After any run, also with ids indexed twice, the index shows exactly the pairs appended and not removed |
| HashIndexSteps.ScanReturnsVisible | indexing/mem_hash_index.go:129-151 | A scan returns exactly what its key shows at the moment it returns |
| HashIndexSteps.ScanEndsWithResult | indexing/mem_hash_index.go:129-151 | A scan ends exactly when it has a result |
| HashIndexSteps.DeleteEndsOnlyIfAbsent | indexing/mem_hash_index.go:90-127 | A delete ends without a removal only when its key is not mapped or its id is not in the bucket |
| HashIndexSteps.InsertReturnsWithPair | indexing/mem_hash_index.go:45-88 | An insert that returns has just made its pair visible |
| HashIndexSteps.InsertStaysVisible | indexing/mem_hash_index.go:45-151 | A visible pair stays visible, in the same bucket, until it is removed |
| HashIndexSteps.DeleteOfVisiblePairWorks | indexing/mem_hash_index.go:90-127 | A delete whose pair is visible when it starts, and that nobody else removes, removes it |
| HashIndexSteps.CompletedInsertIsFound | indexing/mem_hash_index.go:45-151 | In every run from the empty index: once an insert has completed, every scan of its key that returns later finds the id unless the pair was removed in between |
| HashIndexSteps.OnceIndexedNeverPanics | indexing/mem_hash_index.go:90-127 | In every run that indexes each row once no removal panics |
| HashIndexSteps.TwiceIndexedPanics | indexing/mem_hash_index.go:90-127 | A run that indexes one row twice and then panics on its deletion |
| HashIndexSteps.InsertAlone | indexing/mem_hash_index.go:45-88 | An insert that nothing disturbs is adding one entry to a plain map |
| HashIndexSteps.DeleteAlone | indexing/mem_hash_index.go:90-127 | A delete that nothing disturbs, on distinct ids, is dropping one entry of a plain map |
| IndexContents.AddAgrees | indexing/mem_hash_index.go:45-88 | Inserting a new row's entry keeps one entry per row |
| IndexContents.AddAgreesIff | indexing/mem_hash_index.go:45-88 | An entry added under some key for a row agrees exactly if that is the row's key and the index agreed before |
| IndexContents.DropAgrees | indexing/mem_hash_index.go:90-127 | Deleting a row's entry keeps one entry per remaining row |
| IndexContents.ReplaceAgrees | execution/update_executor.go:95-111 | Deleting the old entry and inserting one under a new key agrees exactly if that is the row's new key |
| IndexContents.AgreementIsUnique | recovery/no_log_recovery.go:76-95 | Two indexes that agree with the same rows hold the same entries |
| IndexContents.KeysAreDetermined | recovery/no_log_recovery.go:76-95 | An index agrees with at most one assignment of keys to rows |
| RowTables.Table.Insert | execution/table_heap.go:48-104 | On the table as a map: a new id is mapped to the row |
| RowTables.Table.Update | execution/table_heap.go:146-163 | On the map: succeeds exactly on its ids and replaces that row |
| RowTables.Table.Delete | execution/table_heap.go:109-123 | On the map: succeeds exactly on its ids and removes that id |
| RowTables.Table.Read | execution/table_heap.go:127-143 | On the map: succeeds exactly on its ids and gives that row |
| IndexMaintenance.BuildKey | execution/insert_executor.go:61-69 | Field by field the key buffer holds the stored forms of the projected values |
| IndexMaintenance.KeyChanged | execution/update_executor.go:85-93 | The comparison loop detects exactly the changes of key columns |
| IndexMaintenance.KeySurvivesIff | execution/insert_executor.go:60-75 | The key computed before a row is stored is the one computed from the stored row exactly when nothing hides behind a NUL in its columns |
| IndexMaintenance.InsertAgreesIff | execution/insert_executor.go:60-75 | After indexing a new row every index agrees exactly if every index agreed before and nothing hides behind a NUL in the row's key columns |
| IndexMaintenance.MoveKeepsKeyed | execution/update_executor.go:79-112 | Moving the entries of a changed row leaves each index with the keys its entries were made with, the row's being those of its new values |
| IndexMaintenance.UpdatesAgreeIff | execution/update_executor.go:55-119 | After any list of updates every index agrees exactly if nothing hides behind a NUL in a key column that was set |
| IndexMaintenance.DeleteKeepsAgreement | execution/delete_executor.go:59-75 | So does dropping the entries of a deleted row |
| IndexMaintenance.IndexedTable.Insert | execution/insert_executor.go:40-81 | One new row per child row with its values as stored, nothing else changed; the indexes agree exactly if they did before and nothing hides behind a NUL in a key column |
| IndexMaintenance.IndexedTable.Update | execution/update_executor.go:45-119 | Column by column the child's rows have what the statement sets, as stored, or their old value; the others are unchanged; the indexes agree exactly if nothing hides behind a NUL in a key column that was set |
| IndexMaintenance.IndexedTable.Delete | execution/delete_executor.go:43-87 | Exactly the child's rows are gone, every index in agreement |
| IndexMaintenance.IndexedTable.Lookup | execution/index_lookup_executor.go:38-63 | Exactly the live rows whose key bytes match, each once |
| IndexMaintenance.IndexedTable.Rebuild | recovery/no_log_recovery.go:40-102 | Built from the heap alone, the indexes hold what the maintained ones hold |

## Left out

- Unimplemented code that only panics: hash, index and sort-merge joins, TopN, Materialize, the log, recovery with a log, checkpoints, the transaction manager.
- Two-phase locking and fairness: the code does not promise them.
- `cond.Wait` is any waiter rechecking at any time; that a broadcast reaches the right waiters is not stated.
- Buffer-pool latches inside one step, reference counts and the clock position in the step machine (any unpinned victim is allowed there), and failures of the disk other than its bounds checks.
- The endless retry of `GetPage` when every frame is pinned: the object reports it instead.
- BufferPoolObject.BufferPool.GetPage: object identifiers are non-zero; zero is reserved as the invalid one and marks an empty frame.
- BufferPoolObject.BufferPool.UnpinPage: a holder that wrote to the page says so, as the pool has no other way to know.
- TableHeaps.TableHeap.InsertTuple: the frame always becomes available; a page left uninitialised by a pool without a free frame is not modelled.
- TableHeaps.TableHeap.ReadTuple: a slot of -64 and below, or past the last bitmap word, of an existing page makes the code panic, so it is excluded here and in update and delete.
- Concurrent use of one table heap, and iteration over a table that changes.
- HeapIterator.TableHeapIterator.Next: the frame a page is read from is not stored in the iterator; on an unchanging table it is the page. Getting a page does not fail.
- Plan nodes are values: the code overwrites them, and what shares a node with the plan is not captured.
- PushdownMeaning.OptimizeKeepsRows: for the expressions the plan builder emits; null checks and concatenations do not report their columns, and the builder makes neither.
- Scans with an attached projection: the rule that attaches them is not enabled.
- `EqualFold` beyond ASCII, the regular expression behind LIKE (any matcher is allowed), and the length panic of concatenation.
- Expressions.EvalHasType: the model's `Eval` gives NULL where the code asserts on a wrong type; this lemma says it does not come to that.
- Index selection, equi-join extraction and the physical join rules.
- Tuples.MergeTuples: a stored tuple's bytes are exactly one row; longer buffers are not modelled.
- Index changes deferred to commit or undone at abort; the executors run without a transaction.
- HashIndexSteps.RunAppliesEffects: a run ends before a removal that panics; what a panic does to the rest of the process is not modelled.
- IndexMaintenance.IndexedTable.Update: the child yields each row once and before any change.
- The B-tree index, range scans, `nextLexString` and `prevLexString`.
- BlockJoin.BlockNestedLoopJoin.Init: errors of the children's own start and close; a child that failed keeps failing until it is started again.
- Executor bookkeeping (the done flag and the one-row count result), contexts and closing.
- The SQL parser, shell, catalog files, CSV loading and printing.
