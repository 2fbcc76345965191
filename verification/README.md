# A verified model of a shared-memory toolkit

The toolkit places a heap, a table of named objects and several containers into a POSIX shared-memory
segment that many processes map and use at once, and that must survive the death of any of them. This
project models its core and proves what it promises.

**The heap** (`Segment`, `Chain`, `Sanity`, `Heap`, `HeapSteps`, `Operations`, `Release`, `Resize`,
`BlockAllocator`, `History`, `Crash`, `ResizeCrash`, `HeapOps`, `Requests`, `Room`, `Stats`, `Offsets`,
`Powers`). Block headers are memory addressed by location, with arbitrary contents. Every operation
exists twice: as a method that walks and writes headers, and as a list of single stores. The methods are
proved to perform exactly their lists, the lists to lead from heap to heap, and every proper prefix of a
list to leave headers that the self-check rejects or that are again a heap. A heap is a chain of one or
more blocks that tiles the segment, and a free list that is exactly the free blocks in (size, address)
order, with no two free neighbours. For allocation, release and expansion the heap left by a death is one
of those named in the model. `grow` and `shrink_to_fit` move the end of the segment, so old bytes may
come to count as further blocks in use; `ResizeCrash` says exactly when. The allocator keeps one thing
more, that free blocks other than the first have at least 48 bytes (`Room`).

**The manager** (`ManagerProtocol`, `Registry`, `NamedStorage`, `NamedObjects`, `NamedRefinement`,
`AllocatorRefinement`, `ManagedSegment`). The locking protocol is a step machine over any number of
processes that die at any step. It has a robust mutex (`pthread_mutex_lock` and
`pthread_mutex_consistent` of POSIX.1-2017), the odd/even metadata generation, writers that perform their
heap operations, resizes included, store by store, recovery, and lock-free snapshot readers.
`AllocatorRefinement` shows that what the allocator's methods do is what the machine's writers are
allowed; undisturbed reads, writes, snapshots and recoveries are proved to reach their end. The life of
named objects is a second machine, in which the locked sections are steps and constructors and
destructors run between them. Registry and storage are classes with three heap blocks for every entry;
`NamedRefinement` shows that what their methods do to the table and to the set of payloads in use is what
the steps of that machine do (for publishing and claiming by shared definitions of what happens to the
table). Growing and shrinking the file is a sequence of calls whose outcomes are arbitrary.

**The containers** (`RbTree`, `RbStore`, `RbSteps`, `RbTreeMap`, `Links`, `NodePool`, `ListSpec`,
`SharedList`, `HashTable`, `Orders`). Nodes are tables of link fields, and a ghost tree or sequence says
what the links describe. Red-black trees are handled with a tree that has a hole, so the loops that climb
it have invariants of the usual shape; lists, hash chains and iteration order share one theory of rings
and stacks. The free list of the node cache runs through the first word of the nodes, the same field that
the list uses for its backward link and the hash table for that of its buckets. In the tree a node's
storage is either in the node table or in the cache, so a recycled node cannot be read.

What the model takes as given: base and file sizes are multiples of 16, since `initialize` does not round
the total size (`FreshHeap` gives the exact condition: with any other size the fresh segment fails its
own self-check); sizes and alignments do not wrap in layout computations; comparators are strict orders,
for stable sorting strict weak orders; hash and equality agree; user callbacks other than object
constructors return; stores take effect in program order; process ids are not reused; the manager is
built without its optional shared mutex.

Where a member takes ghost positions or addresses as arguments, they say which iterator the caller holds
and where the allocator places new storage.

## Model

| member | source | states |
|---|---|---|
| `Sanity.CheckSanity` | interprocess/allocator/detail/shared_memory_block_allocator.h:415-465 | on arbitrary header bytes it terminates, and returns true exactly if the headers tile the segment and the free list ends and is exactly the set of free blocks |
| `Sanity.IsBlockInChain` | interprocess/allocator/detail/shared_memory_block_allocator.h:751-787 | true exactly if the address lies before the segment end and the chain walk comes across it, whatever the headers hold |
| `Sanity.IsInFreeList` | interprocess/allocator/detail/shared_memory_block_allocator.h:789-810 | on any links, cyclic ones included: true exactly if the walk meets the target within the visit limit, and so exact whenever the list ends within it |
| `Sanity.IsValidFreeList` | interprocess/allocator/detail/shared_memory_block_allocator.h:812-836 | true exactly if the list ends and each element is a free, aligned block of the chain |
| `Sanity.PhysicalPrevious` | interprocess/allocator/detail/shared_memory_block_allocator.h:657-723 | the block in front of the target on the chain; with the segment end as target, the last block |
| `Sanity.ListWithinLimit` | interprocess/allocator/detail/shared_memory_block_allocator.h:812-836 | a list that ends and stays in the chain is never longer than the visit limit, so the cut-off cannot reject it |
| `Heaps.HeapIsSane` | interprocess/allocator/detail/shared_memory_block_allocator.h:415-465 | every heap that satisfies the invariant passes the self-check |
| `Chains.ListAcyclic` | interprocess/allocator/detail/shared_memory_block_allocator.h:812-836 | a free list that reaches null visits no address twice |
| `Operations.AllocateRuns` | interprocess/allocator/detail/shared_memory_block_allocator.h:531-618 | the stores of allocate turn a heap into the heap with the block taken; after any prefix of them the self-check rejects the headers or they are one of the two heaps |
| `Release.DeallocateRuns` | interprocess/allocator/detail/shared_memory_block_allocator.h:620-645 | the same for the stores of deallocate with its two merges |
| `Release.ExpandRuns` | interprocess/allocator/detail/shared_memory_block_allocator.h:146-199 | the same for try_expand, with the successor wholly absorbed as the one additional outcome |
| `Resize.GrowRuns` | interprocess/allocator/detail/shared_memory_block_allocator.h:201-235 | the stores of grow lead to the heap with a longer last block or with one more free block, or nowhere |
| `Resize.ShrinkRuns` | interprocess/allocator/detail/shared_memory_block_allocator.h:237-267 | the stores of shrink_to_fit lead to the heap without its free tail |
| `Crash.AllocateCrash` | interprocess/allocator/detail/shared_memory_block_allocator.h:531-618 | a death between any two stores of allocate: self-check false, or chain and free list from before or from after |
| `Crash.DeallocateCrash` | interprocess/allocator/detail/shared_memory_block_allocator.h:620-645 | a death between any two stores of deallocate: self-check false, or chain and free list from before or from after |
| `Crash.ExpandCrash` | interprocess/allocator/detail/shared_memory_block_allocator.h:146-199 | a death between any two stores of try_expand: as above, or the block has absorbed its whole successor |
| `HeapOps.OpSafe` | interprocess/allocator/detail/shared_memory_block_allocator.h:83-299 | for every operation of a writer, `grow` and `shrink_to_fit` included, and every place of a death inside it: headers accepted by the self-check are those of a heap |
| `HeapOps.DeathIsLegal` | interprocess/allocator/detail/shared_memory_block_allocator.h:83-299 | and the allocator may go on with that heap: no free block but the first is smaller than 48 bytes, which is what undoing a shrink relies on |
| `AllocatorRefinement.AllocateIsOp` | interprocess/allocator/detail/shared_memory_block_allocator.h:83-111 | what the allocator does is an operation that a writer of the locking protocol is allowed, store by store |
| `AllocatorRefinement.DeallocateIsOp` | interprocess/allocator/detail/shared_memory_block_allocator.h:269-299 | the same for a release |
| `AllocatorRefinement.ExpandIsOp` | interprocess/allocator/detail/shared_memory_block_allocator.h:146-199 | the same for an expansion |
| `AllocatorRefinement.GrowIsOp` | interprocess/allocator/detail/shared_memory_block_allocator.h:201-235 | the same for `grow` |
| `AllocatorRefinement.ShrinkIsOp` | interprocess/allocator/detail/shared_memory_block_allocator.h:237-267 | the same for `shrink_to_fit` |
| `ResizeCrash.GrowCrash` | interprocess/allocator/detail/shared_memory_block_allocator.h:201-235 | `grow` is crash safe exactly if the bytes behind the old end do not look like blocks in use and, when a header is written there, the old byte of its flag does not say in use: then, and only then, every death leaves headers that are rejected, or the heap from before, or the heap from after |
| `ResizeCrash.GrowDeath` | interprocess/allocator/detail/shared_memory_block_allocator.h:201-235 | for each number of stores done, exactly when the self-check accepts what the death leaves |
| `ResizeCrash.GrowSafe` | interprocess/allocator/detail/shared_memory_block_allocator.h:201-235 | wherever a death in `grow` falls, what is accepted is a heap; what may come in beside the heaps from before and after are bytes behind the old end that count as blocks in use, lost and without damage |
| `ResizeCrash.ZeroPageDeath` | interprocess/allocator/detail/shared_memory_block_allocator.h:224-233 | on zeroed pages a death behind the first store is noticed and one behind the second is not: it leaves a block in use that nobody allocated |
| `ResizeCrash.StaleHeaderDeath` | interprocess/allocator/detail/shared_memory_block_allocator.h:201-213 | with a stale header behind the end a death behind the first store is not noticed |
| `ResizeCrash.ShrinkCrash` | interprocess/allocator/detail/shared_memory_block_allocator.h:237-267 | `shrink_to_fit` is crash safe exactly if it drops its last block or the bytes that it cuts off do not look like blocks in use |
| `ResizeCrash.ShrinkDeath` | interprocess/allocator/detail/shared_memory_block_allocator.h:237-267 | for each number of stores done, exactly when the self-check accepts what the death leaves |
| `ResizeCrash.StalePayloadDeath` | interprocess/allocator/detail/shared_memory_block_allocator.h:237-267 | with an old header in the payload of the one free block, a death in front of the last store is accepted, and the bytes to be cut off count as a block in use |
| `ResizeCrash.ShrinkSafe` | interprocess/allocator/detail/shared_memory_block_allocator.h:237-267 | wherever a death in `shrink_to_fit` falls, what is accepted is a heap |
| `BlockAllocation.NormalizeAlignment` | interprocess/allocator/detail/shared_memory_block_allocator.h:507-515 | the least of 16, 32, 64, ... that is not below the request, a power of two |
| `BlockAllocation.MaskIsAlignUp` | interprocess/allocator/detail/shared_memory_block_allocator.h:491-505 | for powers of two, and so for every alignment used, clearing the low bits of value plus alignment minus one is rounding up to the next multiple |
| `Operations.TotalBounds` | interprocess/allocator/detail/shared_memory_block_allocator.h:517-529 | the payload is aligned and lies with its allocation header inside the bytes used, of which fewer than 16 are rounding |
| `Operations.PayloadIsLeast` | interprocess/allocator/detail/shared_memory_block_allocator.h:517-524 | the payload address is the first aligned one behind both headers, and there is only one such |
| `Operations.TotalIsExact` | interprocess/allocator/detail/shared_memory_block_allocator.h:517-529 | the test that `allocate` and `try_expand` make says exactly whether the bytes up to an end hold an aligned payload of that size behind the headers |
| `BlockAllocation.BlockAllocator.Initialize` | interprocess/allocator/detail/shared_memory_block_allocator.h:51-81 | succeeds exactly if header and one block fit; the heap begins behind the aligned header; it passes the self-check exactly if the total size is a multiple of 16 |
| `BlockAllocation.FreshHeap` | interprocess/allocator/detail/shared_memory_block_allocator.h:51-81 | the exact condition under which a freshly initialised segment is a heap: its size is aligned |
| `BlockAllocation.BlockAllocator.Allocate` | interprocess/allocator/detail/shared_memory_block_allocator.h:83-111 | out of memory exactly if no free block has room for an aligned payload of that size behind the headers, with nothing changed; otherwise the smallest such block, lowest address first, holds the payload at its first aligned address with fewer than 64 bytes more, and its allocation header says so; the heap invariant is kept |
| `BlockAllocation.FirstFitIsBest` | interprocess/allocator/detail/shared_memory_block_allocator.h:83-111 | in the sorted list the first block that fits is the smallest that fits |
| `BlockAllocation.BlockAllocator.AllocateFromBlock` | interprocess/allocator/detail/shared_memory_block_allocator.h:531-546 | performs exactly the stores of the allocation, in order |
| `BlockAllocation.BlockAllocator.InsertFreeBlock` | interprocess/allocator/detail/shared_memory_block_allocator.h:548-570 | links the block at its place in (size, address) order, by two stores |
| `BlockAllocation.BlockAllocator.RemoveFreeBlock` | interprocess/allocator/detail/shared_memory_block_allocator.h:572-599 | takes exactly the target off the list |
| `BlockAllocation.BlockAllocator.SplitAllocatedBlock` | interprocess/allocator/detail/shared_memory_block_allocator.h:601-618 | cuts the block if at least 48 bytes remain, by the stores of the split |
| `BlockAllocation.BlockAllocator.AllocateMany` | interprocess/allocator/detail/shared_memory_block_allocator.h:113-135 | every payload has the size and alignment asked for and lies in a block of its own; the call fails, with chain and free list exactly as before, if and only if one of the requests finds no room behind those before it |
| `Requests.TakesToOne` | interprocess/allocator/detail/shared_memory_block_allocator.h:83-111 | the heap determines which block serves a request and what is left |
| `Requests.ServedNotRefused` | interprocess/allocator/detail/shared_memory_block_allocator.h:113-135 | requests that can be served one after the other are not refused anywhere on the way |
| `BlockAllocation.BlockAllocator.RollBack` | interprocess/allocator/detail/shared_memory_block_allocator.h:125-134 | freeing last first leads back to the heap before the first allocation |
| `BlockAllocation.BlockAllocator.Deallocate` | interprocess/allocator/detail/shared_memory_block_allocator.h:269-299 | for any pointer and any bytes in front of it: rejected with nothing changed, or exactly the one block in use that it names is freed; afterwards the same address names no block in use |
| `BlockAllocation.FreedPointerIsDead` | interprocess/allocator/detail/shared_memory_block_allocator.h:269-299 | a pointer whose block was just freed names no block in use, even after the block merged into its predecessor |
| `BlockAllocation.BlockAllocator.DeallocateBlock` | interprocess/allocator/detail/shared_memory_block_allocator.h:620-645 | performs exactly the stores of the release with both merges |
| `BlockAllocation.BlockAllocator.IsValidPayload` | interprocess/allocator/detail/shared_memory_block_allocator.h:855-877 | true exactly if the bytes in front of the pointer name a block of the chain that contains the payload |
| `BlockAllocation.BlockAllocator.DeallocateMany` | interprocess/allocator/detail/shared_memory_block_allocator.h:137-144 | stops at the first rejected pointer; exactly the blocks named by those before it go out of use |
| `BlockAllocation.BlockAllocator.AllocationSize` | interprocess/allocator/detail/shared_memory_block_allocator.h:390-413 | zero for null, otherwise the size asked for, with an error exactly if the address names no block in use |
| `BlockAllocation.BlockAllocator.TryExpand` | interprocess/allocator/detail/shared_memory_block_allocator.h:146-199 | succeeds exactly if the address is the one the alignment gives and the block, or the block with a free successor, reaches up to the end of the new size; then only this block in use has changed, by fewer than 64 bytes more than needed, and only its allocation header |
| `BlockAllocation.BlockAllocator.Grow` | interprocess/allocator/detail/shared_memory_block_allocator.h:201-235 | succeeds exactly if the size grows and the last block is free or at least 48 bytes are added; blocks in use stay |
| `BlockAllocation.BlockAllocator.ShrinkToFit` | interprocess/allocator/detail/shared_memory_block_allocator.h:237-267 | cuts exactly a free tail: the new size is the address of a free last block, 48 bytes more if it is the only block and longer, and else the old size; blocks in use stay |
| `BlockAllocation.LivePayloadsDisjoint` | interprocess/allocator/detail/shared_memory_block_allocator.h:517-546 | payloads handed out for different blocks never overlap |
| `BlockAllocation.BlockAllocator.Attach` | interprocess/allocator/shared_memory_manager.h:1006-1032 | a recovered heap is one that all operations of the allocator accept, with or without blocks in use that nobody knows |
| `BlockAllocation.PayloadBytesInvisible` | interprocess/allocator/detail/shared_memory_block_allocator.h:480-489 | bytes of a free block behind its header, or of the payload of a block in use, belong to no header of the chain and to no allocation header in use: whatever is written there, heap and allocations are unchanged |
| `BlockAllocation.BlockAllocator.ZeroFreeMemory` | interprocess/allocator/detail/shared_memory_block_allocator.h:480-489 | the walk along the free list clears the payload of every free block and keeps the heap invariant, every block header and every allocation header in use |
| `AllocatorStats.GetStats` | interprocess/allocator/detail/shared_memory_block_allocator.h:313-383 | on any memory, sane exactly if the self-check is; then all counts, sums and maxima are those of the chain, both maxima are attained by a free block and zero without any, free and allocated bytes add up to the managed bytes and the list is as long as the number of free blocks |
| `AllocatorStats.BytesConserved` | interprocess/allocator/detail/shared_memory_block_allocator.h:313-383 | every managed byte belongs to exactly one of the two sums |
| `AllocatorStats.SumsAdd` | interprocess/allocator/detail/shared_memory_block_allocator.h:340-361 | the numbers of two parts of the chain add up, and a block counts for its own kind only |
| `History.HeapDetermined` | interprocess/allocator/detail/shared_memory_block_allocator.h:548-645 | chain and free list are a function of the blocks in use |
| `History.DeallocateUndoesAllocate` | interprocess/allocator/detail/shared_memory_block_allocator.h:531-645 | freeing what was just allocated restores chain and free list exactly |
| `History.GrowUndoesShrink` | interprocess/allocator/detail/shared_memory_block_allocator.h:201-267 | growing back to the old size undoes a shrink exactly if the block that was cut had at least 48 bytes, as it has in every heap that the allocator makes or recovers |
| `History.AllDeallocatedIffNothingInUse` | interprocess/allocator/detail/shared_memory_block_allocator.h:467-478 | all_memory_deallocated holds exactly if no block is in use, in whatever order the blocks were freed |
| `Offsets.OffsetRoundTrip` | interprocess/allocator/offset_ptr.h:22-57 | a stored pointer is read back in every mapping, never as null; only the next byte and far targets cannot be stored |
| `Offsets.HeapRebased` | interprocess/allocator/detail/shared_memory_block_allocator.h:892-896 | a heap is a heap with the same blocks in every mapping of the segment |
| `ManagerProtocol.RunInv` | interprocess/allocator/shared_memory_manager.h:928-1185 | every run keeps mutual exclusion, generation parity and the consistency of readers, with any writers storing any words, resizes included, any readers, deaths and recoveries |
| `ManagerProtocol.RunHeap` | interprocess/allocator/shared_memory_manager.h:928-1185 | every run of allocations, releases, expansions, `grow` and `shrink_to_fit`, store by store, with deaths anywhere: between write sections there is a heap, and what a recovery accepts is a heap |
| `ManagerProtocol.RecoveryFindsHeap` | interprocess/allocator/shared_memory_manager.h:1006-1032 | a process that takes the lock over from a dead one and finds the headers acceptable has a heap |
| `ManagerProtocol.GenerationParity` | interprocess/allocator/shared_memory_manager.h:928-1032 | in every run, whatever is stored, the generation is odd exactly while some live or dead process is inside an unfinished write section |
| `ManagerProtocol.SnapshotsAreAtomic` | interprocess/allocator/shared_memory_manager.h:1137-1185 | in every run, whatever is stored, every value returned by a snapshot is the reader's function of one single metadata state |
| `ManagerProtocol.SnapshotsShowHeaps` | interprocess/allocator/shared_memory_manager.h:1137-1185 | and if every store belongs to an operation on the heap, that metadata state has a proper heap |
| `ManagerProtocol.SnapshotSpansInterval` | interprocess/allocator/shared_memory_manager.h:1137-1185 | that state is the one both when the generation was loaded and when it was validated |
| `ManagerProtocol.ReadsDetermine` | interprocess/allocator/shared_memory_manager.h:1137-1185 | readers can see every word of the allocator: metadata that read alike everywhere are alike |
| `ManagerProtocol.YieldsUnique` | interprocess/allocator/shared_memory_manager.h:1137-1185 | on one metadata state a reader has at most one result |
| `ManagerProtocol.ValidateReturns` | interprocess/allocator/shared_memory_manager.h:1137-1185 | a reader that is done returns its result exactly if the generation is the one it loaded, and else starts again |
| `ManagerProtocol.SnapshotCompletes` | interprocess/allocator/shared_memory_manager.h:1137-1185 | a reader that nobody disturbs returns its function of the metadata and changes nothing |
| `ManagerProtocol.WritersExclude` | interprocess/allocator/shared_memory_manager.h:1101-1135 | no two processes hold the lock |
| `ManagerProtocol.UnrecoverableOnlyByDeath` | interprocess/allocator/shared_memory_manager.h:1006-1032 | the manager becomes unusable only through a process that died inside a write section and left headers that fail the self-check |
| `ManagerProtocol.UnrecoverableOnlyIfInsane` | interprocess/allocator/shared_memory_manager.h:1006-1032 | in every run, whatever is stored, the manager is given up only on headers that fail the self-check |
| `ManagerProtocol.RecoveryCompletes` | interprocess/allocator/shared_memory_manager.h:1006-1032 | a recovery that finds sane headers succeeds: the lock is consistent and held, the generation even and no write section open |
| `ManagerProtocol.DeathIsRecovered` | interprocess/allocator/shared_memory_manager.h:1006-1032 | wherever the holder of the lock dies, the next process comes to hold it if the headers pass the self-check |
| `ManagerProtocol.DeathIsNotRecovered` | interprocess/allocator/shared_memory_manager.h:1006-1032 | and if they do not pass it the manager is given up |
| `ManagerProtocol.ReadCompletes` | interprocess/allocator/shared_memory_manager.h:1035-1055 | a process that finds the lock free reads under it and leaves everything as it was |
| `ManagerProtocol.WriteCompletes` | interprocess/allocator/shared_memory_manager.h:1101-1135 | a process that finds the lock free performs any enabled operation on the heap; then the metadata is what its stores make of it, the generation is two further and everything else as before |
| `ManagerProtocol.SaneWhenEven` | interprocess/allocator/shared_memory_manager.h:1006-1032 | in every run of operations, whenever the generation is even the heap invariant holds and the recovery's self-check does not fail |
| `Registries.Registry.FindAny` | interprocess/allocator/detail/named_object_registry.h:65-79 | the walk along one of 64 buckets finds the entry of that name in the flat table, or there is none |
| `Registries.Registry.FindReady` | interprocess/allocator/detail/named_object_registry.h:81-89 | finds an entry of that name exactly if it is ready |
| `Registries.Registry.FindReadyByPtr` | interprocess/allocator/detail/named_object_registry.h:91-106 | finds a ready entry with that object, or there is none |
| `Registries.Registry.FindIf` | interprocess/allocator/detail/named_object_registry.h:218-234 | finds an entry that passes the test, or none does |
| `Registries.Registry.Insert` | interprocess/allocator/detail/named_object_registry.h:108-118 | exactly this entry is added; both counters stay the true counts |
| `Registries.Registry.MarkReady` | interprocess/allocator/detail/named_object_registry.h:120-127 | the status changes and ready_count stays the true count |
| `Registries.Registry.MarkNotReady` | interprocess/allocator/detail/named_object_registry.h:129-136 | the status changes and ready_count stays the true count |
| `Registries.Registry.Unlink` | interprocess/allocator/detail/named_object_registry.h:138-173 | exactly this entry leaves its chain and both counters stay the true counts; a null pointer or a header in no chain changes nothing |
| `NamedStorages.NamedStorage.Reserve` | interprocess/allocator/shared_memory_manager.h:754-817 | for an unused name: one new entry under construction with three new blocks whose payloads have the requested sizes and alignments, or, exactly if one of the three requests finds no room behind those before it, no memory, with heap and table exactly as before |
| `NamedStorages.NamedStorage.Remove` | interprocess/allocator/shared_memory_manager.h:858-872 | exactly the entry and exactly its three blocks go |
| `NamedStorages.NamedStorage.Publish` | interprocess/allocator/shared_memory_manager.h:819-825 | the entry becomes ready and ownerless; storage is untouched |
| `NamedStorages.NamedStorage.Claim` | interprocess/allocator/shared_memory_manager.h:370-386 | a ready object of that name is claimed by the process, or there is none and nothing changes |
| `NamedStorages.NamedStorage.ClaimPtr` | interprocess/allocator/shared_memory_manager.h:394-415 | the same by object address |
| `NamedStorages.NamedStorage.Recover` | interprocess/allocator/shared_memory_manager.h:486-506 | terminates with exactly the entries removed that are not ready and whose owner is dead, and exactly their blocks freed |
| `NamedStorages.RemoveUndoesReserve` | interprocess/allocator/shared_memory_manager.h:754-872 | removing a reservation restores chain and free list exactly |
| `NamedRefinement.ReserveIsStep` | interprocess/allocator/shared_memory_manager.h:754-817 | on the set of payloads in use, a reservation is the reservation step of the machine: the allocator's three payloads are new |
| `NamedRefinement.RemoveIsStep` | interprocess/allocator/shared_memory_manager.h:858-872 | and the removal of storage is its release step, exactly the entry's three payloads |
| `NamedRefinement.PublishIsStep` | interprocess/allocator/shared_memory_manager.h:819-825 | and marking ready is its publishing step, by one definition of what that does to the table |
| `NamedRefinement.ClaimIsStep` | interprocess/allocator/shared_memory_manager.h:370-415 | and the locked part of both ways to destroy is its claiming step, by one definition of what that does to the table |
| `NamedRefinement.RecoverIsStep` | interprocess/allocator/shared_memory_manager.h:486-506 | and recovery is its recovery step, exactly the payloads that no surviving entry has |
| `NamedObjects.RunInv` | interprocess/allocator/shared_memory_manager.h:214-414 | every interleaving of construct, find, destroy, deaths and recoveries keeps the table, window, count and storage invariants |
| `NamedObjects.NamesUnique` | interprocess/allocator/shared_memory_manager.h:754-771 | no two entries have the same name |
| `NamedObjects.OnlyCompleteFound` | interprocess/allocator/shared_memory_manager.h:333-345 | a lookup only returns objects whose constructor returned and whose destructor has not started, under the name they were reserved with and at the storage they were reserved in |
| `NamedObjects.FindReturns` | interprocess/allocator/shared_memory_manager.h:333-345 | and it returns the ready entry of that name if that is what it meets |
| `NamedObjects.HeldHeaderStillLinked` | interprocess/allocator/shared_memory_manager.h:214-241 | a header held by a live thread across the unlocked window is still linked, for the same object and with the same owner and status |
| `NamedObjects.DestroyedAtMostOnce` | interprocess/allocator/shared_memory_manager.h:842-856 | no object is destroyed twice or without having been constructed |
| `NamedObjects.RecoveryExact` | interprocess/allocator/shared_memory_manager.h:486-506 | recovery keeps exactly the ready entries and those with a live thread working on them |
| `NamedObjects.ThreePayloadsEach` | interprocess/allocator/shared_memory_manager.h:775-872 | every entry owns exactly three payloads in use, and nothing else is in use but what users hold |
| `NamedObjects.ConstructCompletes` | interprocess/allocator/shared_memory_manager.h:214-301 | a construction that nobody disturbs ends with one ready entry more, without owner, and three payloads more |
| `NamedObjects.FailedConstructCompletes` | interprocess/allocator/shared_memory_manager.h:214-301 | one whose constructor throws leaves table and heap as they were |
| `NamedObjects.DestroyCompletes` | interprocess/allocator/shared_memory_manager.h:370-415 | a destruction that nobody disturbs removes the entry and exactly its payloads, and the object was destroyed once |
| `NamedObjects.DeathIsSwept` | interprocess/allocator/shared_memory_manager.h:486-506 | the entry of a process that dies in a constructor or destructor is gone after the next recovery, and ready ones stay |
| `ManagedSegments.ManagedSegment.GrowToSize` | interprocess/allocator/shared_memory_manager.h:563-577 | for any size: changes exactly if the allocator can take the bytes added after rounding down; manager and allocator then agree on the size exactly if it is a multiple of 16 |
| `ManagedSegments.ManagedSegment.Grow` | interprocess/ipc/managed_shared_memory.h:261-310 | true exactly if every step succeeds, thrown exactly where a step throws; otherwise heap and logical size are unchanged; the file is never smaller than the logical size |
| `ManagedSegments.ManagedSegment.ShrinkToFit` | interprocess/ipc/managed_shared_memory.h:312-370 | true exactly if the file becomes smaller and the system calls succeed, and false exactly in the cases named, only with chain and free list unchanged; over every outcome the file is never smaller than the logical size |
| `ManagedSegments.GrowBackSucceeds` | interprocess/ipc/managed_shared_memory.h:332-366 | what a shrink took away can be given back by the rollback exactly if the block had at least 48 bytes, as it has in every heap that the allocator makes or recovers |
| `RbTreeMap.RbTree.Insert` | interprocess/container/detail/shared_memory_rbtree_map.h:620-648 | exactly the absent key is added at its place, in a node from the cache or in new storage, or nothing changes, as when the constructor throws; the tree stays a red-black tree with sorted keys; storage allocated is always that of the tree and of the cache, with nothing in both |
| `RbTreeMap.RbTree.LinkNewNode` | interprocess/container/detail/shared_memory_rbtree_map.h:682-702 | linking and fixing up adds exactly the new item to the in-order sequence |
| `RbTreeMap.RbTree.InsertFixup` | interprocess/container/detail/shared_memory_rbtree_map.h:769-832 | both mirrored loops terminate in a red-black tree with the same items in the same nodes |
| `RbTreeMap.RbTree.RotateLeft` | interprocess/container/detail/shared_memory_rbtree_map.h:715-740 | the table after the rotation represents the rotated tree |
| `RbTreeMap.RbTree.RotateRight` | interprocess/container/detail/shared_memory_rbtree_map.h:742-767 | the table after the rotation represents the rotated tree |
| `RbTreeMap.RbTree.EraseNode` | interprocess/container/detail/shared_memory_rbtree_map.h:855-909 | for a target anywhere: exactly its item goes, its node to the cache before the fixup, all other nodes keep key and value, and the result is a red-black tree |
| `RbTreeMap.RbTree.EraseFixup` | interprocess/container/detail/shared_memory_rbtree_map.h:911-1035 | both mirrored loops terminate and restore equal black heights and no red-red |
| `RbSteps.SiblingExists` | interprocess/container/detail/shared_memory_rbtree_map.h:911-1035 | the sibling in the erase fixup is never null, so its guards are dead |
| `RbTreeMap.RbTree.EraseAt` | interprocess/container/detail/shared_memory_rbtree_map.h:457-467 | the erased item goes and the successor that was saved before is what follows it |
| `RbTreeMap.RbTree.Erase` | interprocess/container/detail/shared_memory_rbtree_map.h:446-455 | removes exactly the item with an equivalent key, or reports that there is none |
| `RbTreeMap.RbTree.Clear` | interprocess/container/detail/shared_memory_rbtree_map.h:383-389 | terminates with an empty tree and every node in the cache |
| `RbTreeMap.RbTree.ShrinkToFit` | interprocess/container/detail/shared_memory_rbtree_map.h:391-394 | the cache goes back to the heap and the allocation counter is the size |
| `RbTreeMap.RbTree.Find` | interprocess/container/detail/shared_memory_rbtree_map.h:560-579 | finds a node with an equivalent key, or there is none |
| `RbTreeMap.RbTree.LowerBound` | interprocess/container/detail/shared_memory_rbtree_map.h:581-598 | the first node not less than the key |
| `RbTreeMap.RbTree.UpperBound` | interprocess/container/detail/shared_memory_rbtree_map.h:600-617 | the first node greater than the key |
| `RbTreeMap.RbTree.NextNode` | interprocess/container/detail/shared_memory_rbtree_map.h:520-538 | the next node in key order, or null |
| `RbTreeMap.RbTree.PreviousNode` | interprocess/container/detail/shared_memory_rbtree_map.h:540-558 | the previous node in key order, or null |
| `RbTreeMap.RbTree.Traverse` | interprocess/container/detail/shared_memory_rbtree_map.h:494-538 | iteration from the minimum visits every node once in increasing key order |
| `RbTrees.HeightBound` | interprocess/container/detail/shared_memory_rbtree_map.h:769-1035 | the height of a red-black tree is at most twice the logarithm of the number of nodes plus one |
| `NodePools.NodePool.Create` | interprocess/container/detail/shared_memory_node_pool.h:74-106 | a cached node or new storage; a constructor that throws gives the storage back to where it came from |
| `NodePools.NodePool.Destroy` | interprocess/container/detail/shared_memory_node_pool.h:108-116 | the node is cached once |
| `NodePools.NodePool.ReverseFreeList` | interprocess/container/detail/shared_memory_node_pool.h:200-213 | the list through the nodes' first words is reversed in place |
| `NodePools.NodePool.ShrinkToFit` | interprocess/container/detail/shared_memory_node_pool.h:118-134 | every cached node goes back to the heap exactly once, in reverse order |
| `SharedLists.SharedList.Emplace` | interprocess/container/shared_memory_list.h:502-510 | the new node stands at the given position; all other nodes keep order and values; live and cached nodes stay disjoint |
| `SharedLists.SharedList.Erase` | interprocess/container/shared_memory_list.h:512-525 | exactly this node leaves the list for the cache; the successor is returned |
| `SharedLists.SharedList.EraseRange` | interprocess/container/shared_memory_list.h:527-536 | exactly the range leaves the list |
| `SharedLists.SharedList.Clear` | interprocess/container/shared_memory_list.h:371-382 | all nodes go to the cache |
| `SharedLists.SharedList.ShrinkToFit` | interprocess/container/shared_memory_list.h:399-402 | the cache is given back; without splice and merge the allocation counter is then the size |
| `SharedLists.SharedList.Swap` | interprocess/container/shared_memory_list.h:404-448 | the lists exchange nodes, caches and sizes, and what each holds is unchanged |
| `SharedLists.SharedList.Splice` | interprocess/container/shared_memory_list.h:680-689 | all nodes of the other list move in order; with itself nothing changes |
| `SharedLists.SharedList.SpliceOne` | interprocess/container/shared_memory_list.h:691-708 | exactly one node moves, within a list or between two |
| `SharedLists.SharedList.SpliceRange` | interprocess/container/shared_memory_list.h:710-732 | exactly [first, last) moves in order, none lost or duplicated; inside one list a position in the range changes nothing |
| `SharedLists.SharedList.TransferRangeBefore` | interprocess/container/shared_memory_list.h:872-892 | the six link stores move the run in both cases, and the sizes follow |
| `SharedLists.SharedList.Reverse` | interprocess/container/shared_memory_list.h:664-678 | the sequence is reversed by swapping the links of every node |
| `SharedLists.SharedList.Unique` | interprocess/container/shared_memory_list.h:639-662 | of every run of equal neighbours the first is kept |
| `ListSpec.DedupSeparates` | interprocess/container/shared_memory_list.h:639-662 | after unique no two neighbours are equal |
| `ListSpec.UniquedRuns` | interprocess/container/shared_memory_list.h:639-662 | the sequence falls into runs of values equal to their first, and exactly these first nodes are kept |
| `SharedLists.SharedList.RemoveIf` | interprocess/container/shared_memory_list.h:617-632 | exactly the nodes that do not satisfy the predicate stay, in order |
| `ListSpec.FilterAdd` | interprocess/container/shared_memory_list.h:617-632 | each node is judged on its own, and the order is kept |
| `SharedLists.SharedList.Sort` | interprocess/container/shared_memory_list.h:780-803 | the nodes in the stable order of their values |
| `SharedLists.SharedList.Merge` | interprocess/container/shared_memory_list.h:739-773 | both lists' nodes in one stable order, this list's first among equals; the other list is empty |
| `ListSpec.StableSortIsTheOne` | interprocess/container/shared_memory_list.h:780-803 | sorted by value with every class of equal values in its old order: exactly one rearrangement is that, and it is the result |
| `SharedLists.SharedList.RelinkNodesInOrder` | interprocess/container/shared_memory_list.h:894-912 | the links describe the given order |
| `SharedLists.SharedList.CountRange` | interprocess/container/shared_memory_list.h:850-858 | the number of nodes in the range |
| `SharedLists.SharedList.IsNodeInRange` | interprocess/container/shared_memory_list.h:860-870 | true exactly if the node is in the range |
| `SharedLists.SharedList.Forward` | interprocess/container/shared_memory_list.h:311-339 | the forward walk is the sequence of nodes |
| `SharedLists.SharedList.Backward` | interprocess/container/shared_memory_list.h:341-369 | the backward walk is its reverse |
| `Links.RingUnique` | interprocess/container/shared_memory_list.h:823-839 | the links determine the sequence |
| `SharedLists.RingKept` | interprocess/container/shared_memory_list.h:823-912 | a list is unchanged while others work on their own nodes in the same memory |
| `HashTables.HashTable.FindNode` | interprocess/container/detail/shared_memory_hash_table.h:866-881 | the walk along one bucket finds the node with an equal key that a search of the whole list would find, or there is none |
| `HashTables.HashTable.Insert` | interprocess/container/detail/shared_memory_hash_table.h:883-897 | an absent key is added at the end of the iteration order, in a node from the cache or in new storage; a present one changes nothing and a constructor that throws no contents; never more nodes than buckets; storage allocated is always that of the table and of the cache, with nothing in both |
| `HashTables.HashTable.LinkNewNode` | interprocess/container/detail/shared_memory_hash_table.h:929-952 | the node is in exactly its bucket's chain and once at the end of the iteration list |
| `HashTables.HashTable.UnlinkBucket` | interprocess/container/detail/shared_memory_hash_table.h:954-969 | exactly this node leaves the bucket chains |
| `HashTables.HashTable.UnlinkIteration` | interprocess/container/detail/shared_memory_hash_table.h:971-989 | exactly this node leaves the iteration list |
| `HashTables.HashTable.EraseNode` | interprocess/container/detail/shared_memory_hash_table.h:991-1001 | exactly this node leaves both of its lists, for the cache |
| `HashTables.HashTable.Erase` | interprocess/container/detail/shared_memory_hash_table.h:662-671 | removes exactly the node with an equal key, or reports that there is none |
| `HashTables.HashTable.EraseAt` | interprocess/container/detail/shared_memory_hash_table.h:673-682 | removes exactly this node and returns what followed it |
| `HashTables.HashTable.Rehash` | interprocess/container/detail/shared_memory_hash_table.h:722-751 | neither contents nor iteration order change; the number of buckets is the request, or the number of nodes if that is more, with 8 standing in for zero |
| `HashTables.HashTable.RelinkAllBuckets` | interprocess/container/detail/shared_memory_hash_table.h:1003-1022 | afterwards every node is in exactly the chain of its hash modulo the new number of buckets |
| `HashTables.HashTable.Clear` | interprocess/container/detail/shared_memory_hash_table.h:693-706 | the walk destroys every node into the cache, each once; no node and empty buckets are left |
| `HashTables.HashTable.ShrinkToFit` | interprocess/container/detail/shared_memory_hash_table.h:717-720 | the cache goes back to the heap and the allocation counter is the size |
| `HashTables.HashTable.Traverse` | interprocess/container/detail/shared_memory_hash_table.h:393-421 | iteration visits every node once, in insertion order |

## Left out

- System calls behind mapping, truncation and locking: only their outcomes are modelled.
- The optional shared-mutex build of the manager: it puts a second lock around the same protocol.
- Layout version, magic number and initialisation state of the manager: checks of constants.
- Type hashes of named objects: a mismatch throws inside the lock before anything is changed.
- Array and range variants of `construct`: the same reservation with another loop in the unlocked window.
- Deaths inside the registry's critical sections: no claim, the self-check does not look at the registry.
- ManagedSegments.ManagedSegment.ShrinkToFit: no other process uses the segment between shrink and rollback, because the source holds no lock there and promises nothing.
- NamedStorages.NamedStorage.Reserve: the calls that deallocate null pointers on rollback are not repeated, because they only count.
- AllocatorStats.GetStats: the cumulative counters are copied into the result and are fields of `BlockAllocator`, so they are not repeated.
- `zero_free_memory` store by store: its bytes belong to no header, wherever it stops.
- Float arithmetic of load factors: the model has the default factor 1 and exact comparison.
- Moving, copying, resizing and assigning containers: loops over the operations modelled here.
- `SharedMemoryVector`, `SharedMemoryString`: growth buffers over `try_expand`.
- Weak memory, generation wrap-around and the retry limits of readers: a reader may give up at any step instead.
