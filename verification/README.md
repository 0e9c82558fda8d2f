# Verification of the core system libraries

This project models five parts of the repository in Dafny and proves what they promise.

- **The classic arena allocator** (`Chunk*`, `List*`, `Block*`, `Bin*`, `Heap*`, `Arena*`).  Memory is an
  array of 8-byte words that chunk headers, free list links, footers and block headers share.  The heap is
  also a value: which chunks there are, which are free, the bin lists, the blocks and the counters.  The
  methods rewrite the array in place, word by word in the order of the source, and each is proved to take
  memory that represents one heap to memory that represents the next.  What callers rely on is proved of
  the heap value and of memory, for single calls and for whole runs.
- **Lock protocols** (`Spinlock`, `SpinlockProgress`, `Seqlock`, `SeqlockLaws`, `PageBlock`).  Step machines with any
  number of threads, one atomic access a step, sequentially consistent memory, and weak compare-exchange that
  may fail for no reason.  Claims are about every reachable state of every schedule.
- **Wide integers** (`WideInt`, `WideMul`, `Division`).  Two-half emulation and non-restoring division,
  parametric in the width.
- **Substring search** (`Search`).
- **In-place algorithms** (`Permutation`, `Partition`).

`Powers` holds the arithmetic the word-level models share.  `dafny verify dfyconfig.toml` checks everything.

## Where code and expectation part

The model follows the code.  These are places where the code does something a reader of its comments or
interfaces would not expect.  Each is proved, with the exact condition where it depends on one.

- Bin numbers are not monotone in size: rounding up in the last subdivision of an octave gives offset 0 of the
  same octave.  A request can therefore fail although a large enough chunk is free: `HeapLaws.RequestFailsIff`
  says exactly when, and `HeapLaws.LargeChunkNotFound` is 512 bytes from a new arena whose one chunk has 1000.
- `setSize` keeps the flag bits it finds.  A block must be made of memory whose first chunk header word has its
  predecessor flag clear; it is well formed if and only if that is so (`BlockOps.FreshBlockRepresents`).
- A spinlock waiter whose exchange finds a fast path owner has no predecessor token to link to
  (Spinlock.cc:65).  The model leaves it stuck, and the lock with it; `Spinlock.StuckOnlyByExchange` says when.
- Linking to a predecessor is a load and a store.  A hand-off between the two is overwritten and lost
  (`Spinlock.LostOnlyByStore`).
- A fast path owner has no place in the queue.  If the first compare-exchange of its release fails, and a weak one may
  fail for no reason, it waits for a link that nobody stores, even with no other thread about
  (`Spinlock.MaroonedOnlyByRelease`).  Outside these three cases the lock can always be freed
  (`SpinlockProgress.LockCanBecomeFreeIff`).
- A sequence lock read can validate torn data if the counter makes a full turn during it.
- `PageBlock::allocate` refuses a request for exactly what is left.
- Unsigned division is exact for divisors up to half the range and for no larger one.
- Horspool's table has half as many entries as there are characters and is indexed by text characters without a
  check.  The model reports such an access as its own outcome; `Search.SafeAlphabetIff` and
  `Search.MemorySearchSafeIff` say exactly which alphabets are safe.

## Model

| member | source | states |
|---|---|---|
| `ChunkWords.Header` | System/Allocator/Classic/Source/System/Allocator/Classic/Chunk.hh:19-80 | A header word read back gives the chunk's size and each of its three flags |
| `ChunkWords.HeaderUpdates` | System/Allocator/Classic/Source/System/Allocator/Classic/Chunk.hh:52-123 | Setting or clearing one flag, or replacing the size, changes that field of the header and no other |
| `BinTable.ChunkSizeLeast` | System/Allocator/Classic/Source/System/Allocator/Classic/Arena.cc:376-392 | The chunk size is the least aligned size that holds the request and its header and is at least a smallest chunk, and which requests are too large, with 64-bit wrap-around written out |
| `BinTable.ExactBin` | System/Allocator/Classic/Source/System/Allocator/Classic/Arena.hh:144-159 | In numbers: sizes up to 32 bytes are in bin 0, each bin up to 512 bytes holds the 16 sizes ending at its own, and the last bin begins at 128 KiB |
| `BinTable.EveryBinHasItsSize` | System/Allocator/Classic/Source/System/Allocator/Classic/Arena.hh:144-192 | Each of the 94 bins is the bin of the size the table gives for it, so none is unused |
| `BinTable.BinOf` | System/Allocator/Classic/Source/System/Allocator/Classic/Arena.hh:160-174 | Octave, step and bin of every inexact size; step 16 is the wrap zone, where the offset falls back to 0 |
| `BinTable.BinIndexMonotoneIff` | System/Allocator/Classic/Source/System/Allocator/Classic/Arena.hh:144-175 | Bin numbers are monotone up to a size exactly when that size is outside the last subdivision of its octave |
| `BinTable.SearchSkips` | System/Allocator/Classic/Source/System/Allocator/Classic/Arena.hh:144-175 | Exactly which sufficient chunk sizes lie in a bin below the bin of the request |
| `BinTable.WrapExample` | System/Allocator/Classic/Source/System/Allocator/Classic/Arena.hh:160-174 | A 1000-byte chunk shares the bin of 512-byte chunks, below the bin of a 520-byte one |
| `HeapSteps.Unbin` | System/Allocator/Classic/Source/System/Allocator/Classic/Arena.cc:361-374 | Taking a free chunk out of its bin keeps the tiling, the coalescing and every bin sorted and exact, apart from that chunk |
| `HeapSteps.Enbin` | System/Allocator/Classic/Source/System/Allocator/Classic/Arena.cc:346-359 | Putting a settled free chunk into its bin restores the bin invariant for it |
| `HeapSteps.MarkFree` | System/Allocator/Classic/Source/System/Allocator/Classic/Chunk.hh:97-104 | A live chunk becomes free: exactly it leaves the live allocations, and the counters stay right |
| `HeapSteps.MarkUsed` | System/Allocator/Classic/Source/System/Allocator/Classic/Chunk.hh:106-113 | A free chunk becomes live: exactly it joins the live allocations, at its size |
| `HeapSteps.Merge` | System/Allocator/Classic/Source/System/Allocator/Classic/Chunk.hh:141-154 | Merging with a free successor keeps the tiling and all live allocations; one merge and one header less are booked |
| `HeapSteps.SplitOff` | System/Allocator/Classic/Source/System/Allocator/Classic/Chunk.hh:272-297 | Splitting keeps the tiling and all live allocations; one split and one header more are booked |
| `HeapOps.FindBin` | System/Allocator/Classic/Source/System/Allocator/Classic/Arena.cc:66-87 | The scan stops at the first bin, from the starting one on, that holds a sufficient chunk |
| `HeapOps.Take` | System/Allocator/Classic/Source/System/Allocator/Classic/Arena.cc:96-124 | Handing out a chunk keeps every invariant and the books; what is handed out is at least the size asked for and less than a smallest chunk larger |
| `HeapOps.MergeForward` | System/Allocator/Classic/Source/System/Allocator/Classic/Arena.cc:155-164 | After the forward merge the successor is not free |
| `HeapOps.Release` | System/Allocator/Classic/Source/System/Allocator/Classic/Arena.cc:146-180 | Freeing keeps every invariant and the books and ends exactly one live allocation |
| `HeapOps.AddBlock` | System/Allocator/Classic/Source/System/Allocator/Classic/Arena.cc:294-323 | A new block keeps every invariant and the books and touches no live allocation |
| `ChunkOps.FinishRepresents` | System/Allocator/Classic/Source/System/Allocator/Classic/Chunk.hh:304-311 | Writing header, footer and the successor's flag makes memory represent the heap with that chunk's footer in place |
| `ChunkOps.MarkFreeRepresents` | System/Allocator/Classic/Source/System/Allocator/Classic/Chunk.hh:97-123 | The two header writes of markFree are the heap step, and no live data changes |
| `ChunkOps.MarkUsedRepresents` | System/Allocator/Classic/Source/System/Allocator/Classic/Chunk.hh:106-123 | The same for markNotFree |
| `ChunkOps.MergeRepresents` | System/Allocator/Classic/Source/System/Allocator/Classic/Chunk.hh:141-154 | The one header write of a merge is the heap step, the absorbed header becoming plain memory |
| `ChunkSplit.SplitRepresents` | System/Allocator/Classic/Source/System/Allocator/Classic/Chunk.hh:272-311 | All writes of split and its two doFree calls are the heap step |
| `ListOps.UnlinkList` | System/Allocator/Classic/Source/System/Allocator/Classic/Chunk.hh:172-183 | Unlinking any entry of a doubly linked list leaves the list without it, head pointer included |
| `ListOps.UnlinkRepresents` | System/Allocator/Classic/Source/System/Allocator/Classic/Chunk.hh:172-183 | Unlinking in memory takes exactly that chunk out of its bin and changes nothing else the heap consists of |
| `ListOps.LinkRepresents` | System/Allocator/Classic/Source/System/Allocator/Classic/Chunk.hh:185-216 | Linking in memory inserts the chunk at its place in order of size |
| `BlockOps.FreshHeaderWord` | System/Allocator/Classic/Source/System/Allocator/Classic/Chunk.hh:52-60 | setSize keeps whatever flags it finds: a first header word with its predecessor flag set stays wrong |
| `BlockOps.FreshBlockRepresents` | System/Allocator/Classic/Source/System/Allocator/Classic/Arena.cc:298-319 | The words addMemoryBlock writes represent the heap with the new block if and only if that flag was clear, and nothing outside the block changes |
| `ChunkMethods.Mark` | System/Allocator/Classic/Source/System/Allocator/Classic/Chunk.hh:97-123 | In place: memory afterwards is the old memory with the flags rewritten |
| `ChunkMethods.MergeWithSuccessor` | System/Allocator/Classic/Source/System/Allocator/Classic/Chunk.hh:141-154 | In place, with the two cases in which nothing happens |
| `ChunkMethods.DoFree` | System/Allocator/Classic/Source/System/Allocator/Classic/Chunk.hh:304-311 | In place: header, footer and successor |
| `ChunkMethods.SplitInPlace` | System/Allocator/Classic/Source/System/Allocator/Classic/Chunk.hh:272-297 | In place, in the order of the stores |
| `ChunkMethods.UnlinkFromList` | System/Allocator/Classic/Source/System/Allocator/Classic/Chunk.hh:172-183 | In place on memory and the head pointer |
| `ChunkMethods.BestFitInList` | System/Allocator/Classic/Source/System/Allocator/Classic/Chunk.hh:234-242 | The walk ends at the first entry that is large enough |
| `ChunkMethods.LinkIntoSortedList` | System/Allocator/Classic/Source/System/Allocator/Classic/Chunk.hh:185-216 | In place: the empty list, the new front and the walk insert at the one place that keeps the order |
| `ChunkMethods.InsertFront` | System/Allocator/Classic/Source/System/Allocator/Classic/Chunk.hh:190-203 | In place: the only or the first entry of a list |
| `ChunkMethods.LastSmaller` | System/Allocator/Classic/Source/System/Allocator/Classic/Chunk.hh:205-208 | The walk stops at the last entry smaller than the chunk |
| `ClassicArena.Arena.constructor` | System/Allocator/Classic/Source/System/Allocator/Classic/Arena.hh:194-200 | A new arena is valid and its heap empty |
| `ClassicArena.Arena.RemoveChunkFromBin` | System/Allocator/Classic/Source/System/Allocator/Classic/Arena.cc:361-374 | Fields and memory represent the heap with that chunk unbinned; chunk_count stays the length of its list |
| `ClassicArena.Arena.AddFreeChunk` | System/Allocator/Classic/Source/System/Allocator/Classic/Arena.cc:346-359 | Fields and memory represent the heap with that chunk binned; chunk_count stays the length of its list |
| `ClassicArena.Arena.Search` | System/Allocator/Classic/Source/System/Allocator/Classic/Arena.cc:65-87 | The bin scan finds the chunk of the specification |
| `ClassicArena.Arena.Allocate` | System/Allocator/Classic/Source/System/Allocator/Classic/Arena.cc:31-127 | The new state represents the specified heap, the result is its address and data size, and no word of any live allocation changed |
| `ClassicArena.Arena.Free` | System/Allocator/Classic/Source/System/Allocator/Classic/Arena.cc:129-188 | The new state represents the specified heap, and no word of any other live allocation changed |
| `ClassicArena.Arena.AddMemoryBlock` | System/Allocator/Classic/Source/System/Allocator/Classic/Arena.cc:294-323 | The new state represents the specified heap, and no word of any live allocation changed |
| `HeapLaws.WalkTilesBlock` | System/Allocator/Classic/Source/System/Allocator/Classic/Chunk.hh:131-137 | Walking successors through raw memory tiles each block exactly, ends at its one last chunk, meets every chunk once, and each predecessor flag is set exactly after a free chunk; no two neighbours are free |
| `HeapLaws.PredecessorInvertsSuccessor` | System/Allocator/Classic/Source/System/Allocator/Classic/Chunk.hh:256-270 | From the successor of a free chunk the footer leads back to it |
| `HeapLaws.WalkFindsBin` | System/Allocator/Classic/Source/System/Allocator/Classic/Chunk.hh:172-216 | Following next links from the head of a bin through raw memory comes to null after exactly the free chunks of that bin, each once, ascending, each pointing back at the one before |
| `HeapLaws.LiveDataIsPrivate` | System/Allocator/Classic/Source/System/Allocator/Classic/Chunk.hh:42-50 | Live data lies inside its block, aligned, and shares no word with another chunk or a block header |
| `HeapLaws.CallersMayWrite` | System/Allocator/Classic/Source/System/Allocator/Classic/Chunk.hh:47-50 | Whatever a caller stores in its own data, memory still represents the same heap |
| `HeapLaws.ChoiceIsBestFit` | System/Allocator/Classic/Source/System/Allocator/Classic/Arena.cc:62-87 | The chosen chunk is a smallest sufficient one of the first bin that has a sufficient one |
| `HeapLaws.ChoiceFailsIff` | System/Allocator/Classic/Source/System/Allocator/Classic/Arena.cc:62-94 | The search fails exactly when no bin at or above the starting one holds a sufficient chunk |
| `HeapLaws.RequestFailsIff` | System/Allocator/Classic/Source/System/Allocator/Classic/Arena.cc:62-94 | The same in terms of sizes: every sufficient free chunk lies in the wrap zone of the request's own octave |
| `HeapLaws.AllocateOutcomes` | System/Allocator/Classic/Source/System/Allocator/Classic/Arena.cc:31-94 | For every request, exactly when it is ignored, refused, not found or served; one that is not served changes only the failure count |
| `HeapLaws.OneChunkNotFoundIff` | System/Allocator/Classic/Source/System/Allocator/Classic/Arena.cc:62-94 | In a new arena with one block, exactly which servable requests are not served |
| `HeapLaws.LargeChunkNotFound` | System/Allocator/Classic/Source/System/Allocator/Classic/Arena.cc:62-94 | Such a request: 512 bytes are refused although one free chunk of 1000 bytes is there |
| `HeapLaws.AllocateAddsOne` | System/Allocator/Classic/Source/System/Allocator/Classic/Arena.cc:96-126 | A served request adds one live chunk out of free memory, cut to the size of the request exactly when another smallest chunk is left over, and leaves the others |
| `HeapLaws.AllocateIsBestFit` | System/Allocator/Classic/Source/System/Allocator/Classic/Arena.cc:62-96 | What a served request is given is free, large enough and in a bin from the starting one on, and every other such chunk lies in a later bin or in the same one and is no smaller |
| `HeapLaws.SupportedAlignmentIff` | System/Allocator/Classic/Source/System/Allocator/Classic/Arena.cc:39-52 | The alignments served are exactly the powers of two up to 16 |
| `HeapLaws.AllocateCounts` | System/Allocator/Classic/Source/System/Allocator/Classic/Arena.cc:31-126 | Every counter after a request: one allocation of the size handed out and one split exactly if it was cut, or one failure, or nothing |
| `HeapLaws.FreeCounts` | System/Allocator/Classic/Source/System/Allocator/Classic/Arena.cc:146-174 | Every counter after a free: one free, the size less, and one merge for each free neighbour |
| `HeapLaws.AddBlockCounts` | System/Allocator/Classic/Source/System/Allocator/Classic/Arena.cc:299-311 | Every counter after a new block |
| `HeapLaws.EnbinPlaces` | System/Allocator/Classic/Source/System/Allocator/Classic/Chunk.hh:185-216 | A chunk goes into its own bin after all smaller ones and in front of those of its size, and no other bin changes |
| `HeapLaws.AllFreeIsOneChunk` | System/Allocator/Classic/Source/System/Allocator/Classic/Arena.cc:151-180 | With nothing live every block is one free chunk of its original size |
| `HeapLaws.FreeEachLeaves` | System/Allocator/Classic/Source/System/Allocator/Classic/Arena.cc:129-188 | Freeing a list of live allocations, in its order, leaves exactly the others |
| `HeapLaws.FreeAllRestoresBlocks` | System/Allocator/Classic/Source/System/Allocator/Classic/Arena.cc:151-180 | Freeing all live allocations in any order restores each block to one free chunk, and the live counters to 0 |
| `HeapLaws.Apply` | System/Allocator/Classic/Source/System/Allocator/Classic/Arena.cc:26-323 | Each operation keeps tiling, tags, coalescing and bins, and the books: sizes add up to total_size, live sizes to allocated_size, splits less merges to chunks less blocks, headers to overhead_size |
| `HeapLaws.Run` | System/Allocator/Classic/Source/System/Allocator/Classic/Arena.cc:26-323 | Every run of allocate, free and addMemoryBlock keeps all of that |
| `HeapLaws.RunKeepsLive` | System/Allocator/Classic/Source/System/Allocator/Classic/Arena.cc:26-323 | An allocation a run never frees is there at its end, as large as before |
| `ArenaRuns.Step` | System/Allocator/Classic/Source/System/Allocator/Classic/Arena.cc:26-323 | One call, or one store by a caller, changes no word of an allocation it does not free but the one stored, and no word outside the blocks |
| `ArenaRuns.Execute` | System/Allocator/Classic/Source/System/Allocator/Classic/Arena.cc:26-323 | A run of calls and caller stores on the arena in memory is a run of the heap; allocations never freed keep place and size, and every data word holds the last value its owner stored |
| `ArenaRuns.BinsInMemory` | System/Allocator/Classic/Source/System/Allocator/Classic/Arena.cc:346-374 | The same walk through an arena takes chunk_count steps |
| `Spinlock.StepKeeps` | System/Concurrency/Source/System/Concurrency/Spinlock.cc:39-122 | Every atomic step of every thread keeps the invariant between lock word, tokens, queue of exchanges and program counters |
| `Spinlock.MutualExclusion` | System/Concurrency/Source/System/Concurrency/Spinlock.cc:39-122 | In every reachable state at most one thread is between the return of acquire and the hand-off of its release |
| `Spinlock.GrantsFollowExchanges` | System/Concurrency/Source/System/Concurrency/Spinlock.cc:57-61 | Slow path ownership goes in the order of the exchanges without a gap |
| `Spinlock.HandOffIsNext` | System/Concurrency/Source/System/Concurrency/Spinlock.cc:108-121 | A hand-off goes to the thread whose exchange came directly after the releaser's own |
| `Spinlock.ReleasedIsUnreferenced` | System/Concurrency/Source/System/Concurrency/Spinlock.cc:101-107 | Once release has returned nobody can still read or write the token |
| `Spinlock.StuckWaiterReachable` | System/Concurrency/Source/System/Concurrency/Spinlock.cc:63-68 | Two threads reach a waiter behind a fast path owner, with no token to link to |
| `Spinlock.StuckOnlyByExchange` | System/Concurrency/Source/System/Concurrency/Spinlock.cc:57-68 | A thread gets stuck by exactly one kind of step: its exchange while a fast path owner holds the lock and nobody is queued |
| `Spinlock.StuckWaiterBlocksTheLock` | System/Concurrency/Source/System/Concurrency/Spinlock.cc:63-68 | From then on that owner keeps the lock in every continuation |
| `Spinlock.LostOnlyByStore` | System/Concurrency/Source/System/Concurrency/Spinlock.cc:67-68 | A hand-off is lost by exactly one kind of step: a link stored with flags loaded before the grant |
| `Spinlock.LostHandOffBlocksTheLock` | System/Concurrency/Source/System/Concurrency/Spinlock.cc:67-76 | After it no thread gets past acquire in any continuation |
| `Spinlock.LostHandOffReachable` | System/Concurrency/Source/System/Concurrency/Spinlock.cc:57-121 | Three threads reach it |
| `Spinlock.MaroonedOnlyByRelease` | System/Concurrency/Source/System/Concurrency/Spinlock.cc:85-114 | A fast path owner becomes unable to release by exactly one kind of step: the first compare-exchange of its release failing |
| `Spinlock.MaroonedOwnerBlocksTheLock` | System/Concurrency/Source/System/Concurrency/Spinlock.cc:93-114 | From then on it keeps the lock in every continuation and nobody else is let in |
| `Spinlock.MaroonedOwnerReachable` | System/Concurrency/Source/System/Concurrency/Spinlock.cc:89-114 | One thread and one spurious failure reach it |
| `SpinlockProgress.FastCycle` | System/Concurrency/Source/System/Concurrency/Spinlock.cc:39-90 | With the lock free, three steps of any thread take it by the fast path and release it, leaving the lock free again |
| `SpinlockProgress.QueuedAcquire` | System/Concurrency/Source/System/Concurrency/Spinlock.cc:49-61 | After a spurious failure of the fast path a thread alone holds the lock through the queue |
| `SpinlockProgress.SoleOwnerReleases` | System/Concurrency/Source/System/Concurrency/Spinlock.cc:85-99 | A queued owner with nobody behind it frees the lock in at most two steps; a spurious failure changes nothing |
| `SpinlockProgress.JoinsQueue` | System/Concurrency/Source/System/Concurrency/Spinlock.cc:39-72 | Six steps of a newcomer put it at the end of the queue, spinning, with the thread before it linked to it |
| `SpinlockProgress.HeirGetsIn` | System/Concurrency/Source/System/Concurrency/Spinlock.cc:72-76 | After a hand-off the next step of the heir ends its acquire, and it owns the lock |
| `SpinlockProgress.WaiterCanEnter` | System/Concurrency/Source/System/Concurrency/Spinlock.cc:39-122 | Unless a dead end was entered, every thread in the queue can come to own the lock, in queue order |
| `SpinlockProgress.LockCanBecomeFreeIff` | System/Concurrency/Source/System/Concurrency/Spinlock.cc:39-122 | From a reachable state some continuation frees the lock if and only if none of the three dead ends has been entered; otherwise it stays locked in every one |
| `Seqlock.StepKeeps` | System/Concurrency/Source/System/Concurrency/Seqlock.cc:12-58 | Every atomic step keeps the invariant between lock word, version, writer and what readers have seen |
| `Seqlock.OneWriter` | System/Concurrency/Source/System/Concurrency/Seqlock.cc:27-58 | In every reachable state at most one writer is inside, and the word is odd exactly when one is |
| `Seqlock.Snapshot` | System/Concurrency/Include/System/Concurrency/Seqlock.hh:43-71 | A read that validates saw values of one version only, unless its versions lie a positive multiple of the word's modulus apart |
| `Seqlock.WrappedReadIsTorn` | System/Concurrency/Source/System/Concurrency/Seqlock.cc:18-25 | That exception is real for every word size: after exactly one turn of the counter a torn read validates |
| `SeqlockLaws.DataChange` | System/Concurrency/Include/System/Concurrency/Seqlock.hh:63-71 | A step changes the data only if it is a store of the thread inside, and then by exactly that store |
| `SeqlockLaws.VersionChange` | System/Concurrency/Source/System/Concurrency/Seqlock.cc:28-58 | The version moves by one exactly when a writer enters or leaves; leaving publishes the data as it stands |
| `SeqlockLaws.WriterOwnsData` | System/Concurrency/Include/System/Concurrency/Seqlock.hh:63-71 | Over any interleaving the data is what the writer entered with and its own stores in order |
| `SeqlockLaws.WritePublishes` | System/Concurrency/Include/System/Concurrency/Seqlock.hh:63-71 | Over any interleaving what a write publishes is the data at its entry with its own stores applied in order |
| `SeqlockLaws.WriterGetsIn` | System/Concurrency/Source/System/Concurrency/Seqlock.cc:28-49 | With nobody inside, a writer is in after at most two attempts that do not fail spuriously |
| `SeqlockLaws.WriteAlonePublishes` | System/Concurrency/Include/System/Concurrency/Seqlock.hh:63-71 | A complete write by a thread alone ends with data and the one new version equal to the old data with its stores applied, two versions on |
| `SeqlockLaws.AcceptedIff` | System/Concurrency/Source/System/Concurrency/Seqlock.cc:18-25 | A read is accepted if and only if it began with no writer inside and the version has moved by a multiple of the modulus |
| `SeqlockLaws.ReadAloneAccepted` | System/Concurrency/Include/System/Concurrency/Seqlock.hh:43-61 | A read that nobody disturbs is accepted with exactly the words it looked at, and changes nothing |
| `SeqlockLaws.ReadersSeeWrites` | System/Concurrency/Include/System/Concurrency/Seqlock.hh:43-71 | In every reachable state with nobody inside such a read shows the newest published version |
| `PageBlock.StepKeeps` | System/Allocator/GAlloc/Source/System/Allocator/GAlloc/PageBlock.hh:36-50 | Every atomic step keeps the cursor in the block and the granted ranges contiguous |
| `PageBlock.RangesAreDisjoint` | System/Allocator/GAlloc/Source/System/Allocator/GAlloc/PageBlock.hh:36-50 | In every reachable state granted ranges are inside the block and disjoint, their sizes add up to the cursor's advance, and the cursor never reaches the limit |
| `PageBlock.HoldersAreApart` | System/Allocator/GAlloc/Source/System/Allocator/GAlloc/PageBlock.hh:36-50 | What two threads hold at the same time does not overlap |
| `PageBlock.AttemptOutcome` | System/Allocator/GAlloc/Source/System/Allocator/GAlloc/PageBlock.hh:41-49 | Exactly when an attempt is refused; one neither refused nor granted failed spuriously or another grant came between |
| `PageBlock.AloneGrantedIff` | System/Allocator/GAlloc/Source/System/Allocator/GAlloc/PageBlock.hh:36-50 | Alone, a request is granted if and only if strictly more than it is left |
| `WideInt.SplitRoundTrip` | System/ABI/Integer/Source/System/ABI/Integer/Types.hh:202-247 | Splitting into halves and joining them gives the value back |
| `WideInt.WholeRoundTrip` | System/ABI/Integer/Source/System/ABI/Integer/Types.hh:202-247 | Joining two halves and splitting gives the halves back |
| `WideInt.SignedWhole` | System/ABI/Integer/Source/System/ABI/Integer/Types.hh:152-200 | The signed value of the whole is the signed high half above the low half |
| `WideInt.AddSplit` | System/ABI/Integer/Source/System/ABI/Integer/ArithmeticOpsImpl.hh:57-69 | Piecewise addition with carry is addition modulo 2^(2h) |
| `WideInt.Negate` | System/ABI/Integer/Source/System/ABI/Integer/ArithmeticOpsImpl.hh:238-246 | Complementing both halves and adding 1 negates modulo 2^(2h) |
| `WideInt.SubNeg` | System/ABI/Integer/Source/System/ABI/Integer/ArithmeticOpsImpl.hh:72-77 | Adding the negation is subtraction modulo 2^(2h) |
| `WideInt.CompareSplitIsCompare` | System/ABI/Integer/Source/System/ABI/Integer/ArithmeticOpsImpl.hh:249-260 | Comparing halves orders wholes, unsigned and signed |
| `WideInt.ShiftLeftSplit` | System/ABI/Integer/Source/System/ABI/Integer/ArithmeticOpsImpl.hh:95-114 | For 0 < count < 2h, left shift modulo 2^(2h) |
| `WideInt.ShiftRightSplit` | System/ABI/Integer/Source/System/ABI/Integer/ArithmeticOpsImpl.hh:117-136 | For 0 < count < 2h, division by 2^count |
| `WideInt.ShiftRightArithmeticSplit` | System/ABI/Integer/Source/System/ABI/Integer/ArithmeticOpsImpl.hh:216-235 | For 0 < count < 2h, the signed value divided by 2^count, rounded down |
| `WideInt.ShiftLeftAdd` | System/ABI/Integer/Source/System/ABI/Integer/ArithmeticOpsImpl.hh:80-93 | Repeated doubling is the left shift, for every count |
| `WideMul.MulSplitIsMul` | System/ABI/Integer/Source/System/ABI/Integer/ArithmeticOpsImpl.hh:174-190 | Three half-width products give the product modulo 2^(2h) |
| `WideMul.MulxSplitIsExact` | System/ABI/Integer/Source/System/ABI/Integer/ArithmeticOpsImpl.hh:192-213 | Four half-width products give the full product, which fits 4h bits (unsigned) |
| `WideMul.TruncatedIsLowHalf` | System/ABI/Integer/Source/System/ABI/Integer/ArithmeticOpsImpl.hh:174-213 | The truncating product is the low half of the full one |
| `WideMul.MulAdd` | System/ABI/Integer/Source/System/ABI/Integer/ArithmeticOpsImpl.hh:139-154 | Shift-and-add is the product modulo 2^n |
| `WideMul.MulxAdd` | System/ABI/Integer/Source/System/ABI/Integer/ArithmeticOpsImpl.hh:156-172 | Shift-and-add in the double width is the full product |
| `Division.DigitsFit` | System/ABI/Integer/Source/System/ABI/Integer/ArithmeticOpsImpl.hh:290-306 | Or-ing digits from the top never carries: the quotient word stays within n bits |
| `Division.WordStep` | System/ABI/Integer/Source/System/ABI/Integer/ArithmeticOpsImpl.hh:292-306 | With the divisor at most half the range, the word of a remainder in [-d, d) shows its sign and loses nothing when doubled and moved by d |
| `Division.DigitsAreRight` | System/ABI/Integer/Source/System/ABI/Integer/ArithmeticOpsImpl.hh:292-306 | The loop keeps the remainder in [-d, d) and digits plus remainder account for the numerator |
| `Division.DivideIsExact` | System/ABI/Integer/Source/System/ABI/Integer/ArithmeticOpsImpl.hh:266-322 | For every numerator and every divisor from 1 to 2^(n-1) the result is quotient and remainder |
| `Division.SupportedIff` | System/ABI/Integer/Source/System/ABI/Integer/ArithmeticOpsImpl.hh:266-322 | A divisor divides every numerator exactly if and only if it is at most 2^(n-1) |
| `Division.ZeroOverLarge` | System/ABI/Integer/Source/System/ABI/Integer/ArithmeticOpsImpl.hh:292-316 | For any larger divisor 0 divided by it is not 0 |
| `Division.UDivNative` | System/ABI/Integer/Source/System/ABI/Integer/ArithmeticOpsImpl.hh:285-321 | The loop over a machine double width computes that function, hence quotient and remainder |
| `Division.UDivEmulated` | System/ABI/Integer/Source/System/ABI/Integer/ArithmeticOpsImpl.hh:279-319 | So does the loop over the two-half double width |
| `Division.IDivide` | System/ABI/Integer/Source/System/ABI/Integer/ArithmeticOpsImpl.hh:324-343 | Truncating signed division: n = q*d + r, abs(r) < abs(d), r of the sign of n or 0, for all n and d but minimum / -1, where the quotient wraps |
| `Search.Compare` | System/ABI/String/Source/System/ABI/String/StringImpl.hh:78-89 | Zero exactly for equal stretches, otherwise the difference at the first mismatch |
| `Search.Naive` | System/ABI/String/Source/System/ABI/String/StringImpl.hh:99-113 | The first occurrence, or none |
| `Search.SkipsNoOccurrence` | System/ABI/String/Source/System/ABI/String/StringImpl.hh:124-134 | No occurrence begins before the place the window is moved to |
| `Search.ScanFindsFirst` | System/ABI/String/Source/System/ABI/String/StringImpl.hh:127-137 | Every answer is the first occurrence or none; otherwise the table was indexed by a text character beyond its end |
| `Search.ScanRefinesNaive` | System/ABI/String/Source/System/ABI/String/StringImpl.hh:99-138 | The answer of the naive search whenever the table is not left, which it never is for a text within it |
| `Search.FirstWindowOutsideIff` | System/ABI/String/Source/System/ABI/String/StringImpl.hh:128-134 | Exactly when the first window indexes beyond the table |
| `Search.SafeAlphabetIff` | System/ABI/String/Source/System/ABI/String/StringImpl.hh:116-138 | A pattern is found correctly in every text of characters below a bound if and only if the bound is at most the table size; a pattern of the one character just beyond allows one more |
| `Search.SkipTable` | System/ABI/String/Source/System/ABI/String/StringImpl.hh:119-125 | The two loops fill the table with the distance from the last occurrence of each character |
| `Search.MemorySearchSafeIff` | System/ABI/String/Source/System/ABI/String/StringImpl.hh:140-150 | memory_search is right for every text of characters below a bound if and only if the pattern is shorter than 8 or the bound is at most half of the 2^bits character values |
| `Search.Horspool` | System/ABI/String/Source/System/ABI/String/StringImpl.hh:116-138 | The loop over the text computes that search; the offset never passes the end of the text |
| `Search.MemorySearch` | System/ABI/String/Source/System/ABI/String/StringImpl.hh:140-150 | Computes the choice the condition above is about; below 8 characters always the first occurrence, from 8 on whenever the table is not left |
| `Permutation.NothingBetween` | System/C++/Algorithm/Include/System/C++/Algorithm/Algorithm.hh:2082-2103 | No rearrangement lies between a sequence and its swapped and reversed successor |
| `Permutation.SwapAndReverse` | System/C++/Algorithm/Include/System/C++/Algorithm/Algorithm.hh:2095-2103 | Swapping and reversing gives the immediate successor under any strict weak order |
| `Permutation.SortedAreExtreme` | System/C++/Algorithm/Include/System/C++/Algorithm/Algorithm.hh:2088-2093 | A sequence without ascent is the greatest rearrangement, one without descent the least |
| `Permutation.Reverse` | System/C++/Algorithm/Include/System/C++/Algorithm/Algorithm.hh:691-701 | In place: the range reversed, the rest untouched, for every non-empty range |
| `Permutation.LastAscent` | System/C++/Algorithm/Include/System/C++/Algorithm/Algorithm.hh:2082-2086 | The last place with an ascent, or none |
| `Permutation.LastGreater` | System/C++/Algorithm/Include/System/C++/Algorithm/Algorithm.hh:2095-2099 | The last later element that is greater |
| `Permutation.NextPermutation` | System/C++/Algorithm/Include/System/C++/Algorithm/Algorithm.hh:2076-2104 | True: the immediate successor; false: the input was the greatest and the result is the least and ascending |
| `Partition.Rotate` | System/C++/Algorithm/Include/System/C++/Algorithm/Algorithm.hh:711-734 | In place: exactly [middle, last) then [first, middle), the rest untouched, with termination and the returned boundary |
| `Partition.TurnOne` | System/C++/Algorithm/Include/System/C++/Algorithm/Algorithm.hh:723-729 | One swap keeps the left part, read from the victim around |
| `Partition.FilterSplits` | System/C++/Algorithm/Include/System/C++/Algorithm/Algorithm.hh:1016-1094 | The two parts of a partition together are a rearrangement of the input, one satisfying the predicate and one not |
| `Partition.HalvesJoin` | System/C++/Algorithm/Include/System/C++/Algorithm/Algorithm.hh:1078-1093 | Two partitioned halves and a rotation between their boundaries are a partition |
| `Partition.ThroughBuffer` | System/C++/Algorithm/Include/System/C++/Algorithm/Algorithm.hh:1047-1075 | The buffered pass partitions whatever moved-from slots hold; the elements the buffer comes to hold are those after the boundary and take no more than its bytes |
| `Partition.PartitionWith` | System/C++/Algorithm/Include/System/C++/Algorithm/Algorithm.hh:1016-1094 | Stable partition for every buffer size |
| `Partition.StablePartition` | System/C++/Algorithm/Include/System/C++/Algorithm/Algorithm.hh:1096-1123 | The satisfying elements in order, then the others in order, and the boundary, whichever buffer requests succeed |

## Left out

- `Arena::resize`, `reallocate`, `allocationSize`, `prune`, `createFromMemory`, `destroy` and the mutex.
- High-water marks, `chunks_free`, and the per-bin counters other than `chunk_count`.  `addMemoryBlock` names none of
  the per-bin counters when it adds its chunk; the model counts nothing there.
- HeapBooks.Books: counters are unbounded integers; the source's counters wrap at 64 bits.
- ClassicArena.Arena.Allocate: alignments above the default are refused, as in the source, and not modelled further.
- ClassicArena.Arena.AddMemoryBlock: takes a block that lies in memory, overlaps no other, is a multiple of 8 bytes
  long, holds a smallest chunk after its header, and is not at address 0; the source does not check this either.
- ClassicArena.Arena.Free: takes null or the data address of a chunk of this arena; anything else is undefined in the
  source.  Freeing a chunk that is free already is ignored, as in the source.
- Block headers are linked backwards only, as the source writes them.
- SpinlockProgress.LockCanBecomeFreeIff: some continuation frees the lock; that a fair scheduler finds it is not stated.
- Spinlock: weak memory orders and fences.  A thread starts each acquire with a token that holds 0 and
  uses a token again only after its release returned.
- Seqlock: the callables are sequences of single-word reads or writes of the protected data; exceptions and weak memory
  orders.
- ArenaRuns.Execute: callers store single words into the data of live allocations.
- PageBlock: the limit never changes, so its load is not a step of its own.
- Search.Compare: the difference is an unbounded integer where the source truncates it to `int`.  `memory_search`'s
  writes to the table for pattern characters beyond it are excluded by a precondition.
- WideInt.ShiftLeftSplit and the right shifts: counts of 0 or of the whole width and more make the source shift a half
  by its own width, which the language leaves undefined.
- WideMul.MulxSplitIsExact: unsigned operands only.
- Division.IDivide: division by 0 has a result, which is not described; the negation of the least value wraps.
- Permutation.NextPermutation and Partition: iterators are array indices, and the comparison and the predicate are pure
  functions.
- Partition.ThroughBuffer: the buffer is a sequence of the elements moved into it; object lifetimes are not modelled.
  Element types have a default value, which serves only to say that a moved-from slot may hold anything.
- `prev_permutation`, `unique`, heap algorithms, the other algorithms, string copies, `PageTable`, `Pool`, containers,
  DWARF, register and boot code: not part of this model.
