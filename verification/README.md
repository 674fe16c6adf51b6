# Verified models of the graphics stack's hard parts

A Dafny model, with proofs, of the components of this repository whose correctness is not visible from
reading one function: the lock-free bitmap allocator and the heap built on it, the life cycle of VC4
buffer objects, the VBVA ring shared with a host, the component framework and the probe order it is
there to make irrelevant, shared-memory GEM reference counting, the VC4 job queue, and two
self-contained algorithms.

`dafny verify dfyconfig.toml` checks everything. One file is one module.

| area | files |
|---|---|
| pool allocator | `Words`, `Bitmap`, `PoolThreads`, `Search`, `Pool`, `Hgsmi` |
| buffer objects | `PurgeProtocol`, `PurgeCalls`, `PurgeFree`, `BoLabels`, `BoCache`, `BoPool`, `BoManager`, `Reservations`, `Jobs` |
| guest/host ring | `Vbva` |
| component framework | `Component`, `ComponentLeaves`, `ComponentRegistry`, `ComponentOrder`, `Platform`, `Vc4Bind` |
| shmem objects | `Shmem` |
| algorithms | `Rational`, `DeviceTree` |
| shared | `Options`, `Lists`, `Widths`, `Arithmetic`, `MadvState` |

How the source's forms appear: code that updates structures in place is a class whose methods are proved
against specification functions (`Component.BindMatch`, `Bitmap.SetFrom`, `BoManager.Kept`, ...), and
what the source promises is then proved of those functions, or kept by the class invariant `Valid()` from
one call to the next. Concurrency is a transition system over the atomic steps of any number of threads
(`PoolThreads`, `PurgeProtocol`); its theorems speak of every run. The outcome of an allocation, of a
callback, of a lock call, of a host turn or of an interrupt is a parameter, so every theorem holds for
every outcome.

## What turned out false, and when it is true

- Allocation size: a policy takes the bit count as a 32-bit number while the set takes all of it. Below 2^32
  bits `gen_pool_alloc` keeps every promise (`Pool.GenPool.Alloc`); for every larger size there is a pool on
  which it retries for ever (`Pool.WideRequestSticks`). `PoolThreads` is about requests below that.
- HGSMI round trip: `hgsmi_buffer_free` recomputes the size from a 32-bit header field, so freeing restores
  the pool exactly when the data size is below 2^32 (`Hgsmi.Heap.RoundTrip`, `Hgsmi.LostBuffer`).
- Purgeable counters: with another thread between delisting and locking, the pool's count drifts, down to
  -1 in the run `PurgeProtocol.CountersDrift` constructs. `PurgeProtocol.QuiescentList` gives the exact
  drift, `PurgeProtocol.StrayIff` says exactly when it grows.
- Purging and freeing: a purger touches no freed object exactly when no object is freed while the purger has
  it in hand (`PurgeFree.NoTouchIff`, `PurgeFree.CaughtInHand`).
- HGSMI size: header, data and tail fit what is taken from the pool exactly when their sum does not wrap in
  size_t (`Hgsmi.TotalSizeHolds`).
- BO label statistics: an object that is accounted and then cannot be initialized is freed without leaving its
  label. A create keeps exact statistics exact if and only if none of its attempts ended so
  (`BoManager.Manager.BoCreate`), after any run the kernel label counts exactly the lost objects too much
  (`BoLabels.ExactIff`), and `BoManager.LostObject` is a failed create that leaves one counted with none alive.
- BO cache lookup: its size parameter is 32 bits, so a hit has the requested size exactly when the request
  is below 2^32 (`BoManager.Manager.BoCreate`, `BoManager.TruncatedHit`).
- Match-list building ends exactly when no entry of a driver repeats an earlier device
  (`Platform.LoopEndsIff`, `Platform.TwiceRegistered`).
- Unbind arguments: `component_unbind_all` passes its caller's arguments, which are those of the bind exactly
  when the caller made it (`Component.ReleaseFaithfulIff`, `Component.UnbindMatchFaithfulIff`,
  `Component.ForeignUnbind`).
- `rational_best_approximation` says it finds the closest fraction within bounds. `Rational.ClosestIff` says
  for every input when it does, `Rational.NearestIff` when the result is a best approximation of the second
  kind, which comes to being closest among the fractions with no larger denominator (`Rational.OwnSizeIff`), and
  `Rational.NotTheClosest` gives inputs where it is neither.
- VBVA record length: equal to the bytes written exactly below 2 GB, where the length meets the PARTIAL bit
  (`Vbva.Ring.EndUpdate`, `Vbva.LongRecord`).
- `possible_crtcs` for an arbitrary bind order has exactly the CRTCs bound after the encoder
  (`Vc4Bind.MasksExact`); this is why the order matters.

## Model

| member | source | states |
|---|---|---|
| Words.PieceMaskBits | graphics/lib/genalloc.c:113-124 | the per-word mask (first-word and last-word masks combined, possibly in one word) selects exactly the bits of the range that lie in that word |
| Words.PieceFree | graphics/lib/genalloc.c:67-79 | the conflict test of a set is false exactly when the whole piece of the range in that word is clear |
| Words.PieceHeld | graphics/lib/genalloc.c:81-93 | the conflict test of a clear is false exactly when the whole piece is set |
| Words.BitsInjective | graphics/lib/genalloc.c:154-165 | words are determined by the set of bit numbers they stand for, so equal bit sets mean equal bitmaps |
| Bitmap.SetFromBits | graphics/lib/genalloc.c:106-129 | a return of r means exactly the prefix of length nr - r was added, every bit of it clear before; r is 0 exactly when the whole range was clear |
| Bitmap.ClearFromBits | graphics/lib/genalloc.c:142-165 | the mirror image for clearing |
| Bitmap.ClearUndoesSet | graphics/lib/genalloc.c:330-335 | clearing the prefix that a stopped set had added restores every word and reports no conflict |
| Bitmap.SetRange | graphics/lib/genalloc.c:106-129 | the word loop on the array computes the specified words and remainder |
| Bitmap.ClearRange | graphics/lib/genalloc.c:142-165 | likewise for clearing |
| PoolThreads.SetStepEffect | graphics/lib/genalloc.c:67-79 | one atomic step of a setting thread changes nothing or gains one piece that nobody held |
| PoolThreads.ClearStepEffect | graphics/lib/genalloc.c:81-93 | one atomic step of a clearing thread changes nothing or gives up one piece it holds; it never reports a conflict |
| PoolThreads.StepKeeps | graphics/lib/genalloc.c:67-165 | every step of every thread keeps the invariant, for requests below 2^32 bits: each set bit has exactly one owner, a live allocation or an attempt in progress |
| PoolThreads.RunsAreSafe | graphics/lib/genalloc.c:325-336 | in every interleaving of word CAS steps of any number of threads, for requests below 2^32 bits: neither BUG_ON(remain) has fired; a bit is set exactly when a live allocation or an attempt in progress holds it, and no two of these share a bit |
| PoolThreads.QuiescentAvail | graphics/lib/genalloc.c:338-343 | whenever no operation is in flight, avail is the chunk size minus the bytes of the set bits |
| PoolThreads.RollbackIff | graphics/lib/genalloc.c:67-79 | in every run an attempt that has loaded a word next rolls back if and only if some bit of the piece it is at was set when it loaded it; no other conflict is ever reported |
| PoolThreads.AttemptAlone | graphics/lib/genalloc.c:106-129 | an attempt that nobody disturbs takes its range, setting exactly its bits, if the range is clear, and otherwise ends with every word as it was |
| PoolThreads.FreeAlone | graphics/lib/genalloc.c:142-165 | a free that nobody disturbs clears exactly its range if all of it is set, and otherwise reports it |
| PoolThreads.AllocAlone | graphics/lib/genalloc.c:325-343 | a whole undisturbed allocation at any place of the chunk: the region is live, its bits set and its bytes charged if the place is clear, else nothing has changed |
| PoolThreads.FreeCallAlone | graphics/lib/genalloc.c:520-536 | a whole undisturbed free of a region whose bits are set clears exactly them and credits its bytes |
| Search.FindNextZeroArea | graphics/lib/genalloc.c:669-673 | the (aligned) search returns the first aligned place with enough clear bits, or a value from the end on when there is none; for a count of zero it still begins at a clear bit |
| Search.AreaWhileOthersWrite | graphics/lib/genalloc.c:669-703 | whatever the scans read from a bitmap others are changing, a range that is returned lies in the bitmap, and its own last scan found no set bit in it |
| Search.FirstFit | graphics/lib/genalloc.c:669-673 | first fit returns the earliest place that fits, and fails exactly when none does |
| Search.NextLongRun | graphics/lib/genalloc.c:782-797 | the search from the end of a run finds the next maximal run that is long enough, skipping none |
| Search.BestFit | graphics/lib/genalloc.c:776-799 | best fit returns the earliest of the shortest maximal runs that are long enough |
| Search.AlignedAddress | graphics/lib/genalloc.c:688-703 | the bit-level alignment test accepts a bit if and only if its byte address is a multiple of the alignment, for any power of two and a granule-aligned chunk |
| Search.FirstFitAlign | graphics/lib/genalloc.c:688-703 | aligned first fit returns the earliest place that fits and whose address is aligned |
| Pool.Chunk.AvailCovers | graphics/lib/genalloc.c:319-321 | avail is never negative, and a free run of n bits means at least n granules available, so the avail pre-check skips no usable chunk |
| Pool.Find | graphics/lib/genalloc.c:669-703 | a search from the beginning finds exactly the place the policy promises (the earliest, the earliest aligned, the earliest of the shortest runs) and fails exactly when there is none |
| Pool.Chunk.Place | graphics/lib/genalloc.c:330-336 | setting n bits where a policy points takes them, or undoes itself without a trace, or leaves the bitmap, each exactly when it must |
| Pool.Chunk.Try | graphics/lib/genalloc.c:325-337 | the retry loop on one chunk: below 2^32 bits it takes the place the policy promises or there is none; first fit is decided, for every count, by the earliest place for the low 32 bits of the count |
| Pool.GenPool.Alloc | graphics/lib/genalloc.c:299-347 | what is granted is right for every size; below 2^32 bits the call ends, fails only when no chunk has a place, and takes exactly the policy's place in the first chunk that has one; first fit on any size is decided by the first chunk that tempts it |
| Pool.WideRequestSticks | graphics/include/linux/genalloc.h:60-65 | for every size of 2^32 bits and more there is a pool with room to spare on which first fit is still retrying after any number of rounds |
| Pool.GenPool.AddChunk | graphics/lib/genalloc.c:206-229 | the new chunk is the first of the list, all free, with one bit per whole granule |
| Pool.GenPool.Free | graphics/lib/genalloc.c:509-541 | freeing what is held clears exactly its bits and credits avail; neither the range check nor the remainder check can fire |
| Pool.GenPool.HeldInside | graphics/lib/genalloc.c:520-524 | every byte of a held region lies in its chunk |
| Pool.GenPool.AllocThenFree | graphics/lib/genalloc.c:299-347 | allocating and freeing the same size restores every bitmap word and every counter, for every size unless the set leaves the bitmap, which below 2^32 bits it cannot |
| Pool.GenPool.VirtToPhys | graphics/lib/genalloc.c:239-254 | the translation of an address, or -1 when no chunk has it |
| Pool.GenPool.Avail | graphics/lib/genalloc.c:602-613 | the sum of the chunks' counters |
| Pool.TotalAvailJoins | graphics/lib/genalloc.c:602-613 | every chunk's counter is in the total exactly once, wherever it is in the list |
| Pool.TranslateAt | graphics/lib/genalloc.c:239-254 | the chunk that has an address decides its translation wherever it is in the list |
| Pool.TranslateNowhere | graphics/lib/genalloc.c:239-254 | an address has no translation exactly when it lies in no chunk |
| Pool.TranslateInjective | graphics/lib/genalloc.c:239-254 | with disjoint virtual and disjoint physical chunk ranges, distinct bytes of the pool have distinct physical addresses |
| Hgsmi.Heap.BufferAlloc | graphics/drivers/gpu/drm/vboxvideo/vbox_hgsmi.c:47-72 | a buffer is header, data and tail, added up in size_t, taken from the pool, with the data size stored in 32 bits; below 2^32 bits it is granted or there is no room for it |
| Hgsmi.TotalSizeHolds | graphics/drivers/gpu/drm/vboxvideo/vbox_hgsmi.c:55 | what is taken has room for header, data and tail if and only if the sum does not wrap; else not even for header and tail |
| Hgsmi.Heap.RoundTrip | graphics/drivers/gpu/drm/vboxvideo/vbox_hgsmi.c:47-82 | a granted and freed buffer leaves bitmap and avail as they were if and only if its size is below 2^32; below 2^32 bits the call always ends |
| Hgsmi.LostBuffer | graphics/drivers/gpu/drm/vboxvideo/vbox_hgsmi.c:74-82 | the size it fails for: a 4 GiB buffer on a fresh 8 GiB heap is granted, and freeing it does not give its bytes back |
| Hgsmi.TruncatedSize | graphics/drivers/gpu/drm/vboxvideo/vbox_hgsmi.c:74-82 | the bit count recomputed from the header equals the allocated one if and only if the size was not truncated |
| PurgeProtocol.HolderStep | graphics/drivers/gpu/drm/vc4/vc4_gem.c:1370-1395 | what the thread inside a BO's critical section does keeps the BO in order for its next step |
| PurgeProtocol.OtherStep | graphics/lkpi/linux/refcount.h:49-108 | what lock-free steps of other threads do keeps the BO in order for the lock holder |
| PurgeProtocol.StepKeeps | graphics/drivers/gpu/drm/vc4/vc4_bo.c:250-364 | every atomic step of every thread keeps the invariant of the whole system |
| PurgeProtocol.ChangesUnderLock | graphics/drivers/gpu/drm/vc4/vc4_bo.c:627-685 | although the count is changed lock-free, it goes between zero and non-zero only by the thread that holds madv_lock; memory is freed only there, of an unused BO marked DONTNEED |
| PurgeProtocol.UsedIsNeverPurged | graphics/drivers/gpu/drm/vc4/vc4_bo.c:297-317 | in every state of every run a BO with users has its memory and is not purged, and its count covers all references handed out |
| PurgeProtocol.PurgedForGood | graphics/drivers/gpu/drm/vc4/vc4_bo.c:338-355 | once freed, a BO's memory stays freed, nobody gets to use it again, and PURGED is never taken back |
| PurgeProtocol.QuiescentList | graphics/drivers/gpu/drm/vc4/vc4_bo.c:324-362 | whenever no operation is in flight, the purgeable list holds exactly the unused BOs marked DONTNEED, each once, and the counters are off by exactly the removals that found their BO delisted |
| PurgeProtocol.StrayIff | graphics/drivers/gpu/drm/vc4/vc4_bo.c:330-338 | a step of any kind makes the counters drift if and only if it is a removal of a BO that a purger has in hand, between delisting and looking at it, and that nobody has listed again |
| PurgeProtocol.CountersDrift | graphics/drivers/gpu/drm/vc4/vc4_bo.c:330-338 | a concrete run after which the count of the empty pool is -1 |
| PurgeCalls.CallAlone | graphics/drivers/gpu/drm/vc4/vc4_bo.c:319-362 | each call, its thread moving alone on a BO nobody has locked, ends in the state the call is for: inc hands out a reference exactly when the BO is used or marked WILLNEED, dec and madvise list or delist it exactly as it becomes or stops being unused and DONTNEED, a purge turn frees the first BO of the list |
| PurgeCalls.IncAnswers | graphics/drivers/gpu/drm/vc4/vc4_bo.c:627-665 | in every run, whatever others do: a vc4_bo_inc_usecnt that has returned handed out exactly one reference if the count was not zero when it began, or the BO was marked WILLNEED while the call held madv_lock, and else none |
| PurgeCalls.CountRises | graphics/drivers/gpu/drm/vc4/vc4_bo.c:627-665 | from every initial state a run leads to a BO with one user |
| PurgeFree.StepSafeIff | graphics/drivers/gpu/drm/vc4/vc4_bo.c:550-562 | with frees as steps: every step from a safe state keeps the invariant, and the next state is safe exactly when the step was not a free of a BO that a purger has in hand |
| PurgeFree.NoTouchIff | graphics/drivers/gpu/drm/vc4/vc4_bo.c:324-338 | in every run no thread comes to touch a freed BO exactly when no BO is freed while a purger has it in hand |
| PurgeFree.CaughtInHand | graphics/drivers/gpu/drm/vc4/vc4_bo.c:330-338 | a run from the initial state in which it happens: marked DONTNEED, taken off the list, freed, and the purger is about to lock the freed BO |
| BoLabels.MovedOk | graphics/drivers/gpu/drm/vc4/vc4_bo.c:132-159 | moving an object to any label, its own included, or to none keeps every count and 32-bit byte total exact (lost objects, if any, counted under the kernel label), names unique, and a user slot named exactly while in use |
| BoLabels.MovedEntry | graphics/drivers/gpu/drm/vc4/vc4_bo.c:139-147 | the entry of each label is exact after a move, whichever of the two labels it is |
| BoLabels.CreatedOk | graphics/drivers/gpu/drm/vc4/vc4_bo.c:418-422 | accounting a new object under the kernel label keeps all statistics as exact as they were |
| BoLabels.LostOk | graphics/drivers/gpu/drm/drm_gem_dma_helper.c:97-113 | an accounted object freed by the failure exit, with a bare kfree, is one more that the kernel label counts and nothing carries; every other entry stays exact |
| BoLabels.ExactIff | graphics/drivers/gpu/drm/vc4/vc4_bo.c:418-422 | the statistics are exact if and only if no object was ever lost; the kernel label's count and bytes are those of its objects and of the lost ones together |
| BoLabels.ExtendedOk | graphics/drivers/gpu/drm/vc4/vc4_bo.c:113-128 | growing the label array by a new name keeps all statistics as exact as they were |
| BoManager.Manager.GetUserLabel | graphics/drivers/gpu/drm/vc4/vc4_bo.c:90-130 | returns the slot of a name: the one that has it, else an unused one, else a new one; no two slots share a name |
| BoManager.Manager.SetLabel | graphics/drivers/gpu/drm/vc4/vc4_bo.c:132-159 | the label array after moving one object, statement by statement |
| BoManager.Manager.Relabel | graphics/drivers/gpu/drm/vc4/vc4_bo.c:1105-1111 | the object carries the name afterwards, or nothing has changed, exactly when no slot has the name, none is unused and there is no memory for another |
| BoCache.IndexesAgree | graphics/drivers/gpu/drm/vc4/vc4_bo.c:525-545 | an object is on a size list exactly when it is on the time list and has that list's number of pages, and there once |
| BoCache.RemoveOk | graphics/drivers/gpu/drm/vc4/vc4_bo.c:186-193 | removing an object from both lists keeps the size lists equal to the time list restricted to each size, in the same order |
| BoCache.AddOk | graphics/drivers/gpu/drm/vc4/vc4_bo.c:600-606 | putting an object first on both lists keeps them in agreement and the time list sorted by age |
| BoCache.GrowOk | graphics/drivers/gpu/drm/vc4/vc4_bo.c:205-230 | growing the array of size lists keeps every list and the agreement |
| BoCache.FirstIsNewest | graphics/drivers/gpu/drm/vc4/vc4_bo.c:378-383 | the first object of a size list is the most recently cached one of its size |
| BoManager.Manager.CacheListForSize | graphics/drivers/gpu/drm/vc4/vc4_bo.c:195-234 | the list for a size, with the array grown when needed and every old list in its place |
| BoManager.Manager.GetFromCache | graphics/drivers/gpu/drm/vc4/vc4_bo.c:366-391 | returns the most recently cached object of exactly the requested number of pages, or none if and only if there is none |
| BoManager.SweepExact | graphics/drivers/gpu/drm/vc4/vc4_bo.c:525-545 | because the time list is sorted, the sweep from its end removes exactly the expired objects |
| BoManager.Manager.FreeOld | graphics/drivers/gpu/drm/vc4/vc4_bo.c:525-545 | the age sweep leaves the unexpired objects and destroys the others |
| BoManager.Manager.CachePurge | graphics/drivers/gpu/drm/vc4/vc4_bo.c:236-248 | every cached object is destroyed, nothing else changes |
| BoManager.Manager.FreeObject | graphics/drivers/gpu/drm/vc4/vc4_bo.c:550-614 | the released object is cached exactly when its memory is its own and present, it has no public name and its list can be had, else destroyed; lists and pool stay exact, statistics as exact as they were |
| BoManager.Manager.BoCreate | graphics/drivers/gpu/drm/vc4/vc4_bo.c:429-496 | for every outcome of its three attempts: an object of the wanted type from the cache or from DMA memory; a cache hit has the requested size if and only if the request is below 2^32; objects others hold change only by being purged, failed attempts leave no object; exact label statistics stay exact if and only if no attempt made failed to initialize its object, and else drift by one object of that size for each |
| BoManager.Manager.DmaCreate | graphics/drivers/gpu/drm/drm_gem_dma_helper.c:134-170 | one attempt at each of its failure points: nothing; an object lost to the statistics; an object freed again; or an object with memory under the kernel label |
| BoManager.AttemptsGiveUp | graphics/drivers/gpu/drm/vc4/vc4_bo.c:451-475 | what three attempts cost: the kernel's cache is destroyed exactly after the first failure, the purgeable objects purged exactly after the second, everything else stays; the object made is the last one |
| BoManager.NoFailures | graphics/drivers/gpu/drm/vc4/vc4_bo.c:451-475 | none of the attempts made fails to initialize its object exactly when each one that would comes after one that goes well |
| BoManager.LostObject | graphics/drivers/gpu/drm/drm_gem_dma_helper.c:97-113 | a create of one page on a new device that fails with no object alive and the kernel label counting one of a page |
| BoManager.Manager.CreateForUser | graphics/drivers/gpu/drm/vc4/vc4_bo.c:498-523 | an object userspace may mark purgeable, or an error and no new object alive |
| BoManager.Manager.PrimeImport | graphics/drivers/gpu/drm/drm_gem_dma_helper.c:488-511 | an object over foreign memory under the kernel label, or nothing alive and one more lost when it cannot be initialized |
| BoManager.TruncatedHit | graphics/drivers/gpu/drm/vc4/vc4_bo.c:366-383 | the request it fails for: with one page in the cache, 4 GiB and a page is answered with that page |
| BoManager.Manager.IncUsecnt | graphics/drivers/gpu/drm/vc4/vc4_bo.c:627-665 | an object out of use can be used exactly while it is marked WILLNEED |
| BoManager.Manager.DecUsecnt | graphics/drivers/gpu/drm/vc4/vc4_bo.c:667-685 | the last user of an object marked DONTNEED leaves it on the purgeable list |
| BoManager.Manager.Madvise | graphics/drivers/gpu/drm/vc4/vc4_gem.c:1323-1403 | the error cases, the new state, and retained if and only if not purged; the list follows |
| BoManager.Manager.UserspaceCachePurge | graphics/drivers/gpu/drm/vc4/vc4_bo.c:319-364 | every purgeable object is purged, nothing else changes, and the purge counters grow by the pool's |
| BoPool.PoolChange | graphics/drivers/gpu/drm/vc4/vc4_bo.c:250-295 | an object joins or leaves the pool exactly when it becomes or stops being an unused DONTNEED one; count and byte total follow |
| BoPool.NeverOnBoth | graphics/drivers/gpu/drm/vc4/vc4_bo.c:276-283 | the shared list node is never on the purgeable list and a size list at once |
| Reservations.Job.LockBoReservations | graphics/drivers/gpu/drm/vc4/vc4_gem.c:604-672 | all or nothing, for every list, every sequence of deadlock back-offs and every error: on success each listed reservation is held and none is listed twice, on failure none is held; a deadlock is never the result, and each failure has its cause: an interrupted call, a repeated entry, or no room for a fence |
| Reservations.PassesCause | graphics/drivers/gpu/drm/vc4/vc4_gem.c:616-659 | for every list and every sequence of answers the retry loop ends locked, interrupted at its last call, or at an entry listed twice, never in a deadlock |
| Reservations.DistinctSucceeds | graphics/drivers/gpu/drm/vc4/vc4_gem.c:644-647 | however many deadlocks come first, a list without repeated entries is locked once every lock is granted, unless a call was interrupted before |
| Reservations.Job.BackOff | graphics/drivers/gpu/drm/vc4/vc4_gem.c:632-649 | the unwinding releases everything held, whether the contended entry lies before or after the failing one |
| Jobs.SkippedIsLongestRun | graphics/drivers/gpu/drm/vc4/vc4_gem.c:486-517 | the jobs passed on without the binner are the longest run at the head that needs no binner under one performance monitor |
| Jobs.Queue.SubmitNextBinJob | graphics/drivers/gpu/drm/vc4/vc4_gem.c:474-517 | the loop ends, moves exactly that run to the render list, and starts the binner exactly at a job that uses it |
| Jobs.Queue.QueueSubmit | graphics/drivers/gpu/drm/vc4/vc4_gem.c:684-733 | the job gets the next sequence number behind all others; all lists together stay in submission order; it is started exactly when no bin job is before it and the renderer is idle or under the same performance monitor |
| Jobs.InFlightIncreases | graphics/drivers/gpu/drm/vc4/vc4_gem.c:543-555 | render list followed by bin list is strictly increasing in sequence number, above the finished one |
| Jobs.ExactlyOnce | graphics/drivers/gpu/drm/vc4/vc4_gem.c:1008-1031 | every callback ever queued is waiting or was scheduled, exactly once in all, and one whose number has not finished is still waiting |
| Jobs.Queue.QueueSeqnoCb | graphics/drivers/gpu/drm/vc4/vc4_gem.c:1008-1031 | a callback is queued while its number is ahead, else scheduled at once |
| Jobs.Queue.HandleCompleted | graphics/drivers/gpu/drm/vc4/vc4_gem.c:970-999 | whatever happens while the lock is dropped: all finished jobs are freed in order, and no due callback stays queued; with nothing happening exactly the done list is freed and exactly what is due is scheduled |
| Vbva.AvailableIsFree | graphics/drivers/gpu/drm/vboxvideo/vbva_base.c:22-27 | the room reported is everything that is not unread, an empty ring offering all of it, if and only if the distance of the offsets fits a signed 32-bit number |
| Vbva.PlaceAppends | graphics/drivers/gpu/drm/vboxvideo/vbva_base.c:29-45 | placing entries at the write position, with wrap-around, appends to the queue and leaves unread entries alone |
| Vbva.Ring.PlaceDataAt | graphics/drivers/gpu/drm/vboxvideo/vbva_base.c:29-45 | the bytes land from the offset on, wrapping at the end, and nothing else changes |
| Vbva.Ring.HostTurn | graphics/drivers/gpu/drm/vboxvideo/vboxvideo.h:63-78 | what the host may do: set or clear the mode-enabled event, take unread bytes in order, retire complete records |
| Vbva.Ring.Write | graphics/drivers/gpu/drm/vboxvideo/vbva_base.c:61-105 | for every host schedule the write ends, and the ring is a FIFO byte queue: what was fetched followed by what is unread is the old queue followed by the bytes that were written, also when the write gives up; the record counts exactly those bytes; how far it gets is what the schedule allows (GivesUpIff, DrainedWrites, SilentWrites) |
| Vbva.GivesUpIff | graphics/drivers/gpu/drm/vboxvideo/vbva_base.c:77-88 | for every write and schedule: it succeeds, with every byte, if and only if after each of its flushes the rest fits or more than the threshold is free; if not, it gives up at the last of them |
| Vbva.FittingWrites | graphics/drivers/gpu/drm/vboxvideo/vbva_base.c:73-88 | what fits strictly is written without a flush |
| Vbva.DrainedWrites | graphics/drivers/gpu/drm/vboxvideo/vbva_base.c:77-88 | a host that empties the ring at every flush lets a write of any length through, into any ring larger than the threshold |
| Vbva.SilentWrites | graphics/drivers/gpu/drm/vboxvideo/vbva_base.c:77-88 | against a host that never moves a write that does not fit stops with exactly the threshold left free, or at once when no more than that is free |
| Vbva.Ring.WriteRound | graphics/drivers/gpu/drm/vboxvideo/vbva_base.c:73-102 | one round writes a chunk that leaves the ring short of looking empty, or sets the overflow flag and writes none |
| Vbva.Ring.FlushAndLook | graphics/drivers/gpu/drm/vboxvideo/vbva_base.c:74-80 | a snapshot of the room, stale by the time it is used, only errs on the safe side |
| Vbva.Ring.BeginUpdate | graphics/drivers/gpu/drm/vboxvideo/vbva_base.c:164-193 | it succeeds exactly when the host has enabled the ring and a slot is free, or becomes free at the flush that it makes only when all are in use; the new record is appended, never over an unretired one |
| Vbva.KeptMakesRoom | graphics/drivers/gpu/drm/vboxvideo/vbva_base.c:176-183 | a flush makes room in a full record queue exactly when the host retires then and the oldest record is complete |
| Vbva.Ring.EndUpdate | graphics/drivers/gpu/drm/vboxvideo/vbva_base.c:195-207 | the published length equals the bytes written if and only if that is below 2 GB |
| Vbva.LongRecord | graphics/drivers/gpu/drm/vboxvideo/vbva_base.c:195-207 | the record it fails for: 2 GB written in two halves are published as another length |
| Component.StepKeeps | graphics/lkpi/lkpi_component.c:76-120 | every call of the interface, whatever the callbacks answer, keeps the invariant |
| Component.CallbacksAlternate | graphics/lkpi/lkpi_component.c:177-257 | over every run of calls, with failing binds and retries: the callbacks of each registration alternate bind, unbind; the bound flag tells which comes next; component_del passes unbind the arguments of its bind; nothing stays bound after its registration |
| Component.UnbindBetween | graphics/lkpi/lkpi_component.c:190-224 | in an alternating log two binds of one registration have an unbind between them |
| Component.ReleaseFaithfulIff | graphics/lkpi/lkpi_component.c:229-241 | an unbind by component_unbind_all gets the arguments of its bind if and only if the caller is the master, with the data, that bound it |
| Component.UnbindRestFaithfulIff | graphics/lkpi/lkpi_component.c:246-256 | without a match list all unbinds do if and only if every bound component was bound by this caller |
| Component.UnbindMatchFaithful | graphics/lkpi/lkpi_component.c:229-244 | along any match list they do if and only if every component that is unbound was bound by this caller |
| Component.UnbindMatchReaches | graphics/lkpi/lkpi_component.c:229-244 | a list that names each device once unbinds exactly the first bound component of each listed device |
| Component.UnbindMatchFaithfulIff | graphics/lkpi/lkpi_component.c:229-244 | along such a list all unbinds get the arguments of their bind if and only if the first bound component of every listed device was bound by this caller |
| Component.ForeignUnbind | graphics/lkpi/lkpi_component.c:246-256 | a run in which another master's component is unbound with foreign arguments: added, bound by one master, unbound by another |
| ComponentLeaves.DeletedForGood | graphics/lkpi/lkpi_component.c:103-120 | in every run component_del leaves one registration of the device and ops fewer, bound or not, if there was one, and no later event is about the one that left |
| ComponentLeaves.GoneForGood | graphics/lkpi/lkpi_component.c:177-257 | a registration that has left is never heard of again, whatever calls come |
| ComponentLeaves.DelLeaves | graphics/lkpi/lkpi_component.c:103-120 | the one that leaves is the first match; the others keep their order and bindings |
| ComponentLeaves.MasterLeaves | graphics/lkpi/lkpi_component.c:397-423 | the first such master leaves, the others and every binding stay |
| ComponentLeaves.BindRestTries | graphics/lkpi/lkpi_component.c:190-215 | without a match list every unbound component is tried in order: success exactly when none is left unbound, else it stops at the first that refuses, those before it bound |
| ComponentLeaves.UnbindRestReverses | graphics/lkpi/lkpi_component.c:246-256 | without a match list every bound component is unbound, with the caller's arguments, last registered first, and no other callback is made |
| ComponentRegistry.Registry.ComponentBindAll | graphics/lkpi/lkpi_component.c:177-215 | the loops over match entries and components do exactly what the specification function says |
| ComponentRegistry.Registry.ComponentUnbindAll | graphics/lkpi/lkpi_component.c:222-257 | likewise, backwards |
| ComponentRegistry.Registry.MatchComplete | graphics/lkpi/lkpi_component.c:292-321 | true exactly when every entry has a registered component |
| ComponentRegistry.Registry.TryBindMasters | graphics/lkpi/lkpi_component.c:323-346 | every unbound master with a bind callback and a complete list is tried, in order |
| ComponentRegistry.Registry.MasterBind | graphics/drivers/gpu/drm/vc4/vc4_drv.c:308-452 | what vc4_drm_bind does to the framework, for each point where it can fail |
| ComponentRegistry.Registry.ComponentAdd | graphics/lkpi/lkpi_component.c:76-101 | the error cases, and the registered component followed by an attempt on all masters |
| ComponentRegistry.Registry.ComponentDel | graphics/lkpi/lkpi_component.c:103-120 | the first registration with this device and ops leaves, unbound with its recorded arguments |
| ComponentRegistry.Registry.MasterAddWithMatch | graphics/lkpi/lkpi_component.c:348-395 | the error cases, and the registered master followed by an attempt on all masters |
| ComponentRegistry.Registry.ComponentMasterDel | graphics/lkpi/lkpi_component.c:397-423 | the first such master leaves, its unbind callback called if it was bound |
| ComponentOrder.BindFrom | graphics/lkpi/lkpi_component.c:201-213 | on a complete list, component_bind_all picks up where the bound prefix ends, keeps it a prefix whatever fails, and succeeds only when all of it is bound |
| ComponentOrder.BoundInMatchOrder | graphics/lkpi/lkpi_component.c:138-164 | in every run of registrations, whatever fails: the components bound to a master are a prefix of its match list, bound in list order and undone from the end |
| ComponentOrder.AttemptEnds | graphics/drivers/gpu/drm/vc4/vc4_drv.c:421-452 | an attempt on a ready master ends at a refusal, or with its whole list bound (also when it fails late), or with nothing bound when the unbind action cannot be registered, or with nothing changed |
| ComponentOrder.SettledMeans | graphics/lkpi/lkpi_component.c:323-346 | when no callback fails, a master is bound exactly when every device of its list was registered, and then exactly its list is bound to it in list order |
| ComponentOrder.OrderIrrelevant | graphics/lkpi/lkpi_component.c:93-99 | two runs that make the same registrations in any two orders end with the same masters and components bound and the same bind order |
| ComponentOrder.UnbindReplays | graphics/lkpi/lkpi_component.c:228-244 | unbinding along a list whose first k entries are bound undoes exactly those, last first |
| ComponentOrder.UnbindReversesRun | graphics/lkpi/lkpi_component.c:217-244 | at any point of a run of registrations, component_unbind_all on a registered master replays the bind order exactly reversed and leaves nothing of its list bound |
| ComponentOrder.SmoothRunOnlyBinds | graphics/lkpi/lkpi_component.c:323-346 | a run of registrations in which no callback fails makes no unbind |
| Platform.Registry.FindByDriver | graphics/lkpi/lkpi_platform.c:91-117 | the iterator finds the first entry of the driver after the first entry of the given device |
| Platform.Registry.Unregister | graphics/lkpi/lkpi_platform.c:63-78 | the first entry of the device leaves, the others stay in order |
| Platform.LoopEndsIff | graphics/drivers/gpu/drm/vc4/vc4_drv.c:286-289 | the loop over a driver's devices ends if and only if none of the driver's entries repeats a device registered before |
| Platform.DistinctEnds | graphics/drivers/gpu/drm/vc4/vc4_drv.c:286-289 | on a registry without duplicates the loop over every driver ends |
| Platform.TwiceRegistered | graphics/drivers/gpu/drm/vc4/vc4_drv.c:286-289 | a registry it fails for: a device registered twice with its driver makes the loop endless |
| Platform.Registry.MatchAddDrivers | graphics/drivers/gpu/drm/vc4/vc4_drv.c:265-291 | the match list: for each driver in table order its devices in registration order; no list at all when there are none |
| Platform.MatchListGrouped | graphics/drivers/gpu/drm/vc4/vc4_drv.c:497-512 | for every duplicate-free registry the match list names each device of a listed driver once and nothing else, in table order |
| Vc4Bind.Device.SetCrtcPossibleMasks | graphics/drivers/gpu/drm/vc4/vc4_crtc.c:1373-1397 | every non-virtual encoder whose type is in the table gets the CRTC's bit and the first matching clock select; others are unchanged |
| Vc4Bind.MasksExact | graphics/drivers/gpu/drm/vc4/vc4_crtc.c:1373-1397 | for every bind order, an encoder's bits are exactly the CRTCs bound after it whose table has its type |
| Vc4Bind.MaskBit | graphics/drivers/gpu/drm/vc4/vc4_crtc.c:1384-1394 | the same for one encoder and one CRTC, through the index the CRTC was given |
| Vc4Bind.ClockExact | graphics/drivers/gpu/drm/vc4/vc4_crtc.c:1384-1394 | for every bind order an encoder's clock is selected by the last CRTC connected to it, at the first position of its type in that CRTC's table |
| Vc4Bind.RolesInOrder | graphics/drivers/gpu/drm/vc4/vc4_drv.c:497-501 | in the match list every HVS comes before every HDMI and every HDMI before every CRTC |
| Vc4Bind.DrmIsBindSeq | graphics/drivers/gpu/drm/vc4/vc4_crtc.c:1373-1397 | the device as the bind callbacks of a log leave it is the one built from the devices they bound, in log order |
| Vc4Bind.EveryProbeOrderConnects | graphics/drivers/gpu/drm/vc4/vc4_drv.c:504-512 | end to end: for every duplicate-free registry and every registration order, the bind callbacks in the run's log follow the match list, and the device they leave has a CRTC's bit in possible_crtcs exactly when the encoder's type is in its table |
| Shmem.Object.FetchPages | graphics/drm_shmem_helpers/drm_shmem_helpers_freebsd.c:52-84 | one reference on every backing page, or, with the unwinding done by hand, none |
| Shmem.Object.DropPages | graphics/drm_shmem_helpers/drm_shmem_helpers_freebsd.c:87-109 | every reference is dropped exactly once, pages marked dirty first if asked |
| Shmem.Object.GetPages | graphics/drivers/gpu/drm/drm_gem_shmem_helper.c:190-221 | it succeeds exactly when the pages are there or can all be taken; then the count goes up by one, else nothing changes |
| Shmem.Object.PutPages | graphics/drivers/gpu/drm/drm_gem_shmem_helper.c:229-250 | it warns exactly when there is nothing to put; else the count goes down by one, and with the last holder the pages go, marked dirty exactly if asked |
| Shmem.Object.Pin | graphics/drivers/gpu/drm/drm_gem_shmem_helper.c:285-299 | a new holder, or the object as it was |
| Shmem.Object.Unpin | graphics/drivers/gpu/drm/drm_gem_shmem_helper.c:309-318 | a holder less; with the last one the pages go |
| Shmem.Object.Madvise | graphics/drivers/gpu/drm/drm_gem_shmem_helper.c:453-463 | a purged object stays purged; retained exactly when it is not |
| Shmem.Object.Vmap | graphics/drivers/gpu/drm/drm_gem_shmem_helper.c:336-388 | it succeeds exactly when a mapping exists, or the pages can be had and mapped; then it counts as one holder, else the object is as it was |
| Shmem.Object.Vunmap | graphics/drivers/gpu/drm/drm_gem_shmem_helper.c:403-424 | it warns exactly when there is no mapping; else the mapping goes with its last user |
| Shmem.Object.Mmap | graphics/drivers/gpu/drm/drm_gem_shmem_helper.c:671-722 | a new mapping is a new holder, or the object is as it was |
| Shmem.Object.VmOpen | graphics/drivers/gpu/drm/drm_gem_shmem_helper.c:619-639 | a copied mapping is one more holder; the warning never fires |
| Shmem.Object.VmClose | graphics/drivers/gpu/drm/drm_gem_shmem_helper.c:641-651 | a closed mapping is one holder less |
| Shmem.Object.Fault | graphics/drivers/gpu/drm/drm_gem_shmem_helper.c:561-617 | the page of the offset, or a fault exactly when it is out of range or the object was purged |
| Shmem.Object.GetPagesSgt | graphics/drivers/gpu/drm/drm_gem_shmem_helper.c:767-802 | the table exists and counts as one holder, or the object is as it was, at each of its failure points |
| Shmem.Object.Purge | graphics/drivers/gpu/drm/drm_gem_shmem_helper.c:466-482 | the table goes with its hold on the pages; other holders keep theirs |
| Shmem.Object.Free | graphics/drivers/gpu/drm/drm_gem_shmem_helper.c:160-187 | the warnings tell exactly of a kernel mapping and of more than one holder; the table is gone, no put finds nothing to put, and no backing page keeps a reference exactly when there was at most one holder |
| Rational.LowestTerms | graphics/include/linux/rational.h:33-58 | dividing by the greatest common divisor gives a coprime pair that cross-multiplies exactly |
| Rational.Expand | graphics/include/linux/rational.h:39-57 | one round of the expansion: what it keeps, and that no product or sum exceeds the given numerator or denominator |
| Rational.StepBound | graphics/include/linux/rational.h:49-53 | a convergent that breaks a bound means the reduced fraction breaks it |
| Rational.BestApproximation | graphics/include/linux/rational.h:25-59 | for every input the loop ends without overflow, within the bounds (or the start value 1/0), returns the given fraction in lowest terms exactly when both of its parts are within the bounds, and else what the expansion stopped at |
| Rational.NoneNearer | graphics/include/linux/rational.h:39-57 | between two neighbouring convergents no fraction with a smaller numerator or a smaller denominator than the next one's has a smaller distance N·y − x·D than the last one |
| Rational.WorthAt | graphics/include/linux/rational.h:46-53 | a numerator stop returns the last convergent, which no fraction within the numerator bound beats; a denominator stop returns the next numerator over the last denominator, never nearer than the last convergent and as near only in a tie |
| Rational.NearestIff | graphics/include/linux/rational.h:17-23 | for every input the result is a best approximation of the second kind within the bounds if and only if the denominator bound did not stop the expansion, or left no choice, or ties |
| Rational.TwoCandidates | graphics/include/linux/rational.h:39-57 | every fraction within the bounds is no closer than the last convergent or than the last fraction between it and the next that fits |
| Rational.OwnSizeIff | graphics/include/linux/rational.h:17-23 | for every input the result is the closest, in ordinary distance, of the fractions with no larger denominator if and only if it is a best approximation of the second kind |
| Rational.ClosestIff | graphics/include/linux/rational.h:17-23 | for every input, from the numbers of the last round: the result is the closest fraction within the bounds if and only if the expansion came to its end, or no fraction between the last convergent and the next that fits is closer and, at a denominator stop, the returned fraction is the last convergent or ties |
| Rational.NotTheClosest | graphics/include/linux/rational.h:49-53 | inputs where it is not: 22/7 with denominators up to 6, 1/3 with denominators up to 2, 22/7 with numerators up to 21 |
| DeviceTree.PeerIsAfter | graphics/lkpi/lkpi_of.c:158-162 | walking up from a last sibling arrives where the parent's subtree ends; a peer follows its elder sibling's subtree |
| DeviceTree.NextNode | graphics/lkpi/lkpi_of.c:149-164 | the next handle in preorder, 0 after the last |
| DeviceTree.Enumerate | graphics/lkpi/lkpi_of.c:149-164 | iterating from 0 visits every node of any finite tree exactly once, in preorder, and stops |
| DeviceTree.FindCompatible | graphics/lkpi/lkpi_of.c:178-207 | the first compatible node after the given one in preorder |
| DeviceTree.FindMatching | graphics/lkpi/lkpi_of.c:213-249 | the first node after the given one that a match table names, with the first entry that names it |
| DeviceTree.FindAll | graphics/lkpi/lkpi_of.c:166-207 | repeated calls return exactly the compatible nodes, in preorder |

## Left out

- Pool allocator: progress of the lock-free loops (the source itself admits livelock, graphics/lib/genalloc.c:8-13); stated are safety, and what an operation comes to when its thread moves alone. NUMA nodes, owner pointers, destruction, and the fixed and order-aligned policies are not modelled.
- PoolThreads.RunsAreSafe: one chunk with a fixed size, and requests below 2^32 bits; a search appears as any place whose range lies in the chunk, which covers what a policy may return from a bitmap that others are changing.
- Pool.GenPool.Alloc: what a set that leaves the bitmap writes to is not modelled; how a search that is not first fit goes on after a wide request met a conflict is left open.
- Search: `find_next_bit`, `find_next_zero_bit` and `bitmap_find_next_zero_area_off` are not in the repository; they are written here with their usual meaning.
- Pool.BitsFor: `size + granule - 1` wraps in the source within one granule of 2^64 bytes, which is not modelled.
- Hgsmi.Heap.RoundTrip: sizes whose sum with header and tail wraps, for which what is granted is not a buffer, are excluded; header contents other than the size, and the checksum, are not modelled.
- PurgeProtocol.QuiescentList: states the counters up to the drift, since the exact claim is false (CountersDrift). Saturation of the reference count is not modelled.
- PurgeFree.NoTouchIff: a free is one step, made when no call on the BO is in progress but a purger's; whether the BO is then cached or destroyed is told by BoManager, and creation during a run is not modelled.
- BoManager.Manager.CacheListForSize: sizes above 4 TiB are excluded, where the 32-bit page index and the doubling of the array would have to be followed past what any machine can allocate.
- BoManager.Manager.BoCreate: no DMA allocation above 4 TiB succeeds.
- BoManager.Manager.CreateForUser: the binner buffer taken before, the contents of a shader and its validation are not modelled; naming an object (`GiveName`) stands for what is done by code that is not in the repository.
- BoManager.Manager.FreeObject: each operation is one step here; jiffies do not wrap, label counts do not reach 2^32 objects, and the driver generation checks, shader data, zeroing and printing are not modelled.
- Reservations.Job.LockBoReservations: a run has finitely many lock calls before one is interrupted; that the wound/wait protocol itself makes progress is not stated. The later failure exits of the submit ioctl, which do not unlock, are outside the model.
- Jobs.Queue.HandleCompleted: the interrupt handlers are not in the repository and appear as steps that move the head of a list and may start the next bin job; register writes, hang detection, fences and buffer sequence numbers are not modelled, and sequence numbers do not wrap at 2^64.
- Vbva.Ring.Write: a ring holds at most 2 GB of data, as its documentation says; the notification of the host is a chance for it to act; enabling and disabling are only the initial state.
- Component.CallbacksAlternate: callbacks do not call back into the framework, and a master's bind callback is vc4's: something that may fail, component_bind_all, the registration of the unbind action, something that may fail.
- Component: entries compare devices, the only comparison the repository uses; a match entry that cannot be allocated is silently dropped by the source and not modelled. Unwinding by component_bind_all after a failure, and unbinding along the match list after the master is removed, are not done by the source.
- ComponentOrder.BoundInMatchOrder: one component per device, and match lists that name each device once and share none, in runs that only register.
- Vc4Bind.EveryProbeOrderConnects: of the bind callbacks only the registration of encoders and CRTCs is modelled, and the encoders of the HDMI driver are not virtual, as in the source.
- Shmem.Object.Fault: page counts are unbounded; the source takes the pages through an unsigned int and compares a fault's offset with the 64-bit count, which differ from 2^32 pages on.
- Shmem.Object.Purge: requires what drm_gem_shmem_is_purgeable tests, since the source uses the table it then gives up.
- Shmem: imported and private objects other than their missing backing file, dma-buf export, caching attributes and the truncation of a purged object's backing store are not modelled; use counts do not wrap.
- DeviceTree.FindCompatible: the device-to-node registry and property parsing are not modelled.
- Kernel plumbing, stub headers, TTM, the atomic core, debug output and device attach code are not modelled.
