# Emu68-common: the hard parts, proved

Emu68-common is the freestanding C and 68k assembly library that drivers for Emu68 (a 68k
JIT on a Raspberry Pi) are built on. This project models its hardest code in Dafny and
proves, over all inputs, all runs and all interleavings, what that code is for:

* **Memory primitives** (`Machine`, `BusModel`, `Memmove`, `Memcpy`, `Memset`, `Memcmp`): the
  assembly routines register by register, with 32-bit wrap-around, 64-byte `movem.l` blocks,
  the saved long and the overlapping last store, against byte-by-byte specifications.
* **DMA memory** (`ExecMemory`, `RegionPool`, `RegionPoolProofs`, `RegionPoolBytes`,
  `RegionPoolPolicy`, `DmaPool`, `DmaLayout`, `DmaBuffers`, `DmaRegions`, `Slab`): Exec's first-fit lists written out and proved, the
  two-level region pool on top, aligned buffers with their header words, and slabs.
* **Cache protocol** (`Coherence`, `CacheUnit`, `DmaTransfer`, `DmaEndToEnd`): RAM, a
  write-back cache that evicts and prefetches as it likes, and a device behind its back.
  The end-to-end result is `DmaEndToEnd.BufferTransfer`: after any run of the allocator, a
  batch of transfers on buffers it gave out looks to the CPU like plain memory in which the
  device's writes and everybody's stores to any other byte simply happened.
* **Wait queue, driver tasks, reset guard** (`WaitQueue`, `DriverTask`, `ResetGuard`): step
  machines over any number of participants, with invariants of every run.
* **Formatter and settings parser** (`TextFormat`, `TextEngine`, `PrefsNumber`, `PrefsSplit`,
  `TextMeaning`, `RoundTrip`): the printf engine against a denotation of format strings, what
  that denotation prints for every conversion, the in-place line splitter, the overflow-exact
  number reader, and the round trip through all three.
* **Address translation** (`DeviceTree`) and the **streaming tag search** (`TagScan`).

`dafny verify dfyconfig.toml` checks the whole project.

## How to read it

Loops and updates in the source are methods with loops or classes with fields here; each is
proved against a function or a predicate, and the lemmas say what that function means.
A protocol is a `Sys` (or `Store`, `Line`) value with an `Event` datatype, `Enabled`, `Next`
and `Reach`; its theorems quantify over every event sequence that `Reach` accepts.

Modelling choices:

* Registers and `ULONG` arithmetic wrap at 2^32 where it can matter; a register that points
  past the last byte of the address space is zero (`Machine.Register`).
* `& ~(align - 1)` is rounding down to a multiple of a power of two (`DmaLayout.MaskDown`).
* A memory header is its list of free chunks; the chunk nodes, which Exec keeps inside the
  free memory itself, are not memory words. `Forbid()` makes a pool call one step.
* In the wait queue the guarded state is the truth of each waiter's predicate, which a
  state-changer that owns the lock replaces at will. Whether it wakes the waiters before it
  lets the lock go is a parameter. The timer is running, replied or collected.
* A reset guard's install and remove are single steps that may come at any moment, in the
  middle of a reset too. `SetFunction()` swaps the vector and returns the old one.
* No memory header lies at address 0, which `Allocate()` could not return.
* The formatter's argument cells and the strings they point to are total functions. Width,
  precision and length are unbounded integers: in C a width beyond a `LONG` is undefined.
* Device-tree properties are given as their cells; a missing property is `None`.

Where the code does not do what a reader of its comments would expect, the model follows the
code, and the exact condition is proved:

* `memmove` upwards, `memcpy` and `memset` with a region that ends on the last byte of the
  address space: the pointer has wrapped to zero when the long loop should stop. The loop
  stops inside the region exactly when `Memmove.TopHazard` or `BusModel.LoneTopLong` is false
  (`Memmove.WalkStopsIffNoHazard`, `BusModel.LongsStopIff`).
* `dma_alloc` with a size near 2^32 wraps and returns a buffer its block cannot hold; it fits
  exactly when the request is `Representable` (`DmaLayout.FitsIffRepresentable`).
* `dma_addr_reachable` on a context without regions answers by the address being above Chip
  RAM, although its comment promises FALSE (`DmaRegions.AddrReachable`).
* `drv_task_join` signals through the slot after testing it: its next statement faults exactly
  when that is the `Signal()` and the slot is clear (`DriverTask.JoinFaultsIff`), which no run
  comes to exactly when no task quits on its own or the joiner, under `Forbid()`, lets none run
  in between (`DriverTask.JoinIsSafeIff`).
* `drv_wake_up_all` has to be called under the lock: no wake-up is lost in any run exactly when
  every state-changer does so before it lets the lock go (`WaitQueue.NoLostWakeUp`).
* `check_ours` finds every occurrence exactly for `Searchable` tags, a wider class than the one
  its comment asks for (`TagScan.ExactIffSearchable`).
* `dt_map` wraps 64 bits for some records: the result is the true translation exactly when it
  stays within 64 bits (`DeviceTree.ThroughIsExactIff`, at an input: `WrappingRecord`).
* `DT_GetDmaWindow` does not cut the window off where its target side passes 4 GB: every buffer
  inside it translates by the one offset exactly when that side fits
  (`DeviceTree.WindowTranslates`, at an input: `UnclippedWindow`). With overlapping records a
  later lookup may disagree with the window; all of them agree exactly when one lookup per
  record does, of the part of the window it meets (`DeviceTree.WindowAgreesIff`, at an input:
  `OverlapBreaksWindow`). For an empty property the window ends at 0xFFFFFFFF, not at 0 as the
  comment says.
* `DT_GetBaseAddressVirtual` tests the record's end by a 32-bit product: a test that has passed
  means the record is there exactly when that end is below 2^32
  (`DeviceTree.RegTestIsExactIff`, at an input: `RegTestWraps`).
* The window loop of `dma_mem_init` ends exactly when a record has cells
  (`DmaRegions.LoopEndsIff`).
* `slab_cache_init` rounds an object size near 2^32 to zero (`Slab.ObjectSizeIffFits`), and
  `slab_grow` asks for a 32-bit product that holds the slots exactly when it does not wrap
  (`Slab.SlotsFitIff`).
* `reset_guard_install` and `reset_guard_remove` do not look whether a reset is under way. An
  event keeps every ColdReboot on the chain it was called on exactly when it does not take away
  the code one is going to next, and does not install anew, with another saved vector, the
  guard one is in (`ResetGuard.OnTrackIff`, over runs `RunOnTrackIff`). In any run a ColdReboot
  that is left to run ends if there is code where it is going and crashes if there is none
  (`ResetGuard.RebootEnds`).
* `prepare()` runs at most once for a guard that is installed once, in every run
  (`ResetGuard.InstalledOnceRunsOnce`). A guard installed again in the middle of a call can run
  it twice (`ReinstalledCanRunTwice`); an event keeps the callers apart exactly when it does not
  do that (`SingleIff`).
* The reset vector runs the guards last in, first out; the header speaks of install order.

## Model

| member | source | states |
|---|---|---|
| Memmove.Move | src/memmove_movem.S:51-197 | for every n, overlap and alignment the destination holds the old source, no other byte changes, nothing outside the source is read, and dst is returned |
| Memmove.UpLongs | src/memmove_movem.S:75-84 | the long loop and the saved last long complete the copy from any point on, though the loop stops up to 4 bytes short or past |
| Memmove.UpBlocks | src/memmove_movem.S:103-129 | whole 64-byte blocks through registers, then the remainder, complete the copy |
| Memmove.DownLongs | src/memmove_movem.S:138-155 | the downward long loop and the saved first long complete the copy |
| Memmove.DownBlocks | src/memmove_movem.S:168-197 | the downward block loop and the remainder complete the copy when dst lies inside the source |
| Memmove.WalkStopsIffNoHazard | src/memmove_movem.S:70-129 | the upward walk stops inside the source if and only if the source is not one that ends at 2^32 with length 4 or a multiple of 64; otherwise the next read is from address 0 |
| BusModel.CarryBlocks | src/memcpy_movem.S:71-83 | the shared block loop copies exactly the whole blocks and leaves both pointers behind them, modulo 2^32 |
| BusModel.LongsStopIff | src/memcpy_movem.S:46-56 | a long loop that tests after each round stops inside its region if and only if the region is not the single top long |
| Memcpy.Copy | src/memcpy_movem.S:39-93 | on disjoint regions, equal to the byte copy for every n, reading only the source |
| Memcpy.CopyBlocks | src/memcpy_movem.S:71-93 | blocks plus the 64-byte block ending at n, at an address computed through a wrapped negative offset, cover exactly n bytes |
| Memset.Fill | src/memset_movem.S:29-85 | every byte of the region becomes the low byte of the argument and no other byte changes, for every n |
| Memset.BroadcastFillsLanes | src/memset_movem.S:32-34 | the multiplication puts the byte into all four lanes and does not overflow |
| Memcmp.Compare | src/memory.c:52-84 | the result is the byte-by-byte difference whether or not the longword path is taken |
| Memcmp.DifferenceIsAtFirst | src/memory.c:52-84 | that difference is zero exactly on equal regions, else taken at the first differing byte, and antisymmetric |
| WaitQueue.NextKeepsInv | src/drv_waitq.c:25-109 | every statement of any task, every wake-up, every timer reply keeps the invariant, whether or not state-changers wake the waiters |
| WaitQueue.EveryRunKeepsInv | src/drv_waitq.c:25-109 | the invariant holds after every run of any number of waiters and state-changers |
| WaitQueue.NoLostWakeUp | src/drv_waitq.c:79-109 | no task is ever asleep on a clear bit with its predicate true and nobody about to wake it, in any run, if and only if whoever changes the guarded state wakes the waiters before it lets the lock go |
| WaitQueue.NoLostTimeout | src/drv_waitq.c:72-91 | in every run a task asleep on a clear bit has its timer still running |
| WaitQueue.SilentChangeLosesWakeUp | src/drv_waitq.c:79-109 | a run in which a change without a wake-up leaves a waiter asleep with its predicate true |
| WaitQueue.ListIsExact | src/drv_waitq.c:74-92 | the list holds exactly the tasks between AddTail and Remove, once each, each with a live port |
| WaitQueue.SignalsReachLivePorts | src/drv_waitq.c:102-109 | no wake-up and no timer reply goes to a freed bit, and no request is out at a closed timer |
| WaitQueue.WaitReturnsClean | src/drv_waitq.c:55-100 | a wait returns with the lock held, off the list, port gone, request collected, bit clear; OK only if the predicate holds, TIMEOUT only if the timer itself replied and it does not; NO_RESOURCES, whose cause is NoResourcesIffRefused, only if it does not hold |
| WaitQueue.NoResourcesIffRefused | src/drv_waitq.c:46-64 | in every run a wait has returned NO_RESOURCES if and only if its last statement asked for the timer, with the queue's closed, or for a port, and was refused |
| WaitQueue.GrantedNeverFails | src/drv_waitq.c:58-64 | in a run in which the system refuses nothing no wait returns NO_RESOURCES |
| WaitQueue.OpenTimerIsEnough | src/drv_waitq.c:46-53 | with the queue's timer open a wait goes on to its port, whatever OpenDevice would have said |
| WaitQueue.TimerIsOpenIff | src/drv_waitq.c:32-53 | in every run the timer is open if and only if a wait has opened it and nothing has cleaned up since |
| WaitQueue.BitIffSignalled | src/drv_waitq.c:79-109 | in every run a waiter's bit is set if and only if a wake-up at its place in the list, the timer, or its own abort has signalled it since it last consumed its signals |
| WaitQueue.ListInArrivalOrder | src/drv_waitq.c:74-109 | in every run the list, and so the order of wake-ups, is the order in which the waiters joined it |
| WaitQueue.OnlySleepAndLockBlock | src/drv_waitq.c:79-98 | nothing in a wait blocks but a sleep whose timer runs and a lock another task owns; WaitIO always finds the reply |
| WaitQueue.FinishingWaitReturns | src/drv_waitq.c:79-100 | once the timer has replied, or the predicate holds and it was woken, a wait that is let run returns within ten statements |
| ExecMemory.TakeIsExact | src/dma_mem.c:172-181 | Allocate takes a rounded span that was wholly free and nothing else, and keeps the list sorted |
| ExecMemory.TakeIsFirstFit | src/dma_mem.c:266-268 | Allocate is first fit: refusal means no chunk is large enough, success skips none |
| ExecMemory.GiveIsExact | src/dma_mem.c:257-257 | Deallocate adds exactly the span, merges neighbours, and keeps the list sorted with gaps |
| ExecMemory.SortedIsUnique | src/dma_mem.c:202-209 | a header's free list is determined by which bytes are free |
| ExecMemory.AllocateThenDeallocate | src/dma_mem.c:189-196 | Deallocate undoes Allocate to the last chunk |
| RegionPoolProofs.GrowIsExact | src/dma_mem.c:163-214 | growing adds one empty puddle apart from all others, keeps the invariant, every block and the bytes owned |
| RegionPoolProofs.GrowFailureRestores | src/dma_mem.c:189-196 | when the puddle cannot be allocated every header is as it was, chunk for chunk |
| RegionPoolProofs.RegionAllocIsExact | src/dma_mem.c:221-241 | success, whose condition is RegionAllocSucceedsIff, adds exactly one new block of the rounded size, failure none; invariant and bytes are conserved |
| RegionPoolPolicy.RegionAllocSucceedsIff | src/dma_mem.c:221-241 | a request of any size is granted if and only if it is not zero once rounded up to eight in 32 bits, and a puddle has one chunk for it, or a header has one for a new arena and the puddle node was given |
| RegionPoolPolicy.RegionAllocFromPuddle | src/dma_mem.c:226-235 | it is the front of the first chunk that fits in the first puddle with room, and no arena is taken |
| RegionPoolPolicy.RegionAllocFromHeader | src/dma_mem.c:163-241 | with no room in any puddle it is the front of a new arena, in the first header that can hold one |
| RegionPoolPolicy.GrowSucceedsIff | src/dma_mem.c:163-214 | growing succeeds if and only if a header has the arena in one chunk and the puddle node was given |
| RegionPoolPolicy.GrowPlace | src/dma_mem.c:163-214 | the arena is 128 KiB, or the request if larger, at the front of the first chunk that fits in the first header with one |
| RegionPoolProofs.RegionFreeIsExact | src/dma_mem.c:243-264 | freeing a held block takes exactly that block back, in the one puddle that holds it |
| RegionPoolProofs.FullyFreeHasNoBlocks | src/dma_mem.c:280-280 | a puddle's free bytes equal its arena size exactly when it holds no block |
| RegionPoolProofs.ShrinkIsExact | src/dma_mem.c:269-290 | shrinking unlinks exactly the empty oversize puddles, keeps every held block, and returns exactly their bytes |
| RegionPoolPolicy.ShrinkDropsExactly | src/dma_mem.c:269-290 | a puddle is still there afterwards if and only if it was, and holds a block or is of the standard size |
| RegionPoolProofs.DeleteIsExact | src/dma_mem.c:309-326 | deleting gives the system back every arena: afterwards it has as many bytes free as it had before plus the size of every arena, and the headers are in order |
| RegionPoolBytes.DeleteFreesAll | src/dma_mem.c:309-326 | after the delete a byte is free in a header exactly when it was free there or lay in an arena from there |
| RegionPoolBytes.NextKeepsOwned | src/dma_mem.c:163-290 | no allocation, free, grow or shrink changes which bytes the pool and each header own together |
| RegionPoolBytes.DeleteRestores | src/dma_mem.c:292-326 | any run of the allocator that the rest of the system leaves alone, followed by the delete, leaves the memory headers as they were before the pool, chunk for chunk |
| RegionPoolProofs.LiveApart | src/dma_mem.c:216-264 | held blocks of a pool never overlap |
| DmaPool.RegionPoolObject.GrowPool | src/dma_mem.c:163-214 | the loop over the region table and both failure paths compute the pool's Grow |
| DmaPool.RegionPoolObject.RegionAllocate | src/dma_mem.c:221-241 | walk, grow and retry compute RegionAlloc and keep the invariant |
| DmaPool.RegionPoolObject.RegionRelease | src/dma_mem.c:243-264 | the walk updates in place the first puddle that holds the address, as RegionFree does; an address of no puddle changes nothing |
| DmaPool.RegionPoolObject.ShrinkNow | src/dma_mem.c:269-290 | the walk over the linked nodes, which unlinks through the link it came by and goes on there, computes Shrink and leaves a proper list |
| DmaPool.RegionPoolObject.UnlinkAfter | src/dma_mem.c:276-287 | redirecting the link before a node takes exactly that node off the list and moves no other |
| DmaPool.RegionPoolObject.DeleteAll | src/dma_mem.c:309-326 | the loop returns every arena and leaves no puddle |
| DmaLayout.RepresentableFits | include/dma_mem.h:103-121 | for a representable request the two header words and the rounded buffer lie inside the block, and the buffer is aligned |
| DmaLayout.FitsIffRepresentable | include/dma_mem.h:105-116 | a successful dma_alloc returns a buffer its block can hold if and only if no step of the size computation wraps |
| DmaLayout.OwnsWholeLines | include/dma_mem.h:94-109 | for align >= 64 every byte of every line the buffer touches is its own |
| DmaBuffers.NextKeepsOk | include/dma_mem.h:103-131 | every allocation, free, shrink, write of an owner or of others, and every move of the rest of the system keeps the invariant |
| DmaBuffers.EveryRunKeepsOk | include/dma_mem.h:103-131 | the invariant holds after every such run |
| DmaBuffers.HeldBufferIsSafe | include/dma_mem.h:94-131 | after any run every held buffer is on the alignment recorded for it, which HeldWasAskedFor ties to the request, in one region as a whole, inside its own block with both header words intact in front of it, so that dma_free finds them |
| DmaBuffers.AllocGivesWhatWasAsked | include/dma_mem.h:103-121 | by the request alone: a pointer that is returned is new, a multiple of the align passed in, with the bytes asked for inside a block apart from every held one, and for align >= 64 with every cache line of those bytes inside it; a failure leaves holders and words alone |
| DmaBuffers.AllocSucceedsIff | include/dma_mem.h:105-116 | it is granted if and only if a puddle, or a header for a new arena, has room for the rounded size, the slack of the alignment and two words |
| DmaBuffers.FreeGivesBlockBack | include/dma_mem.h:123-131 | dma_free of a held buffer gives exactly its block back to the pool and leaves every other holder's |
| DmaBuffers.HeldWasAskedFor | include/dma_mem.h:94-131 | after any run every held buffer is one that an allocation of the run asked for, on that alignment and of that size |
| DmaBuffers.LiveIsHeld | include/dma_mem.h:103-131 | after any run the blocks the pool has out are exactly those of the buffers held: nothing leaks |
| DmaBuffers.LinesAreNotShared | include/dma_mem.h:97-109 | after any run every byte on a cache line of a line-aligned buffer is the buffer's own, and in no other held block |
| DmaBuffers.EventsConserve | src/dma_mem.c:163-290 | no event creates or loses a byte: system free bytes plus arenas stay constant |
| DmaRegions.ParseWindows | src/dma_mem.c:100-122 | the window loop yields the /memory records clipped to 2 GB, in order, empty and high ones skipped, at most eight |
| DmaRegions.LoopEndsIff | src/dma_mem.c:103-122 | the window loop ends, on any property, if and only if a record has at least one cell |
| DmaRegions.WindowOf | src/dma_mem.c:106-118 | the clipping is exact although base + size may wrap 64 bits |
| DmaRegions.WindowIsRecord | src/dma_mem.c:103-122 | by the cells: the i-th window starts at the address field of some record and ends at address plus size or at 2 GB, and i windows come of the records before it |
| DmaRegions.RecordHasWindow | src/dma_mem.c:103-122 | every record with a byte below 2 GB has its window, unless those before it took all the room |
| DmaRegions.CollectRegions | src/dma_mem.c:129-151 | the nested loops keep exactly the fast headers inside a window, in list order, at most eight |
| DmaRegions.RegionsArePiDram | src/dma_mem.c:124-128 | every region is a fast header of the list and ends at or below 2 GB |
| DmaRegions.RegionsAreComplete | src/dma_mem.c:129-151 | every fast header inside a window is a region, unless eight were found before it |
| DmaRegions.RegionIsHeader | src/dma_mem.c:129-151 | the i-th region is a fast header inside a window, and i regions come of the headers before it |
| DmaRegions.AddrReachable | include/dma_mem.h:54-76 | with regions, true exactly when the whole span lies in one of them; without, exactly when it is above Chip RAM and does not wrap |
| Coherence.NextKeepsLineOk | include/cache_ops.h:8-19 | every CPU store, eviction, prefetch, issue, completion and device write keeps a line's invariant |
| Coherence.TransfersAreCoherent | include/cache_ops.h:14-19 | in every run an idle line reads as last stored, an armed line's RAM is exactly the device's, and the barrier after the invalidate makes the CPU read exactly that |
| Coherence.DeviceReadsCpuBytes | include/cache_ops.h:51-70 | for every direction but device-writes-only the completed operation has the CPU's bytes in RAM |
| Coherence.DirectionDecides | include/cache_ops.h:51-70 | the truth table of directions by its effect: the cached copy stays exactly for a device that only reads, and a dirty line reaches RAM except where one that only writes has it discarded |
| Coherence.CpuBytesStay | include/cache_ops.h:14-18 | and there they stay until the device is armed |
| Coherence.WriteOnlyMayDropCpuBytes | include/cache_ops.h:60-67 | a run of the full protocol with the device-writes-only flag in which the device finds what was in RAM before the CPU's store |
| Coherence.SkippedPreLosesDeviceBytes | include/cache_ops.h:16-18 | a run without the operation before, in which an eviction lands the CPU's byte on the device's |
| Coherence.SkippedPostReadsStaleBytes | include/cache_ops.h:18-19 | a run without the invalidate behind, after which the CPU reads what was prefetched in between |
| Coherence.LoadBeforeBarrierMayBeStale | include/cache_ops.h:43-45 | a run to an issued invalidate without its barrier, where a load still reads the old byte |
| Coherence.SharedLineLosesStore | include/cache_ops.h:96-102 | a run on a shared line in which the neighbour stores, the protocol goes through, and his store is gone |
| Coherence.SoundIffNothingSkipped | include/cache_ops.h:14-19 | CPU and device read what they rely on in every run from every quiet memory if and only if neither operation nor the ownership of the line is left out |
| CacheUnit.Cache.PreDma | include/cache_ops.h:157-166 | the range loop, with anything happening after every line, has the selected operation on its way on every line of the range, in effect unless unsynchronised, with the CPU's bytes carried to RAM unless device-writes-only; any other line only drifted or, with the barrier, finished what was outstanding; an empty range does nothing |
| CacheUnit.Cache.PostDma | include/cache_ops.h:168-171 | likewise for the invalidate: after the barrier the CPU reads the device's bytes on every line of the range |
| CacheUnit.Cache.BarrierNow | include/cache_ops.h:31-45 | a barrier leaves nothing outstanding on any line, those of earlier unsynchronised calls included |
| DmaTransfer.RunBatch | include/cache_ops.h:31-45 | a batch of range operations that share no line needs one barrier, by its last operation or behind it, for all of them to be in effect |
| DmaTransfer.WrittenForgets | include/cache_ops.h:60-64 | what a byte held before does not matter once it is written |
| DmaTransfer.ActionStays | include/cache_ops.h:14-19 | a device write or a CPU store elsewhere keeps the transfer equal to plain memory |
| DmaTransfer.Transfer | include/cache_ops.h:8-171 | over any set of ranges with their own direction flags and either way of closing a batch: pre-DMA, any script of device writes and CPU stores with a turbulent cache, post-DMA; to the CPU it is plain memory, on the ranges and outside them, and the device finds the CPU's bytes on every range it does not only write |
| DmaEndToEnd.NothingElseIsTouched | include/dma_mem.h:94-102 | after any run of the allocator every byte on a line that a range inside a line-aligned buffer walks over is the buffer's own |
| DmaEndToEnd.BufferTransfer | include/cache_ops.h:96-171 | after any run of the allocator, a batch of transfers on its buffers reads back exactly the device's bytes, no store to any byte outside the buffers is lost, whoever owns it, and the device finds the CPU's bytes wherever it does not only write |
| DmaEndToEnd.HeldBufferIsReachable | include/dma_mem.h:51-76 | every held buffer, empty ones included, passes dma_addr_reachable against the regions the pool was created over |
| DmaEndToEnd.HeldBuffersBackSlabs | src/slab.c:69-72 | buffers from dma_alloc are what slab_grow needs: aligned, not NULL, apart from each other |
| DmaEndToEnd.SlabOnBuffer | src/slab.c:69-87 | every slot of a DMA slab on a held buffer is aligned, inside the buffer and one region, and has its cache lines to itself |
| Slab.SlabCache.constructor | src/slab.c:15-41 | alignment and capacity as promised, object size the least multiple of the effective alignment that holds an object, list empty, wherever the rounding does not wrap |
| Slab.ObjectSizeIffFits | src/slab.c:21-25 | the rounded size holds an object if and only if the rounding does not wrap 32 bits; otherwise it is zero |
| Slab.SlabCache.Alloc | include/slab.h:32-40 | hands out the head of the list or grows; never an object that is held; list and held objects partition all slots; no held object's word changes |
| Slab.SlabCache.Free | include/slab.h:42-46 | the object goes back in front of the list; the partition holds and no object still held changes |
| Slab.SlabCache.Grow | src/slab.c:62-95 | all new slots but the first in front of the list in order, the first handed out, capacity 1 included; failure changes nothing |
| Slab.SlabCache.HolderWrites | include/slab.h:32-46 | a holder that overwrites its object, link word included, does not disturb the list |
| Slab.SlabCache.ThreadSlots | src/slab.c:82-92 | the threading loop builds a finite list of exactly the new slots, ending in the old list |
| Slab.SlabCache.Destroy | src/slab.c:43-60 | gives back every slab's data, each once, and leaves an empty cache |
| Slab.GrowKeepsPartition | src/slab.c:62-95 | a new slab apart from the others extends the partition without a duplicate |
| Slab.SlotsApart | src/slab.c:82-87 | different slots of a slab do not overlap |
| Slab.SlotsFitIff | src/slab.c:69-72 | the slots lie inside what the backing allocator is asked for if and only if the product of object size and capacity is below 2^32 |
| Slab.SlotOwnsLines | src/slab.c:19-25 | every slot of a DMA slab owns whole cache lines |
| TextFormat.ConversionLength | src/textfmt.c:105-174 | a known conversion is exactly max(width, sign plus body) long and takes one cell unless it is %%; an unknown one is echoed and takes none |
| TextFormat.DigitsFit | src/textfmt.c:94-95 | a number below radix^n has at most n digits |
| TextEngine.FmtDigits | src/textfmt.c:43-55 | the digits of the number, most significant first, at the end of the 12-character buffer, which is never underrun |
| TextEngine.ScanSpec | src/textfmt.c:68-103 | the cursor loops parse exactly the specification and stop behind it |
| TextEngine.EmitConversion | src/textfmt.c:94-174 | the switch and the padding emit exactly the conversion's text, whose meaning TextMeaning states conversion by conversion |
| TextEngine.FmtCore | src/textfmt.c:57-176 | emits exactly the stream the format denotes and consumes exactly its cells; what that stream says is stated by the TextMeaning rows |
| TextMeaning.UnsignedText | src/textfmt.c:135-138 | %u under any flags and width: the decimal numeral of the cell without leading zeros, padded as asked |
| TextMeaning.HexText | src/textfmt.c:139-143 | %x and %X: the hexadecimal numeral of the cell in small or capital letters, padded as asked |
| TextMeaning.PointerText | src/textfmt.c:144-151 | %p: the hexadecimal numeral, zeros in front, at least eight characters |
| TextMeaning.SignedText | src/textfmt.c:125-134 | %d and %i: the decimal numeral of the magnitude, a sign exactly for a cell of 2^31 or more, zeros behind the sign, blanks before it |
| TextMeaning.StringText | src/textfmt.c:107-118 | %s: the longest prefix of the string, or of "(null)", that the precision allows, never zero-padded |
| TextMeaning.CharacterText | src/textfmt.c:119-124 | %c: the low byte of the cell, never zero-padded |
| TextMeaning.PercentText | src/textfmt.c:152-157 | %%: a percent sign that takes no cell |
| TextMeaning.SpecReads | src/textfmt.c:70-103 | any flags in any order, a width, a precision, any modifiers and a conversion are read as what they say |
| TextMeaning.ModifiersSayNothing | src/textfmt.c:91-92 | a format prints the same with and without h, l and z |
| TextMeaning.PlainUnsigned | src/textfmt.c:135-138 | "%u" prints a numeral that reads in radix 10 as the cell and has no leading zero |
| TextMeaning.PlainHex | src/textfmt.c:139-143 | "%x" and "%X" print a numeral that reads in radix 16 as the cell |
| TextMeaning.PlainPointer | src/textfmt.c:144-151 | "%p" prints eight hexadecimal digits that read as the cell, for every cell |
| TextMeaning.PlainString | src/textfmt.c:107-118 | "%s" prints the string, "(null)" for NULL |
| TextMeaning.CutString | src/textfmt.c:83-90 | "%.Ns" prints the longest prefix of at most N characters |
| TextMeaning.PlainCharacter | src/textfmt.c:119-124 | "%c" prints the low byte, "%%" a percent sign |
| TextMeaning.PaddedHex | src/textfmt.c:165-174 | "%0Nx" with N >= 8 prints N digits that read as the cell |
| TextEngine.FmtBuf.Putch | src/textfmt.c:229-239 | the buffer holds the first characters sent, as many as fit, and nothing else of it changes |
| TextEngine.FmtBuf.Done | src/textfmt.c:248-253 | terminates what was stored and returns the full length |
| TextEngine.SNPrintfArgs | src/textfmt.c:277-285 | stores the first min(bufsize - 1, length) characters of the text the format denotes and a NUL, writes nothing else, returns the full length; NULL buffer, NULL format and size 0 included |
| PrefsSplit.SplitLine | src/prefs.c:11-58 | in place, on every NUL-terminated line: succeeds exactly when the functional split does, with its key and value; on refusal both pointers are unchanged; nothing behind the NUL is touched |
| PrefsSplit.SplitRecovers | src/prefs.c:11-58 | every well-formed key and value come back from any blank padding and any CR/LF ending |
| PrefsSplit.SplitRefusesIff | src/prefs.c:11-58 | a text is refused if and only if its line has no '=', as a blank one has not, or starts with '#' or ';' behind its blanks, or has only blanks on one side of its first '=' |
| PrefsNumber.ParseNumber | src/prefs.c:81-108 | succeeds if and only if the whole string is an optionally signed decimal whose mathematical value lies within the limits, for strings of any length; the output is untouched on failure; every intermediate fits 32 bits |
| PrefsNumber.GuardIsExact | src/prefs.c:94-96 | the truncating division test refuses a digit exactly when the next value would leave a LONG |
| PrefsNumber.MoreDigitsMoreValue | src/prefs.c:91-97 | a prefix already out of range stays out of range with more digits |
| RoundTrip.DigitsHaveValue | src/textfmt.c:43-55 | printed digits have the printed number as their value |
| RoundTrip.CoreReadsBack | src/textfmt.c:125-174 | what %d prints between its blanks reads as the number, LONG_MIN included |
| RoundTrip.NumberRoundTrip | src/prefs.c:81-108 | what %d or %i prints is a number if and only if it is zero-padded or the number fills the width, and then it is the number that was printed |
| RoundTrip.ZeroPaddedRoundTrip | src/textfmt.c:165-174 | %0Nd reads back as the value for every N and every 32-bit value |
| RoundTrip.SettingRoundTrip | src/prefs.c:11-108 | a "key = number" line printed with any flags and width splits into the key and a value that reads back |
| RoundTrip.SettingSurvives | src/prefs.c:11-108 | printed into a buffer, split in place and parsed, the setting is recovered |
| DeviceTree.GetNumber | src/devtree.c:14-23 | the big-endian number of the cells modulo 2^64, exact for up to two cells |
| DeviceTree.OffsetTestIsExact | src/devtree.c:94-100 | the offset tests accept exactly the spans that lie in the record over unbounded integers |
| DeviceTree.FirstCoverIsFirst | src/devtree.c:86-107 | the record used covers the span and none before it does; none is found only if none does |
| DeviceTree.Map | src/devtree.c:64-124 | loop, wrap-around test and clipping compute the translation of the first covering record, which MapsThroughFirst reads off the cells |
| DeviceTree.TranslateIsExact | src/devtree.c:64-124 | on the records of any property: nothing without a covering record; through one whose translation of the address stays within 64 bits, success exactly when the result span fits 32 bits; the result is the constant-offset translation exactly then |
| DeviceTree.MapsThroughFirst | src/devtree.c:86-124 | by the three fields of the k-th record: if it is the first to contain the span on the child side (to the parent) or on the parent side (from it), the result is the other side's address plus the offset whenever that span ends at or below 2^32, and nothing otherwise |
| DeviceTree.MapsThroughNone | src/devtree.c:86-114 | with no such record in a property that has cells there is no translation |
| DeviceTree.EmptyMapsToItself | src/devtree.c:83-85 | an empty property maps every span that ends at or below 2^32 to itself, and no other |
| DeviceTree.PeripheralAddress | src/devtree.c:98-103 | the peripherals at 0x7E000000 on the bus are at 0xFE000000 for the CPU, at every offset |
| DeviceTree.ThroughIsExactIff | src/devtree.c:98-109 | the 64-bit result is the true translation exactly when that does not leave 64 bits |
| DeviceTree.WrappingRecord | src/devtree.c:98-109 | an input at which the 64-bit result is another address |
| DeviceTree.WindowIsExtent | src/devtree.c:116-123 | the reported window is the record's extent, cut off at 4 GB on the address's side; a record that passes 2^64 there reports an empty one |
| DeviceTree.WindowTranslates | src/devtree.c:153-161 | every buffer inside the window translates through the same record by the same offset if and only if the window's target side ends at or below 4 GB |
| DeviceTree.UnclippedWindow | src/devtree.c:116-123 | an input at which a buffer inside the window has no translation |
| DeviceTree.WindowAgreesIff | src/devtree.c:148-161 | for any table and any window it gave: every later lookup inside the window has its offset if and only if one lookup per record has it, of the part of the window that the record meets |
| DeviceTree.WindowAgreesWithLookup | src/devtree.c:148-161 | records whose source sides are apart pass that test for every window that fits |
| DeviceTree.OverlapBreaksWindow | src/devtree.c:86-107 | a table of two overlapping records at which a lookup inside the window gives another address |
| DeviceTree.DmaWindow | src/devtree.c:148-161 | an empty span is refused, any other is the translation |
| DeviceTree.BaseAddress | src/devtree.c:126-146 | the index-th reg record's address through ranges towards the parent, in the direction MapsThroughFirst states, or nothing exactly when there is no such record or no translation; it stays inside the property whenever the record's end is below 2^32 |
| DeviceTree.RegTestIsExactIff | src/devtree.c:135-143 | once the 32-bit test has passed, the cells that are read are the record and lie in the property if and only if its end is below 2^32 |
| ResetGuard.NextKeepsInv | src/reset_guard.c:32-207 | every install, remove, foreign patch and every step of every reset, in any order, keeps the chain and the guards consistent |
| ResetGuard.PrepareRunsAtMostOnce | src/reset_guard.c:32-68 | over all runs prepare runs at most once per installation, if no guard is installed again while a reset is about to call it; that it does run is PassedIsPrepared |
| ResetGuard.InstalledOnceRunsOnce | include/reset_guard.h:33-36 | prepare of a guard that is installed once runs at most once, in every run that mixes keyboard resets, reboots and removals; that it does run is KeyboardRunsPrepare and RebootPreparesAll |
| ResetGuard.PassedIsPrepared | src/reset_guard.c:32-68 | in every run without a reinstallation each guard that a keyboard reset or a reboot has gone through is prepared: its prepare has run once, or another reset is about to run it |
| ResetGuard.KeyboardRunsPrepare | src/reset_guard.c:60-68 | from any reachable state a keyboard reset of an unprepared guard, left to run, runs prepare once more and then reports DONE |
| ResetGuard.RebootPreparesAll | src/reset_guard.c:46-58 | a reboot that has ended has gone through the guards that were on the chain at its call, in order, and each of them is prepared |
| ResetGuard.InstallHooksBoth | src/reset_guard.c:100-179 | in every run an install makes the trampoline the vector in front of the chain there was and lets the keyboard handler be called, with prepare still to run; one that fails changes nothing of the chain |
| ResetGuard.SingleIff | src/reset_guard.c:32-42 | an event keeps at most one caller of prepare and one call if and only if it does not install a guard whose prepare a reset is about to call |
| ResetGuard.ReinstalledCanRunTwice | src/reset_guard.c:100-107 | a run in which prepare is called twice, by a guard installed again in the middle of a call |
| ResetGuard.ChainIsSound | src/reset_guard.c:100-207 | in every run the vector chain is finite and acyclic, holds every installed trampoline, ends at the original and has nothing freed on it |
| ResetGuard.RebootVisitsAll | src/reset_guard.c:46-58 | in a run whose events look out for reboots, one that has ended has run all that was on the chain at its call, in order, each once, the original last, and one under way has the rest of it before it |
| ResetGuard.RebootEnds | src/reset_guard.c:46-68 | in every run a reboot that is left to run ends if there is code where it is going, within four steps per piece of code before it and one more, and crashes if there is none |
| ResetGuard.OnTrackIff | src/reset_guard.c:100-207 | from a state in which every reboot is on the chain it was called on, an event keeps all of them there if and only if it does not take away the code one is going to, nor install anew with another saved vector the guard one is in |
| ResetGuard.RunOnTrackIff | src/reset_guard.c:32-207 | over any run every reboot stays on track all the time if and only if every event looked out for them |
| ResetGuard.HeadGoesCrashesIff | src/reset_guard.c:187-201 | after an event that takes the head off the chain, a reset's next step crashes if and only if it is a reboot that was about to execute the head |
| ResetGuard.RemoveDropsOnlyHead | src/reset_guard.c:181-207 | in every run removal refuses exactly while the trampoline is not the vector, changes nothing then, and otherwise drops exactly the head, closes the guard to the keyboard and leaves the others as they were |
| DriverTask.EveryRunKeepsInv | src/driver_task.c:29-153 | the handshake invariant holds after every interleaving of spawn, task, exit and join |
| DriverTask.SpawnReturnsReport | src/driver_task.c:75-98 | 0 only for a task that reached its loop, -EIO only for one that failed and is gone, -ENOMEM only when nothing runs |
| DriverTask.NoMemoryIff | src/driver_task.c:34-84 | in every run spawn comes to -ENOMEM by a failed allocation or a failed AddTask and by no other statement |
| DriverTask.GivenSpawnHasTask | src/driver_task.c:86-98 | a spawn that was given all it asked for returns -EIO if the initialisation failed and 0 otherwise |
| DriverTask.OnlyTheNewTaskAnswers | src/driver_task.c:75-94 | a signal pending while spawn waits is the new task's report, exactly when it has reported |
| DriverTask.JoinSeesTheEnd | src/driver_task.c:117-126 | once the joiner has seen the slot clear the task runs no further instruction, and no signal is left behind |
| DriverTask.JoinReturns | src/driver_task.c:100-131 | from any point of a safe join, whatever the schedule: until it has returned, with the task gone and the slot clear, a statement other than an idle look at the slot can happen, and at most ten do; once the task is gone the poll is back within three |
| DriverTask.EveryCallReturns | src/driver_task.c:29-153 | no spawn and no join gets stuck: at most eleven statements, idle looks at the slot not counted, lie before the next call |
| DriverTask.ClearedSlotIsNotSeenEarly | src/driver_task.c:148-153 | between the clearing of the slot and the task's end the parent cannot run |
| DriverTask.JoinIsSafeIff | src/driver_task.c:100-131 | join never signals through a cleared slot in any run if and only if no task quits on its own or the joiner lets none run between its test and its Signal |
| DriverTask.JoinFaultsIff | src/driver_task.c:116-117 | the next statement of a join faults if and only if it is the Signal and the slot is clear |
| TagScan.CheckOurs | tools/emu68check.c:72-96 | for every chunking, found if and only if the tag occurs in the bytes read, for searchable tags |
| TagScan.CompleteIffOccurs | tools/emu68check.c:83-93 | the one state variable completes exactly on texts that contain a searchable tag |
| TagScan.ExactIffSearchable | tools/emu68check.c:83-93 | the search is exact on every text if and only if the tag is searchable |
| TagScan.MissedText | tools/emu68check.c:89-90 | a missed occurrence, constructed for every tag that is not searchable |
| TagScan.FirstDoesNotRecurIsSearchable | tools/emu68check.c:64-65 | the rule in the comment is sufficient |
| TagScan.ProgramTagsAreSearchable | tools/emu68check.c:105-111 | the tags the program passes are searchable |

## Left out

- Device-tree resource calls, alias, symbol and interrupt lookups: they query a library that is not part of the repository; properties are given as cells.
- src/prefs_file.c, src/drv_timer.c, include/emu68_features.h: thin wrappers over dos.library, timer.device and OpenResource.
- prefs_bool, the hardware claim, GPIO, byte order, register access, timing, performance counters, debug output: short members that would add only easy contracts.
- scripts, CMake modules and the linker script: build and reporting.
- `_VSNPrintf` and `_SNPrintf`: the same engine over a va_list; only the array front end is modelled.
- dma_zalloc and slab_zalloc: the allocation followed by the memset that is modelled on its own.
- The exec-vector flavour of the cache operations, and cache_pre_dma on Exec's own vectors: outside the inline path that is modelled.
- Opcode encodings, trampoline bytes and callee-saved registers: their effect is modelled, not their bits.
- The pacing of drv_task_join from 1 to 250 ms: it changes when the poll looks, not what it sees.
- Memmove.Move: for TopHazard sources only dst == src is claimed, because the code runs on past the region there.
- Memcpy.Copy: claims nothing for overlapping regions, as memcpy does not, nor for the single long at the top of the address space.
- Memset.Fill: claims nothing for the single long at the top of the address space.
- DmaRegions.ParseWindows: requires at least one cell per record, the exact condition for the loop to end (LoopEndsIff); cell counts whose sum with the position passes 32 bits are not modelled.
- DmaRegions.AddrReachable: a NULL context, which is simply refused, is not modelled.
- RegionPool.Grow: the memory of the puddle node itself, which AllocMem takes from the system and FreeMem gives back, is part of what the rest of the system does (SystemMoves), not of the bytes counted here.
- DeviceTree.BaseAddress: what is read when the 32-bit test passed on a wrapped product is only told apart as inside the property or outside it.
- DeviceTree.Map: cell counts of a record whose sum passes 32 bits are not modelled.
- Slab.SlabCache.constructor: requires a positive size whose rounding to the effective alignment does not wrap; otherwise the object size is zero (ObjectSizeIffFits), and the source divides by it when the capacity is left open.
- Slab.SlabCache.Grow: takes the data address from its caller, with room for all slots, which SlotsFitIff says when there is; that dma_alloc provides such addresses is HeldBuffersBackSlabs. Alignment is not claimed for slabs without a DMA pool.
- ExecMemory.TakeIsExact: Exec's own allocation is stated on chunk lists as values; its code is not in the repository.
- Memcmp.Compare: memory is a value, since nothing is written; LONG loads are read as big-endian bytes.
