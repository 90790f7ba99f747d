# Verification of libkfd

libkfd drives AMD GPUs from user space. This project models the parts of it that carry hard properties and proves
those properties over all runs and interleavings of the models, and for all inputs within what each contract asks for;
where a contract asks for more than the source, "Left out" says so:

- **Scratch growth** (`ScratchMachine`, `ScratchInvariant`, `ScratchSafety`, `ScratchDelivery`, `ScratchProgress`,
  `ScratchStall`, `ScratchWakes`, `ScratchLimits`): the dispatching thread, the command processor and the watcher
  thread as one step machine over the words they share. Every load and store of a shared word is a step. Until an
  error is reported, a kernel in flight runs on a live region large enough for it. Accepted dispatches are launched
  once each and in order, and as long as no request is lost every one is. Then, too, a stalled command processor is
  let through by every schedule of the GPU and the watcher that goes on while it can (so also while a dispatcher holds
  the submit mutex and waits for ring room); after a loss, exact conditions say when it can be and when it must be.
- **Scratch sizing** (`ScratchSizing`, `ScratchBackoff`, `BackoffWrap`): the arithmetic of wave slots, and the search
  for a region on top of the pool allocator, with the exact condition under which that search ends.
- **The ring** (`Packets`, `RingPointers`, `RingLog`, `Ring`): submission with wrap padding refines a FIFO of packets.
- **The futex mutex** (`FutexMutex`): any number of threads, one atomic operation per step. A call of `lock` ends only
  with the lock, a free one is taken at once and a held one is slept on.
- **The pool allocator** (`FreeList`, `PoolAllocator`): its free list, edited in place, is the canonical form of a set
  of free bytes; first fit is lowest and complete.
- **Dispatch setup and late binding** (`Registers`, `DispatchSetup`, `DispatchAbi`, `LateBinding`, `BufferLayout`):
  after a dispatch's register writes a kernel finds each argument where the ABI puts it, and followed by the handler's
  indirect buffer they leave the same registers as a dispatch that knew its scratch from the start.
- **Completion signals** (`CompletionQueue`, `Completion`, `CompletionProgress`): when a fence has been decremented,
  the work before the signal has retired, over any number of queues, with the exact condition on the numbers in the
  ring, launch by launch; and exactly which rings are always worked off.
- **Symbol lookup** (`GnuHash`, `ElfSymbols`): the GNU hash walk is a linear search, and on the bytes of a well-linked
  file the search finds the first symbol of the name.
- **Loading** (`Bytes`, `Relocation`, `Loader`): the staged image is zeros overlaid by segments and rebased slot by
  slot.
- **The display mailbox** (`Mailbox`): three slots, any number of buffers, frames in order.

`Util`, `Arith` and `Gfx` hold shared vocabulary. Shared state machines are values with an action type, because their
point is the interleaving; code that works in place on its own data is a class or an array method proved against a
function, about which the lemmas are.

`dafny verify dfyconfig.toml` checks everything.

## What the hardware is taken to do

The command processor fetches packets in order; DISPATCH_DIRECT adds a kernel to the set in flight; RELEASE_MEM writes
once all earlier work has retired; WAIT_REG_MEM stalls; ATOMIC_MEM takes effect when fetched, in mid-pipe; SET_SH_REG
sets consecutive registers. Memory is sequentially consistent. A PM4 NOP header with all count bits set is one dword
long: the ring's one-slot padding (`include/libkfd/packets/pm4.h:143-145`) depends on that, although the comment at
lines 133-135 reads as if such a header skipped 16385 dwords. The model follows the code.

The scratch machine takes end-of-pipe writes to land in ring order. Its progress rests on that: were the event to land
before the counter it announces, the handler would read the old counter and go back to sleep with no wakeup left. The
completion queue takes them to land in any order; `CompletionProgress.InOrderCompletes` says what ring order adds.

## What turned out to need a condition

- A wrap padding above 16384 dwords is not one NOP, on either engine (`Packets.PaddingIsOneNopIff`). An SDMA engine
  reads the rest as one-dword NOPs; a PM4 command processor stops (`Packets.PaddingReadsIff`). A PM4 ring delivers
  what was submitted if and only if no padding was longer, and submissions of at most 16385 dwords never need a longer
  one (`Ring.Ring.SubmitAll`, `Ring.SubmitReadsBackIff`). Through the library no longer one arises:
  `QueueBase::submit` is internal, and every caller passes a small buffer of constant size.
- A pool request whose rounding wraps 2^64 is served with zero bytes (`Arith.RoundCoversIff`,
  `PoolAllocator.PoolAllocator.Allocate`).
- After a failed scratch allocation the stalled kernel is launched all the same
  (`ScratchLimits.FailedAllocationRunsUnbacked`); a launch is safe exactly when the per-thread word covers it
  (`ScratchSafety.LaunchSafeIff`).
- A resize request is queued before its packets are submitted; if that submit fails, a later dispatch that needs no
  resize waits for it, and no continuation whatever lets it through (`ScratchLimits.LostRequestBlocks`). In every run,
  lost requests or not, a stalled command processor can get past its wait if and only if the dispatch it stalls at
  queued a request of its own (`ScratchStall.StallEndsIff`); without a loss it always has. After a loss such a
  dispatch is owed more than one answer, and its event wakes the watcher once: `ScratchLimits.LostRequestStarves` is a
  state from which only a spurious wakeup helps. `ScratchWakes.MayPassIff` and `ScratchWakes.MustPassIff` count the
  calls of the handler that can and that must answer, and say exactly when the GPU and the watcher alone may and must
  pass the wait.
- The indirect buffer is built from the request's kernel properties. It serves another kernel behind the same request
  if and only if both place and describe scratch alike (`BufferLayout.OneBufferServesIff`).
- EOP numbers are drawn before the submit lock is taken. Two threads can put them in the ring out of order, and then a
  fence can be decremented early (`Completion.RaceIsUnsound`). A launch has retired whenever a later signal decrements
  if and only if that signal, or one between, carries a number above all numbers before the launch
  (`CompletionQueue.RetiredIffCovered`). A thread's number is drawn after its own launch is submitted, so under any
  race a completion signal covers its thread's own work (`Completion.OwnWorkIsDone`): only other threads' earlier work
  may still be running, and even that has retired once the event fires (`CompletionQueue.EventMeansDone`). A ring is
  sound for all work if and only if the first signal after each launch has such a number
  (`CompletionQueue.SoundIffOrdered`), which drawing one number at a time guarantees.
- If writes at the end of the pipe may land in any order, such a race can also leave the queue waiting for ever
  (`CompletionProgress.RaceCanStarve`), exactly on the rings that `CompletionProgress.CompletesIff` describes; numbers
  drawn one at a time, or writes in ring order, rule it out (`CompletionProgress.OneSubmitterCompletes`,
  `CompletionProgress.InOrderCompletes`).
- The slot search subtracts in 32 bits. For work-groups of more than two waves per shader engine it can go round for
  ever, from a slot count the device function returns (`BackoffWrap.SearchCanLoop`); `BackoffWrap.SearchEndsIff` says
  exactly when it ends, for every number of engines.
- The source tests for plain SDMA where it converts units and pads (`lib/queue.cpp:572`, 610 and 619), so an XGMI
  queue's byte pointer is not divided by four (`RingPointers.XgmiInFlightIff` says when the occupancy is right all the
  same), its write pointer is not multiplied (`RingPointers.WritePosExactIff`), and its padding is a PM4 NOP, which
  starts no SDMA packet (`Packets.XgmiPaddingBlocks`).
- The wave count is not checked against its twelve bits. The slots that TMPRING_SIZE describes fit the region all the
  same (`ScratchSizing.SizingIsSafe`), but their size is exact only if the count's other bits are already set in it,
  and there are any waves only if its low twelve bits are not all zero (`ScratchSizing.SizingIsExactIff`); two devices
  where they are not are in `ScratchSizing.LargeDeviceIsInexact` and `ScratchSizing.FullDeviceHasNoWaves`.
- The bound check on a relocation offset is made in 64 bits (`lib/loader.cpp:154`). It lets a slot outside the image
  through exactly when the sum wraps (`Relocation.PassesOutsideIff`, with an entry in `Relocation.LastByteWraps`);
  when no slot touches the table, a load stays inside the image if and only if no entry wraps
  (`Loader.LoadsInsideIff`).
- The GNU hash walk can go round for ever only in a section of at least 16 GiB that indexes from symbol 0 and ends no
  chain (`GnuHash.NeverEndsIff`, `GnuHash.EndlessIsHuge`). There is such a section: with every filter bit set each
  lookup in it goes round, with none set it answers without walking (`GnuHash.HugeLoopsIff`).
- The header comment of `drm_window.cpp` (lines 9-12) says a parked frame is silently overwritten. With three buffers,
  once a frame is on screen, it never is (`Mailbox.NeverOverwritesIff`).

## Model

| member | source | states |
|---|---|---|
| ScratchInvariant.StepKeepsInv | lib/queue.cpp:167-295 | every step of dispatcher, GPU and watcher keeps the protocol's invariant |
| ScratchInvariant.ReachableInv | lib/queue.cpp:678-771 | the invariant holds in every reachable state |
| ScratchInvariant.OpenRequest | lib/queue.cpp:746-763 | while a request is open the ring's first job stands at its wait, no kernel is in flight, no further write of `scratch_ready` is, and every job in the ring stalls or uses no scratch |
| ScratchInvariant.LaunchFits | lib/queue.cpp:766-770 | the kernel about to be launched finds its registers naming the live region when the per-thread word covers it |
| ScratchSafety.ScratchSafety | lib/queue.cpp:694-770 | in every interleaving, until an error is reported, each kernel in flight that uses scratch has registers naming the live region, made for at least its size and unreleased since its launch |
| ScratchSafety.LaunchSafeIff | lib/queue.cpp:268-275 | with failing allocations, a launch is backed exactly when the per-thread word is at least its need |
| ScratchSafety.BackedUntilRetired | lib/queue.cpp:187-203 | a backed kernel stays backed until it retires, whatever fails meanwhile |
| ScratchSafety.RequestsServedInOrder | lib/queue.cpp:169-185 | requests are answered once each, in order, whatever spurious handler calls occur, and done <= ready <= seq |
| ScratchDelivery.LaunchedInOrder | lib/queue.cpp:766-770 | in every run the dispatches whose submit succeeded, by the needs they were called with, are in order the kernels that came into flight, once each, and then the jobs in the ring; a kernel stays in flight until it retires |
| ScratchDelivery.EveryDispatchLaunches | lib/queue.cpp:744-770 | without a lost request, any schedule of the GPU and the watcher is bounded, and one that goes on while it can has launched every accepted dispatch in order and retired all kernels |
| ScratchDelivery.FittingDispatchesNeverWait | lib/queue.cpp:700-726 | once all requests are answered, in every run of dispatches that need no more than the region has, nothing is requested, no dispatch waits and the region stays |
| ScratchDelivery.ErrorStays | lib/queue.cpp:690-692 | once an error is reported it stays, and no further dispatch gets past it |
| ScratchProgress.CountersMoveInStep | lib/queue.cpp:294-295 | ready is at most one ahead of done, and queued requests plus the one held are seq - done |
| ScratchProgress.StalledCanStep | lib/context.cpp:184-186 | a stalled command processor always has a retirement, an end-of-pipe write or a watcher step enabled |
| ScratchProgress.BackgroundRanks | lib/queue.cpp:167-295 | every background step lowers a rank |
| ScratchProgress.StallEnds | lib/queue.cpp:757-759 | without a lost request, any schedule of background steps that no background step can extend has passed the wait |
| ScratchProgress.StallCanEnd | lib/queue.cpp:757-759 | from a stalled state there is a schedule past the wait, no longer than the rank |
| ScratchProgress.BackgroundIsBounded | lib/context.cpp:184-186 | no schedule of background steps is longer than the rank |
| ScratchLimits.FailedAllocationRunsUnbacked | lib/queue.cpp:268-275 | a run in which a failed allocation leaves a kernel running with no region at all |
| ScratchStall.StallEndsIff | lib/queue.cpp:746-759 | in every run, lost requests or not, a stalled command processor can get past its wait if and only if the dispatch there queued a request of its own |
| ScratchStall.StuckForever | lib/queue.cpp:722-759 | a wait for a request that never reached the ring stays unmet under every continuation |
| ScratchStall.ResizeIsLetThrough | lib/queue.cpp:167-295 | a wait for one's own request is met by some run, whatever was lost before |
| ScratchWakes.MayPassIff | lib/queue.cpp:169-185 | requests lost or not, some schedule of the GPU and the watcher alone passes a wait for one's own request if and only if the calls of the handler that can still answer are as many as the answers owed |
| ScratchWakes.MustPassIff | lib/queue.cpp:169-185 | every such schedule that goes on while it can passes it if and only if the calls sure to answer are as many |
| ScratchWakes.OneIsOwed | lib/queue.cpp:294-295 | without a lost request one answer is owed and one call is sure |
| ScratchWakes.BackgroundBounds | lib/queue.cpp:167-295 | no step of the GPU or the watcher adds a call or takes a sure one away, counting the answers given |
| ScratchLimits.LostRequestStarves | lib/queue.cpp:714-722 | a run after which, a request having been lost, a resizing dispatch waits under every schedule without spurious wakeups |
| ScratchLimits.LostRequestBlocks | lib/queue.cpp:714-722 | a run after which, a request having been lost, a dispatch the region suffices for waits in every continuation |
| ScratchSizing.RegionHolds | lib/detail/scratch.cpp:99-110 | a region sized for a number of slots holds them |
| ScratchSizing.SlotHoldsLanes | lib/detail/scratch.cpp:28-31 | on every generation a slot is the least multiple of the granule with room for 64 lanes |
| ScratchSizing.RegionHoldsLanes | lib/detail/scratch.cpp:99-110 | a region is whole 64 KiB, holds 64 lanes for each slot and wastes less than a granule a slot and 64 KiB |
| ScratchSizing.RegisterHoldsLanes | include/libkfd/detail/scratch.h:24-70 | on every device each wave described in TMPRING_SIZE has room for its 64 lanes, and all of them fit the region |
| ScratchSizing.LetThroughIff | include/libkfd/detail/scratch.h:33-44 | a size is let through exactly when its granules fit the field's 13, 15 or 18 bits |
| ScratchSizing.DescribedIff | lib/detail/scratch.cpp:22-35 | TMPRING_SIZE is not zero exactly when there is a region and the size is let through |
| ScratchSizing.EverySlotCountIsWhole | lib/detail/scratch.cpp:95-96 | whatever the device reports, its slots are a multiple of its engines and at least one each |
| ScratchSizing.DeviceSlotsCover | lib/detail/scratch.cpp:80-97 | the device's slots are a multiple of its engines, no fewer than its units have, and less than an engine's share more |
| ScratchSizing.WavesFit | lib/detail/scratch.cpp:51-75 | the waves named never need more bytes than the region, on either generation |
| ScratchSizing.WavesMaximalPerEngine | lib/detail/scratch.cpp:51-61 | on GFX11 and later one wave more per engine would need more than the region or the device has |
| ScratchSizing.WavesMaximalTotal | lib/detail/scratch.cpp:62-75 | before GFX11 the count is a multiple of the engines and the largest that fits |
| ScratchSizing.WavesizeFits | include/libkfd/detail/scratch.h:37-44 | WAVESIZE times the granule is exactly a wave's bytes and fits the generation's field, for sizes a dispatch lets through |
| ScratchSizing.PackDecodesIff | lib/detail/scratch.cpp:77 | the packed fields read back exactly when the wave count is below 4096 |
| ScratchSizing.PackFields | lib/detail/scratch.cpp:77 | the low field is the count's low twelve bits and the high field the wave size with the count's other bits set in it |
| ScratchSizing.SizingIsSafe | lib/detail/scratch.cpp:22-78 | for every device and every slot count from the engine count up, the slots TMPRING_SIZE describes fit the region |
| ScratchSizing.SizingIsExactIff | lib/detail/scratch.cpp:49-77 | the wave size is exact exactly when the count's bits above twelve are set in it, and there are waves exactly when its low twelve are not all zero |
| ScratchSizing.SmallDeviceIsExact | lib/detail/scratch.cpp:55-66 | fewer than 4096 slots and engines on the device make both exact |
| ScratchSizing.LargeDeviceIsInexact | lib/detail/scratch.cpp:77-97 | a device whose own slot count gives waves of three granules where two were meant |
| ScratchSizing.FullDeviceHasNoWaves | lib/detail/scratch.cpp:77-97 | a device whose own slot count gives no waves at all |
| ScratchBackoff.TryOnce | lib/queue.cpp:228-252 | a try takes the lowest run that fits, or leaves the pool exactly as it was |
| ScratchBackoff.TryUndone | lib/queue.cpp:238-240 | returning a range just allocated restores the free list and the live map |
| ScratchBackoff.NextSmaller | lib/queue.cpp:230-231 | with groups of at most two waves an engine every try has fewer slots |
| ScratchBackoff.WavesHoldTheGroup | lib/queue.cpp:211-216 | a work-group takes the fewest waves of 64 lanes that hold its threads, and at least one |
| ScratchBackoff.FindRegion | lib/queue.cpp:205-266 | a search that stops anywhere ends there: the first try that can succeed does, and giving up leaves the pool unchanged |
| BackoffWrap.NextPerEngine | lib/queue.cpp:230-231 | a failure takes a stride off the slots per engine, and adds one round of the 32-bit range when there are fewer |
| BackoffWrap.SlotsWalk | lib/queue.cpp:230-231 | after the first failure the slots per engine walk down in strides, modulo a round |
| BackoffWrap.SearchEndsIff | lib/queue.cpp:221-258 | for every engine count, group and start, with every try failing the search ends if and only if it starts with too few slots or the residue its slots per engine keep, modulo the greatest common divisor of stride and round, is below two |
| BackoffWrap.HopelessStopsIff | lib/queue.cpp:221-266 | when every try fails the search has somewhere to stop exactly under that condition |
| BackoffWrap.SmallGroupsEnd | lib/queue.cpp:213-231 | groups of at most two waves an engine always end it |
| BackoffWrap.OneEngineEndsIff | lib/queue.cpp:230-231 | on one engine, with groups of a power of two, the search ends if and only if it starts below two slots or its first step down is less than two above a multiple of the group |
| BackoffWrap.SearchCanLoop | lib/detail/scratch.cpp:80-97 | a device whose own slot count and a group size go round for ever |
| Packets.HeaderFields | include/libkfd/packets/pm4.h:35-38 | a header's opcode and 14-bit count read back |
| Packets.ParseAppend | include/libkfd/packets/pm4.h:21-34 | a stream that starts with whole packets splits as those and the rest |
| Packets.PaddingIsOneNopIff | include/libkfd/packets/pm4.h:138-150 | padding is one NOP spanning exactly its slots if and only if they are at most 16384 |
| RingPointers.InFlightIsExact | lib/queue.cpp:559-576 | the 32-bit occupancy from the truncated read pointer is the exact distance |
| Packets.PaddingReadsIff | lib/queue.cpp:615-625 | padding of any length reads as NOPs alone if and only if it is SDMA padding or at most 16384 dwords |
| Packets.LongPm4PaddingBlocks | include/libkfd/packets/pm4.h:138-150 | a longer PM4 padding stops the command processor, whatever follows |
| Packets.XgmiPaddingBlocks | lib/queue.cpp:619-625 | the padding of an XGMI queue starts no SDMA packet |
| RingPointers.XgmiInFlightIff | lib/queue.cpp:572-574 | on an XGMI queue the occupancy is exact if and only if three times the read position is a multiple of the ring |
| RingPointers.WritePosExactIff | lib/queue.cpp:609-611 | an engine is told the true write position if and only if it is not an XGMI engine or nothing is written |
| RingLog.LogParses | lib/queue.cpp:615-641 | reading the published stream back gives the submissions in order with only NOPs between, when every padding reads as NOPs |
| RingLog.ReadsBackIff | lib/queue.cpp:615-641 | it does if and only if it is an SDMA stream or holds no padding above 16384 dwords |
| RingLog.LogFits | lib/queue.cpp:615-634 | no packet of the stream crosses the end of the ring |
| Ring.Ring.EngineStep | include/libkfd/packets/pm4.h:21-34 | the hardware's fetch takes exactly the next whole packet out of ring memory |
| Ring.Ring.WaitForRoom | lib/queue.cpp:559-586 | the poll succeeds exactly when the dwords fit behind what is unread, which is exactly when they fit once the engine has taken as many packets as it has time for |
| Ring.Ring.RoomInTime | lib/queue.cpp:559-586 | on a ring that reads back, time for as many packets as there are unread dwords makes room for anything smaller than the ring |
| Packets.TakenAtLeast | include/libkfd/packets/pm4.h:21-34 | in a stream of whole packets so many packets are at least so many dwords, or all of it |
| Ring.Ring.Publish | lib/queue.cpp:638-645 | publishing appends to the stream and keeps every unread dword in its slot |
| Ring.Ring.PadToEnd | lib/queue.cpp:615-634 | the padding takes the write position to the next turn exactly when the engine makes room in time, and otherwise nothing changes |
| Ring.Ring.Submit | lib/queue.cpp:588-648 | a submit publishes its data once, preceded by padding when it would cross the end; it times out only if padding or data did not fit at the last poll, without padding it succeeds exactly when the engine makes room in time, and on a ring that reads back, with no PM4 padding above 16384 dwords, it always does given time for a ring of packets at each wait |
| Ring.Ring.RefinesFifo | lib/queue.cpp:594-648 | what was consumed and what is unread are together the submitted packets in order with NOPs between, none across the end |
| Ring.Ring.Deliver | lib/queue.cpp:594-648 | in every state the packets submitted are delivered if and only if no PM4 padding is above 16384 dwords |
| Ring.Ring.SubmitAll | lib/queue.cpp:588-648 | over any sequence of submits at any pace, timeouts included, the engine gets exactly the accepted packets in order with only NOPs between, on SDMA always and on PM4 if and only if no padding was above 16384 dwords; with submissions smaller than the ring that need none longer, and time at each wait, all are accepted |
| Ring.SubmitReadsBackIff | lib/queue.cpp:615-641 | a submission keeps a ring readable if and only if it is SDMA, needs no padding, or pads at most 16384 dwords |
| Ring.WaitsAreSatisfiable | lib/queue.cpp:615-635 | the padding is smaller than the submission, and with all read the occupancy the host computes leaves room for either |
| FutexMutex.StepKeepsOwnership | lib/detail/mutex.cpp:21-49 | every atomic operation keeps one owner and the word UNLOCKED exactly when there is none |
| FutexMutex.MutualExclusion | include/libkfd/detail/mutex.h:26-38 | at most one owner in every reachable state, and the word is not UNLOCKED under it |
| FutexMutex.AcquireFindsItFree | include/libkfd/detail/mutex.h:26-33 | a thread becomes owner only by an operation that finds the word UNLOCKED |
| FutexMutex.LockReturnsOwning | include/libkfd/detail/mutex.h:26-33 | a thread inside `lock` is, after any operation of anybody, still inside it or the owner |
| FutexMutex.InsideOrOwning | include/libkfd/detail/mutex.h:26-38 | in every run a thread is inside `lock` or the owner exactly when the latest of its calls is `lock` |
| FutexMutex.FreeLockIsTaken | lib/detail/mutex.cpp:22-43 | from any point inside `lock` a thread alone takes a free lock within three operations |
| FutexMutex.HeldLockIsSleptOn | lib/detail/mutex.cpp:22-44 | from any point inside `lock` a thread alone sleeps on a held lock, with the word CONTENDED, after at most five operations more than the spin limit |
| FutexMutex.UncontendedIsFast | include/libkfd/detail/mutex.h:26-38 | without contention lock and unlock are one operation each, call no futex and leave everything as it was |
| FutexMutex.NoLostWakeup | lib/detail/mutex.cpp:37-49 | a sleeper implies a contended word, an unlocker that owes a wake or a thread about to swap CONTENDED in |
| FutexMutex.SleeperCanAcquire | lib/detail/mutex.cpp:37-49 | from every reachable state at most four operations of the threads already there give a sleeper the lock |
| FreeList.FirstFitIsLowest | lib/detail/pool_allocator.cpp:38-57 | first fit finds the lowest free run of the size, and fails only when there is none |
| FreeList.TakeIsExact | lib/detail/pool_allocator.cpp:43-54 | taking from a block keeps the list canonical and removes exactly those bytes |
| FreeList.ReleaseIsExact | lib/detail/pool_allocator.cpp:72-103 | sorted insert and two-way coalescing keep the list canonical and add exactly the block's bytes |
| FreeList.CanonicalIsUnique | lib/detail/pool_allocator.cpp:86-103 | two canonical lists with the same free bytes are the same list |
| PoolAllocator.AllocKeepsPartition | lib/detail/pool_allocator.cpp:30-58 | an allocation is disjoint from every live block and keeps live and free bytes a partition |
| PoolAllocator.FreeKeepsPartition | lib/detail/pool_allocator.cpp:60-106 | a matching free keeps the partition |
| PoolAllocator.EveryRunIsCanonical | lib/detail/pool_allocator.cpp:30-106 | after any run the list is canonical, and with nothing live it is the single block it started as |
| PoolAllocator.TakeThenRelease | lib/detail/pool_allocator.cpp:60-106 | giving back what was just taken restores the same list |
| PoolAllocator.PoolAllocator.Create | lib/detail/pool_allocator.cpp:14-28 | succeeds exactly for a non-empty region, a power-of-two alignment and an aligned base with memory for the list and the mutex; EINVAL for bad arguments, ENOMEM without the memory |
| PoolAllocator.PoolAllocator.Allocate | lib/detail/pool_allocator.cpp:30-58 | the lowest run that fits, ENOMEM only when there is none, and the wrapped request's answer |
| PoolAllocator.PoolAllocator.Deallocate | lib/detail/pool_allocator.cpp:60-106 | the list becomes the released one; every refusal leaves it alone |
| PoolAllocator.PoolAllocator.InsertFree | lib/detail/pool_allocator.cpp:72-103 | the in-place edit is the release function |
| Arith.RoundCoversIff | lib/detail/pool_allocator.cpp:34 | rounding covers the request exactly when the sum does not wrap, and is zero past that |
| Registers.SetShReg | include/libkfd/packets/pm4.h:713-721 | the packet is appended to those before it and nothing after it is touched |
| Registers.EncodeRuns | include/libkfd/packets/pm4.h:701-721 | encoded writes are whole packets, and running them makes the writes in order |
| Registers.NopTail | lib/queue.cpp:288-291 | a NOP header over leftover dwords changes no register |
| DispatchSetup.PackUserSgprs | include/libkfd/packets/pm4.h:924-975 | the running index fills the slots with the user SGPRs that `DispatchAbi` places |
| DispatchSetup.BuildDispatchSetup | include/libkfd/packets/pm4.h:870-991 | the buffer holds exactly the encoded register writes of the dispatch, in at most 79 dwords |
| DispatchAbi.KernelFindsItsLaunch | include/libkfd/packets/pm4.h:870-991 | after the buffer has run, whatever was in the registers, each property's SGPRs are after those of the lower ones and hold the dispatch's own pointers, scratch address and descriptor, private size and preloaded arguments; block size, entry, resources and scratch registers are the dispatch's |
| DispatchAbi.PartIsAt | include/libkfd/abi.h:205-220 | each property's part of the user SGPRs starts after as many as the lower properties take |
| DispatchAbi.SrdDescribes | include/libkfd/packets/pm4.h:805-827 | the scratch descriptor's fields read back as the region's address and size, the lane swizzle and the wave size's stride |
| DispatchSetup.BuildIb | lib/queue.cpp:278-291 | the indirect buffer starts with the scratch writes and one NOP covers the rest, whatever it held |
| DispatchSetup.BuildNopIb | lib/queue.cpp:268-272 | on failure the buffer is one NOP that changes nothing |
| LateBinding.IbRuns | lib/queue.cpp:107-133 | the buffer is whole packets filling exactly 20 dwords and makes exactly the scratch writes |
| LateBinding.LateEqualsEarly | include/libkfd/packets/pm4.h:979-987 | for every kernel, generation, stale and fresh scratch, late binding leaves the registers of early binding |
| LateBinding.LateWordsEqualEarly | lib/queue.cpp:737-763 | the same over the dwords in the ring and the buffer |
| BufferLayout.OneBufferServesIff | lib/queue.cpp:286-287 | a buffer built for one kernel's properties serves another's launches if and only if both place and describe scratch alike |
| CompletionQueue.StepKeepsInv | include/libkfd/queue.h:185-202 | on any ring, work before the signal that last wrote the EOP word has retired, and so has work before each signal whose event has fired |
| CompletionQueue.StepKeepsApart | include/libkfd/queue.h:193-195 | the wait of a signal numbered above everything before a launch holds until the launch has retired |
| CompletionQueue.RetiredIffCovered | include/libkfd/queue.h:190-198 | on any ring, a launch has retired in every run in which a later signal has decremented if and only if that signal, or one between, has a number above all before the launch |
| CompletionQueue.EventMeansDone | include/libkfd/queue.h:199-200 | on any ring, once a signal's event has fired its fence has been decremented and all work before it has retired |
| CompletionQueue.SoundIffOrdered | include/libkfd/queue.h:190-200 | decrements follow all earlier work, and events follow decrements, in every run if and only if the numbers are ordered |
| CompletionQueue.UnorderedFails | include/libkfd/queue.h:190-200 | on every other ring some run decrements early |
| Completion.RingHoldsSubmissions | include/libkfd/queue.h:190-201 | the ring holds what was submitted in order, the counter is the number of draws, and a number stays with its thread until its signal is submitted |
| Completion.OneSubmitterIsSound | include/libkfd/queue.h:185-202 | numbers drawn one at a time make every run sound |
| Completion.OwnWorkIsDone | include/libkfd/queue.h:258-265 | whatever threads race, a launch submitted before its thread drew the number of a signal has retired once that signal has decremented |
| Completion.RaceIsUnsound | include/libkfd/queue.h:190-201 | two threads that draw and submit in opposite orders can have a fence decremented early |
| Completion.FenceCounts | include/libkfd/queue.h:196-198 | over any number of queues the fence is its first value less the executed decrements, modulo 2^64 |
| Completion.ZeroMeansDone | include/libkfd/queue.h:183-202 | a fence set to the number of its signals is zero only when every one has executed, every launch covered at one has retired, and on ordered rings all work before each has |
| CompletionProgress.RunsEnd | include/libkfd/queue.h:185-202 | no run of a queue is longer than twelve steps for each operation |
| CompletionProgress.CompletesIff | include/libkfd/queue.h:190-200 | every run that cannot go on has carried out everything, to the last event, if and only if no signal numbered at most as high as one before it is followed by a higher one |
| CompletionProgress.OneSubmitterCompletes | include/libkfd/queue.h:185-202 | numbers drawn one at a time leave no run stuck |
| CompletionProgress.RaceCanStarve | include/libkfd/queue.h:190-201 | a race of three signals can leave the queue waiting for a number that the EOP word has lost again |
| CompletionProgress.InOrderCompletes | include/libkfd/queue.h:190-200 | with the first writes of signals in ring order, every run on any ring that cannot go on has carried out everything |
| GnuHash.SymName | lib/detail/elf.cpp:365-375 | a name holds no NUL, and a non-empty one is the terminated string at its offset |
| GnuHash.SymNameIs | lib/detail/elf.cpp:365-375 | a name is the whole string up to the NUL that ends it, and empty when none does |
| GnuHash.HashGnu | include/libkfd/detail/elf.h:349-354 | wrapping after every character gives the polynomial modulo 2^32 |
| GnuHash.KnownHashes | include/libkfd/detail/elf.h:349-354 | the published values of the hash |
| GnuHash.ListedIsReached | lib/detail/elf.cpp:399-424 | a walk from its bucket's entry comes to every symbol of a well-formed section |
| GnuHash.NeverEndsIff | lib/detail/elf.cpp:409-424 | a walk never ends, from whichever symbol, if and only if it goes on from every 32-bit index |
| GnuHash.EndlessIsHuge | lib/detail/elf.cpp:409-424 | that takes 2^32 symbols and chain words indexed from symbol 0 |
| GnuHash.WellFormedEnds | lib/detail/elf.cpp:409-424 | and never happens in a well-formed section |
| GnuHash.HugeIsEndless | lib/detail/elf.cpp:409-424 | a section whose walk for every non-empty name never ends |
| GnuHash.HugeLoopsIff | lib/detail/elf.cpp:400-424 | with all filter bits set the lookup in it loops for every non-empty name, with none set for no name |
| GnuHash.Walk | lib/detail/elf.cpp:409-424 | in every other section the walk takes the rounds of 32-bit indices up to the first symbol it does not go on from, which is the answer if its hash and name match, and so the first match on its chain |
| GnuHash.Lookup | lib/detail/elf.cpp:377-426 | in every section in which it does not loop, the walk's answer from the hash's bucket when both filter bits are set and none otherwise; on a well-formed one the linear search's answer |
| ElfSymbols.SmallFilesEnd | lib/detail/elf.cpp:430-477 | in a file below 16 GiB no lookup loops |
| ElfSymbols.TableBytes | include/libkfd/detail/elf.h:107-120 | every count, 64-bit filter number, bucket entry and chain word is the little-endian number at its place in the file |
| ElfSymbols.IsLookedInto | lib/detail/elf.cpp:430-477 | a section in the file whose links lead to symbols and strings in the file is looked into, with exactly those symbols' names |
| ElfSymbols.LinkedIsWellFormed | lib/detail/elf.cpp:377-426 | a table whose bytes a linker wrote as the format says, filter bits included, is well formed |
| ElfSymbols.FailsIff | lib/detail/elf.cpp:438-465 | a section makes the search fail exactly when its bytes or strings are missing (ERANGE), or it is too small or a link leads nowhere (ENOEXEC) |
| ElfSymbols.SearchFindsFirst | lib/detail/elf.cpp:430-477 | on the bytes of a well-linked file the search finds the first symbol of the name in the first section that indexes one, and none exactly when there is none |
| ElfSymbols.FindSymbol | lib/detail/elf.cpp:430-477 | a symbol found has the name; the answer on a well-linked file is that first symbol; an error is a broken section's, and no broken section is passed over |
| Bytes.U64Is | lib/loader.cpp:142-149 | a 64-bit number is its eight bytes, the lowest first |
| Bytes.ReadBack | lib/loader.cpp:154-156 | a 64-bit value written little-endian reads back |
| Loader.LoadExtent | lib/detail/elf.cpp:271-293 | the tightest range of the loadable segments and their largest alignment; ERANGE exactly when one overflows, ENOEXEC when the range is empty |
| Loader.CopySegments | lib/loader.cpp:94-108 | every byte is that of the last segment covering it or zero, or ERANGE exactly when some segment cannot be staged |
| Loader.FindRela | lib/loader.cpp:118-131 | of the section's 64-bit pairs before the first tag 0, the values of the last with tag 7 and the last with tag 8 |
| Loader.TableSays | lib/loader.cpp:114-134 | the table applied is what the first dynamic segment's bytes say; none when they give no address or no size |
| Loader.FootprintCovers | lib/loader.cpp:70-76 | the image is whole pages, aligned as its strictest segment, and holds all segments, unless its size wraps to zero |
| Loader.ApplyTable | lib/loader.cpp:114-161 | the first dynamic segment's table is applied, ERANGE exactly when it does not fit, or an entry whose copy leaves the image |
| Loader.Load | lib/loader.cpp:70-161 | the staged image, the error the source finds first, or the entry whose copy leaves the image |
| Loader.LoadsInsideIff | lib/loader.cpp:146-157 | when no slot touches the table, a load stays inside the image if and only if no entry of the staged image wraps |
| Loader.LoadedImage | lib/loader.cpp:93-161 | byte by byte the image is segments and zeros outside the slots and rebased values inside, and two bases differ in the slots alone by their difference |
| Relocation.PassesOutsideIff | lib/loader.cpp:150-156 | the bound check lets a slot outside the image through exactly when its end wraps 2^64 |
| Relocation.LastByteWraps | lib/loader.cpp:150-156 | an entry for which it does |
| Relocation.ApplyRelocations | lib/loader.cpp:144-159 | the in-place loop is the entry-by-entry function, the table read from the image as it changes, up to the first copy that leaves the image |
| Relocation.StaysInsideIff | lib/loader.cpp:146-159 | with no slot on the table, all copies stay inside if and only if no entry of the initial image wraps |
| Relocation.RelocateIsRebase | lib/loader.cpp:144-159 | when slots keep apart each gets its rebased value and every other byte stays |
| Relocation.SlotHolds | lib/loader.cpp:149-156 | a slot reads as base - lo + addend modulo 2^64 |
| Relocation.SlotFromBytes | include/libkfd/detail/elf.h:96-103 | the same in the table's 64-bit numbers: 24 bytes an entry, the slot first, the type in the low half of the second, the addend third |
| Relocation.LoadIsPureRebase | lib/loader.cpp:110-161 | images for two bases differ in the slots alone, by the difference of the bases |
| Mailbox.FlipKeepsInv | tools/computetoy/drm_window.cpp:530-550 | a flip keeps the order of the slots and shows a newer frame |
| Mailbox.PresentKeepsInv | tools/computetoy/drm_window.cpp:430-458 | presenting a frame drawn in an unheld buffer keeps the order |
| Mailbox.DistinctBuffers | tools/computetoy/drm_window.cpp:8-15 | slots that hold frames hold different buffers |
| Mailbox.RunKeepsInv | tools/computetoy/main.cpp:160-202 | every run of presents and flips keeps the slots in order and the newest frame in the last of them |
| Mailbox.WaitsForAFlipIff | tools/computetoy/drm_window.cpp:424-428 | in every run waiting has a flip outstanding if and only if there are at least two buffers |
| Mailbox.NeverOverwritesIff | tools/computetoy/drm_window.cpp:455-457 | in every run a parked frame is never overwritten once one is shown if and only if there are at most three buffers |
| Mailbox.Window.OnPageFlip | tools/computetoy/drm_window.cpp:530-550 | the handler shows the pending frame and submits the parked one |
| Mailbox.Window.WaitIdle | tools/computetoy/drm_window.cpp:424-428 | nothing but flips happens, two at most; it never waits without one outstanding, and leaves the buffer unheld |
| Mailbox.Window.DrainEvents | tools/computetoy/drm_window.cpp:525-528 | every flip that has come is handled, until none is left or none can come |
| Mailbox.Window.Present | tools/computetoy/drm_window.cpp:430-458 | the slots are those of the flips that came and then one presentation, and what has been shown grows by the flips alone |
| Mailbox.RenderLoop | tools/computetoy/main.cpp:160-202 | over every run of the slots' flips and presentations shown frames strictly increase and the newest frame is shown last or on its way |

## Left out

- Ioctls, mmap, DRM, XCB, sysfs and clocks: nondeterministic steps or parameters; a deadline is a number of polls.
- Cache flushes and weak memory ordering: sequential consistency with end-of-pipe writes.
- The trap handler and kernels: foreign hardware semantics.
- Finite tables (machine names, compatibility, capability bits), topology parsing, kernarg filling: only easy members.
- `dma_copy` and `dma_fill`: their largest chunks do not fit the documented byte-count fields, so no round trip holds.
- Encodings of packets other than SET_SH_REG and NOP: fixed words, so only easy members; the step machines take their
  meaning.
- RAII moves, `Box`, `SmallVector`, `Error` messages: sequences and result values.
- Sequence numbers past 2^32, failed display commits and scratch sizing for several XCCs.
- Kernels in the scratch machine carry a need and two registers; the user SGPRs the indirect buffer also sets are in
  `LateBinding`, where layouts differ.
- The mutex, the scratch protocol and the completion queues are step machines over values: no aliasing is modelled.
- The comment that the GPU never stalls on vsync (`tools/computetoy/drm_window.cpp:14-15`): waiting also covers the
  parked slot, so it is not claimed.
- Ring.Ring.Submit: the source's 64-bit write position is an unbounded number here. XGMI queues are excluded, because
  neither their occupancy, their write pointer nor their padding is right.
- PoolAllocator.PoolAllocator.Deallocate: a pointer or size the caller does not own is answered as the code does, but
  the partition is promised only for matching frees.
- GnuHash.Lookup: asks that it not loop, that is, not walk a section that the filter lets it into and in which the
  walk never ends; `ElfSymbols.FindSymbol` asks the same of every section it looks into.
- ScratchBackoff.FindRegion: asks that the search stop somewhere, since otherwise it does not return; it starts from
  any slot count, the device's own (`ScratchSizing.DeviceSlots`) being one. The device's own is computed for
  power-of-two numbers of shader engines, which is what `align_up` takes.
- ScratchSizing.SizingIsExactIff: the register's fields are not promised beyond this condition; the code does not
  check it.
- Loader.Load: asks for power-of-two alignments, which is what `align_up` takes; what a copy outside the image does is
  not modelled, so the load ends at that entry. The buffer allocation, the transfer to VRAM and the completion signals
  around it are not modelled.
- DispatchSetup.PackUserSgprs: kernarg memory is as long as the preload field asks for.
- Mailbox.Window.HandleEvents: one event a poll; only one flip can be outstanding.
