# A verified model of the minima kernel's core

This project models the parts of the minima x86 kernel whose correctness is least obvious from
reading them, and proves what they are relied on for. `dafny verify dfyconfig.toml` checks all of it.

Where the code updates things in place, the model does: the slab allocator, the paged memory, the
address arena, the run queue, the driver loader, the floppy cache and the linked list are classes
whose methods follow the source's loops and branches. Each such method is tied to a specification
function, a relation or a sequence, and the theorems are about those. Concurrent code is a step
relation with one shared memory access per step, and its theorems range over every interleaving.

| files | what they model |
|---|---|
| `Slab`, `SlabInvariant`, `SlabRuns`, `SlabTheorems`, `SlabAllocator` | the slab allocator, whose metadata lives in its own 32-byte slabs |
| `Atomic`, `Semaphore`, `RingBuffer` | compare-and-exchange, the semaphore built on it, and the bounded buffer built on three of those |
| `PageStack` | the lock-free stack of free page frames |
| `VmArena`, `PageTables`, `AddressSpace`, `VirtualMemory` | vmalloc and vmfree: address ranges, page tables, and the two together |
| `Scheduler`, `SchedulerRuns` | choosing the next task, and how long a ready task waits |
| `Drivers`, `DriverLoader` | loading drivers by rotating a queue until dependencies are met |
| `BlockTree`, `BlockFile`, `InodeBlocks`, `Ext2`, `Ext2Read` | ext2: index arithmetic, the copying loop, an inode's blocks, the device, file reads |
| `FloppyCache`, `FloppyLru` | the floppy cylinder cache |
| `IList`, `Strlen`, `Decimal` | the intrusive list, word-at-a-time strlen, printing and parsing decimals |
| `Machine`, `Common`, `Arith`, `Counting` | sizes of the machine, sequences, division facts, counting in sequences |

## Where the code falls short of the obvious statement

Each of these is a theorem: the exact condition, and where useful a concrete input.

- Slab allocator. The metadata of every slab is a chunk of an older 32-byte slab, back to the static
  bootstrap slab. Once the last block is freed, the bootstrap slab goes too, and the next allocation
  recurses without end (`AllocReturnsIff`): one allocation and its release are enough, on any
  frames (`OneAllocOneFree`). Requests of up to 4 bytes get a whole page
  (`SizeIdxTightest`).
- Page frame stack. An interleaving acts as atomic pops and pushes of one stack exactly when no
  exchange of `pf_alloc` succeeds with a link that is no longer the head's, and none dereferences NULL
  (`AtomicIffSound`). Not putting back a frame that a pending `pf_alloc` has looked at suffices
  (`CalmRunsAreSound`). `HeldFrameBecomesFree` is a run in which a frame that a task holds becomes the
  head of the free stack.
- Scheduler. `find_next_runnable` can wake the reaper behind the scan that decides and so overlook it.
  That is the only way its choice is not best, and the run queue on entry tells when it happens
  (`ChoiceBestIff`). It needs a stack overflow (`NoOverflowBest`).
- `sleep` adds the interval to the uptime in 32 bits. If the sum wraps, the task does not sleep at all
  (`SleepTooLong`).
- `driver_init` dereferences NULL exactly when a needed driver depends on one whose probe fails
  (`CrashesIff`, for instance `FailedDependencyCrashes`). Otherwise it returns exactly when at most one
  driver is not needed (`ReturnsIff`); two idle on-demand drivers rotate for ever (`IdleDriversRotate`).
- `vm_unmap` never looks at the table of the directory entry in which the range ends, so that
  table stays even when it is empty.
- `ext2_read` computes its block index from the bytes already copied and not from the file offset, so
  it always copies from offset % block_size on (`Read`). `ReadRightIff` says when that gives the right
  bytes of a given file, `CopyRightIff` for which offsets it does whatever the file holds, and
  `WrongByte` is a file and an offset where it does not. Which blocks can be read at all, zero pointers
  and unreadable sectors included, is stated exactly by `ReadIBlockIsFlat`.
- `try_get_num` reads the right value exactly for one to eleven digits below 2^32. Its assertion does
  not catch every other number: "10000000000" is read as 1410065408 (`ParseRightIff`, `SilentWrap`).
- `v_ilist_insert`: the branch for a result of -1 is never reached, as its comment suspects (`Scan`).

## Model

| member | source | states |
|---|---|---|
| `Slab.RoundUpIsLeastPow2` | kernel/mm/slab.c:53-58 | the result is the least power of two that is at least v |
| `SlabAllocator.RoundUpPow2` | kernel/mm/slab.c:53-58 | the doubling loop computes that for every v up to 2^31, within 32 bits |
| `Slab.SizeIdxTightest` | kernel/mm/slab.c:99-113 | 5 to 4096 bytes get the smallest class that fits; up to 4 bytes get a page; the slot is long enough exactly when at most a page was asked for |
| `SlabInvariant.PrepareSpec` | kernel/mm/slab.c:78-86 | a prepared slab has every slot of its page on the freelist, each once, and free_slots equals their number |
| `SlabInvariant.PutKeepsInv` | kernel/mm/slab.c:60-66 | putting back a live chunk keeps the whole heap invariant, the chunk moving from live to free |
| `SlabInvariant.GetKeepsInv` | kernel/mm/slab.c:68-76 | taking a chunk keeps the invariant, the chunk moving from free to live; it was not live before |
| `SlabInvariant.NewSlabKeepsInv` | kernel/mm/slab.c:91-95 | a new slab under a live 32-byte chunk keeps the invariant: pages conserved, forest extended |
| `SlabInvariant.ReleaseKeepsInv` | kernel/mm/slab.c:167-172 | unlinking an all-free slab keeps the invariant and leaves its metadata chunk live for the next level to free |
| `SlabInvariant.ReleaseStack` | kernel/mm/pfa.c:284-293 | the page released last is the one pf_alloc returns next, and the free frames stay linked through their first words |
| `SlabInvariant.WriteKeepsInv` | kernel/mm/slab.c:60-76 | a client's store inside its own block disturbs no freelist, though freelists are threaded through free chunks |
| `SlabInvariant.AllFree` | kernel/mm/slab.c:167-172 | when free_slots says all slots are free, no live chunk is on the page |
| `SlabInvariant.ReachesBootstrap` | kernel/mm/slab.c:91-95 | following metadata to the slab it lives in ends at the bootstrap slab |
| `SlabInvariant.BootstrapLast` | kernel/mm/slab.c:115-124 | the bootstrap slab is gone only when no slab is left |
| `SlabInvariant.BlocksDisjoint` | kernel/mm/slab.c:131-153 | distinct live blocks, client data and metadata alike, never overlap |
| `SlabRuns.SlabReady` | kernel/mm/slab.c:131-153 | a slab of the wanted class with a free chunk is found or made in at most two nested calls, one 32-byte chunk staying free |
| `SlabRuns.AllocKeeps` | kernel/mm/slab.c:131-153 | the block is fresh, zeroed and long enough; every earlier block keeps its address, size and contents |
| `SlabRuns.FindFact` | kernel/mm/slab.c:159-179 | the nested search finds the one slab on the block's page |
| `SlabRuns.Cascade` | kernel/mm/slab.c:159-179 | freeing a chunk, its emptied page, that page's metadata and so on ends, and exactly the one client block is gone |
| `SlabRuns.FreeKeeps` | kernel/mm/slab.c:159-179 | freeing a live client block removes exactly it; the others keep size and contents, and a free 32-byte chunk remains unless nothing is left |
| `SlabTheorems.InitGood` | kernel/mm/slab.c:115-128 | slab_init establishes the invariant with an empty heap |
| `SlabTheorems.HeapRefinement` | kernel/mm/slab.c:131-179 | after any sequence of allocations, frees of live blocks and client stores, the allocator is an ideal heap: same blocks, same contents, invariant over the same frames |
| `SlabTheorems.BlocksSeparate` | kernel/mm/slab.c:131-179 | at every point of every run outstanding blocks overlap neither each other nor metadata |
| `SlabTheorems.StackInMemory` | kernel/mm/slab.c:131-179 | at every point of every run the free stack is the list pf_free has linked through the free frames, untouched by slabs and clients |
| `SlabTheorems.OwnerExists` | kernel/mm/slab.c:159-179 | any slab that is in use leads, along ever younger metadata, to a client block |
| `SlabTheorems.NoSlabsNoEnd` | kernel/mm/slab.c:131-153 | with no slab left the nested allocation never returns, whatever the stack |
| `SlabTheorems.AllocReturnsIff` | kernel/mm/slab.c:131-153 | at the end of any run an allocation returns exactly when nothing was ever allocated or something is outstanding; one nested call is then enough |
| `SlabTheorems.DrainedNoEnd` | kernel/mm/slab.c:131-179 | at the end of any run that has freed everything it allocated, no allocation of any size ever returns |
| `SlabTheorems.OneAllocOneFree` | kernel/mm/slab.c:131-179 | on any three or more frames, one allocation and its release lead to that state |
| `SlabTheorems.ThreeFrames` | kernel/mm/slab.c:131-179 | such a run, on three given frames |
| `SlabAllocator.Allocator.ChunkPut` | kernel/mm/slab.c:60-66 | the in-place push is the specification's push on that slab's freelist |
| `SlabAllocator.Allocator.ChunkGet` | kernel/mm/slab.c:68-76 | the in-place pop is the specification's pop, and the chunk is zeroed |
| `SlabAllocator.Allocator.PrepareSlab` | kernel/mm/slab.c:78-86 | page and loop over the slots give the specification's prepared slab |
| `SlabAllocator.Allocator.SlabInit` | kernel/mm/slab.c:115-128 | the state is the specification's initial one |
| `SlabAllocator.Allocator.GrabASlab` | kernel/mm/slab.c:91-95 | the new slab is the specification's, the nested allocation included |
| `SlabAllocator.Allocator.DoSlabAlloc` | kernel/mm/slab.c:131-153 | with a chunk on offer in its class or the 32-byte class it returns what the specification does and never nests twice |
| `SlabAllocator.Allocator.DoSlabFree` | kernel/mm/slab.c:159-179 | the recursive free ends and reaches the specification's state |
| `Semaphore.PendStepTakesOne` | kernel/sync.c:42-67 | one step of sem_pend takes at most one unit, exactly when it acquires, and never one that is not there |
| `Semaphore.AcquiresIff` | kernel/sync.c:42-67 | a step acquires exactly when the copied count is current and not zero |
| `Semaphore.AloneOutcome` | kernel/sync.c:42-67 | undisturbed, sem_pend takes a unit in two steps if there is one, a woken sleeper too; else it sleeps after two tries, every time |
| `Semaphore.CountConserved` | kernel/sync.c:15-67 | in every interleaving, with any wakeups, count = initial + posts - completed pends and is never negative |
| `Semaphore.UnitsConserved` | kernel/sync.c:15-67 | with paired use, count plus the tasks inside is the initial value at every step |
| `Semaphore.MutualExclusion` | kernel/sync.c:15-67 | from initial value 1 no two tasks are ever between sem_pend and sem_post |
| `RingBuffer.MaskIsMod` | kernel/lib/ringbuf.c:12-28 | for a power of two the index mask is reduction modulo the capacity |
| `RingBuffer.MaskWrapsIffPow2` | kernel/lib/ringbuf.c:12-28 | the mask wraps every index correctly exactly for powers of two |
| `RingBuffer.StepKeepsInv` | kernel/lib/ringbuf.c:12-28 | every shared access by any writer or reader keeps the joint invariant of three semaphores, two indices and the buffer |
| `RingBuffer.RunInv` | kernel/lib/ringbuf.c:4-28 | the invariant holds at every point of every run from rb_initialize |
| `RingBuffer.FifoOrder` | kernel/lib/ringbuf.c:12-28 | the bytes taken out are a prefix of the bytes put in, in order, for any number of writers and readers |
| `RingBuffer.CallsAccounted` | kernel/lib/ringbuf.c:12-28 | at every point of every run, the bytes a task was asked to write are those it has put in plus the one on its way, and the bytes it has taken out are those it has returned plus the one it owes |
| `RingBuffer.SlotsConserved` | kernel/lib/ringbuf.c:12-28 | n_free + n_used + writers in flight + readers in flight = capacity at every step |
| `RingBuffer.CopySafe` | kernel/lib/ringbuf.c:12-28 | every copy is in bounds, a writer's overwrites no unread byte, and a reader's takes the oldest unread one |
| `RingBuffer.QueueExclusive` | kernel/lib/ringbuf.c:12-28 | no two tasks are inside the queue semaphore together |
| `RingBuffer.WriteAlone` | kernel/lib/ringbuf.c:12-19 | with a free slot and nobody else active, rb_write puts its byte at the end and returns |
| `RingBuffer.ReadAlone` | kernel/lib/ringbuf.c:21-28 | with a byte present and nobody else active, rb_read returns the oldest one |
| `RingBuffer.WriteThenRead` | kernel/lib/ringbuf.c:12-28 | from an empty, idle buffer a write and then a read by anyone end, and the read returns the byte written |
| `RingBuffer.FirstWriteThenRead` | kernel/lib/ringbuf.c:4-28 | there is such a run from rb_initialize |
| `PageStack.PopKeepsInvIff` | kernel/mm/pfa.c:250-267 | a successful exchange of pf_alloc pops the ideal stack, keeping all ownership, exactly when it installs the head's own link |
| `PageStack.PushKeepsInv` | kernel/mm/pfa.c:284-293 | a successful exchange of pf_free pushes, whatever other tasks have seen before |
| `PageStack.AllocEnds` | kernel/mm/pfa.c:250-267 | pf_alloc goes on until it sees an empty head, dereferences NULL or its exchange succeeds; then the task holds the frame that was the head, and did not before |
| `PageStack.FreeEnds` | kernel/mm/pfa.c:284-293 | pf_free goes on with its frame until its exchange succeeds; then that frame is the head |
| `PageStack.StepRefinesIff` | kernel/mm/pfa.c:250-293 | every step of pf_alloc, pf_free or a client is a pop, a push or nothing on the ideal stack, exactly unless it pops through a stale link or dereferences NULL |
| `PageStack.AtomicIffSound` | kernel/mm/pfa.c:250-293 | a whole interleaving mirrors atomic pops and pushes of one acyclic stack exactly when no step of it is of that kind |
| `PageStack.SoundRunsConserveFrames` | kernel/mm/pfa.c:250-293 | in such runs no frame has two owners, every frame is free or owned, and no task faults |
| `PageStack.CalmRunsAreSound` | kernel/mm/pfa.c:250-293 | a run is of that kind if no frame is put back while a pending pf_alloc has an outdated link of it, and no empty head is loaded |
| `PageStack.HeldFrameBecomesFree` | kernel/mm/pfa.c:250-293 | a run of two tasks and two frames, from a sound start, after which a held frame is the head of the free stack |
| `VmArena.InsertSorted` | kernel/include/lib/v.h:685-709 | with vma_cmp, a non-overlapping area lands in its place in address order, nothing else moving |
| `VmArena.VmaMerge` | kernel/mm/vma.c:175-194 | two areas merge exactly when they touch, into one that covers both |
| `VmArena.Coalesce` | kernel/mm/vma.c:103-117 | the merging loop leaves a sorted list in which no two areas touch, covering the same addresses as often |
| `VmArena.CoalescedUnique` | kernel/mm/vma.c:94-119 | sorted, merged lists covering the same addresses are equal |
| `VmArena.DefragDetermined` | kernel/mm/vma.c:94-119 | two outcomes of do_defrag from the same lists are the same |
| `VmArena.AllocKeepsInv` | kernel/mm/vma.c:149-159 | splitting or taking an area keeps every page of the arena in exactly one list |
| `VmArena.AllocKeepsOrder` | kernel/mm/vma.c:196-218 | splitting in place keeps the free list in address order |
| `VmArena.FreeKeepsInv` | kernel/mm/vma.c:278-295 | freeing keeps every page in exactly one list |
| `VmArena.DefragKeepsInv` | kernel/mm/vma.c:94-119 | do_defrag keeps every page in exactly one list |
| `VmArena.UsedApart` | kernel/mm/vma.c:196-218 | live allocations never overlap |
| `VmArena.InitialInv` | kernel/mm/vma.c:135-147 | vma_init establishes the invariant |
| `VmArena.Arena.constructor` | kernel/mm/vma.c:135-147 | one free area spans the region |
| `VmArena.Arena.FindSpace` | kernel/mm/vma.c:196-218 | the area comes from a smallest free one that suffices, and none is returned only if none suffices |
| `VmArena.Arena.FindUsed` | kernel/mm/vma.c:278-295 | the first live allocation at the pointer, or none |
| `VmArena.Arena.Retire` | kernel/mm/vma.c:278-295 | the area moves from the used list to the end of the defrag queue |
| `VmArena.Arena.DoDefrag` | kernel/mm/vma.c:94-119 | the free list ends sorted, disjoint and fully merged, covering exactly what the free list and the queue did; no assertion of vma_merge fires and vma_cmp never sees an overlap |
| `PageTables.AddTableKeeps` | kernel/mm/vma.c:222-234 | a new page table changes no translation and no page's contents, keeps every frame in one role and the free stack linked |
| `PageTables.AddDataKeeps` | kernel/mm/vma.c:222-234 | a new page entry changes that page's translation only; the frame is zeroed and its entry says present, writable, not for user mode |
| `PageTables.RemoveDataKeeps` | kernel/mm/vma.c:237-246 | clearing a page entry and freeing its frame changes that page's translation only, and no other page's contents; the frame is on top of the free stack |
| `PageTables.RemoveTableKeeps` | kernel/mm/vma.c:247-263 | freeing a table of 1024 zero entries changes no translation and no page's contents |
| `PageTables.StackPopped` | kernel/mm/pfa.c:250-267 | taking the top frame leaves the rest of the stack linked through the frames' first words |
| `PageTables.StackPushed` | kernel/mm/pfa.c:284-293 | returning a frame links it in front of the former top |
| `PageTables.MapPageKeeps` | kernel/mm/vma.c:222-234 | a page mapped already is left alone; any other gets a frame that was free, zeroed, entered as a writable kernel page; none, one or two frames are taken, depending on page and table; no page's contents change |
| `AddressSpace.PagedMemory.VmMap` | kernel/mm/vma.c:222-234 | every page of the range ends up mapped: as before if it was, else on its own, previously free, zeroed frame, writable and not for user mode; no other translation and no contents change; the number of frames used is exact |
| `AddressSpace.PagedMemory.VmUnmap` | kernel/mm/vma.c:236-265 | every page of the range stops translating and its frame is freed once; a table is freed exactly when it lies before the entry of the range's end and all 1024 entries are zero, its directory entry then being writable only; no other translation and no other contents change |
| `AddressSpace.PagedMemory.SweepTables` | kernel/mm/vma.c:247-263 | exactly the empty tables of the visited entries are freed |
| `AddressSpace.PagedMemory.TableIsEmpty` | kernel/mm/vma.c:251-258 | the loop says yes exactly for 1024 zero entries |
| `AddressSpace.PagedMemory.UnmapPages` | kernel/mm/vma.c:237-246 | the first loop unmaps exactly the range and frees each frame once |
| `VirtualMemory.AllocatedUnmapped` | kernel/mm/vma.c:267-276 | no page of the area find_space returns is mapped |
| `VirtualMemory.FreedIsMapped` | kernel/mm/vma.c:278-295 | every page of a live allocation is mapped |
| `VirtualMemory.BackedExclusively` | kernel/mm/vma.c:267-295 | two pages of live allocations are backed by different frames, neither of them free |
| `VirtualMemory.BytesSeparate` | kernel/mm/vma.c:30-48 | get_physical_address takes any two bytes of live allocations to different physical bytes, on frames that are not free |
| `VirtualMemory.AllocContents` | kernel/mm/vma.c:267-276 | every byte of the new allocation reads as zero, every byte of a live one as before |
| `VirtualMemory.FreeContents` | kernel/mm/vma.c:278-295 | every byte of the allocations that stay reads as before |
| `VirtualMemory.Vm.Vmalloc` | kernel/mm/vma.c:267-276 | address ranges and page tables stay in step: exactly the pages of live allocations are mapped, the new area fully; it reads as zero and the others read as before |
| `VirtualMemory.Vm.Vmfree` | kernel/mm/vma.c:278-295 | exactly the allocation at the pointer goes, unmapped, and the others read as before; the panic case is exactly a pointer that is not live |
| `VirtualMemory.Vm.DoDefrag` | kernel/mm/vma.c:94-119 | live allocations and translations stay as they are |
| `Scheduler.ScannedStep` | kernel/sched.c:363-373 | the closed form of the run queue after n positions follows update_task_state one position at a time, the reaper's wakeup included |
| `Scheduler.TopTicksIsMax` | kernel/sched.c:375-399 | what the scan keeps is the maximum over the tasks it saw runnable |
| `Scheduler.RoundProgress` | kernel/sched.c:375-399 | a second recharge in a row needs a task that overflowed in between, so the loop ends |
| `Scheduler.MissedOnEntry` | kernel/sched.c:363-399 | whether the deciding scan passes over the reaper is determined by the run queue on entry, over one recharge at most |
| `Scheduler.ChoiceBestIff` | kernel/sched.c:375-399 | the choice is a runnable task of maximal ticks >= 1, or none when none is runnable, exactly when the deciding scan does not wake the reaper behind itself, a condition on the run queue on entry |
| `Scheduler.NoOverflowBest` | kernel/sched.c:375-399 | with no stack overflow the choice is always best |
| `Scheduler.ReaperOverlooked` | kernel/sched.c:363-399 | a queue of two in which none is chosen though the reaper has just become runnable |
| `Scheduler.FinalFate` | kernel/sched.c:363-399 | what becomes of each task over all rounds: a sleeper wakes exactly when its time has come (and is stopped if its stack overflowed), a runnable one is stopped exactly when its stack overflowed, no other but the waiting reaper changes state |
| `Scheduler.ChoiceRunnable` | kernel/sched.c:375-399 | the task chosen is runnable once the call is over |
| `Scheduler.SleepersWake` | kernel/sched.c:363-399 | a sleeper whose time has come is runnable afterwards, one whose time has not come still sleeps and is not chosen |
| `Scheduler.RunQueue.UpdateTaskState` | kernel/sched.c:363-373 | the in-place update is the specification's, for every state |
| `Scheduler.RunQueue.ScanOnce` | kernel/sched.c:375-399 | one pass over the list leaves the closed-form queue and the choice made from it |
| `Scheduler.RunQueue.RechargeAll` | kernel/sched.c:375-399 | each runnable task gets half its ticks plus its priority, read off the fields; nothing else changes |
| `Scheduler.RunQueue.FindNextRunnable` | kernel/sched.c:375-399 | it terminates; the result is the choice of its last round and a runnable task, and every task's new state follows from the clock, its wakeup time and its stack |
| `SchedulerRuns.SchedNoRecharge` | kernel/sched.c:405-427 | while some task is ready with a tick, sched recharges nobody and picks a task with a tick |
| `SchedulerRuns.BoundedWaiting` | kernel/timer.c:34-45 | in any run a task that stays ready and undispatched sees at most as many timer interrupts as the others had ticks at the start |
| `SchedulerRuns.KeepsCpu` | kernel/timer.c:34-45 | a task dispatched with T ticks keeps the processor for T - 1 timer interrupts, losing one tick at each |
| `SchedulerRuns.LastTick` | kernel/timer.c:34-45 | the interrupt that takes the last tick, or finds none, leaves 0 and calls sched |
| `SchedulerRuns.SleepStarts` | kernel/timer.c:47-54 | after sleep the task is asleep until now plus the interval and is not current, if the interval is not 0 and the sum fits 32 bits |
| `SchedulerRuns.SleepTooLong` | kernel/timer.c:47-54 | if the sum wraps below the present time, the task does not sleep at all |
| `SchedulerRuns.SleepsAtLeast` | kernel/timer.c:47-54 | in any run from then on the task sleeps and is not current until its time has come, as long as nobody else changes its state |
| `SchedulerRuns.SleepEnds` | kernel/timer.c:34-54 | nor does it oversleep: once there have been as many timer interrupts as it had milliseconds to sleep, the next sched wakes it |
| `Drivers.SomeoneMoves` | kernel/drv.c:27-54 | from any pending driver that is not on demand, missing dependencies lead to one whose visit makes progress |
| `Drivers.VisitProgress` | kernel/drv.c:38-54 | each visit lowers (needed drivers pending, on-demand flags, distance to the next mover) |
| `Drivers.CrashesIff` | kernel/drv.c:27-54 | with registered, acyclic dependencies it dereferences NULL exactly when a needed driver depends on one whose probe fails |
| `Drivers.LoadsAllNeeded` | kernel/drv.c:38-71 | with at most one driver not needed it ends with exactly the needed drivers probed, each after all its dependencies |
| `Drivers.RotatesForever` | kernel/drv.c:38-54 | with two or more drivers not needed it rotates for ever |
| `Drivers.ReturnsIff` | kernel/drv.c:38-54 | it returns exactly when at most one driver is not needed |
| `Drivers.FailedDependencyCrashes` | kernel/drv.c:27-54 | two drivers, one depending on the other, whose probe fails: the second visit dereferences NULL |
| `Drivers.IdleDriversRotate` | kernel/drv.c:38-54 | two drivers on demand that nobody needs: the loop is still running after any number of visits |
| `DriverLoader.Loader.DepsLoaded` | kernel/drv.c:27-36 | true exactly when every dependency is loaded, else the first missing one is taken off demand |
| `DriverLoader.Loader.VisitFront` | kernel/drv.c:40-53 | one round of the loop is the specification's visit |
| `DriverLoader.Loader.DriverInit` | kernel/drv.c:38-71 | where it returns at all, both loops end; exactly the needed drivers with a good probe are loaded, dependencies first |
| `DriverLoader.Loader.GiveUp` | kernel/drv.c:54-70 | the drivers left over fail unless they are on demand, in queue order |
| `BlockTree.WalkFindsLeaf` | kernel/fs/ext2/ext2.c:232-268 | the digits read_indirect takes from an index lead to that element of the flattened tree, at every depth |
| `Ext2.ReadBlock` | kernel/fs/ext2/ext2.c:217-230 | the sector loop delivers the whole block, or fails if one of its sectors does |
| `Ext2.BlockBytes` | kernel/fs/ext2/ext2.c:217-230 | byte j of block b is byte b * block_size + j of the device, whatever the sector size, if the block starts below 2^32 |
| `Ext2.SectorsReadIff` | kernel/fs/ext2/ext2.c:217-230 | the block can be read exactly when every one of its sectors can |
| `InodeBlocks.IndirectIsWalk` | kernel/fs/ext2/ext2.c:232-268 | on every device, read_indirect delivers the block the walk ends at if the tables on the way can be read and the last pointer is not zero, and fails otherwise |
| `InodeBlocks.AddrDigits` | kernel/fs/ext2/ext2.c:232-268 | a table entry is the little-endian number of its four bytes |
| `InodeBlocks.EncodedReadsBack` | kernel/fs/ext2/ext2.c:232-268 | the entries of a block that holds given block numbers are those numbers, in order |
| `InodeBlocks.PointersReadBack` | kernel/fs/ext2/ext2.c:232-268 | hence the table read from a block that holds those numbers is their list |
| `InodeBlocks.SingleTableReads` | kernel/fs/ext2/ext2.c:273-312 | with a single indirect table written to disk, block 12 + k of the file is the block of its k-th number |
| `InodeBlocks.WrapsOut` | kernel/fs/ext2/ext2.c:273-312 | each 32-bit subtraction lands in range exactly for its own indices and wraps far out for the rest |
| `InodeBlocks.RouteIsPlace` | kernel/fs/ext2/ext2.c:273-312 | so read_i_block goes to the indirect block that the index belongs to, a zero pointer falling through to failure |
| `InodeBlocks.FlatAt` | kernel/fs/ext2/ext2.c:273-312 | the list direct ++ single ++ double ++ triple has each block of the file's tree at its index, and no more |
| `InodeBlocks.ReadIBlockIsFlat` | kernel/fs/ext2/ext2.c:273-312 | for every inode and every device, block idx is the block named by element idx of that list, and the failing cases are exactly a zero root, an unreadable table, a zero or unreadable leaf, or an index past the end |
| `InodeBlocks.ReadsIffBacked` | kernel/fs/ext2/ext2.c:273-312 | a block reads exactly when it is there, and as the list says |
| `BlockFile.CopyLoop` | kernel/fs/ext2/ext2.c:717-728 | the copying loop, from any position within a block: it fails exactly when a block it touches does; else each byte is the file's byte so far behind that position, or one from behind the block buffer |
| `BlockFile.LoopRightIff` | kernel/fs/ext2/ext2.c:717-728 | the loop delivers the bytes behind an offset exactly when it stays inside the buffer and the file reads the same at offset % block_size |
| `BlockFile.CopyRightIff` | kernel/fs/ext2/ext2.c:717-728 | it does so whatever the file holds exactly from offset 0 or within the first block |
| `Ext2Read.Read` | kernel/fs/ext2/ext2.c:706-732 | ext2_read at every offset is that loop from offset % block_size on, over min(bytes, size - offset) bytes with the 32-bit difference, and advances the offset only on success |
| `Ext2Read.FileIsFlat` | kernel/fs/ext2/ext2.c:273-312 | the first n blocks of a file read exactly when each is there, and are then the concatenated blocks of the list; pointers beyond them do not matter |
| `Ext2Read.ReadFromStart` | kernel/fs/ext2/ext2.c:706-732 | from offset 0 it succeeds exactly when the blocks it needs are there, and returns the first min(bytes, size) bytes of the concatenated blocks |
| `Ext2Read.ReadRightIff` | kernel/fs/ext2/ext2.c:706-732 | at any offset of a readable file, exactly when it returns the bytes behind the offset |
| `Ext2Read.WrongByte` | kernel/fs/ext2/ext2.c:706-732 | a file of two blocks on six sectors, where one byte read at offset 1024 is 2 and should be 4 |
| `FloppyCache.LbaDigits` | kernel/drivers/floppy.c:178-188 | cylinder, head and sector are the digits of the block number |
| `FloppyCache.FitsIn16` | kernel/drivers/floppy.c:178-188 | cutting an in-range block number to 16 bits loses nothing, for every format |
| `FloppyCache.SectorPlace` | kernel/drivers/floppy.c:1021-1046 | where the copy starts within the cylinder is where the sector lies on the disk |
| `FloppyCache.TouchKeeps` | kernel/drivers/floppy.c:954-1019 | a read keeps 16 entries with distinct numbers, each holding its cylinder |
| `FloppyCache.Floppy.CacheInit` | kernel/drivers/floppy.c:913-926 | a new cache of 16 empty entries |
| `FloppyCache.FindRev` | kernel/drivers/floppy.c:954-1019 | the reverse scan finds the entry that holds the cylinder, if any |
| `FloppyCache.Floppy.CylCacheRead` | kernel/drivers/floppy.c:954-1019 | the cylinder's contents on a hit, a miss or a first use; the other drive's cache is untouched |
| `FloppyCache.Floppy.BlockRead` | kernel/drivers/floppy.c:1021-1046 | the sector of the plain disk, whatever was read or purged before on either drive |
| `FloppyCache.Floppy.Purge` | kernel/mm/purge.c:39-52 | purging a buffer keeps the cache right, and the callback's assertion holds |
| `FloppyLru.CacheFollowsRequests` | kernel/drivers/floppy.c:954-1019 | one read moves the numbers of a drive's list as the replay of its requests does |
| `FloppyLru.CachesFollow` | kernel/drivers/floppy.c:954-1019 | after any reads over all drives, each drive's list is right and its numbers are the replay of the requests made of that drive |
| `FloppyLru.BehindIsAfter` | kernel/drivers/floppy.c:954-1019 | in order of last use, what lies behind a cylinder is what was requested after it |
| `FloppyLru.ResidentIff` | kernel/drivers/floppy.c:954-1019 | after any reads over all drives without purges, a cylinder is held in its drive's cache exactly when it was requested and fewer than 16 others were requested of that drive since |
| `IList.RingUnique` | kernel/include/lib/v.h:209-212 | from a given head the pointers determine the list |
| `IList.Node.constructor` | kernel/include/lib/v.h:209-212 | a node alone is an empty list |
| `IList.Prepend` | kernel/include/lib/v.h:213-222 | the sequence with the node in front of the given one; in front of the head is the end |
| `IList.Append` | kernel/include/lib/v.h:213-227 | the sequence with the node behind the given one |
| `IList.Remove` | kernel/include/lib/v.h:231-239 | the sequence without the node, which becomes a list of its own; NULL changes nothing |
| `IList.Replace` | kernel/include/lib/v.h:240-245 | the sequence with the new node in the old one's place |
| `IList.Swap` | kernel/include/lib/v.h:246-253 | the sequence with the two nodes exchanged: apart, adjacent in either order, or the same node |
| `IList.Scan` | kernel/include/lib/v.h:685-695 | the scan stops at the first element not smaller, and never with -1 |
| `IList.Insert` | kernel/include/lib/v.h:685-709 | a sorted list stays sorted, the node in front of the first element not smaller, and the neighbour is returned |
| `Strlen.HasZeroIff` | kernel/utils.c:81-86 | the word test is non-zero exactly when one of the four bytes is zero |
| `Strlen.OldStrlen` | kernel/console.c:400-405 | the number of bytes before the first zero byte |
| `Strlen.Strlen` | kernel/utils.c:72-92 | the same number, for every string and every alignment, reading no word past the one with the terminator |
| `Decimal.DigitCount` | kernel/kprintf.c:22-29 | a number has at most k digits exactly when it is below 10^k |
| `Decimal.Places` | kernel/kprintf.c:22-29 | the length of the shortest decimal form, at most 10 |
| `Decimal.Pru32` | kernel/kprintf.c:31-43 | the characters written are the shortest decimal form |
| `Decimal.ValueOfDigits` | kernel/kprintf.c:31-43 | and that form writes the number |
| `Decimal.TryGetNum` | kernel/kprintf.c:69-89 | whatever the places array held before, the outcome is that of the 32-bit place sums, an assertion failure or an index out of bounds |
| `Decimal.ParseRightIff` | kernel/kprintf.c:69-89 | the value is right exactly for one to eleven digits below 2^32; otherwise the assertion fails or the value is cut to 32 bits |
| `Decimal.RoundTrip` | kernel/kprintf.c:22-89 | parsing what was printed, whatever follows, gives the number and the digit count for every 32-bit number |
| `Decimal.SilentWrap` | kernel/kprintf.c:69-89 | "10000000000" is read as 1410065408 without tripping the assertion |

## Left out

- Read: needs a request of less than 2^31 bytes; beyond, the source's signed count is negative and the copy has no meaning.
- RoundUpPow2: excludes v above 2^31, where the 32-bit doubling reaches 0 and the loop does not end.
- DriverInit: is stated where `CrashesIff` and `ReturnsIff` say that it returns; elsewhere it crashes or never ends.
- Vmalloc: needs frames for the pages and for the tables they may span; running out of frames is not modelled.
- DoSlabAlloc: needs two free page frames; running out of frames is not modelled.
- VmMap: needs enough free frames; running out of them is not modelled.
- TryGetNum: reading past the end of an unterminated string, and what a write past the places array does, are not modelled.
- BlockRead: covers one medium per drive, transfers that succeed and formats whose cylinder fits the DMA buffer; a purge in the middle of a transfer is not modelled.
- UnitsConserved: 32-bit overflow of the count and the list of waiters are not modelled, wakeups being arbitrary.
- RunInv: items are one byte long and head and tail start at zero.
- Semaphore wakeups: who is woken and when; the source itself says its retry is not a robust fix.
- pf_alloc's purge when memory runs out.
- The self-map in directory entry 1023, the boot page tables, mmap, mprotect and page faults.
- vmalloc of 0 bytes and of sizes whose rounding to pages wraps.
- Index masks of virtual addresses are written as division and remainder.
- Task creation during a wait, context switching, signals of the debug shell, and the uptime counter wrapping around.
- ext2 names, directories and mounting; writes are not implemented in the source.
- VFS dispatch, device files, system calls and exec forward to what is modelled.
- Interrupt controllers, DMA programming, consoles, keyboard and user programs.
