# A verified model of the NickOS3 kernel core

This project models, in Dafny 4.11, the parts of the NickOS3 kernel where most of its
behaviour lives, and proves what they promise:

- **Threads, semaphores and locks** as one preemptive step system. `Sched.dfy` has the state
  (current thread, control blocks, ready queue, all threads, idle thread, tick counter,
  interrupt flag, semaphores and lock holders, and where each thread's control is) and its
  steps; a timer tick may fall between any two steps while interrupts are on, and a failing
  PANIC check is a halting outcome. `SchedInv.dfy` has the invariant, and `SchedSteps.dfy` what
  every step does, as a relation between the states before and after it; `SchedTheorems.dfy`,
  `SchedWaiting.dfy` and `SchedExit.dfy` have what follows over runs. `Kernel.dfy` is the same
  code as a class that updates its own variables and the linked lists of `KernelLists.dfy`
  (ready_threads, all_threads, and every semaphore's waiters, each a list of `LinkedList.dfy`),
  each method proved to be the step on the sequences that these lists hold.
- **Context switches** at machine level (`ContextSwitch.dfy`): registers, word memory and one
  4 KiB page per thread.
- **Paging**: `Paging.dfy` has the two-level walk of 32-bit paging (section 4.3 of the Intel 64
  and IA-32 Architectures Software Developer's Manual, Volume 3A) and `map_page`/`unmap_page`,
  which edit the tables through the mapping the tables define. `PagingExact.dfy` and
  `PagingOutcome.dfy` say how every call of `map_page` ends and exactly when the tables stay
  editable, and `PagingWitness.dfy` shows calls that go wrong. `PagingAlloc.dfy` has the
  allocators over it and when they keep the tables editable, `PagingFrames.dfy` where the frames
  are over any run at all, `PagingServe.dfy` what the allocators map, `PagingRange.dfy` the range
  that palloc_kern's callers use, `PagingRuns.dfy` the translation over runs, `PagingBoot.dfy`
  the boot tables, and `PagingReady.dfy` the case the kernel boots into. `FrameTable.dfy`,
  `MemoryMap.dfy`, `ReservedEntries.dfy` and `PagingStart.dfy` have the table of frames; `Pager.dfy`
  is the code as a class over an array of frames, and `PagerCallers.dfy` what thread_create gets
  from it.
- **The heap** (`Heap.dfy`, `HeapSplit.dfy`, `HeapTheorems.dfy`, `HeapStale.dfy`, `HeapRuns.dfy`):
  first fit and split over intrusive segment headers, and what stale links do to it.
- **Small cores**: the linked list (`LinkedList.dfy`), the scrolling screen (`Screen.dfy`), and
  `itoa` with its in-place reverse (`Itoa.dfy`).

`dafny verify dfyconfig.toml` checks the whole project.

## Where the code does less than it says

Each of these is stated and proved exactly, with the condition under which the code is right.

- `run` marks its thread DYING before it turns interrupts off. A tick that ends the time slice
  between the two overwrites the mark with READY; the thread can then never exit, and its next
  step of its own is the panic "current process is still running". Some thread is in that state
  if and only if some earlier step was such a tick (`SchedExit.ExitGoesWrongIff`), it is the
  only way to that panic (`SchedExit.PanicWasHit`), and a run gets there
  (`SchedExit.ExitCanPanic`). Every other internal panic is unreachable.
- `map_page` makes a new table reachable by mapping it first, which may need another table. It
  panics if that chain of absent directory slots does not end before the frames run out, takes a
  page fault if two calls in a row come across one slot, and is otherwise done
  (`PagingOutcome.MapPageOutcome`). The tables are then still editable if and only if the chain
  is tidy (`PagingOutcome.MapPageAlways`), which means that it meets no slot twice
  (`PagingOutcome.MapPageExact`) unless the call takes the very frame that it maps for a table
  (`PagingOutcome.OwnTableRepeats`). From the boot tables, three free frames suffice for a call
  that is done and has lost a table (`PagingWitness.RepeatFromBoot`), and one for a panic with a
  frame left (`PagingWitness.EndlessFromBoot`). With free frames below 24 MiB, as on a usual PC,
  the chain has at most one link (`PagingReady.DepthOne`, `PagingStart.PcReady`).
- `unmap_page`'s alignment check only catches address 0; on a page through which the kernel
  edits its tables it breaks them, and on every other page it does not
  (`Paging.UnmapPageExact`). After `unmap_page` of the directory's own page every `map_page` is a
  page fault (`PagingWitness.UnmapDirectory`).
- `palloc_kern` answers one address for n frames. Which frames it takes as pages the present
  directory slots and the list of free frames say before the call (`PagingRange.KernForetold`):
  the first n, while the free frames' direct slots are present. The n pages from its answer are
  backed by them, in order, if and only if they are consecutive (`PagingRange.PallocKernRange`,
  `PagingRange.ReadyRange`); the code does not check. With frames 0x200 and 0x202 free the second
  page is frame 0x201 (`PagingWitness.GapFromBoot`). The kernel itself asks for one page at a time.
- `memset` counts words, and `palloc_kern` and `palloc_heap` give it bytes: F_ZERO on n pages
  clears the 4n frames from the first. No page moves by that if and only if all 4n direct pages
  are mapped and none is the directory's or a table's with entries (`PagingRange.ZeroKern`). On a
  usual PC that holds in every state that a run reaches, while the 4n frames end before the boot
  tables, and what was handed out before is not cleared either, because the pool is used in
  ascending order (`PagingStart.PcZero`). With frame 0x13ff free one page of F_ZERO clears three of the kernel's
  tables, and every later `map_page` is a page fault (`PagingWitness.ClearedTableFromBoot`).
- `setupAvailablePages` reserves the frame table's entries by number. Entry k is frame k if and
  only if every frame up to k is usable (`MemoryMap.EntryIsFrameIff`): so the entry reserved for
  the screen is the screen's frame if and only if nothing before it is missing
  (`MemoryMap.ScreenEntryIff`), and with the usual hole below 1 MiB it is another one
  (`PagingStart.ScreenEntryIsMemory`). The kernel's own 32 frames are never left free
  (`PagingStart.StartFrames`). For the boot tables' frames the code reserves nothing: the
  allocators may start if and only if no frame left free is one of them or at 1 GiB or above
  (`PagingStart.StartValidIff`), as on a usual PC (`PagingStart.PcFrames`). They may not with
  640 KiB from 0 and 16 MiB from 16 MiB on, where every boot table's frame is left free
  (`PagingStart.TablesLeftFree`).
- `malloc`'s comparison leaves the new header out. The segments still tile the region if and
  only if there is also room for it (`HeapTheorems.SplitTilesIff`); otherwise the remainder's
  length is negative and compares as almost 4 GiB (`HeapTheorems.NoRoom`). On the kernel's own
  heap, one page, a request of 4056 bytes does that, and the next call is answered behind the
  page's end (`HeapRuns.KernelHeapTears`). A run of calls goes without this if and only if the
  rounded sizes with a header each, and one header more, fit the region (`HeapRuns.RunGoesIff`);
  `HeapRuns.RunStops` says how the first call that does not fit ends.
- `malloc` does not rewrite the back links of the segment after the one it splits, and takes
  address 0 for a null link although the kernel's heap starts there. A split with room keeps the
  chain of free segments if and only if the header's back links, those to 0 apart, name the free
  segment before it and no other one on the chain (`HeapSplit.SplitChainIff`). While its own back
  links are right that fails only if the free segment before is at 0 (`HeapSplit.SplitKeeps`).
  After a split all links agree both ways if and only if the segment was the last and the free
  one before it is not at 0 (`HeapTheorems.SplitLinksIff`). Splitting one free segment and then
  the next one always breaks the chain (`HeapStale.SecondSplitBreaks`), and the next call that no
  segment before that one fits is then answered with the block just handed out
  (`HeapStale.SecondCallRepeats`, with an instance in `HeapStale.SecondSplitCorrupts`).
- The last seven sizes below 4 GiB round to zero (`HeapRuns.RoundedExact`).
- `thread_create` zeroes a frame field named `ebp`, but the structure's order and the pops of
  `context_switch` differ, so the zero reaches `ebx`; the comments on structure sizes there are
  wrong too. The model follows the code.

## Assumptions

- Threads: building a thread's page, `append` to `all_threads` and `create_id` are one step each.
  For `append` to `all_threads` the code does not see to that: it runs with interrupts on, and it
  calls `malloc`, which another thread's `append` can enter meanwhile. A tick arrives only with
  interrupts on and is handled with them off: the descriptors are trap gates
  (src/interrupt/idt.c:15), which leave the flag set, but the `cli` at
  src/interrupt/interrupt.asm:46 is the first instruction behind them, and `iret` restores the
  flag; nothing is taken between the two. The null `prev` of a thread that reschedules itself is
  "nothing to reap". A lock's semaphore is used through its lock only, semaphores get a fresh name when
  initialised, and only `thread_init` creates the idle thread.
- Context switches: stack words are 4-aligned; the addresses of `run` and `first_switch` are two
  constants; between switches a thread writes its own page only, and not its magic word.
- Paging: pool frames are zero and lie below 1 GiB, which is as far as Kptov reaches, the boot
  tables' frames are not in the pool, and no frame's address is NO_ADDR. `map_page` is called, as
  all its callers do, for pages below KERN_BASE and for frames at their direct pages.
  `PagingFrames.FramesOverRuns` needs none of this but different frames, and
  `PagingFrames.SoundOverRuns` only arguments in range. That the tables can still be edited
  through themselves needs more, and the theorems that say so ask for proper calls: those whose
  chain of new tables meets no slot twice, which unmap no page through which the tables are
  edited, and which clear no page that must not be cleared.
- List: links of a new node are null, and null is tested before it is read or written through,
  which the code leaves out at src/lib/list.c:27, 66 and 72.
- Heap: headers are records at their own addresses, and the region may start at address 0; two
  headers that overlap in part do not disturb each other.

## Model

| member | source | states |
|---|---|---|
| `Kernel.Kernel.constructor` | src/thread/thread.c:20-44 | the lists and the state in which thread_init calls thread_create |
| `Kernel.Kernel.IntDisable` | src/interrupt/idt.c:128-132 | clears the interrupt flag and answers its old value |
| `Kernel.Kernel.IntSet` | src/interrupt/idt.c:109-111 | sets the flag if the level is set, and never clears it |
| `Kernel.Kernel.GetNextThread` | src/thread/thread.c:183-191 | the head of the ready queue, removed, or the idle thread |
| `Kernel.Kernel.ThreadKill` | src/thread/thread.c:244-250 | the thread leaves both queues, also when the ready queue is empty |
| `Kernel.Kernel.CompleteSwitch` | src/thread/thread.c:139-150 | the new thread runs with a fresh tick count, and a dying predecessor is killed |
| `Kernel.Kernel.Reschedule` | src/thread/thread.c:153-181 | schedule with its two panics, as the step system's Schedule |
| `Kernel.Kernel.BlockThread` | src/thread/thread.c:218-229 | thread_block |
| `Kernel.Kernel.UnblockThread` | src/thread/thread.c:231-242 | thread_unblock: panic unless blocked, else last in the ready queue, flag unchanged |
| `Kernel.Kernel.YieldThread` | src/thread/thread.c:121-133 | thread_yield up to the switch, the flag to return to saved |
| `Kernel.Kernel.EndYield` | src/thread/thread.c:133-136 | thread_yield after the switch back: the saved flag is restored |
| `Kernel.Kernel.TickThread` | src/thread/thread.c:111-119 | a tick yields exactly when the slice is used up |
| `Kernel.Kernel.DownRound` | src/thread/synch.c:22-27 | one test of sema_down's loop: wait in line, or take a unit and restore the flag |
| `Kernel.Kernel.Down` | src/thread/synch.c:15-28 | sema_down up to its first switch or its end |
| `Kernel.Kernel.Up` | src/thread/synch.c:35-47 | sema_up: one waiter woken, one unit more, flag unchanged |
| `Kernel.Kernel.WakeFirst` | src/thread/synch.c:42-44 | thread_unblock of the first waiter, if any |
| `Kernel.Kernel.RaiseValue` | src/thread/synch.c:45 | the value goes up by one, in 32 bits |
| `Kernel.Kernel.WriteHolder` | src/thread/synch.c:72-82 | the holder field alone changes |
| `Kernel.Kernel.Enter` | src/thread/synch.c:55-84 | every kernel call up to its first preemption point, with the locks' owner checks |
| `Kernel.Kernel.EnterRun` | src/thread/thread.c:252-255 | run enables interrupts and calls the thread's function |
| `Kernel.Kernel.Leave` | src/thread/thread.c:256-261 | run's end after the mark: interrupts off, then schedule |
| `Kernel.Kernel.StartChild` | src/thread/thread.c:104-107 | thread_create's last part |
| `Kernel.Kernel.IdleWait` | src/thread/thread.c:197-200 | idle turns interrupts off and blocks |
| `Kernel.Kernel.RunIdle` | src/thread/thread.c:194-216 | idle, one step at a time |
| `Kernel.Kernel.Continue` | src/thread/thread.c:61-261 | the current thread's next piece of kernel code is the step system's RunThread |
| `Kernel.Kernel.Step` | src/thread/thread.c:111-261 | one step of the class is one step of the step system |
| `Kernel.Kernel.CreateIdle` | src/thread/thread.c:44-47 | thread_init's creation of the idle thread, up to where it enables interrupts |
| `Kernel.Kernel.Run` | src/thread/thread.c:20-261 | any run of the class from boot is a run of the step system and ends in a safe state |
| `Kernel.UnflaggedUp` | src/thread/synch.c:41-46 | what sema_up does between disabling and restoring interrupts does not depend on the flag |
| `KernelLists.Lists.constructor` | src/thread/thread.c:39-40 | an empty ready queue and all_threads with the kernel's thread, well-formed and apart |
| `KernelLists.Lists.AppendReady` | src/thread/thread.c:237 | append to ready_threads: that queue gets one more thread, every other list keeps its sequence |
| `KernelLists.Lists.PopReady` | src/thread/thread.c:189 | pop from ready_threads: its first thread, and every other list as before |
| `KernelLists.Lists.RemoveReady` | src/thread/thread.c:248 | remove from ready_threads, the queue empty or the thread missing included |
| `KernelLists.Lists.AppendAll` | src/thread/thread.c:102 | append to all_threads alone |
| `KernelLists.Lists.RemoveAll` | src/thread/thread.c:247 | remove from all_threads alone |
| `KernelLists.Lists.AppendWaiter` | src/thread/synch.c:23 | append to one semaphore's waiters: no other semaphore and no queue changes |
| `KernelLists.Lists.PopWaiter` | src/thread/synch.c:43 | the first waiter of one semaphore, with the same frame |
| `KernelLists.Lists.Lower` | src/thread/synch.c:26 | one unit less in one semaphore |
| `KernelLists.Lists.Raise` | src/thread/synch.c:45 | one unit more in one semaphore, in 32 bits |
| `KernelLists.Lists.WriteHolder` | src/thread/synch.c:72-82 | one lock's holder |
| `KernelLists.Lists.AddSemaphore` | src/thread/synch.c:3-8 | a new semaphore with a list of its own |
| `SchedInv.NextIsReady` | src/thread/thread.c:183-191 | at a dispatch there is a next thread: an empty ready queue implies idle_thread is set |
| `SchedInv.ScheduleDispatches` | src/thread/thread.c:153-181 | schedule never panics from a legal state and puts exactly the next thread on the CPU |
| `SchedInv.ScheduleInv` | src/thread/thread.c:139-191 | schedule restores the invariant from the off-CPU state |
| `SchedInv.TickInv` | src/thread/thread.c:111-136 | a tick anywhere keeps the invariant |
| `SchedInv.DownTestInv` | src/thread/synch.c:21-27 | a test of sema_down's loop keeps the invariant, whether it waits or takes a unit |
| `SchedInv.SemaUpInv` | src/thread/synch.c:35-47 | sema_up keeps the invariant and its thread_unblock cannot panic |
| `SchedInv.WriteInv` | src/thread/synch.c:66-84 | the holder writes after sema_down and before sema_up keep the invariant |
| `SchedInv.CreateInv` | src/thread/thread.c:61-70 | building a thread keeps the invariant |
| `SchedInv.UnblockInv` | src/thread/thread.c:104-107 | thread_create's thread_unblock cannot panic and keeps the invariant |
| `SchedInv.ExitInv` | src/thread/thread.c:256-261 | a marked thread that was not preempted leaves for good and keeps the invariant |
| `SchedInv.IdleBlockInv` | src/thread/thread.c:197-200 | the idle thread blocks without a queue and keeps the invariant |
| `SchedInv.NextSafe` | src/thread/thread.c:111-261 | from the invariant every step ends in it, in a client's misuse of a lock, or in the exit window's panic |
| `SchedInv.InitInv` | src/thread/thread.c:20-56 | the state in which thread_init enables interrupts satisfies the invariant |
| `SchedInv.RunsAreSafe` | src/thread/thread.c:156-240 | over every run the checks in schedule, thread_block and thread_unblock never fire, but for "still running" after the exit window |
| `SchedSteps.YieldDoes` | src/thread/thread.c:121-136 | thread_yield: ready and last in line unless idle, its flag kept, then the head of the queue or the idle thread gets the CPU |
| `SchedSteps.TickDoes` | src/thread/thread.c:111-119 | a tick counts one more, or ends the slice in a yield, whoever runs |
| `SchedSteps.DownDoes` | src/thread/synch.c:15-28 | sema_down: with a unit it takes one and comes back with the flag it was entered with; without, the thread is last in the semaphore's line, blocked, and the CPU goes on |
| `SchedSteps.CallDoesIt` | src/thread/synch.c:3-84 | every kernel call's whole effect up to its first preemption point: flag, yield, sema_init, sema_down, sema_up, lock_init and the locks with their panics, thread_create, and run's mark |
| `SchedSteps.RunDoesIt` | src/thread/thread.c:61-261 | every step of a thread's own: back from a yield, into run with interrupts on, a new test, the holder writes, thread_create's two ends, leaving, and idle's four points with its `sti` |
| `SchedSteps.NextDoes` | src/thread/thread.c:111-261 | every step of the system does just that, from every state in the invariant |
| `SchedTheorems.NoLostWakeUp` | src/thread/synch.c:15-47 | a semaphore with waiters has at most a unit per popped waiter that has not re-tested, and none when only the idle thread can run |
| `SchedTheorems.UnitStep` | src/thread/synch.c:15-47 | a step changes a semaphore's value by one for its sema_up, or for a thread that gets through sema_down, which there must be a unit for, and else not at all |
| `SchedTheorems.UnitsConserved` | src/thread/synch.c:15-47 | over any run, counted from its steps: the value before and the sema_up calls are the value now and the times a thread got through sema_down, but for overflows of 2^32 |
| `SchedTheorems.LockPanics` | src/thread/synch.c:66-84 | lock_accquire panics exactly on a lock that the caller holds and lock_release exactly on one it does not hold |
| `SchedTheorems.MutualExclusion` | src/thread/synch.c:55-84 | a lock's value plus the threads between their decrement and increment is 1, and a set holder is that thread |
| `SchedTheorems.StatusPartition` | src/thread/thread.c:121-250 | status and queues agree: one thread on the CPU, READY exactly once in the ready queue, BLOCKED exactly once on one waiters list |
| `SchedTheorems.DispatchBeforeIdle` | src/thread/thread.c:46-56 | before idle_thread is set the idle thread runs or is in the ready queue |
| `SchedTheorems.ExitIsReaped` | src/thread/thread.c:139-181 | a thread that leaves run is reaped by the very next switch, on another thread's stack |
| `SchedTheorems.KilledFromRest` | src/thread/thread.c:244-250 | thread_kill looks for it in what is left of the ready queue, where it is not, and which is empty exactly when at most one thread was ready |
| `SchedTheorems.OthersKept` | src/thread/thread.c:153-181 | a step of one thread moves no other thread's control |
| `SchedTheorems.FlagIsPrivate` | src/interrupt/idt.c:109-132 | only a thread's own enable and disable change the interrupt flag it sees |
| `SchedTheorems.FlagOverRuns` | src/thread/synch.c:15-47 | kernel calls come back with the flag they were entered with, however many switches intervene |
| `SchedTheorems.IdleLetsTicksIn` | src/thread/thread.c:193-216 | in every reached state with the idle thread on the CPU interrupts are on, or its next step turns them on and leaves it there; outside its wait they always are |
| `SchedWaiting.StepMoves` | src/thread/thread.c:111-191 | each step either leaves the queue's order or serves its head, and the tick counter is the ticks since the last dispatch |
| `SchedWaiting.HaltIsFinal` | src/thread/thread.c:158-159 | a run that is alive was never halted |
| `SchedWaiting.ExactWaiting` | src/thread/thread.c:153-191 | the thread at position k is current right after exactly the (k+1)-th dispatch |
| `SchedWaiting.TickBudget` | src/thread/thread.c:111-150 | the run's tick steps are bounded by a time slice for each dispatch, and the counter stays below it |
| `SchedWaiting.WaitingInTicks` | src/thread/thread.c:111-191 | the thread at position k has run within 4(k+1) of the run's tick steps |
| `SchedWaiting.DispatchReached` | src/thread/thread.c:139-150 | dispatches come one at a time |
| `SchedExit.PreemptionDooms` | src/thread/thread.c:121-136 | a slice that ends between the mark and the disable overwrites the mark |
| `SchedExit.DoomIsFinal` | src/thread/thread.c:252-261 | the mark is never set again |
| `SchedExit.DoomedThreadHalts` | src/thread/thread.c:159 | "still running" is the panic of exactly that thread's next step |
| `SchedExit.OnlyPreemptionDooms` | src/thread/thread.c:256-261 | nothing else loses a mark |
| `SchedExit.ExitGoesWrongIff` | src/thread/thread.c:252-261 | over any run a thread has lost its mark if and only if a tick hit the window |
| `SchedExit.PanicWasHit` | src/thread/thread.c:159 | every run that ends in "still running" contains such a tick |
| `SchedExit.ExitCanPanic` | src/thread/thread.c:252-261 | such a run exists |
| `ContextSwitch.Cpu.SaveRegisters` | src/thread/tswitch.asm:12-15 | the four pushes |
| `ContextSwitch.Cpu.SwapStacks` | src/thread/tswitch.asm:18-26 | esp goes to cur's control block and comes from next's; eax is cur |
| `ContextSwitch.Cpu.RestoreRegisters` | src/thread/tswitch.asm:28-34 | the four pops and the return |
| `ContextSwitch.Cpu.ContextSwitch` | src/thread/tswitch.asm:8-34 | context_switch as a function of registers and memory |
| `ContextSwitch.Cpu.FirstSwitch` | src/thread/tswitch.asm:39-54 | first_switch around the call of switch_complete, whose argument is eax |
| `ContextSwitch.Cpu.PushStack` | src/thread/thread.c:322-326 | the stack pointer in the control block goes down by the size |
| `ContextSwitch.Cpu.BuildStack` | src/thread/thread.c:82-96 | the three frames of a new thread |
| `ContextSwitch.CallSwitchResumes` | src/thread/tswitch.asm:8-34 | what the next thread gets back is what its frame holds |
| `ContextSwitch.StepInv` | src/thread/tswitch.asm:8-54 | every step keeps every suspended thread's frame intact and the stack pointer on the current page |
| `ContextSwitch.CurrentThread` | src/thread/thread.c:349-367 | esp rounded down to a page is the current thread's own control block |
| `ContextSwitch.FirstSwitchReachesRun` | src/thread/thread.c:82-96 | the first switch to a thread reaches run with its function and aux |
| `ContextSwitch.RunKeeps` | src/thread/tswitch.asm:8-54 | what a suspended thread is to get back survives any run without a switch to it |
| `ContextSwitch.SwitchRoundTrip` | src/thread/tswitch.asm:8-34 | a thread switched away and back has its registers, return address and stack, and receives the outgoing thread |
| `Paging.AddressSplit` | src/paging/pte.h:39-47 | pd_no and pt_no with the page offset make up the address |
| `Paging.KptovPage` | src/paging/paging.c:16-18 | Kptov of a frame is its direct page |
| `Paging.WriteEntryRefines` | src/paging/paging.c:201-203 | writing one entry changes the translation of that page alone |
| `Paging.WriteEntryValid` | src/paging/paging.c:201-203 | and keeps all tables editable through themselves unless the page is one of theirs |
| `Paging.AddTable` | src/paging/paging.c:197-199 | entering an empty, mapped frame as a table changes no translation |
| `Paging.MapPageRefines` | src/paging/paging.c:179-216 | map_page maps exactly its page, and new tables at their own direct pages |
| `Paging.UnmapPageRefines` | src/paging/paging.c:220-238 | unmap_page takes exactly its page out of the translation and answers true; at address 0 it does nothing and answers false |
| `Paging.UnmapPageExact` | src/paging/paging.c:220-238 | it keeps the tables editable if and only if the page is not one they are edited through |
| `Paging.UnmapUserPage` | src/paging/paging.c:220-238 | below KERN_BASE it always does |
| `PagingExact.ExhaustionPanics` | src/paging/paging.c:179-200 | when the chain of missing tables does not end, map_page ends in the alignment panic on NO_ADDR |
| `PagingExact.MapPageTrace` | src/paging/paging.c:179-216 | every directory entry a successful map_page leaves, slots repeated or not |
| `PagingOutcome.MapPageOutcome` | src/paging/paging.c:179-216 | every call's outcome: a panic when its chain does not end, a page fault when two calls in a row meet one slot, else done with the chain's frames taken |
| `PagingOutcome.RowsAndPages` | src/paging/paging.c:179-216 | what a successful map_page leaves in the new tables, and that no other page in the old slots changes |
| `PagingOutcome.MapPageAlways` | src/paging/paging.c:179-216 | for every call: done with all tables editable if and only if the chain ends, has no two calls in a row in one slot, and is tidy |
| `PagingOutcome.RepeatLosesTable` | src/paging/paging.c:193-200 | a slot met twice makes a table unreachable, unless the call takes its own frame for a table |
| `PagingOutcome.MapPageExact` | src/paging/paging.c:179-216 | map_page succeeds with tables editable if and only if its chain ends and meets no slot twice; a call that takes its own frame for a table always meets one twice, and does so if and only if its chain ends, not in a page fault, and is tidy |
| `PagingOutcome.OwnTableRepeats` | src/paging/paging.c:193-200 | a call that takes its own frame for a table meets its first slot again |
| `PagingWitness.ThreeFreeExists` | src/boot/paging.asm:55-130 | boot tables with three such frames free exist |
| `PagingWitness.RepeatFromBoot` | src/paging/paging.c:179-216 | from any boot tables with three given frames free, a call is done, a table is out of sight, and the next call in its slot is a page fault |
| `PagingWitness.OwnTableFromBoot` | src/paging/paging.c:179-216 | with the same frames, a call that takes its own frame repeats a slot and yet loses no table |
| `PagingWitness.EndlessFromBoot` | src/paging/paging.c:179-200 | from any boot tables with one given frame free, a call panics |
| `PagingWitness.UnmapDirectory` | src/paging/paging.c:220-238 | unmapping the directory's page is done, and every later map_page is a page fault |
| `PagingWitness.PairExists` | src/boot/paging.asm:55-130 | boot tables with two such frames free exist |
| `PagingWitness.GapFromBoot` | src/paging/paging.c:98-126 | from any boot tables with frames 0x200 and 0x202 free, palloc_kern of two pages answers a range whose second page is frame 0x201 |
| `PagingWitness.TableFrameExists` | src/boot/paging.asm:55-130 | boot tables with frame 0x13ff free exist |
| `PagingWitness.ClearedTableFromBoot` | src/paging/paging.c:118-125 | from any boot tables with frame 0x13ff free, palloc_kern of one page with F_ZERO is done, and every later map_page is a page fault |
| `PagingAlloc.MapInv` | src/paging/paging.c:179-216 | a proper map_page keeps the tables editable, and fails only by a panic when its chain does not end; no page becomes a table |
| `PagingAlloc.KernLoopInv` | src/paging/paging.c:98-126 | so does palloc_kern with proper chains, which answers NO_ADDR only with no frame left |
| `PagingAlloc.HeapLoopInv` | src/paging/paging.c:138-176 | so does palloc_heap |
| `PagingAlloc.PoolLoopInv` | src/paging/paging.c:251-283 | so does init_pool, which panics when frames run out |
| `PagingAlloc.InitHeapPageInv` | src/paging/paging.c:288-303 | so does init_heap_page |
| `PagingAlloc.ZeroInv` | src/paging/paging.c:121-123 | clearing pages of frames that are neither the directory nor a table with entries is done, changes no translation and keeps the tables editable |
| `PagingAlloc.ClearIdentityKeeps` | src/paging/paging.c:38-43 | clear_identity_pages takes the low 24 MiB out of the translation and the six slots out of the directory, and nothing else |
| `PagingAlloc.EditableOverRuns` | src/paging/paging.c:28-330 | over any run of proper calls the tables stay editable through themselves and a call halts only by a panic |
| `PagingFrames.MapTakesPrefix` | src/paging/paging.c:193-200 | whatever the tables are, map_page takes free frames from the front and returns none |
| `PagingFrames.ZeroClears` | src/lib/string.c:3-10 | setting pages to zero clears exactly the frames they were mapped to, in any memory |
| `PagingFrames.FramesOverRuns` | src/paging/paging.c:28-330 | no frame is handed out twice: over any run of any calls from any memory, frames handed out as pages, made into tables and still free are distinct and together the initial ones, which are used from the front |
| `PagingFrames.MapHeld` | src/paging/paging.c:179-216 | from memory that keeps to the direct mapping, map_page keeps it so and every frame in one place, whatever its chain does: different slots have different tables, each of them of the start or made since, none of them a page or a free frame |
| `PagingFrames.KernLoopHeld` | src/paging/paging.c:98-126 | so does palloc_kern, with any chains |
| `PagingFrames.HeapLoopHeld` | src/paging/paging.c:138-176 | so does palloc_heap below KERN_BASE |
| `PagingFrames.PoolLoopHeld` | src/paging/paging.c:251-283 | so does init_pool |
| `PagingFrames.HeapPageHeld` | src/paging/paging.c:288-303 | so does init_heap_page |
| `PagingFrames.OtherHeld` | src/paging/paging.c:38-43 | so do clear_identity_pages, unmap_page of any page and clearing any pages |
| `PagingFrames.SoundOverRuns` | src/paging/paging.c:28-330 | over any run with arguments in range every table is one of the start's or a frame made into one, none is a page that was handed out or a free frame, no two slots have one table, and pages from KERN_BASE on are direct or absent |
| `PagingServe.HeapGrowth` | src/paging/paging.c:138-176 | once the heap has its table, palloc_heap maps the next frames at consecutive heap pages and counts exactly those, also when frames run out |
| `PagingServe.HeapStarts` | src/paging/paging.c:288-303 | init_heap_page maps page 0 to the first frame, makes the heap's table with the tables that one needs, and changes no other page; it panics without frames enough and when called again |
| `PagingServe.KernService` | src/paging/paging.c:98-126 | palloc_kern maps n frames and the tables these need, the first ones in order, each at its own direct page, and changes nothing else; what it had mapped when frames ran out stays |
| `PagingRange.KernForetold` | src/paging/paging.c:98-126 | palloc_kern's rounds are proper and all done exactly when the present slots and free frames say so before the call, and then it hands out the foretold frames and answers the first one's address |
| `PagingRange.PallocKernRange` | src/paging/paging.c:118-125 | the n pages from palloc_kern's answer are backed by its n frames in order if and only if the foretold frames are consecutive |
| `PagingRange.RangeFromBoot` | src/paging/paging.c:118-125 | so in every state with editable tables that a run from boot reaches |
| `PagingRange.ReadyRange` | src/paging/paging.c:98-126 | while the pool's direct slots are present the frames are the first n |
| `PagingRange.PoolService` | src/paging/paging.c:251-283 | init_pool answers the first frame's direct address, its three frames and their tables are at their direct pages and nothing else changes, or it panics; which, the present slots and free frames say before the call |
| `PagingRange.ReadyPool` | src/paging/paging.c:251-283 | while the pool's direct slots are present its pages are the first three frames, and it panics exactly with fewer |
| `PagingRange.ZeroExact` | src/paging/paging.c:121-123 | from editable tables, clearing pages is done and moves no page if and only if all of them are mapped and none is the directory's or a table's with entries |
| `PagingRange.ZeroKern` | src/paging/paging.c:118-125 | with F_ZERO palloc_kern of n pages clears the 4n frames from the first one and no others, and moves no page exactly when all of these may be cleared |
| `PagingRuns.OneEdit` | src/paging/paging.c:179-243 | a call is done with the tables still editable exactly when the book of tables and free frames says so, and then does to book and translation what the book says |
| `PagingRuns.TranslationOverRuns` | src/paging/paging.c:179-243 | from any tables that can be edited through themselves they stay so over a run of map_page and unmap_page exactly when its book says so, slots repeated or not, and the translation is then the abstract table with the run's updates and new tables |
| `PagingReady.DepthOne` | src/paging/paging.c:193-200 | with the direct slots of the pool present one new table is always enough |
| `PagingReady.MapReady` | src/paging/paging.c:179-216 | then map_page takes at most one frame, or panics for want of one |
| `PagingReady.ReadyProper` | src/paging/paging.c:98-330 | and every allocator's calls are proper |
| `PagingReady.ReadyOverRuns` | src/paging/paging.c:28-330 | and leave such a state: over any run of simple calls each is proper, no page from KERN_BASE on disappears, and a call halts only by a panic |
| `PagingReady.PlainOverRuns` | src/paging/paging.c:179-243 | with the free frames at their direct pages a run changes the pages that it names and no others |
| `PagingBoot.Memory.StoreWord` | src/boot/paging.asm:58-59 | one word of physical memory as a table entry |
| `PagingBoot.Memory.Clear` | src/boot/paging.asm:17-51 | the frames cleared are zero and no other frame changes |
| `PagingBoot.Memory.CreatePageDirectory` | src/boot/paging.asm:55-76 | six slots for the identity mapping and six for the kernel's, the rest kept |
| `PagingBoot.Memory.CreatePageTable` | src/boot/paging.asm:80-130 | entry k from the base maps frame k, for 0x6000 entries |
| `PagingBoot.Memory.CreateTables` | src/boot/bootstrap.asm:27-32 | whatever was in memory, the boot tables are there |
| `PagingBoot.BootTranslates` | src/boot/paging.asm:62-74 | the boot tables map the low 24 MiB at 0 and at KERN_BASE and nothing else |
| `PagingBoot.BootTablesOk` | src/boot/paging.asm:55-130 | they can be edited through themselves |
| `PagingBoot.BootValid` | src/boot/paging.asm:55-130 | and stay so with any zero frames below 1 GiB free that are not theirs |
| `PagingBoot.BootReady` | src/boot/paging.asm:55-130 | every free frame below 24 MiB outside them is ready to become a table |
| `PagingBoot.RunsFromBoot` | src/paging/paging.c:179-243 | from the boot tables, free frames anywhere below 1 GiB: over a run of map_page and unmap_page the tables stay editable exactly when its book says so, and it then leaves the boot view with its updates and new tables |
| `PagingBoot.FramesFromBoot` | src/paging/paging.c:28-330 | from there, over any run of all calls with arguments in range, every frame is in one place, every table is a boot table or a frame made into one, none is a page or a free frame, no two slots have one table, and the kernel's pages are direct |
| `PagingBoot.LowRunsFromBoot` | src/paging/paging.c:179-243 | with the free frames below 24 MiB the run's own updates are all there is |
| `FrameTable.FirstFree` | src/paging/paging.c:323-328 | taking the first free entry takes the head of the list of free addresses |
| `FrameTable.NoAddrWhenEmpty` | src/paging/paging.c:320-330 | NO_ADDR is the answer exactly when no entry is free |
| `FrameTable.ListDistinct` | src/paging/paging.c:65-76 | the pages of disjoint aligned regions are aligned and distinct |
| `FrameTable.CountIsLength` | src/paging/paging.c:53-56 | pagecount before its cap is the number of those pages |
| `FrameTable.FrameTableExact` | src/paging/paging.c:47-76 | exactly min(pages, 4096) entries are filled, the k-th with the k-th page, all aligned and distinct |
| `Pager.Pager.constructor` | src/paging/paging.c:13 | the frame table starts empty |
| `Pager.Pager.GetNextFree` | src/paging/paging.c:320-330 | the first free address, now allocated, or NO_ADDR |
| `Pager.Pager.MapPage` | src/paging/paging.c:179-216 | map_page over the array and the tables; the free entries it takes are the first ones, and nothing else in the array changes |
| `Pager.Pager.UnmapPage` | src/paging/paging.c:220-238 | unmap_page with the kernel flag |
| `Pager.Pager.ClearIdentityPages` | src/paging/paging.c:38-43 | the six slots cleared |
| `Pager.Pager.PallocKern` | src/paging/paging.c:98-126 | palloc_kern: its rounds end and answer as specified; with F_ZERO every page that memset reaches from the answer on is then cleared and nothing else, or one is unmapped and it faults; without, memory is as the rounds left it |
| `Pager.Pager.PallocHeap` | src/paging/paging.c:138-176 | palloc_heap for the kernel pool, with the page index and the same about F_ZERO |
| `Pager.Pager.ClearPages` | src/lib/string.c:3-10 | memset to zero: the frames the pages were mapped to are cleared and no other, or a page is unmapped when its turn comes |
| `Pager.Pager.InitPool` | src/paging/paging.c:251-283 | init_pool, whose missing frame shows as map_page's panic |
| `Pager.Pager.InitHeapPage` | src/paging/paging.c:288-303 | init_heap_page up to initialiseHeap |
| `Pager.Pager.FillFrames` | src/paging/paging.c:48-76 | pagecount and the filled table, for any regions |
| `Pager.Pager.ReservePages` | src/paging/paging.c:77-89 | on any tables: the 33 entries reserved and mapped in order, up to the first call that fails, with the tables that these calls take |
| `ReservedEntries.ReservationsAtBoot` | src/paging/paging.c:77-89 | from the boot tables no call fails, no frame is taken and no table entry changes |
| `ReservedEntries.ReservationsReady` | src/paging/paging.c:77-89 | from any ready tables the 32 entries and the screen's are reserved and the frames of these numbers are at their direct pages, other entries only go from free to allocated, or it panics for want of a table |
| `PagerCallers.NewThreadPage` | src/thread/thread.c:62 | thread_create's page from the code itself: on a usual PC a zero page at the first frame's direct address with every mapped page as it was; with frame 0x13ff alone free after boot the call is done and every later map_page is a page fault |
| `MemoryMap.EntryIsFrameIff` | src/paging/paging.c:65-89 | on any memory map in ascending order, entry k is frame k if and only if every frame up to k is usable |
| `MemoryMap.ScreenEntryIff` | src/paging/paging.c:85-89 | the entry reserved for the screen is the screen's frame if and only if no frame before it is missing |
| `MemoryMap.KernelEntriesIff` | src/paging/paging.c:77-83 | the 32 entries reserved for the kernel are its frames if and only if all of these are usable |
| `PagingStart.StartFrames` | src/paging/paging.c:47-89 | on any such map the frames left free ascend and none is one of the kernel's 32 |
| `PagingStart.StartValidIff` | src/paging/paging.c:28-89 | with zeroed frames the allocators may start if and only if no free frame is one of the boot tables or at 1 GiB or above |
| `PagingStart.PcFrames` | src/paging/paging.c:47-89 | on a usual PC's map the free frames end before the boot tables |
| `PagingStart.PcReady` | src/paging/paging.c:28-89 | so there the allocators may start, every free frame ready to become a table |
| `PagingStart.PcRuns` | src/paging/paging.c:28-330 | and there every run of simple calls keeps the tables editable and halts only by a panic |
| `PagingStart.PcReaches` | src/paging/paging.c:28-330 | its states keep boot's direct pages, account for every table, and use the pool in ascending order |
| `PagingStart.PcZero` | src/paging/paging.c:118-125 | in such a state F_ZERO moves no page and clears nothing handed out before, while the 4n frames stay below the boot tables |
| `PagingStart.ScreenEntryIsMemory` | src/paging/paging.c:85-89 | there the entry reserved for the screen is another frame, because of the hole before it |
| `PagingStart.TablesLeftFree` | src/paging/paging.c:65-89 | with 640 KiB from 0 and 16 MiB from 16 MiB on every boot table is left free, and the allocators may not start |
| `Heap.Heap.InitialiseHeap` | src/heap/heap.c:5-16 | one free segment without links |
| `Heap.Heap.Malloc` | src/heap/heap.c:20-119 | the walk ends at the first segment of the chain that fits, or at the last, and that one is split |
| `Heap.Heap.SplitAt` | src/heap/heap.c:92-115 | all writes of the split, in order |
| `Heap.RoundUp` | src/heap/heap.c:22-24 | the size rounded up to eight bytes, in 32 bits |
| `HeapSplit.SplitEffect` | src/heap/heap.c:92-115 | every header after a split, read back |
| `HeapSplit.SplitChainIff` | src/heap/heap.c:90-118 | whatever the back links are, a split with room keeps the tiling, and keeps the free chain if and only if the header's links name the free segment before and no other |
| `HeapSplit.SplitKeeps` | src/heap/heap.c:90-118 | with its own links right, a split with room keeps the tiling and replaces one segment of the free chain by its remainder, unless the free segment before is at address 0 |
| `HeapTheorems.MallocFirstFit` | src/heap/heap.c:20-118 | malloc takes the first free segment that fits and fails only if none does; with room it leaves a heap again if and only if the free segment before is not at address 0 |
| `HeapTheorems.SplitLinksIff` | src/heap/heap.c:94-115 | links agree both ways after a split if and only if the segment was the last and the free one before it is not at address 0 |
| `HeapTheorems.NoRoom` | src/heap/heap.c:95 | whatever the other links are: without room for a header the remainder's length is negative and fits almost any request |
| `HeapTheorems.SplitTilesIff` | src/heap/heap.c:90-118 | the region stays tiled if and only if there is room for the header |
| `HeapRuns.RoundedExact` | src/heap/heap.c:22-24 | rounding goes up by less than eight, except for the last seven sizes |
| `HeapRuns.ServeOk` | src/heap/heap.c:90-118 | one call keeps the heap at allocated segments and one free one at the end |
| `HeapRuns.RunGoesIff` | src/heap/heap.c:5-118 | a run of calls all splits with room for a header if and only if the rounded sizes, a header each and one more fit the region |
| `HeapRuns.RunIsSafe` | src/heap/heap.c:5-118 | over every such run blocks are disjoint, inside the region, aligned and as long as the rounded request, and lengths and headers add up |
| `HeapRuns.RunStops` | src/heap/heap.c:20-118 | the first call that does not go: nothing fits if it is longer than the rest; else it is served and the heap is torn, the next call answered behind the next header |
| `HeapRuns.KernelHeapTears` | src/heap/heap.c:90-118 | on the kernel's heap of one page at address 0 a request of 4056 bytes is that case |
| `HeapStale.BlockStaysOnChain` | src/heap/heap.c:94-118 | when the header's links name none of the chain, a split leaves the block it hands out on the chain |
| `HeapStale.TwoCallsOneAddress` | src/heap/heap.c:20-118 | and then a later call for no more bytes, which nothing before it fits, answers the same address |
| `HeapStale.NullBeforeUnserved` | src/heap/heap.c:94-115 | a free segment at address 0 before it has that effect |
| `HeapStale.StaleLinks` | src/heap/heap.c:94-115 | after any split the next free segment's back links name what was before the split |
| `HeapStale.SecondSplitBreaks` | src/heap/heap.c:90-118 | so from any heap whose links agree, splitting one free segment and then the next one breaks the free chain |
| `HeapStale.SecondCallRepeats` | src/heap/heap.c:20-118 | and two calls then answer one address |
| `HeapStale.ThreeCalls` | src/heap/heap.c:20-118 | from any heap whose first two segments are free, three calls give one address twice |
| `HeapStale.SecondSplitCorrupts` | src/heap/heap.c:112-115 | such a heap, and calls of 8, 104 and 72 bytes: the second and the third are answered with one address |
| `LinkedList.List.constructor` | src/lib/list.c:5-10 | the empty sequence |
| `LinkedList.List.With` | src/lib/list.c:13-21 | the sequence of one element |
| `LinkedList.List.IsEmpty` | src/lib/list.c:60-62 | size zero means the empty sequence |
| `LinkedList.List.Append` | src/lib/list.c:43-58 | append at the end, with a stale tail ignored when empty |
| `LinkedList.List.Pop` | src/lib/list.c:23-32 | the first element removed and answered, or nothing |
| `LinkedList.List.Get` | src/lib/list.c:102-108 | the element at the index, or the panic exactly when out of bounds |
| `LinkedList.List.Find` | src/lib/list.c:65-68 | the walk stops at the first occurrence or at the last node |
| `LinkedList.List.Unlink` | src/lib/list.c:70-83 | exactly that node is gone and the links stay mutually inverse |
| `LinkedList.List.Remove` | src/lib/list.c:64-88 | the first occurrence deleted, true exactly when there was one |
| `Common.RemoveFirstAt` | src/lib/list.c:64-88 | deleting the first occurrence joins what is before and behind it |
| `Common.RemoveFirstNoDup` | src/thread/thread.c:247-248 | in a queue without repetitions no occurrence is left |
| `Screen.MemoryCopy` | src/lib/memory.c:1-6 | the byte by byte copy |
| `Screen.CopyMoves` | src/lib/memory.c:1-6 | it moves the bytes as they were when copying to the front or without overlap |
| `Screen.Screen.GetCursor` | src/lib/screen.c:15-31 | twice the cursor's cell, in 16 bits |
| `Screen.Screen.SetCursor` | src/lib/screen.c:42-49 | the offset's cell |
| `Screen.Screen.Scroll` | src/lib/screen.c:52-73 | past the last row: one row up, an empty last row, the offset a row less |
| `Screen.Screen.PrintChar` | src/lib/screen.c:76-100 | print_char on the buffer and the cursor |
| `Screen.Screen.PrintMessage` | src/lib/screen.c:140-145 | print up to the terminator |
| `Screen.PutOk` | src/lib/screen.c:76-100 | the cursor stays even and below 4000 |
| `Screen.PutShows` | src/lib/screen.c:52-100 | one character on the screen is one character on the tape seen through its last 25 rows |
| `Screen.PrintShows` | src/lib/screen.c:140-145 | after any message the buffer is the 25-row window of the tape |
| `Screen.HistoryStays` | src/lib/screen.c:58-69 | rows that left the screen are never written again |
| `Screen.ScrollClears` | src/lib/screen.c:58-70 | scrolling moves every byte up a row and leaves the last row zero |
| `Screen.PutWrites` | src/lib/screen.c:76-100 | print_char of a character stores it and its attribute, white on black for zero, and changes no other byte |
| `Screen.TextOnTape` | src/lib/screen.c:76-100 | for every text, newlines or not: each character stands where it was written, what was not written is as before, and zero in a row that was not there before |
| `Screen.TapeLength` | src/lib/screen.c:52-73 | rows are added exactly when the place to write leaves the last one |
| `Screen.PlainText` | src/lib/screen.c:93-99 | without a newline the text takes one cell after the other |
| `Itoa.Reverse` | src/lib/int.c:3-14 | the first characters reversed in place, the others kept |
| `Itoa.WriteDigits` | src/lib/int.c:32-36 | the digits, lowest first |
| `Itoa.WriteSuffix` | src/lib/int.c:41-48 | the prefix, backwards |
| `Itoa.Itoa` | src/lib/int.c:16-55 | the number's text and the terminator, the rest of the buffer kept |
| `Itoa.LeadingDigit` | src/lib/int.c:32-36 | the highest digit is not zero |
| `Itoa.ItoaRoundTrip` | src/lib/int.c:16-55 | the text is 0x or 0b in bases 16 and 2 and then digits of the base without a leading zero, reads back as the number and fits 35 bytes |
| `Itoa.ItoaInjective` | src/lib/int.c:16-55 | different numbers have different texts |

## Left out

- SchedTheorems.StatusPartition: a thread built by thread_create but not yet unblocked is on no waiters list, and the idle thread is on none.
- Pager.Pager.PallocKern: the verbose printing. F_ZERO clears frame by frame, not byte by byte, in memory that holds table entries alone.
- Pager.Pager.PallocHeap: the virt_page records: a local copy of the new page's record, and the store at src/paging/paging.c:164-165 of that copy's stack address into the pool's own record before it, which for index 0 lies outside the array.
- PagingRange.RangeFromBoot: states in which a run has lost the tables' editability, where palloc_kern may take a page fault.
- PagingBoot.Memory.Clear: the source clears byte by byte; the model clears word by word.
- Heap.Heap.Malloc: the extension by new pages when nothing fits, which sizes the remainder from the last page alone and leaves links unset; the answer is then None and nothing changes.
- HeapRuns.RunIsSafe: what follows after the first call that does not fit or has no room for a header; RunStops says how that call ends.
- Screen.Screen.constructor: the initial clearing of the screen.
- Itoa.Itoa: the minus sign, which an unsigned number never gets.
- Interleavings inside thread_create's page set-up, and running out of memory there.
- free and CombineFreeSegments, marked as unfinished in the source; every call is commented out.
- thread_sleep and sleep_tick, whose call is disabled; condition variables, which are empty.
- push and list_dump: no caller, and printing.
- setupAvailablePages' last lines, the copy of the directory for later processes. `memcpy` counts words as well (src/lib/string.c:12-19), so it also fills the three frames behind the copy; on a usual PC these are the three that init_pool takes next, as pages, so that the pool is zero again where tables are made.
- lookup_phys, permission and accessed bits of entries, the TLB, user page directories.
- Colours, status rows, print_at and the VGA ports of the screen.
- GDT, IDT and TSS set-up, PIC and ports, keyboard, disk, mode switches, shell, file system.
