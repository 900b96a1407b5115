# A model of the kernel core and of the assembler's readers

The project models the parts of the operating system with the most state and arithmetic, and proves
what they keep over whole sequences of calls. Code that works in place is a class or a method over
arrays; beside each stands a specification on values, and the laws are lemmas about that.

| file | models |
|---|---|
| `Machine.dfy`, `Sequences.dfy` | 32-bit words, the page size, the number of slots, optional results; facts about sequences |
| `MemorySpec.dfy`, `MemoryLists.dfy`, `Memory.dfy` | the physical memory allocator: blocks as values; two descriptor tables threaded as doubly linked lists; the allocator class over them |
| `Paging.dfy` | page tables: mapping, finding, freeing, translating |
| `TaskMemorySpec.dfy`, `TaskMemory.dfy` | creating and killing processes and their memory calls, joined to the allocator; isolation |
| `TaskLaws.dfy` | what creation, kill and the memory calls give and take, and how they undo each other |
| `TaskRuns.dfy` | three runs from boot that break isolation |
| `SchedulerSpec.dfy`, `Scheduler.dfy` | the choice of the next process and of the kernel's turn |
| `SyncCreate.dfy` | waiting for a started process, in all interleavings |
| `CExprSpec.dfy`, `CExpr.dfy`, `CExprLaws.dfy`, `Numerals.dfy` | constant expressions of the assembler, what their tokens mean, and its number tokens |
| `Lexer.dfy` | the assembler's lexer |
| `Console.dfy` | cutting a console command into words |
| `WindowStack.dfy` | the array of windows |
| `LineEditor.dfy` | editing an input line |
| `LineDrawing.dfy` | recursive line drawing |
| `Calendar.dfy` | days of the week and timestamps |

Where the code and its description disagree, the model follows the code. What came out of that:

- Freeing a block while no free block exists leaves the links of the used list in the new free node
  (kernel/memory.c:486-496). The lists stay well formed exactly if the block was the only used one.
  `Followed` is that condition for one free, `KeptRun` and `ListsFollow` carry it over runs; it always
  holds when memory does not end on a page boundary.
- A kill lets interrupts in between its check and its work (kernel/tasks.c:436-450) and does not check
  the slot again. Two kills of one slot can overlap: then the count falls short, which can stop every
  dispatch, and the second end can free a block of another process.
- A length of 0, or above 0xFFFFF000, allocates an empty block. A reservation whose start plus length
  wraps can cut more from a block than it holds.
- Mapping a range that ends exactly at 4 GB does its work and returns FALSE
  (kernel/paging.c:138-139); the page search uses address 0 as a mark and so reports a run from page
  0 one page too late.
- A creation that runs out of memory after its system-call stack leaves its slot used, uncounted, with
  addresses it does not own. If the process it held before was ready, the scheduler dispatches it.
- The entry of an absent page names the frame of its own number until the page is used (kernel/paging.c),
  and translation ignores that it is absent. So a block can be freed by its physical address, while its
  mapping stays.
- A created process gets a tick count as its priority (kernel/tasks.c:173), which is no level, so its
  ticks are never refilled; a ready one is dispatched all the same while the count is positive.
- A pick made while nothing was running can be lost before it is dispatched.
- The wait system call may hand out a slot that another thread still waits on.
- A closing parenthesis of a constant expression is never passed, so an expression is worth what its
  truncation at the first one is, and the right operand of a shift is a multiplication.
- A `;` as the last character sends the lexer past the end of its text.
- A line never sets its second end point, unless it is a single point.
- The week formula of kernel/time.c is a day off from March on in years divisible by 400; its range
  contains one such year, 2000.

## Model

| member | source | states |
|---|---|---|
| MemorySpec.Align4KBRounds | kernel/memory.c:304-311 | rounding gives the least multiple of 4096 that is not below the length, unless the length is above 0xFFFFF000, where it wraps to 0 |
| MemorySpec.AllocExact | kernel/memory.c:328-388 | `MemAlloc` fails exactly when no free block holds the rounded length or no descriptor is left, and then changes nothing; otherwise it adds one used block of the rounded length, at or above the allocation start, cut from the start of one free block, the last of the list that holds it, whose rest keeps its place in the list |
| MemorySpec.AllocKeepsAligned | kernel/memory.c:427-432 | from an aligned state `MemAlloc` returns a 4 KB aligned address and leaves an aligned state |
| MemorySpec.TailAlignedIff | kernel/memory.c:341-358 | a reservation with any start is aligned exactly when it is not cut from the tail of a block whose end is unaligned |
| MemorySpec.AllocEmptyIff | kernel/memory.c:328-388 | an allocation or reservation leaves no empty block exactly when it fails, or its length rounds to a positive one and does not cut off a tail that is the whole block |
| MemorySpec.MemAllocEmptyIff | kernel/memory.c:427-432 | for `MemAlloc` that is: the length is positive and at most 0xFFFFF000, or no descriptor or no free block is left |
| MemorySpec.AllocKeepsInvIff | kernel/memory.c:328-388 | any allocation or reservation keeps the blocks a partition of memory exactly when a tail that it cuts off is not longer than its block, which 32-bit wrap-around of start plus length can bring about |
| MemorySpec.ReserveCanWrap | kernel/memory.c:341-358 | from boot, reserving at the last page of the address space more than all memory holds cuts off such a tail |
| MemorySpec.ReserveInside | kernel/memory.c:328-388 | a reservation whose tail fits lies at one end of one free block, leaves all other free blocks in place, and is not below its start if the 32-bit sum does not wrap |
| MemorySpec.FreeExact | kernel/memory.c:476-531 | `MemFree` succeeds exactly on the start of a used block while a descriptor is left; then that block leaves the used list and exactly its addresses become free; otherwise nothing changes; the lists can follow exactly when a block was free, or only one was used, or no used one starts there |
| MemorySpec.FreeUndoesAlloc | kernel/memory.c:328-531 | freeing what was just allocated gives back the used list and the same set of free addresses; the lists can follow exactly when the allocation left a free block or nothing else was used |
| MemorySpec.FreeKeepsInv | kernel/memory.c:476-531 | freeing any address, with or without a neighbour to join, keeps the blocks a partition of memory; the lists hold these blocks when they can follow (FreeExact, Memory.MemoryManager.MemFree) |
| MemorySpec.BlocksDisjoint | kernel/memory.c:215-228 | no two blocks, free or used, share an address |
| MemorySpec.UsedStartsUnique | kernel/memory.c:476-531 | with no empty block a used block is known by its start |
| MemorySpec.EveryRunPartitions | kernel/memory.c:215-531 | after any sequence of allocations, reservations and frees from boot that the lists can follow and whose tails fit, the blocks are pairwise disjoint and cover exactly the memory from the allocation start to its end; none is empty if no call left an empty one |
| Memory.MemoryManager.Perform | kernel/memory.c:215-531 | over any sequence of calls the lists hold what the specification says exactly when they can follow every free and every tail fits; otherwise the first free that they cannot follow leaves a free list that is none, or the first tail that does not fit leaves no partition |
| MemorySpec.FreeListNeverEmpty | kernel/memory.c:486-496 | when memory does not end on a page boundary, a free block remains over every run from boot whose tails fit, so the lists can follow it |
| MemorySpec.FreeListCanRunOut | kernel/memory.c:328-388 | memory that ends on a page boundary can be handed out completely |
| MemoryLists.WalksAgree | kernel/memory.c:131-205 | over a well-linked list the walk from the head meets each node once and the walk from the foot meets them in the opposite order, however long one walks |
| MemoryLists.WalksVisitFlagged | kernel/memory.c:131-205 | in a well-formed state both walks of both lists agree, meet no slot twice, and meet exactly the slots whose flag is set |
| MemoryLists.StaleLinks | kernel/memory.c:486-496 | a one-node list whose node keeps other links is no list at all |
| MemoryLists.ScanMatchesList | kernel/memory.c:243-290 | counting and adding up flagged slots over the whole table gives the length and the bytes of the list |
| Memory.MemoryManager.constructor | kernel/memory.c:215-228 | boot gives one free block from the allocation start to the end of memory, in well-formed lists |
| Memory.MemoryManager.GetUnusedMBD | kernel/memory.c:103-116 | the first slot whose flag is clear, NULL exactly when there is none |
| Memory.MemoryManager.AppendMBD | kernel/memory.c:131-155 | appending links the node after the foot; it fails exactly when only one of head and foot is NULL |
| Memory.MemoryManager.RemoveMBD | kernel/memory.c:173-205 | removing a node joins its neighbours and moves head and foot when it was one of them |
| Memory.MemoryManager.MemAllocWithStart | kernel/memory.c:328-388 | does to the block lists what the specification of a reservation says, keeps both lists well formed, and keeps the whole state sound with `used` exact exactly when a tail that it cuts off fits its block |
| Memory.MemoryManager.MemAlloc | kernel/memory.c:427-432 | the same for an allocation without a start |
| Memory.MemoryManager.MemGetBlockSise | kernel/memory.c:576-590 | the length of the used block that starts at the address, 0 if there is none |
| Memory.MemoryManager.MemFree | kernel/memory.c:476-531 | does what the specification says and keeps the lists well formed if the free list was not empty, the block was the only used one, or the free fails; otherwise it succeeds and the free list is no list any more |
| Memory.MemoryManager.MemGetUsedMBDTableInfo | kernel/memory.c:274-290 | the reported size is the `used` counter modulo 2^32 and the reported count is the length of the used list |
| Memory.MemoryManager.MemGetMBDTableInfo | kernel/memory.c:243-260 | the reported count and size are those of the free list |
| Memory.FreeIntoEmptyList | kernel/memory.c:486-496 | a concrete sequence of calls from boot after which the free list is no list |
| Paging.PagesOfRoundsUp | kernel/paging.c:103-143 | the number of pages is the length divided by 4096, rounded up |
| Paging.TableItemFields | kernel/paging.c:103-143 | present bit, write bit, user bit and frame of an entry can be read back from it |
| Paging.MapUserPageTableWithPermission | kernel/paging.c:103-143 | writes consecutive frames into the pages of the range and nothing else; succeeds exactly for an aligned, not empty range that ends before 4 GB, so a range that ends at 4 GB is mapped and reported as failed |
| Paging.FreePages | kernel/paging.c:288-322 | makes exactly the pages of the range absent |
| Paging.FindFreePages | kernel/paging.c:194-243 | for a positive length succeeds exactly when a long enough run of absent pages exists and returns the lowest one, except that a run of two or more from page 0 is reported from page 1 |
| Paging.LowestRunUnique | kernel/paging.c:194-243 | the lowest run is unique |
| Paging.MapThenTranslate | kernel/paging.c:103-143 | after mapping an aligned range to an aligned base every address of the rounded-up range translates to base plus offset, present, open to user code and with the asked write permission, and every other entry is unchanged |
| Paging.FreeUndoesMap | kernel/paging.c:288-322 | freeing with the length the allocator recorded makes exactly the mapped pages absent |
| Paging.CreateEmptyUserPageTable | kernel/paging.c:37-64 | the directory points at its own tables and every page is absent |
| Paging.WalkFindsEntry | kernel/tasks.c:1042-1060 | the walk of section 4.3 of the Intel SDM Volume 3A, through any table whose directory is that of an empty one, reaches the very entry that the index arithmetic of the kernel reads; the directory entry is present, writable and open to user code |
| TaskMemorySpec.CreateKeeps | kernel/tasks.c:126-334 | creating a user or system process, whether it succeeds, finds no room for its system-call stack, or runs out of memory later, keeps the isolation invariant; the lists can follow exactly unless the image takes the last free block |
| TaskMemorySpec.KillKeeps | kernel/tasks.c:425-539 | ending a kill of a live one keeps it; the lists can follow exactly when a block is free |
| TaskMemorySpec.KillKeepsIff | kernel/tasks.c:425-539 | ending a kill on any slot, also one that was killed before or whose creation failed, keeps it exactly when none of the recorded addresses, the system-call stack among them, is by then a block of another live one |
| TaskMemorySpec.LiveNotStray | kernel/tasks.c:425-539 | the addresses that a live one records are no block of another |
| TaskMemorySpec.FollowedEachIff | kernel/tasks.c:462-534 | the lists can follow all frees of a kill exactly when a block is free, or only one is used, or none of them succeeds |
| TaskRuns.FailedCreationKilled | kernel/tasks.c:183-323 | a run from boot: a creation fails at its page table, the next gets the address of its image for its system-call stack, killing the failed slot frees that stack, and a request of the live one maps it writable |
| TaskRuns.OverlappingKills | kernel/tasks.c:425-539 | a run from boot: two kills of one slot pass the check, both end, the second end frees the memory of a process that started between them, and a third one gets it too: one frame is writable in both |
| TaskRuns.FreedByPhysicalAddress | kernel/syscall/system.c:110-157 | a run from boot: a page is freed by its physical address, stays mapped, and becomes the system-call stack of the next process |
| TaskMemorySpec.AllocMemoryKeeps | kernel/tasks.c:1205-1243 | an allocation of at least one byte keeps it |
| TaskMemorySpec.AllocMemoryKeepsIff | kernel/tasks.c:1205-1243 | an allocation of any size keeps it exactly when the size is positive, or the slot is not used, has no free pointer place, or no descriptor or no free block is left |
| TaskMemorySpec.FreeMemoryKeepsIff | kernel/tasks.c:1254-1273 | a free at any address keeps it exactly unless the address was not handed out but translates to the start of a used block, and this is a block of its own, or the pages unmapped for it touch its own, or it is freed and a live one owns it |
| TaskMemorySpec.UserFreeKeepsIff | kernel/syscall/system.c:110-157 | the system call keeps it, at any address, exactly unless the address names a block of its own but is not the one handed out, and the pages from there fit below 4 GB or touch its own |
| TaskMemorySpec.FreeFollowedIff | kernel/tasks.c:1254-1273 | the lists can follow such a free exactly when a block is free or the address translates to the start of no used block |
| TaskMemorySpec.NoFrameShared | kernel/tasks.c:291-323 | no physical frame is mapped writable at two pages, of one or of two live address spaces |
| TaskMemorySpec.KernelBlocksUnreachable | kernel/tasks.c:291-323 | no writable mapping reaches a block that holds page tables or a system-call stack |
| TaskMemorySpec.SpansDisjoint | kernel/tasks.c:1205-1243 | the linear ranges of two blocks of one address space do not overlap |
| TaskMemorySpec.EveryRunIsolates | kernel/tasks.c:126-1273 | in every state of every sequence, from boot, of creations, kill checks and kill ends in any interleaving, allocations and frees at any address, also between kernel allocations, in which no kill end and no free does harm and the lists can follow every free: no frame is writable twice, and no page table or system-call stack of a live process is writable |
| TaskMemorySpec.EveryRunWalks | kernel/tasks.c:1042-1060 | over every such sequence the walk of the processor through the tables of a live process reads the entry that the index arithmetic reads, inside the block that was allocated for them, and the directory forbids nothing |
| TaskMemorySpec.EveryRunTranslates | kernel/tasks.c:301-323 | over every such sequence, in a live process: an address below 16 MB translates to itself, read-only; one in the image to its place in the image, the first page read-only and the rest writable; one in a block that was handed out to its place in that block, writable; all present and open to user code |
| TaskMemorySpec.UserFreeAnswer | kernel/syscall/system.c:110-157 | the system call answers TRUE exactly when the allocator changed, and then exactly one recorded pointer, the one the address translates to, was cleared and its block left the used list |
| TaskLaws.CreateTakes | kernel/tasks.c:126-323 | a creation that succeeds takes the first free slot and exactly three blocks, of 1 MB, of 3 MB plus the program, and of the page tables, with no pointer recorded; one that fails either changes nothing, because the program is too long, no slot is free, or no descriptor or 1 MB is left, or leaves the first free slot used and keeps exactly the 1 MB |
| TaskLaws.KillGivesBack | kernel/tasks.c:462-534 | while descriptors are left, ending a kill gives back exactly the blocks of the process: image, page tables, system-call stack and every block it asked for |
| TaskLaws.KillUndoesCreate | kernel/tasks.c:126-539 | a kill undoes a creation: the same blocks are used as before, and all other slots are untouched |
| TaskLaws.AllocMemoryGives | kernel/tasks.c:1205-1243 | a request of a live process fails exactly for want of a pointer place, a long enough run of absent pages, a descriptor or a free block, and then changes nothing; otherwise it records one new block, maps pages that were absent to it, writable and open to user code, every address to its place in the block, and changes no other page |
| TaskLaws.FreeUndoesRequest | kernel/tasks.c:1254-1273 | freeing what was requested, by the call of the kernel or by the system call, which then answers TRUE, gives back the used blocks, the free addresses, the pointers and the presence of all pages, and every other entry |
| TaskMemorySpec.ListsAlwaysFollow | kernel/tasks.c:126-1273 | when memory does not end on a page boundary the lists can follow every such sequence |
| TaskMemory.Boot | kernel/tasks.c:50-94 | the booted allocator and 64 free slots, all different objects, hold the state that the runs start from |
| TaskMemory.TaskManager.CreateTask | kernel/tasks.c:126-334 | the system-call stack, the slot, the image, the pointer array and the page table, with the kernel range mapped to itself (EveryRunTranslates), end up as the specification says; nothing happens without a stack, and the slot stays used without the rest |
| TaskMemory.TaskManager.EndKill | kernel/tasks.c:451-539 | frees image, blocks, page table and system-call stack in this order and clears the slot as specified, without checking it again; refused while a disk lock is held; a free that the lists cannot follow breaks them |
| TaskMemory.TaskManager.BeginKill | kernel/tasks.c:425-429 | passes exactly for a used slot and notes the kill |
| TaskMemory.TaskManager.AllocTaskMemory | kernel/tasks.c:1205-1243 | the first free pointer place, the lowest run of pages and the new block are used as specified; all other slots are unchanged |
| TaskMemory.TaskManager.FreeTaskMemory | kernel/tasks.c:1254-1273 | unmaps with the recorded size, forgets the pointer and frees the block as specified; all other slots are unchanged; a free that the lists cannot follow breaks them |
| TaskMemory.TaskManager.SyscallFree | kernel/syscall/system.c:110-157 | looks for the block among the pointers, unmaps, forgets and frees as specified, and answers as the source does; a free that the lists cannot follow breaks them |
| TaskMemory.TaskManager.ConvertLAddrToPAddr | kernel/tasks.c:1042-1060 | the translation through the page table of a used slot, 0 otherwise |
| TaskMemory.TaskSlot.TakeMemory | kernel/tasks.c:1205-1243 | the part of an allocation that touches one slot |
| TaskMemory.TaskSlot.ReturnMemory | kernel/tasks.c:1254-1273 | the part of a free that touches one slot |
| TaskMemory.TaskSlot.UserReturn | kernel/syscall/system.c:110-157 | the part of the freeing system call that touches one slot |
| TaskMemory.TaskSlot.Start | kernel/tasks.c:158-323 | the part of a creation that touches one slot, from its system-call stack on, with the page table whose meaning EveryRunTranslates states |
| TaskMemory.TaskSlot.Load | kernel/tasks.c:183-323 | the part after the stack, in its three outcomes; the page table maps the kernel range to itself and the image to its block (EveryRunTranslates) |
| TaskMemory.TaskSlot.End | kernel/tasks.c:462-534 | the part of a kill that touches one slot, up to a free that the lists cannot follow |
| SchedulerSpec.EveryRunSane | kernel/tasks.c:126-539 | over every sequence of interrupts, creations, kill checks, kill ends and settings from boot a running id names a used and ready slot |
| SchedulerSpec.EveryRunCounts | kernel/tasks.c:126-539 | over every such sequence the count falls short of the used slots by one for each creation that runs out of memory and each kill that ends on a slot no longer used; so it is exact exactly when there was none |
| SchedulerSpec.SuccessorIsNearest | kernel/tasks.c:966-992 | the two scans pick the ready slot closest after the running one in cyclic order, and none exactly when no other is ready |
| SchedulerSpec.TurnLasts | kernel/tasks.c:934-955 | a dispatched one stays the running one for all its ticks but the last, one tick an interrupt, through kernel turns and all other events but the end of a kill of it |
| SchedulerSpec.TurnEnds | kernel/tasks.c:966-992 | its last tick hands over to the next in cyclic order, never to itself |
| SchedulerSpec.TurnRefills | kernel/tasks.c:943-955 | after a turn of priority 1, 2 or 3 that ended, in every continuation that sets no priority of the slot and ends no kill of it, the slot has exactly 40, 15 or 5 ticks until it is picked again |
| SchedulerSpec.NextTurnLength | kernel/tasks.c:934-955 | so its next turn lasts exactly 40, 15 or 5 interrupts, and the last of them hands over |
| SchedulerSpec.TimerTouches | kernel/tasks.c:934-1010 | an interrupt changes only the slots of the process that was running and of the one it picks, and of these only ticks and the two running marks; a hand-over moves the mark; a user turn sets the dispatched mark of the slot it goes to |
| SchedulerSpec.NoStarvation | kernel/tasks.c:934-994 | from any reachable state with a positive count, while the ready set stays fixed and nothing is killed, each ready slot gets the processor within three interrupts more than the sum over the ready slots of one more than their longest turn, for any priorities within the caps the sum uses, and between any creations |
| SchedulerSpec.NoMiscountNoStarvation | kernel/tasks.c:425-539 | the count is positive after every sequence that left a slot used and never miscounted |
| SchedulerSpec.DispatchedIff | kernel/kernel.c:1267-1359 | in a reachable state a ready slot is ever dispatched by timer interrupts exactly when the count is positive |
| SchedulerSpec.CountZeroStarves | kernel/kernel.c:1267-1359 | without a positive count the kernel takes every turn until something is created |
| SchedulerSpec.OverlappingKillsStarve | kernel/tasks.c:425-539 | a run from boot: two overlapping kills of one slot leave another slot used and ready, the count 0, and that slot never dispatched |
| SchedulerSpec.RoundRobinPickHonoured | kernel/tasks.c:966-1010 | a slot picked by the round-robin branch is not replaced before it got the processor, in any continuation in which no kill of it ends |
| SchedulerSpec.IdlePickHonouredIff | kernel/tasks.c:957-965 | a slot picked when none was running gets the next user turn, in every continuation in which no kill of it ends, exactly unless the kernel takes this turn and the slot carries an old mark; it is then lost in a continuation in which only ended kills force the kernel in |
| SchedulerSpec.KernelTurnsComeBack | kernel/kernel.c:1267-1359 | between two kernel turns there are at most as many dispatches as the largest count seen |
| SchedulerSpec.KernelTurnsWait | kernel/kernel.c:1267-1359 | when the kernel takes a turn without a forced switch and with a process to run, at least as many dispatches came since its last turn as processes are counted |
| SchedulerSpec.CreatedNeverRefilled | kernel/tasks.c:171-174 | a creation stores a tick count where a level belongs: in every run after it that sets no priority of the slot and ends no kill of it, its ticks never grow, and once they are used up every turn of it ends with the first interrupt after its dispatch |
| SchedulerSpec.CreatedWaits | kernel/tasks.c:138-323 | a creation takes the first free slot, counts it, and the slot gets no turn, in any continuation, before somebody makes it ready |
| SchedulerSpec.UnreadyWaits | kernel/tasks.c:957-992 | a slot whose ready flag is down gets no turn before somebody sets it, whatever else happens |
| SchedulerSpec.KilledStopped | kernel/tasks.c:425-539 | a slot that is not used gets no turn before a creation takes it |
| SchedulerSpec.FailedCreationRunsIff | kernel/tasks.c:183-334 | a slot whose creation ran out of memory keeps the ready flag of the process it held before: in a reachable state timer interrupts alone dispatch it exactly when that process had been made ready and the count is positive |
| SchedulerSpec.FailedCreationRuns | kernel/tasks.c:183-334 | a run from boot to such a state: a ready process is killed and its slot is the next to be taken |
| Scheduler.TaskScheduler.constructor | kernel/tasks.c:50-94 | the boot state |
| Scheduler.TaskScheduler.GetNextTaskID | kernel/tasks.c:934-994 | the decision of the specification, in place, with its two scans and the refill whose three levels TurnRefills states |
| Scheduler.TaskScheduler.SetTaskRunningStatus | kernel/tasks.c:1006-1010 | marks the running slot, whatever id is passed |
| Scheduler.TaskScheduler.TimerInterrupt | kernel/kernel.c:1267-1359 | the choice between kernel and user turn and the new state are those of the specification |
| Scheduler.TaskScheduler.CreateTask | kernel/tasks.c:138-176 | takes the first slot that is free and not reserved and resets it; without a system-call stack it changes nothing; without the rest of its memory it leaves the slot used and uncounted |
| Scheduler.TaskScheduler.EndKill | kernel/tasks.c:451-539 | clears the slot, and the running id if it was this one, and counts down, without checking the slot again; refused while a disk lock is held |
| Scheduler.TaskScheduler.BeginKill | kernel/tasks.c:425-429 | passes exactly for a used slot and notes the kill |
| Scheduler.TaskScheduler.SetTaskToReady | kernel/tasks.c:722-730 | sets the flag; fails exactly for a slot that is not used |
| SyncCreate.StepKeeps | kernel/tasks.c:896-922 | every step of every thread that is not a meddling wait call keeps each waiting thread its reserved slot |
| SyncCreate.ReturnValueIsOwn | kernel/tasks.c:896-922 | in every interleaving from boot without a meddling wait call, the value a waiter reads is the last one that the process it started ever set |
| SyncCreate.SlotsStayReserved | kernel/tasks.c:142-150 | in every such interleaving no slot is reused before its waiter gives it back and no two waiters share a slot |
| SyncCreate.WaiterReturns | kernel/tasks.c:896-922 | from every reachable undisturbed state, once the process that a waiter started has ended, the three steps of the waiter, with any undisturbed events before, between and after them, bring it back with the last value that process ever set, and the slot is free again until somebody takes it |
| SyncCreate.WaiterStays | kernel/tasks.c:917-918 | a waiter whose process still runs stays in its loop, whichever of its steps is tried |
| SyncCreate.ReservedStays | kernel/syscall/system.c:399-432 | a used slot that is reserved keeps its incarnation, running or ended, until a wait call names it or a waiter gives it back |
| SyncCreate.EndsByKillOnly | kernel/tasks.c:425-539 | a used slot stays used, by the same process, until a kill of it ends that is not refused |
| SyncCreate.WaitCallHarmlessIff | kernel/syscall/system.c:418-432 | a wait system call is harmless, in all continuations, exactly when it does not name an ended slot whose waiter has not given it back |
| SyncCreate.MeddlingReachable | kernel/syscall/system.c:418-432 | a run from boot after which a wait call names an ended slot that its waiter has not given back |
| SyncCreate.MeddlingTakesSlot | kernel/syscall/system.c:418-432 | after a meddling call, creations alone take the slot away from its waiter |
| CExprSpec.ReadBack | apps/iasm/cexpr.c:44-237 | any expression of the layered grammar whose parentheses all close at its end, printed with any blanks that keep words apart, is cut into its own tokens and evaluates to its left-associative 32-bit value; errors come out as errors |
| CExprSpec.EvalTruncates | apps/iasm/cexpr.c:44-237 | every expression of the grammar evaluates to the value of its truncation, which ends at the first closing parenthesis and closes there what is open, with the cursor before that parenthesis, and fails exactly when the truncation has no value |
| CExprSpec.TruncWholeIff | apps/iasm/cexpr.c:60-78 | the truncation is the whole expression exactly when all its parentheses close at its end |
| CExprSpec.NoTokenIff | apps/iasm/cexpr.c:239-389 | a text has no token exactly when it holds no letter, digit, underscore, operator sign, angle bracket or parenthesis |
| CExprSpec.EvalThenContinue | apps/iasm/cexpr.c:80-237 | reading an expression at its rung amounts to its value followed by the loop of that rung |
| CExprSpec.AllConsumedIff | apps/iasm/cexpr.c:60-78 | an expression of the grammar that evaluates uses up all its tokens exactly when it has no parentheses |
| CExprSpec.RestIgnored | apps/iasm/cexpr.c:60-78 | nothing after the first closing parenthesis has an effect on the result |
| CExprSpec.ClosedFactorLost | apps/iasm/cexpr.c:60-78 | `(1)*3` evaluates to 1 |
| CExprLaws.Grouping | apps/iasm/cexpr.c:113-229 | which way `x op1 y op2 z` groups, by the tokens of the operators: left unless the second binds tighter, and then right; but a sum or a difference after a shift is not read at all |
| CExprLaws.PrefixBinds | apps/iasm/cexpr.c:80-111 | a prefix binds tighter than every operator, on either side of it |
| CExprLaws.ShiftThenSum | apps/iasm/cexpr.c:179-201 | `a << b + c` is a times 2^b modulo 2^32 with the cursor before the `+`, and `a << b * c` shifts by the product |
| CExprLaws.ArithmeticTokens | apps/iasm/cexpr.c:80-177 | `+`, `-`, `*` between two constants and `+`, `-` before one are sum, difference, product and negation modulo 2^32; `POW` applies the power function to its operands in their order |
| CExprLaws.DivisionTokens | apps/iasm/cexpr.c:126-152 | `/` and `%` give quotient and remainder, and nothing for a divisor 0 |
| CExprLaws.ShiftTokens | apps/iasm/cexpr.c:179-201 | `<<` and `>>` multiply by a power of two modulo 2^32 and divide by it; nothing for 32 and more |
| CExprLaws.BitTokens | apps/iasm/cexpr.c:203-229 | every bit of the results of `&`, `|`, `^` and `~` |
| CExprLaws.TokenLimit | apps/iasm/cexpr.c:239-389 | printed tokens are cut into the same ones exactly if there are at most 1023; more are an error |
| CExprLaws.WordLimit | apps/iasm/cexpr.c:257-265 | a word of more than 50 characters is an error |
| CExprLaws.LoneAngle | apps/iasm/cexpr.c:294-347 | a single angle bracket is a token though no operator |
| CExprLaws.IgnoredHasNoEffect | apps/iasm/cexpr.c:279-375 | a character of no token has no effect, unless it parts two angle brackets |
| CExprSpec.ScanText | apps/iasm/cexpr.c:239-389 | printed tokens are cut into the same tokens again |
| CExpr.GetCExprTokens | apps/iasm/cexpr.c:239-389 | the tokenizer loop, with its limits on token length and number |
| CExpr.Evaluator.Atom | apps/iasm/cexpr.c:44-58 | one constant |
| CExpr.Evaluator.Parentheses | apps/iasm/cexpr.c:60-78 | an operand; the closing parenthesis is looked at and not passed |
| CExpr.Evaluator.CalcUnary | apps/iasm/cexpr.c:80-111 | at most one prefix operator |
| CExpr.Evaluator.CalcPow | apps/iasm/cexpr.c:113-124 | the power rung, value and cursor |
| CExpr.Evaluator.CalcMulDivMod | apps/iasm/cexpr.c:126-152 | the multiplication rung, value and cursor |
| CExpr.Evaluator.CalcAddSub | apps/iasm/cexpr.c:154-177 | the addition rung, value and cursor |
| CExpr.Evaluator.CalcShift | apps/iasm/cexpr.c:179-201 | the shift rung, whose right operand is a multiplication: what comes out is CExprLaws.Grouping and ShiftThenSum |
| CExpr.Evaluator.CalcAndOrXor | apps/iasm/cexpr.c:203-229 | the bitwise rung, value and cursor |
| CExpr.GetCExprResult | apps/iasm/cexpr.c:391-410 | the value of a backquoted text, an error where the source ends or finds no token |
| Numerals.CheckNumber | apps/iasm/parser.c:50-159 | a text is accepted exactly if it is digits of the base its last character names, with the first character the base asks for |
| Numerals.ToUInteger | apps/iasm/string.c:246-319 | the loops from the last place to the first, with the weight in a 32-bit word, give the value of the digits modulo 2^32, and 0 for a text with anything else in it |
| Numerals.ToNumber | apps/iasm/parser.c:335-385 | the value of a number token |
| Numerals.NumberReadBack | apps/iasm/parser.c:335-385 | every 32-bit number, spelled in base 2, 8, 10 or 16, is a number token and has its value |
| Numerals.NumberInExpression | apps/iasm/parser.c:387-410 | a spelled number is a word of the expression grammar and worth its number there |
| Numerals.CloseIsNoConstant | apps/iasm/parser.c:183-188 | a closing parenthesis is no constant |
| Console.CommandParser.SetCommand | kernel/console.c:98-103 | copies the command up to its end mark, cut to 1023 characters |
| Console.CommandParser.NextWord | kernel/console.c:104-178 | one call reads the word of the specification and returns what is left |
| Console.CommandReadBack | kernel/console.c:87-188 | any list of plain, double-quoted and single-quoted words, with backslash and quote escaped, carriage return, newline and tab as such or as letters, and any blanks that keep plain words apart, comes back word for word if every word is shorter than the limit and the command fits the buffer |
| Console.QuotedWordReadIff | kernel/console.c:108-168 | a quoted word is read to its closing quote exactly when it is shorter than the limit |
| Console.LongWordCut | kernel/console.c:107-119 | a plain word that does not fit is cut at the limit and the next call goes on with the rest of it |
| Console.LoneBackslash | kernel/console.c:121-166 | inside quotes a backslash before a character that is no escape stands for itself; one that ends the command is lost |
| WindowStack.EveryRunPermutes | kernel/screen.c:979-1102 | over every sequence of operations the array is a permutation of the slots and a slot is live exactly when its place is below the count |
| WindowStack.StepKeeps | kernel/screen.c:979-1102 | every operation keeps that |
| WindowStack.SetTopKeepsOrder | kernel/screen.c:1081-1102 | setting a window on top keeps the order of all others |
| WindowStack.FreeKeepsOrder | kernel/screen.c:1006-1024 | freeing a live window ends it alone, keeps the order of all others, live or not, and puts its slot last |
| WindowStack.NewMeans | kernel/screen.c:979-992 | a new window was not live and is live afterwards, below all live ones; nothing else changes; there is none exactly when all slots are live |
| WindowStack.HideTopMeans | kernel/screen.c:1453-1456 | hiding the top window hides it alone and puts it below all other live windows, whose order it keeps |
| WindowStack.RaiseMeans | kernel/screen.c:1489-1490 | raising exchanges a live window with the top and moves nothing else |
| WindowStack.SwitchMeans | kernel/screen.c:1037-1067 | switching turns the live windows by the least positive number that brings a shown one, or else the old top, to the top; the rest does not move |
| WindowStack.Windows.NewWindow | kernel/screen.c:979-992 | the first entry without an id, which is the one after the live ones; NULL exactly when all are live |
| WindowStack.Windows.FreeWindow | kernel/screen.c:1006-1024 | closes the gap by shifting, so that all others keep their order (FreeKeepsOrder), and puts the slot last; fails exactly for a NULL window |
| WindowStack.Windows.SetTopWindow | kernel/screen.c:1081-1102 | moves a live window to the front; fails exactly for others |
| WindowStack.Windows.SwitchFrom | kernel/screen.c:1037-1054 | the recursion ends, with the turn of the specification |
| WindowStack.Windows.SwitchWindow | kernel/screen.c:1063-1067 | the same from the top window |
| WindowStack.Windows.HideTopWindow | kernel/screen.c:1453-1456 | hides the top window and puts it after the other live ones |
| WindowStack.Windows.RaiseWindow | kernel/screen.c:1489-1490 | the window changes places with the top |
| LineEditor.Insert | kernel/keyboard.c:792-797 | the insertion loop makes room after the cursor and the buffer holds the text typed so far |
| LineEditor.Delete | kernel/keyboard.c:754-762 | the deletion loop drops the character before the cursor |
| LineEditor.GetStrn | kernel/keyboard.c:714-842 | for every sequence of keys the buffer holds the text of the two-part line, split just after `pos`, and the length never exceeds the limit |
| LineEditor.KeysUndo | kernel/keyboard.c:739-789 | backspace undoes typing and the arrows undo each other |
| LineEditor.ArrowKeepsText | kernel/keyboard.c:769-789 | an arrow moves one character across the split and leaves the text alone |
| LineEditor.NeverTooLong | kernel/keyboard.c:714-842 | the text never grows past the limit, whatever keys arrive |
| LineEditor.EditedLine | kernel/keyboard.c:714-842 | typing, going back and forth with the arrows, deleting and typing again replaces the deleted characters by the typed ones, in the middle of the line |
| LineEditor.FullLineEnds | kernel/keyboard.c:731-737 | a full line ends with the next key, whatever it is, and that key is lost |
| Lexer.CallBoundary | apps/iasm/lexer.c:23-218 | at every call boundary the line is one more than the newlines before the position, and every call that does not start at the end moves on |
| Lexer.OverrunIff | apps/iasm/lexer.c:166-188 | a call runs past the end of the text exactly when only blanks and closing brackets stand between its start and a `;` that is the last character |
| Lexer.TokensReadBack | apps/iasm/lexer.c:23-218 | any list of plain, enclosed, open, comma and newline tokens, kept apart where they must be, with the characters that the lexer drops and with comments, comes back as the same list of texts, the dropped characters left out, from as many calls |
| Lexer.SizeOnlyLimits | apps/iasm/lexer.c:23-218 | a call that succeeds does the same with any larger buffer, so a peek and the next call agree |
| Lexer.SourceLexer.Token | apps/iasm/lexer.c:23-218 | the text, position and line of the specification; a peek leaves position and line alone and returns the line from before the call |
| Lexer.SourceLexer.SkipComment | apps/iasm/lexer.c:170-186 | stops before the newline or at the end, and fails when the sign is the last character |
| Lexer.SourceLexer.Consume | apps/iasm/lexer.c:50-206 | the cases of the switch |
| Lexer.SourceLexer.Reset | apps/iasm/lexer.c:230-233 | back to the first character and line 1 |
| LineDrawing.MiddleCloser | kernel/image.c:667-675 | both halves of a line that is not a base case are shorter in king steps, so the recursion ends |
| LineDrawing.LineShape | kernel/image.c:659-677 | the pixels form a chain of touching points from the first end to one step from the second, inside the box of the two, that never turns back |
| LineDrawing.StraightLine | kernel/image.c:659-677 | a line whose difference is a power of two times a step is straight: it sets every point a whole number of steps from its first end |
| LineDrawing.EndPointSetIff | kernel/image.c:669-670 | the second end itself is set only by a line of one point |
| LineDrawing.LimitsKept | kernel/image.c:667-675 | both halves of a line within the limits are within them, and within them the sums and the sums of squares are int32, so no call of the drawing overflows |
| LineDrawing.NoOverflow | kernel/image.c:667-675 | within the limits every sum, difference, square and sum of squares of a call is an int32 |
| LineDrawing.PaintAt | kernel/image.c:281-299 | painting changes exactly the painted pixels that lie in the image |
| LineDrawing.CommonImage.SetPixel | kernel/image.c:281-299 | sets the pixel at its place in the array; fails exactly outside the image or for another image type |
| LineDrawing.CommonImage.Line | kernel/image.c:659-677 | sets the pixels of the chain, in order |
| Calendar.ZellerCountsDays | kernel/klib.c:122-136 | Zeller's sum is the number of the day, counted from 1 January of year 1, modulo 7 |
| Calendar.GetDayOfWeek | kernel/klib.c:117-137 | the day of the week by counting days, for every valid date |
| Calendar.WeekRightIff | kernel/time.c:36-51 | the second formula counts days, and so agrees with the first, exactly outside the months from March on of years divisible by 400 |
| Calendar.GetWeek | kernel/time.c:36-51 | the value of that formula |
| Calendar.PosixCountsDays | kernel/time.c:214-236 | the expression of section 4.16 of IEEE Std 1003.1-2017, Base Definitions, is the number of seconds by counting days |
| Calendar.LeapForDateRight | kernel/time.c:228 | the leap test is that of the calendar before the year 2100 |
| Calendar.TimestampsInOrder | kernel/time.c:192-254 | at a fixed offset the timestamp orders valid moments: strictly increasing, and equal only for equal moments |
| Calendar.TimestampFits | kernel/time.c:212-236 | for valid moments and offsets of at most a day it is an int32 |
| Calendar.DateTime.Fill | kernel/time.c:192-254 | accepts exactly the ranges the source checks, and then fills in the seconds since 1970 less the offset and the fields, day and week cut to eight bits |

## Left out

- TaskMemory.TaskManager.EndKill: stops at a free that the lists cannot follow, where the source goes on over lists that are none; the pause in which a kill waits for a disk lock is only an answer whether it is held.
- TaskMemory.TaskManager.CreateTask: the page table is an array of its own, not the bytes of the block that was allocated for it; the processor's view of those bytes is Paging.WalkFindsEntry.
- TaskMemorySpec.EveryRunIsolates: memory calls come from live slots and ask for at least one byte, and outside of kills and of these calls the kernel frees no block of a live process.
- TaskMemory.TaskManager.AllocTaskMemory: finding a place, allocating and mapping are one step; the source holds no lock over the three, so two calls for one process could interleave.
- Scheduler.TaskScheduler.GetNextTaskID: ticks are unbounded integers; a tick that is never refilled would wrap after 2^31 interrupts.
- CExpr.Evaluator.Atom: the constants are a parameter, which `Numerals.dfy` fills in for numbers; the table of labels and the power function, which goes through floating point, stay parameters.
- CExpr.GetCExprResult: for a text without a token the source reads a place of its buffer that it never set; the model reports an error, and CExprSpec.NoTokenIff says which texts these are.
- CExprSpec.ReadBack: a division by zero and a shift by 32 or more count as errors.
- LineEditor.GetStrn: whether the screen cursor can follow a key is an input, and nothing is drawn.
- LineDrawing.CommonImage.Line: end points outside the int32 limits, where C leaves the overflow undefined.
- Calendar.DateTime.Fill: integers are unbounded; TimestampFits says for which inputs no int32 overflows.
- Console.CommandParser.NextWord: variable processing, which replaces a word after it is read, is off.
- WindowStack.Windows.SwitchFrom: called, as in the source, for a window that is live.
- Opened files, message queues and ELF images of a process: in the runs of the model they stay empty, as a creation leaves them, so a kill has none of them to free; loading an ELF image, which maps where the image asks, is not part of this model.
- The memory-usage counter, FPU state and descriptors of a process, which creation and kill also touch.
- Freeing the tokens of a constant expression.
- The month-length function of kernel/klib.c, which adds a day to every month of years divisible by 400, and the conversion of a timestamp back to a date, which can produce day 0.
- Disk driver locks, whose flag is read outside their critical section.
- Device drivers, the file system, the window contents, the console commands and the virtual machine.
