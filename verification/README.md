# A model of the teaching kernel and its parallel LCS

Dafny models of the hard parts of the repository, with proofs of what they promise.
`dafny verify dfyconfig.toml` checks everything.

**Scheduler and semaphores.** `Kmt` gives create, wait, signal, context save and schedule as
functions on task lists. `KmtMemory` keeps the records as the kernel does, linked through one `next`
field, and proves that each C operation does to memory what its function does to the lists
(`KmtLinks` says what each list operation does to the links). `KmtRuns` is the transition system of
one CPU: boot code, tasks, interrupts at any point outside a trap, also in the window of `sem_wait`
between the release of its lock and its yield. Over all its runs it proves that a task is in one
place, that units are conserved, that a wait returns only to a task granted a unit, mutual
exclusion, bounded waiting and what the end of a trap does. `KmtHistory` reads the steps of a run
alone: which of them left a task the context it has, and how many units a semaphore has left.
`KmtOrder` shows that semaphores are not first come, first served: a signal that hits the window
serves the last in line, and says exactly when. `Interrupts` is the nesting of `pushcli` and
`popcli`. `Traps` is the handler list and the dispatch of a trap, tied to the steps of `KmtRuns`:
which handlers a trap calls, what they signal in which order, which task goes on and with which
context. `EventQueue` is the input queue and its protocol over the semaphore, on top of the same
runs.

The scope of all of these is **one CPU**. With several, another CPU could run a task that is still
between its wait and its yield, and a task would no longer be in one place.

**Parallel LCS.** `Lcs` proves the recurrence optimal against a declarative definition of a longest
common subsequence, and the sequential table filling against the recurrence. `LcsWorkers` is the
transition system of the main thread and its workers, one shared access at a time; its theorems
hold for every interleaving. `LcsFairness` proves that every infinite schedule that keeps giving
each thread its turn finishes the program.

**Page tables.** `Paging` is the geometry of both configurations, `PageTree` the tree of tables and
the walk of section 4.5 of the Intel SDM, volume 3A. `AddressSpace` is the code: an address space
behaves as a finite map from user pages to frames, a call fails exactly when one of its checks
fails or the pool does not hold the missing tables, and `unprotect` gives back each table once.
`AddressSpaces` is any number of them in one memory: over every run of operations each is a map of
its own, every one sees the kernel as it was at boot, and in the end all pages are back.

**64-bit division.** `BitScan`, `Division` and `SignedDivision`, on the digits defined in `Bits`.
The quotient of section 6.5.5 of ISO/IEC 9899:2011 is `SignedDivision.Truncates`.

**Terminal.** `TtyQueue` is the ring of typed characters against edited lines. `Terminal` is a
terminal of unbounded height, `TerminalText` says where text and control characters take it, and
`TtyScreen` proves the scrolling buffer to be its last rows. `Framebuffer` and `Console` prove that
drawing only the marked cells leaves the picture of a full redraw, over every session from boot on.
`RenderSteps` takes the render apart into its steps, with the marks that the daemon sets without the
lock between them, and says exactly when a mark is lost.

**Memory allocator.** `PmmLayout` is the address arithmetic, `Pmm` one pool, `Allocator` the nine of
them, whose headers lie in one table behind each other as in the kernel. In every run of calls from
`mempool_init` on, each block given out is apart from all those held, and free accepts exactly those,
up to a stray pointer of the kind below.

**Disk.** `SdDisk` proves that block-wise reads and writes are slices and splices of one byte string.

Contexts, task addresses and semaphores are opaque values. Pages, blocks and the contents of the disk
are data. Calls of the page allocator given to `vme_init` are modelled as taking a page from a pool of
unused ones, with arbitrary contents.

Five places where the code does less than one might expect are stated as theorems, each with its
exact condition and a case where it happens.
`KmtOrder.WhoIsServed` and `KmtOrder.Overtaken`: a waiting task can be overtaken.
`LcsWorkers.ResultRightIff` and `LcsFairness.EmptyTeamIsWrong`: without workers the program still
prints a result, right only if the strings share no character.
`Allocator.Allocator.Kfree` and `Allocator.Allocator.FreeBehind`: a pointer behind the last block of
a pool is taken for a block exactly when the header found for it, one of a later pool or a word behind
all of them, says that it is in use, and that breaks the allocator; `Allocator.BrokenFromStart` does
it in two calls.
`RenderSteps.BlinkExact`, `RenderSteps.LostBlink` and `RenderSteps.LostSwitch`: the daemon marks cells
without the terminal's lock, and a mark that falls between the scan of its cell and its clearing by
another render is lost.
`Kmt.NotRequeued` and `KmtMemory.OnceOnly`: a task created with the `bind_cpu` of the idle task runs
once; when it is preempted awake it is in no list any more.

## Model

| member | source | states |
|---|---|---|
| Lcs.CommonAtMostCell | plcs/plcs.c:17-20 | no common subsequence of two prefixes is longer than the recurrence says, although the diagonal term is considered on a mismatch too |
| Lcs.CellReached | plcs/plcs.c:60-72 | some common subsequence is as long as the recurrence says |
| Lcs.LastCellIsLongest | plcs/plcs.c:60-72 | the last cell is the length of a longest common subsequence |
| Lcs.LongestIsUnique | plcs/plcs.c:60-72 | there is only one such length |
| Lcs.RefDp | plcs/plcs.c:60-72 | the sequential filling, in place, puts the recurrence value into every cell |
| LcsWorkers.RunInv | plcs/plcs.c:26-58 | the invariant of claims, owners, lock and cells holds in every state of every interleaving |
| LcsWorkers.RoundIsRight | plcs/plcs.c:87-93 | when a join ends, each cell of the anti-diagonal was claimed by exactly one worker and holds its value |
| LcsWorkers.ReadsTarget | plcs/plcs.c:43-51 | a step of a worker depends on the table only through the cell it reads |
| LcsWorkers.StoresOneCell | plcs/plcs.c:43-51 | and changes only the cell it stores |
| LcsWorkers.NoRace | plcs/plcs.c:43-51 | workers read only cells of earlier rounds and no two store to one cell |
| LcsWorkers.FinishedIsRight | plcs/plcs.c:87-103 | at the end the shared table is the sequential one cell for cell and its last cell is the answer |
| LcsWorkers.StepProgress | plcs/plcs.c:41-57 | every step that changes anything lowers a bound; only spinning on the lock and waiting in join do not |
| LcsWorkers.SomebodyMoves | plcs/thread.h:36-45 | no interleaving is stuck before the end |
| LcsWorkers.EffectiveBound | plcs/plcs.c:87-93 | the number of effective steps is bounded, so every round ends |
| LcsWorkers.ResultRightIff | plcs/thread.h:25-34 | a run ends only with at most 64 workers, and its result is right exactly when there is a worker or nothing in common |
| LcsFairness.FairRunsFinish | plcs/plcs.c:87-103 | every fair infinite schedule finishes the program, with every cell right and claimed once and the answer in the last one |
| LcsFairness.RoundRobinIsFair | plcs/thread.h:25-45 | giving every thread its turn in a circle is fair, so fair schedules exist for every team |
| LcsFairness.EmptyTeamFinishes | plcs/plcs.c:78-103 | without workers the main thread alone finishes and no cell is ever stored |
| LcsFairness.EmptyTeamIsWrong | plcs/plcs.c:78-103 | such a run on "a" and "a" prints 0 where 1 is right |
| Paging.X86_64Valid | abstract-machine/am/src/x86/qemu/vme.c:3-28 | the 4-level table masks partition an address and the areas are whole top-level slots |
| Paging.I386Valid | abstract-machine/am/src/x86/qemu/vme.c:14-33 | the same of the 2-level tables |
| Paging.IndexIsDigit | abstract-machine/am/src/x86/qemu/vme.c:49-51 | indexof is a digit of the address |
| Paging.PageNumbers | abstract-machine/am/src/x86/qemu/vme.c:3-33 | pages are 4096 bytes |
| Paging.X86_64Numbers | abstract-machine/am/src/x86/qemu/vme.c:3-28 | the 64-bit user area, the kernel's one top-level slot and the four indices of an address, as numbers |
| Paging.I386Numbers | abstract-machine/am/src/x86/qemu/vme.c:14-33 | the same of the 32-bit machine and its two kernel areas |
| Paging.SamePathIffSamePage | abstract-machine/am/src/x86/qemu/vme.c:49-51 | two user addresses have the same indices exactly when they lie in one page |
| PageTree.BaseIsMask | abstract-machine/am/src/x86/qemu/vme.c:53-55 | baseof clears the page offset |
| PageTree.WalkMeans | abstract-machine/am/src/x86/qemu/vme.c:57-75 | a walk goes from table to table through present entries of the address, fails where there is none, and grants a right exactly if all its entries do |
| PageTree.WalkIsLeaf | abstract-machine/am/src/x86/qemu/vme.c:57-75 | what the processor finds for a user address is what the last-level entry says |
| PageTree.KernelWalk | abstract-machine/am/src/x86/qemu/vme.c:120-131 | a copied kernel entry translates as under the kernel's own table |
| AddressSpace.AddrSpace.constructor | abstract-machine/am/src/x86/qemu/vme.c:89-115 | before the first protect: the kernel's table is in memory, every other table page is free |
| AddressSpace.BootX86_64 | abstract-machine/am/src/x86/qemu/vme.c:3-33 | the 64-bit machine is ready for protect |
| AddressSpace.BootI386 | abstract-machine/am/src/x86/qemu/vme.c:3-33 | and so is the 32-bit machine |
| AddressSpace.AddrSpace.PgAllocZ | abstract-machine/am/src/x86/qemu/vme.c:40-47 | a page that was not in use, now zero, or nothing when none is left |
| AddressSpace.AddrSpace.Ptwalk | abstract-machine/am/src/x86/qemu/vme.c:57-75 | returns the last-level slot of the address and adds the missing tables, one page each, without changing any last-level entry; fails exactly when the pool holds fewer pages than tables are missing |
| AddressSpace.AddrSpace.Map | abstract-machine/am/src/x86/qemu/vme.c:141-156 | ends in a panic exactly when a check fails or the pool does not hold the missing tables, and in which; otherwise the page is not mapped if prot is 0 and else translates to pa for the user, writable exactly if the digit of weight 2 of prot is 1, the entry being pa + 7 or pa + 5; every other user page translates as before in any case |
| AddressSpace.AskedMeans | abstract-machine/am/src/x86/qemu/vme.c:147-154 | the bit test on prot is that digit |
| AddressSpace.AddrSpace.KernelLookup | abstract-machine/am/src/x86/qemu/vme.c:117-135 | between protect and unprotect every kernel address translates as in the kernel |
| AddressSpace.AddrSpace.Protect | abstract-machine/am/src/x86/qemu/vme.c:117-135 | succeeds exactly when a page is left, and then maps no user page |
| AddressSpace.AddrSpace.MapAll | abstract-machine/am/src/x86/qemu/vme.c:141-156 | each user page is as the last of the calls done for it says, in the same numbers, or as before if there is none; all calls are done or the next one is one that panics, and that panic is the result |
| AddressSpace.AddrSpace.Teardown | abstract-machine/am/src/x86/qemu/vme.c:77-87 | frees exactly the tables of a subtree, each once |
| AddressSpace.AddrSpace.UserEntryMeans | abstract-machine/am/src/x86/qemu/vme.c:80-82 | the entries followed are exactly those of tables of the tree: no data frame, no kernel table |
| AddressSpace.AddrSpace.Unprotect | abstract-machine/am/src/x86/qemu/vme.c:137-139 | memory is exactly what it was before protect and all tables are back in the pool |
| AddressSpace.AddrSpace.Lifetime | abstract-machine/am/src/x86/qemu/vme.c:117-156 | protect, any map calls and unprotect together change neither memory nor the pool, and end early only for lack of a page or in the panic of the next call |
| AddressSpaces.OtherKept | abstract-machine/am/src/x86/qemu/vme.c:57-75 | an address space keeps its tree and every last-level entry while only pages outside it change |
| AddressSpaces.Machine.MapIn | abstract-machine/am/src/x86/qemu/vme.c:141-156 | map in one of several address spaces: it ends and acts as in a single one, the page then translates to pa with the rights asked for, all others translate as before, and no page is lost or shared |
| AddressSpaces.Machine.KernelIn | abstract-machine/am/src/x86/qemu/vme.c:120-131 | in every address space of every state a kernel address translates as in the boot memory |
| AddressSpaces.Machine.ProtectNew | abstract-machine/am/src/x86/qemu/vme.c:117-135 | one more address space, empty; the others translate as before; memory outside the tables is the boot memory throughout |
| AddressSpaces.Machine.UnprotectAt | abstract-machine/am/src/x86/qemu/vme.c:137-139 | exactly the tables of that address space leave memory for the pool; the others translate as before |
| AddressSpaces.RunOps | abstract-machine/am/src/x86/qemu/vme.c:117-156 | any run of protect, map and unprotect on any number of address spaces: each translates as a map of its own, up to the first operation that panics, and which panic that is |
| AddressSpaces.Machine.LastRequestDecides | abstract-machine/am/src/x86/qemu/vme.c:117-156 | after such a run the last request for a page of an address space that was there decides where it leads and whether it is writable |
| AddressSpaces.Machine.UnaskedIsUnmapped | abstract-machine/am/src/x86/qemu/vme.c:117-156 | and a page that nobody asked for is mapped nowhere |
| AddressSpaces.RunAndRelease | abstract-machine/am/src/x86/qemu/vme.c:117-156 | unprotecting what such a run leaves gives back the boot memory and every page |
| BitScan.Clzsi2 | abstract-machine/klib/src/int64.c:640-669 | the exact number of leading zeros, also of 0, by the powers of two around the operand |
| BitScan.Ctzsi2 | abstract-machine/klib/src/int64.c:675-709 | the exact number of trailing zeros, also of 0, by the power of two that divides the operand |
| BitScan.Clzdi2 | abstract-machine/klib/src/int64.c:725-731 | the same for 64 bits |
| BitScan.Ctzdi2 | abstract-machine/klib/src/int64.c:717-723 | the same for 64 bits |
| Division.DivideStep | abstract-machine/klib/src/int64.c:613-629 | one iteration of the loop in the digits of the dividend: the remainder fits, and stays close enough to the divisor |
| Division.SignTest | abstract-machine/klib/src/int64.c:626-628 | the sign bit of d - r - 1 decides r >= d under the bound the loop keeps |
| Division.ShiftSubtract | abstract-machine/klib/src/int64.c:611-634 | the whole loop yields quotient and remainder |
| Division.UDivMod | abstract-machine/klib/src/int64.c:427-634 | for every dividend and divisor, through every special case: a = q * b + r with r < b, and a trap exactly for b = 0 |
| SignedDivision.TruncatesUnique | abstract-machine/klib/src/int64.c:370-404 | at most one quotient and remainder truncate toward zero |
| SignedDivision.Divdi3 | abstract-machine/klib/src/int64.c:370-379 | the quotient truncates toward zero; the one overflow wraps |
| SignedDivision.Moddi3 | abstract-machine/klib/src/int64.c:394-404 | the remainder that goes with it, with the sign of the dividend |
| SignedDivision.Divmoddi4 | abstract-machine/klib/src/int64.c:384-389 | both at once, with a = q * b + r |
| Kmt.CreatePlaced | kernel/src/kmt.c:47-65 | create makes the task ready behind all others, with its context and no other change, and keeps every task where its status says and in one list |
| Kmt.WaitPlaced | kernel/src/kmt.c:132-159 | so does a wait |
| Kmt.SignalPlaced | kernel/src/kmt.c:161-212 | so does a signal, also one that finds the current task asleep |
| Kmt.SchedulePlaced | kernel/src/kmt.c:301-340 | so does a reschedule |
| Kmt.WaitEffect | kernel/src/kmt.c:132-159 | a wait takes a unit or puts the current task last in line, and changes nothing else |
| Kmt.SignalEffect | kernel/src/kmt.c:161-212 | a signal wakes one task that waited here or adds a unit, and changes nothing else |
| Kmt.ScheduleEffect | kernel/src/kmt.c:306-340 | the task made current was awake, and nobody falls asleep |
| Kmt.NotRequeued | kernel/src/kmt.c:314-340 | a current task that is not put back is lost exactly when it was not asleep |
| Kmt.IdleOnlyIfNothingReady | kernel/src/kmt.c:317-325 | the idle task is chosen exactly when no task is ready after the current one is requeued |
| KmtLinks.PushNext | kernel/src/kmt.c:234-256 | which `next` fields a push changes |
| KmtLinks.DispatchNext | kernel/src/kmt.c:258-278 | which a pop changes |
| KmtLinks.WaitNext | kernel/src/kmt.c:140-150 | which queueing on a semaphore changes |
| KmtLinks.WakeNext | kernel/src/kmt.c:181-202 | which taking a task out of a waiting list changes |
| KmtMemory.Scheduler.constructor | kernel/src/kmt.c:373-404 | no task but the idle one |
| KmtMemory.Scheduler.PushTask | kernel/src/kmt.c:234-256 | appends to the ready list; head and tail stay its ends |
| KmtMemory.Scheduler.PopTask | kernel/src/kmt.c:258-281 | takes the first; the tail is NULL exactly when the list is empty |
| KmtMemory.Scheduler.LastWaiter | kernel/src/kmt.c:140-143 | the walk ends at the last waiter |
| KmtMemory.Scheduler.FindWaiter | kernel/src/kmt.c:182-187 | finds a task exactly when it waits, and the node before it |
| KmtMemory.Scheduler.CutNode | kernel/src/kmt.c:188-196 | unlinks one node and no other |
| KmtMemory.Scheduler.CreateTask | kernel/src/kmt.c:47-65 | memory goes to that of Kmt.Create, for any bind_cpu |
| KmtMemory.Scheduler.SemInit | kernel/src/kmt.c:124-130 | the semaphore has the value given, 0 or 1, and nobody waits; other values are refused |
| KmtMemory.Scheduler.SemWait | kernel/src/kmt.c:132-159 | memory goes to that of Kmt.Wait; the assertion fails exactly where that has no result |
| KmtMemory.Scheduler.SemSignal | kernel/src/kmt.c:161-212 | memory goes to that of Kmt.Signal |
| KmtMemory.Scheduler.ContextSave | kernel/src/kmt.c:214-232 | memory goes to that of Kmt.Save |
| KmtMemory.Scheduler.ScheduleNext | kernel/src/kmt.c:301-353 | memory goes to that of Kmt.Schedule for a yield, the timer and a device, or of Kmt.Dispatch if the current task has the bind_cpu of the idle task, and stays as it is for every other event; the context of the current task is returned |
| KmtMemory.OnceOnly | kernel/src/kmt.c:306-340 | from kmt_init on, a task created with bind_cpu -2 is current once and then in no list |
| KmtRuns.Possible | kernel/src/kmt.c:132-340 | which steps a run can take in a state of it: a trap comes at any time outside a trap, and ends unless no task runs and its event does not reschedule |
| KmtRuns.StepKeepsInv | kernel/src/kmt.c:132-340 | every step of a run keeps placement, balance and the phases of sem_wait, and leaves every task a context |
| KmtRuns.RunKeepsInv | kernel/src/kmt.c:132-340 | so does every run |
| KmtRuns.OnePlace | kernel/src/kmt.c:132-278 | a task is current, ready or waiting for one semaphore, and only in its window both current and waiting |
| KmtRuns.Conservation | kernel/src/kmt.c:124-212 | initial value + signals = count + grants, and a positive count means nobody waits |
| KmtRuns.WaiterRuns | kernel/src/kmt.c:132-140 | in every run a task that calls sem_wait is running and every task is in its place, as KmtMemory.Scheduler.SemWait asks |
| KmtRuns.ReturnsGranted | kernel/src/kmt.c:152-158 | sem_wait returns only to a task that was granted a unit |
| KmtRuns.AcquireUnits | kernel/src/kmt.c:132-159 | a wait keeps the sum of free and held units exactly when a task is running that holds none; otherwise the sum falls by one |
| KmtRuns.PostUnits | kernel/src/kmt.c:161-212 | a signal adds one to it |
| KmtRuns.MutualExclusion | kernel/src/kmt.c:124-212 | a semaphore initialised to 1 and used as wait ... signal brackets admits one task, in every run |
| KmtRuns.MovesUp | kernel/src/kmt.c:306-340 | a ready task moves up by one with each dispatch, whatever happens between; dispatches are the returns from traps for a yield, the timer or a device |
| KmtRuns.BoundedWaiting | kernel/src/kmt.c:306-340 | the task at index k of the ready list runs at exactly the dispatch numbered k + 1 |
| KmtRuns.OthersUntouched | kernel/src/kmt.c:214-232 | a task that is not current keeps its context and its place in the code |
| KmtRuns.ResumeSwitches | kernel/src/kmt.c:301-340 | the end of a trap: after a yield, the timer or a device the first task of the ready list runs, behind which a running task that is awake was put last; after any other event current task and ready list stay |
| KmtHistory.ContextOf | kernel/src/kmt.c:214-232 | in every run the context of a task is that of the last trap, whatever its event, that came while the task was current, or else the one it was created with |
| KmtHistory.UnitsFromSteps | kernel/src/kmt.c:124-212 | in every run the initial value of a semaphore and its signals less its waits, counted on the steps, are its count less its waiters |
| KmtOrder.WhoIsServed | kernel/src/kmt.c:181-205 | in every run a signal wakes the first in line exactly when it does not hit the window or only one task waits; otherwise it wakes the last |
| KmtOrder.Overtaken | kernel/src/kmt.c:181-200 | a run in which a trap hits the window of the second waiter and its signal makes that one ready, while the task that has waited longer goes on waiting |
| KmtOrder.SignalServes | kernel/src/kmt.c:161-212 | the complete new state after a signal in any run: one more unit, or the current task stays awake, or the first in line is ready behind all others |
| Interrupts.Cpu.Execute | kernel/src/kmt.c:74-91 | any sequence of pushcli and popcli on the machine: it gets through exactly when no pop lacks its push, the depth is the number of open pushes, and interrupts are off inside and as before outside |
| Interrupts.Nesting | kernel/src/kmt.c:74-91 | no assertion fails exactly when no pop lacks its push; interrupts are off while a push is open and as before when all are closed |
| Traps.HandlerList.OnIrq | kernel/src/os.c:70-85 | splices the handler in behind all it does not precede |
| Traps.StablySorted | kernel/src/os.c:70-85 | the list is the stable sort of the registrations |
| Traps.RegisterAll | kernel/src/os.c:70-85 | any run of os_on_irq on the empty list links up that list |
| Traps.SaveFirstScheduleLast | kernel/src/kmt.c:406-408 | whatever devices register between, saving comes first and scheduling last |
| Traps.OsTrap | kernel/src/os.c:54-67 | the loop over the list, with its two panics, is the dispatch over the sequence it holds |
| Traps.OneContext | kernel/src/os.c:54-67 | it goes on only if exactly one of the handlers called returns a context |
| Traps.OneContextSuffices | kernel/src/os.c:54-67 | and it does so if exactly one does and no call fails |
| Traps.SignalledByRegistered | kernel/src/os.c:54-85 | a semaphore is signalled in a trap exactly if a handler registered for its event or for all events signals it |
| Traps.RegisterAndTrap | kernel/src/os.c:54-85 | registrations, then the walk over the list they built: the machine ends as TrapIsFaithful says |
| Traps.TrapIsFaithful | kernel/src/os.c:54-67 | os_trap does not panic; it signals exactly what the handlers registered for its event or for all signal, each in its place of the sorted list; after a yield, the timer or a device the first ready task goes on and after any other event the current one, with the context handed in if it was current and with the one stored for it if not |
| EventQueue.EventRing.IsEmpty | kernel/src/dev/dev_input.c:16-18 | whether no event is queued |
| EventQueue.EventRing.Push | kernel/src/dev/dev_input.c:20-25 | appends, or panics exactly when 127 events are queued |
| EventQueue.EventRing.Pop | kernel/src/dev/dev_input.c:31-37 | takes the oldest, or panics exactly when there is none |
| EventQueue.ActPossible | kernel/src/dev/dev_input.c:20-38 | which acts of the protocol a task can take in a state of a run |
| EventQueue.NeverEmpty | kernel/src/dev/dev_input.c:29-32 | a consumer that was granted a unit finds an event |
| EventQueue.EveryRun | kernel/src/dev/dev_input.c:20-38 | queue length = count + consumers granted and not done + producers not yet signalling, no empty panic, and what was taken and what is queued are the events of the acts of storing, in order |
| EventQueue.FullWhenOutstanding | kernel/src/dev/dev_input.c:22-24 | the full panic comes exactly with 127 outstanding events |
| TtyQueue.TtyQueue.Enqueue | kernel/src/dev/dev_tty.c:14-21 | appends behind live data and keeps the sentinels, or panics exactly when full |
| TtyQueue.TtyQueue.PopBack | kernel/src/dev/dev_tty.c:23-34 | removes the last character unless it is a NUL or there is none |
| TtyQueue.BackspaceStops | kernel/src/dev/dev_tty.c:26-33 | that is the case exactly when the line being typed is empty |
| TtyQueue.TtyQueue.Cook | kernel/src/dev/dev_tty.c:67-85 | what a keystroke does to finished lines and the line being typed, when it says 1, and when it panics in cells of the ring |
| TtyQueue.TtyQueue.Read | kernel/src/dev/dev_tty.c:226-245 | delivers the oldest finished line cut to the count and removes all of it; sleeps exactly when there is none |
| TtyQueue.TypedIsEdited | kernel/src/dev/dev_tty.c:67-85 | each finished line is its own keystrokes with backspaces applied |
| TtyQueue.ReadsInOrder | kernel/src/dev/dev_tty.c:226-245 | however reads and keystrokes mix, reads take the edited lines in order |
| TtyQueue.Serve | kernel/src/dev/dev_tty.c:67-245 | keystrokes and reads on the ring itself: unless it overflows, each read delivers the next edited line, cut to the buffer, and the lines and keystrokes left follow those |
| TtyQueue.TakenBack | kernel/src/dev/dev_tty.c:67-85 | a character and a backspace after it leave no trace in the line |
| Terminal.FeedKeeps | kernel/src/dev/dev_tty.c:36-65 | the cursor never leaves the screen |
| Terminal.OldRowsKept | kernel/src/dev/dev_tty.c:36-44 | rows that scrolled off never change again |
| TerminalText.TextAppears | kernel/src/dev/dev_tty.c:61-65 | plain text stands in the cells from the cursor on, the cursor behind it, the cells around it as before; rows are added only as needed |
| TerminalText.Rubout | kernel/src/dev/dev_tty.c:54-65 | a character and a backspace leave a blank cell under the cursor |
| TerminalText.Backspace | kernel/src/dev/dev_tty.c:54-59 | a backspace blanks the cell before the cursor, and does nothing at the start of the screen |
| TerminalText.Newline | kernel/src/dev/dev_tty.c:46-52 | a line feed moves to the start of the next row, which is blank if it is new |
| TerminalText.Overwrite | kernel/src/dev/dev_tty.c:46-65 | a carriage return and plain text overwrite the row from its start |
| TtyScreen.Tty.constructor | kernel/src/dev/dev_tty.c:200-216 | a blank screen with the cursor at its start |
| TtyScreen.Tty.ScrollUp | kernel/src/dev/dev_tty.c:36-44 | the buffer moves up by one row and gains a blank one; the marks move up too and those of the last row stay |
| TtyScreen.Tty.MarkLine | kernel/src/dev/dev_tty.c:120-124 | marks the row of a cell and no other cell |
| TtyScreen.Tty.Putc | kernel/src/dev/dev_tty.c:135-167 | the buffer is the last rows of the unbounded terminal, and every cell that looks different is marked |
| Framebuffer.Video.WriteSprites | kernel/src/dev/dev_video.c:52-72 | draws the sprites of the current display in order |
| Framebuffer.RenderExact | kernel/src/dev/dev_tty.c:90-114 | drawing the marked cells makes the whole picture right exactly when the others were right |
| Framebuffer.SameAsFullRedraw | kernel/src/dev/dev_tty.c:90-114 | then every tile shows what a full redraw shows |
| Framebuffer.OtherDisplay | kernel/src/dev/dev_video.c:64-68 | a terminal that is not on display draws nothing |
| Console.Render | kernel/src/dev/dev_tty.c:90-114 | the picture gains exactly the sprites of the marked cells and the marks are cleared |
| Console.Boot | kernel/src/dev/dev_tty.c:182-224 | both terminals show the welcome text, and the picture of the first is complete |
| Console.Session | kernel/src/dev/dev_tty.c:264-320 | after any run of writes, blinks and switches the picture is complete and each terminal is what the text written to it, in order, makes of it |
| Console.TextOfMore | kernel/src/dev/dev_tty.c:247-256 | that text grows by exactly the text of each write to the terminal |
| Console.FirstText | kernel/src/dev/dev_tty.c:182-256 | from boot on: plain text of less than a screen is in the first cells of the first terminal |
| Console.TextShown | kernel/src/dev/dev_tty.c:90-114 | and the tiles on display are those of its characters |
| Console.Console.CompleteMeans | kernel/src/dev/dev_tty.c:90-114 | a complete picture is the two tiles of each cell, of its character or of the block of a visible cursor |
| Console.Console.Begin | kernel/src/dev/dev_tty.c:273-274 | after the first mark-all and render the picture is right |
| Console.Console.Write | kernel/src/dev/dev_tty.c:247-256 | any text to either terminal keeps every clean cell of the one on display right, and completes the picture of that one; plain text that fits stands in the buffer from the cursor on |
| Console.Console.Blink | kernel/src/dev/dev_tty.c:313-318 | so does toggling the cursor |
| Console.Console.Switch | kernel/src/dev/dev_tty.c:290-302 | so does switching terminals |
| RenderSteps.WholeRender | kernel/src/dev/dev_tty.c:90-114 | undisturbed, the steps of a render can run to the end and amount to Console.Render |
| RenderSteps.DrawingKeeps | kernel/src/dev/dev_tty.c:90-114 | while the terminal is on display, no step of any render changes what will become of a cell |
| RenderSteps.MarkCovers | kernel/src/dev/dev_tty.c:116-118 | a mark makes its cell come right unless it falls between the scan and the clearing of that cell; then it does nothing |
| RenderSteps.RunKeepsCovered | kernel/src/dev/dev_tty.c:90-167 | whatever else runs, nothing but a change of cursor or display makes a cell go wrong |
| RenderSteps.CompleteIffCovered | kernel/src/dev/dev_tty.c:90-114 | on display, when renders have come to rest the picture is complete exactly when every cell was to come right |
| RenderSteps.BlinkExact | kernel/src/dev/dev_tty.c:313-318 | the picture is complete after a blink among other renders exactly when the mark did not fall into the window, or the cell was to be scanned anyway, or looks the same |
| RenderSteps.LostBlink | kernel/src/dev/dev_tty.c:313-318 | from any state at rest, unless the cursor is on a block: a run with a lost mark, after which the daemon's own render leaves the picture wrong |
| RenderSteps.LostSwitch | kernel/src/dev/dev_tty.c:297-302 | a render by a writer between mark-all and the switch: nothing of the new terminal is drawn |
| PmmLayout.AlignUp | kernel/include/pmm.h:9 | ALIGN gives the next multiple |
| PmmLayout.BlockAligned | kernel/src/pmm.c:311-320 | every block is aligned to its size |
| PmmLayout.BlocksApart | kernel/include/pmm.h:57-65 | no two blocks overlap and no block overlaps a header, for any heap start |
| PmmLayout.EndsAt128MiB | kernel/src/pmm.c:88-97 | from a start aligned to 16 MiB the pools end at exactly 128 MiB |
| Pmm.Pool.constructor | kernel/src/pmm.c:71-83 | all blocks are free, in order |
| Pmm.Pool.Take | kernel/src/pmm.c:135-143 | takes the first free header, or nothing from an empty pool |
| Pmm.Pool.Release | kernel/src/pmm.c:202-222 | for any pointer from the base on: the block at the pointer becomes the first free one, a pointer into a block or to a free block is refused; behind the last block the header found decides, and accepting it breaks the pool |
| Pmm.BlockOrNot | kernel/src/pmm.c:203-208 | the address arithmetic finds the block of an address exactly when there is one |
| Allocator.Allocator.constructor | kernel/src/pmm.c:86-133 | every pool starts with all its blocks free, ready for any call |
| Allocator.Allocator.PoolsInNumbers | kernel/src/pmm.c:86-133 | the nine sizes of blocks and how many of each there are |
| Allocator.ClassOf | kernel/src/pmm.c:166-198 | the smallest class that fits |
| Allocator.Allocator.Kalloc | kernel/src/pmm.c:166-200 | succeeds exactly when the class has a free block; that block is aligned to its size, zero and no longer free, and nothing else changes; otherwise NULL, and nothing at all changes |
| Allocator.Allocator.Kfree | kernel/src/pmm.c:233-271 | for every pointer: accepted exactly when it is a multiple of the block size into the range of a pool and the header found is in use; up to the last block that gives back the block at the pointer, behind it accepting breaks the allocator |
| Allocator.Allocator.Serve | kernel/src/pmm.c:166-271 | one call when some addresses are held: a block given out is apart from all of them, free accepts exactly them, except for a stray pointer that breaks the allocator |
| Allocator.RunCalls | kernel/src/pmm.c:86-271 | so in every run of calls from mempool_init on, up to the first such stray pointer; what is held are then exactly the allocated blocks |
| Allocator.BrokenFromStart | kernel/src/pmm.c:86-271 | two calls that break a new allocator, wherever the heap starts |
| Allocator.Allocator.InUseIffLive | kernel/src/pmm.c:138-140 | a header is marked in use exactly while its block is allocated |
| Allocator.Allocator.FreeBehind | kernel/src/pmm.c:233-271 | while the first 4 MiB block is allocated, free of the address 2 MiB into the 1 MiB pool is accepted and breaks the allocator |
| PmmLayout.InReach | kernel/src/pmm.c:202-208 | whatever pointer free gets, the header it looks at lies within eight words of the tables |
| Allocator.Allocator.FreeBlock | kernel/src/pmm.c:233-271 | an allocated block is always accepted, a free one always refused |
| Allocator.Allocator.LiveBlocksApart | kernel/src/pmm.c:166-200 | live blocks overlap neither each other nor a header |
| Allocator.Allocator.AllocThenFree | kernel/src/pmm.c:166-271 | free undoes alloc, down to the order of the free lists |
| SdDisk.RoundDown | abstract-machine/klib/include/klib-macros.h:5 | the mask gives the start of the block |
| SdDisk.PartReplaced | kernel/src/dev/dev_sd.c:46-51 | replacing part of a block replaces those bytes of the disk and no others |
| SdDisk.Disk.ByteOfBlock | kernel/src/dev/dev_sd.c:16-24 | byte j of block b is byte b times the block size plus j of the disk |
| SdDisk.Disk.Read | kernel/src/dev/dev_sd.c:26-39 | the buffer gets exactly the slice of the disk, and the rest of it stays |
| SdDisk.Disk.Write | kernel/src/dev/dev_sd.c:41-57 | exactly the bytes of the range are replaced |
| SdDisk.Disk.WriteThenRead | kernel/src/dev/dev_sd.c:26-57 | reading back what was written yields it |

## Left out

- KmtMemory.Scheduler: task and semaphore records are tables from addresses, one table a field, and not objects; aliasing and update in place are as in C, but an address is just a number.
- KmtRuns.RunKeepsInv: one CPU only, and only the idle task has bind_cpu -2; KmtMemory.OnceOnly shows what becomes of another one. The critical sections of kmt.c are single steps, because they run with interrupts off; spinlocks and their retry limit are not modelled.
- Allocator.Allocator.Kfree: the eight words behind the headers that a stray pointer can reach are given, and not tied to the contents of the block they may lie in.
- Allocator.Allocator.Kalloc: one call at a time; the two locks around one free list are not modelled.
- Traps.OsTrap: a handler is one of save, schedule, or a list of signals; other effects of device handlers are not modelled.
- AddressSpace.AddrSpace.Protect: the kernel's own table is given; its construction in vme_init for the 32-bit configuration is not modelled, nor are the TLB and the accessed and dirty bits.
- AddressSpace.AddrSpace.Map: the page allocator hands out pages that are not in use; data frames are numbers whose contents do not matter.
- TtyQueue.TtyQueue.Cook: not for the NUL character, which the terminal task never passes on.
- Console.Console.Switch: operations run one after the other. RenderSteps is about one terminal with renders step by step; there a change of the text is one step under the lock, and drawing all sprites is one step under that of the display.
- TtyScreen.Tty.Putc: screens of at least two cells; sprite coordinates are not cut to 16 bits.
- SdDisk.Disk.Read: the range lies on the disk and positions do not overflow; the polling of the disk is not modelled.
- EventQueue.EveryRun: key codes, modifiers and the timer of dev_input_task are not modelled; producers and consumers are arbitrary tasks.
- LcsWorkers.FinishedIsRight: input strings are any non-empty strings, without the limit of 10000 characters; reading and printing are not modelled.
- Counters such as the count of a semaphore and the ids of tasks are unbounded integers.
- kmt_teardown, the sleeping and dead lists that are never filled, and CPU binding.
- The native platform, boot code, assembly, descriptor tables, interrupt controllers, the serial port, the clock, the disk controller, graphics and fonts.
- stdio, stdlib and string of klib, pstree, and kernel.c.
