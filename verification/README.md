# A teaching kernel, modelled and proved in Dafny

The repository is a small ARM kernel: a table of 30 processes with a two-class scheduler, an inode file
system on a disk behind a serial line, and user programs such as the dining philosophers. This project
models that code and proves what it keeps over every run, together with the exact conditions under which
the promises of the code hold. `dafny verify dfyconfig.toml` checks everything.

The parts, each a module:

- **Process kernel.** `Processes`, `Scheduler` and `SystemCalls` give the meaning of every kernel entry as a
  function on states; `Machine` holds the kernel itself, a class with a mutable table, whose methods have
  the loops of the C code and are proved equal to those functions. About runs of kernel entries:
  `KernelFrames` (what each process sees of the processor), `Fairness` (bounded waiting by a ranking
  function), `Forest` (parents), `WaitProtocol` (wait and exit), `Locks` (exclusion by shared-memory locks). `KernelCalls`
  says what the calls mean in the numbers of the source: slices, children, exec, sharing and locking, exits.
- **Dining philosophers.** `Philosophers` interleaves the steps of any number of them over the shared lock:
  safety, absence of deadlock, and a bound on the steps that are not waiting. `Locks.PhilosopherLock` ties their
  lock to that of the kernel, and `Dining` puts them under its scheduler: they all exit within a bounded number of
  scheduler calls, and the parent is told that each has eaten 10 times.
- **File system.** `Words`, `Bitmap`, `Storage`, `Superblock`, `Inodes` and `Writes` are the data and the
  relations between states; `FileSystem` is the mounted file system, a class with a disk of blocks and a
  superblock that are changed in place. `Ownership`, `Accounting` and `FsRuns` prove who owns which block,
  where blocks go, and that files last, over whole runs. `Directories`, `Paths`, `FileOps` and `FileTree` are
  directories, path resolution, and what making and removing files mean for paths. `Tree` is the invariant of
  the directory tree, `FileSystemCalls` has the system calls that make, remove and open files as methods of the
  mounted file system, `RootCopy` proves over runs of these calls that the tree is kept and when the copy of the
  root directory in memory can be trusted, `LiveLinks` proves when no link dangles, `PathTexts`
  says what `path_to_inode_id` answers for the text of a path and after the calls, `ReadWrite` has `sys_write` and
  `sys_read` and proves that what was written is read later, `DiskFormat` gives the layout of the disk in byte
  numbers, `NewDisk` is `init_disk`, and `Limits` has runs from a new disk to the limits of the design.
- **Around it.** `OpenFiles` (tables of open files), `FileAccess` (which process may use which file), `Decimal`
  (`itoa` and `atoi`), `Wire` (the serial disk protocol with both of its ends).

## Reading guide

- A kernel state is `State(pcb, cur, ctx, bursts, tos)`: the table, the current pid, the live context, the
  number of timer interrupts and the top of the stacks. A `Step` is one kernel entry, or the current program
  changing its own registers. `Legal` runs are those in which every step is `Enabled`: something is running,
  no program stands at address 0 (a context with `pc` 0 is how the code marks a free entry), and no exit
  follows a waiter slot to a missing entry (which the code would do through a null pointer).
- A file system state is `Fs(sb, disk)`. `Created`, `Wrote` and `Deleted` relate the states before and after
  an operation. They leave open what the code leaves open: the rest of a partly written block is whatever
  the stack held, and so are the uninitialised fields of a new inode.
- The code is followed where it departs from its documentation or its intent, and the exact consequences are
  proved:
  - `bitmap.h` sets `BITS_PER_WORD` to 128 for a word of 32 bits. A shift by 32 or more gives 0 on the
    processor used, so bit numbers with `n % 128 >= 32` are never set. Hence at most 32 data blocks and
    32 inodes of the first word can be marked as taken, on disks of any size; the allocators then hand out one
    and the same block or inode again and again, or block 0. The file round trip is proved exactly as far as
    this allows, and `Limits` reaches these states from a new disk.
  - The allocator never looks beyond the block bitmap although disks may have more blocks than it has bits
    (`FreeBlockAnswer`).
  - `create_inode_type` leaves fields of the new inode uninitialised (`CreatedKeepsInv`).
  - `path_to_inode_id` skips missing names in the middle of a path (`WalkSkipsMissing`, `WalkIsResolve`,
    `MissingIsSkipped`); a name skipped in this way can lead mkdir astray (`MkdirAstray`). An input without a slash
    is its own parent path, so that `sys_mkdir("a")` makes `a/a` (`MkdirPath`).
  - `add_fd` takes the number of entries as descriptor (`ReopenedReachesWrongFile`), and `remove_process_fd`
    moves its entries the wrong way (`RemoveWorksIff`). Together they let two processes use one file, against
    `notes.md` (`OpenKeepsExclusive`, `TwoProcessesOneFile`).
  - `sys_rmdir` returns before the root directory is read again, and `sys_open` does when it has made a file that
    the table of open files does not take (`RunCoherence`, `MkdirRevives`, `ReviveDirectory`).
  - `sys_rmdir` of a missing name goes on with the inode of the parent directory (`RmdirOfMissingName`), and the
    removal of "." writes one directory over another (`UnlinkedKeepsTree`).
  - `sys_mkdir` and `sys_rm` end without returning a value when all goes well; the model lets them return what
    `read_root_dir` returned.
  - `notes.md` says that starvation is impossible. It is for a fixed set of processes, with an explicit bound, and
    whatever happens it takes forks without end (`NoStarvation`, `StarvationNeedsForks`); with those it does happen
    (`ForksStarve`).
  - The table has no entry for pid 0. Where the code reads entry -1, the model takes the outcome as a
    parameter `stray` when it can matter, and as "no match" for shared memory.
- Integer widths: registers, inode and superblock fields are 32-bit words; system call results are wrapped
  when they are put into r0. Counters that only grow (`waiting_time`, `BURSTS`, `cpu_burst`) are unbounded.

## Model

| member | source | states |
|---|---|---|
| Words.BitAfterSet | question/kernel/bitmap.c:3-5 | setting bit k of a word sets that bit and no other |
| Words.BitAfterClear | question/kernel/bitmap.c:7-9 | clearing bit k clears that bit and no other |
| Words.WordAfterBit | question/kernel/bitmap.c:3-9 | setting or clearing one of the 32 bits gives a 32-bit word |
| Words.DecodeEncode | question/kernel/fs.c:103-117 | a struct of words copied to bytes and back is unchanged |
| Bitmap.MarkedAfterMark | question/kernel/bitmap.c:3-14 | after set_bit(n), get_bit(m) is as before or m is n; n counts only if it fits into the word |
| Bitmap.MarkedAfterUnmark | question/kernel/bitmap.c:7-14 | after clear_bit(n), get_bit(m) is as before and m is not n |
| Bitmap.MarkSticks | question/kernel/bitmap.h:9 | set_bit followed by get_bit gives 1 exactly when n % 128 < 32 |
| Bitmap.SetBitAt | question/kernel/bitmap.c:3-5 | the array after set_bit is the marked bitmap |
| Bitmap.ClearBitAt | question/kernel/bitmap.c:7-9 | the array after clear_bit is the unmarked bitmap |
| Processes.FreePidFrom | question/kernel/processes.c:81-89 | the lowest free pid, or -1 exactly when all are active |
| Scheduler.CandidateDistance | question/kernel/scheduler.c:21-22 | the places of the circular scan hold different pids, and the current pid is at the last one |
| Scheduler.NextPidWithTypeIsLongestWaiter | question/kernel/scheduler.c:17-35 | -1 iff no active process has the type; otherwise the longest waiter, ties going to the first in the circular order |
| Scheduler.LongestWaiterIsUnique | question/kernel/scheduler.c:17-35 | that choice is a single process |
| Scheduler.NextPidChoice | question/kernel/scheduler.c:38-55 | -1 iff nothing is active; the other type is preferred and the own type used only when the other has nobody |
| SystemCalls.RunConcat | question/kernel/hilevel.c:47-73 | a run of two parts is the run of one after the other |
| Machine.Kernel.constructor | question/kernel/hilevel.c:8-20 | the table after reset: process 1 is the interactive console, everything else is free |
| Machine.Kernel.ActiveProcessCount | question/kernel/scheduler.c:5-14 | the number of active processes, plus one if the memory before the table looks like one |
| Machine.Kernel.NextPidWithType | question/kernel/scheduler.c:17-35 | the scanning loop computes the specified choice |
| Machine.Kernel.NextPid | question/kernel/scheduler.c:38-55 | next_pid computes the specified choice; the clause on the number of active processes never changes it |
| Machine.Kernel.UpdateWaiting | question/kernel/scheduler.c:80-89 | every active process but the current one waits one call longer |
| Machine.Kernel.SchedulerCall | question/kernel/scheduler.c:92-114 | one scheduler call in place is the specified state |
| Machine.Kernel.SetCurrent | question/kernel/processes.c:104-113 | the live context is saved and the other loaded, unless nothing changes |
| Machine.Kernel.NewProcess | question/kernel/processes.c:55-66 | one entry is blanked, all others stay |
| Machine.Kernel.FreePid | question/kernel/processes.c:81-89 | the loop finds the lowest free pid |
| Machine.Kernel.Timer | question/kernel/hilevel.c:47-56 | the timer interrupt is one scheduler call |
| Machine.Kernel.SysYield | question/kernel/system_calls.c:109-113 | a yield ends the slice and calls the scheduler |
| Machine.Kernel.SysFork | question/kernel/system_calls.c:5-29 | fork in place is the specified state |
| KernelCalls.ChildIsFresh | question/kernel/processes.c:55-67 | every field of a child after fork: parent, registers with 0 in r0, background, no time left or waited, no waits, nothing shared or locked |
| KernelCalls.ParentAfterFork | question/kernel/system_calls.c:11-23 | the parent keeps everything but its saved registers, which have the pid in r0; a failed fork answers -1 and does nothing |
| KernelCalls.ChildSharesParents | question/kernel/system_calls.c:18-19 | a pointer that the parent shares is found by its child in the slot of the parent |
| Machine.Kernel.GetWaiting | question/kernel/processes.c:175-182 | the first waiting slot for a pid |
| Machine.Kernel.SetWaiting | question/kernel/processes.c:194-231 | registering a wait, including the slot that stays taken when the second list is full |
| Machine.Kernel.UpdateWaiters | question/kernel/processes.c:185-192 | the loop over the waiter slots, entry by entry, is one simultaneous update of the table |
| Machine.Kernel.WaitFor | question/kernel/system_calls.c:211-233 | sys_wait in place is the specified state and result |
| Machine.Kernel.SysWait | question/kernel/system_calls.c:211-233 | the same for the caller itself, with the result in r0 |
| Machine.Kernel.SysForkWait | question/kernel/system_calls.c:31-36 | fork, then the parent registers for the child |
| Machine.Kernel.FixOrphanedProcesses | question/kernel/system_calls.c:140-147 | the children of a process, and only they, lose their parent |
| Machine.Kernel.SysExit | question/kernel/system_calls.c:38-49 | waiters are told, children orphaned, the entry blanked, and the scheduler called |
| Machine.Kernel.SysExec | question/kernel/system_calls.c:115-136 | the caller starts afresh at the entry point, or exits when there is none |
| KernelCalls.ExecType | question/kernel/system_calls.c:127-129 | after an exec exactly those processes are interactive that were before, and the caller if it is asked to be |
| KernelCalls.ExecStarts | question/kernel/system_calls.c:124-135 | an exec changes only the registers and the type of its caller, and every register is stated |
| KernelCalls.ExecOfNothing | question/kernel/system_calls.c:118-122 | without an entry point it is an exit with status 1 |
| KernelCalls.ExitClears | question/kernel/system_calls.c:38-46 | an exit leaves no program, parent, shared pointer, lock or wait in the entry, and the priority of a new process |
| KernelCalls.WaitAnswers | question/kernel/system_calls.c:211-229 | sys_wait hands over its result as a word, -1 and -2 being the two highest |
| KernelCalls.StacksAreApart | question/kernel/processes.c:17-21 | the stacks of two processes do not overlap |
| KernelCalls.AfterReset | question/kernel/hilevel.c:8-20 | after reset the console is process 1, interactive, without a parent, and everything else is free |
| Machine.Kernel.IsShared | question/kernel/processes.c:116-125 | the owner of a shared pointer is the caller or its parent and shares that pointer, the caller comes first, and there is none iff neither shares it |
| Locks.OwnerMeaning | question/kernel/processes.c:116-125 | the same of the owner in a kernel state |
| Locks.StepKeepsLock | question/kernel/processes.c:145-173 | a taken lock stays taken over a kernel entry iff that is not an unlock that reaches its owner nor the owner's exit |
| Locks.StepKeepsSlot | question/kernel/processes.c:116-173 | only calls that reach a process's shared-memory slot, its own calls on it, and its exit change that slot |
| Locks.RunKeepsLock | question/kernel/processes.c:145-173 | the same over runs |
| Locks.LockExcludes | question/kernel/processes.c:145-158 | exclusion over runs: after a lock returned 1, every lock that reaches the same owner returns 0 until such a release |
| Locks.OwnerIsActive | question/kernel/processes.c:116-125 | in a forest of processes the owner that a lock reaches is alive |
| Locks.HolderExitKeepsLock | question/kernel/system_calls.c:38-49 | the exit of a process that took the lock of another one never releases it |
| Locks.PhilosopherLock | question/user/bin/dinning_philosophers.c:16-93 | the lock of the philosophers is that of the kernel: lock and unlock by a child of the owner change the flag and answer as in the model |
| Machine.Kernel.SysLock | question/kernel/processes.c:145-158 | lock takes a free lock, and reports a taken or an unknown one |
| Machine.Kernel.SysUnlock | question/kernel/processes.c:160-173 | unlock frees a taken lock, and reports a free or an unknown one |
| Machine.Kernel.SysShare | question/kernel/processes.c:127-134 | share works once |
| Machine.Kernel.SysUnshare | question/kernel/processes.c:136-143 | unshare works for the shared pointer only |
| KernelCalls.ShareStores | question/kernel/processes.c:127-134 | a share that answers 1 stores the pointer and leaves the flag, one that answers 0 leaves everything |
| KernelCalls.ShareIsFound | question/kernel/processes.c:116-125 | then the caller and each of its children that shares nothing find the pointer in the slot of the caller |
| KernelCalls.ShareThenLock | question/kernel/processes.c:127-158 | share and then lock answers 1 iff the flag was free |
| KernelCalls.UnshareClears | question/kernel/processes.c:136-143 | an unshare of the shared pointer leaves 0 in its place and leaves the flag, any other leaves everything |
| KernelCalls.LockAnswers | question/kernel/processes.c:145-158 | the answer of lock for every state of the flag, and that the flag is taken afterwards |
| KernelCalls.UnlockAnswers | question/kernel/processes.c:160-173 | the same for unlock, after which the flag is free |
| KernelCalls.FamilyExcludes | question/kernel/processes.c:116-173 | after a lock by a process that shares the pointer, or by a child of it that shares nothing, a lock by any of them answers 0 until it is unlocked or that process exits |
| Machine.ServedIsUpdated | question/kernel/processes.c:185-192 | telling the waiters one after the other is the same as telling all at once |
| KernelFrames.VirtualCpu | question/kernel/processes.c:92-113 | what every process sees of the processor after every kernel entry: interrupts and yields change no view, other calls only the caller's and the child's |
| KernelFrames.ContextSurvivesRuns | question/kernel/processes.c:92-113 | over runs of any length a process that is only interrupted or yields finds its context unchanged |
| KernelFrames.ForkFrame | question/kernel/system_calls.c:17-26 | fork copies the live context, gives 0 to the child and the pid to the parent, and touches no other entry |
| KernelFrames.TimerFrame | question/kernel/scheduler.c:92-114 | an interrupt changes nothing but contexts and priorities |
| KernelFrames.YieldFrame | question/kernel/system_calls.c:109-113 | so does a yield |
| KernelFrames.SharedMemoryFrame | question/kernel/processes.c:116-173 | sharing and locking change the shared slot of one process, the caller's or the owner's, and the caller's r0 |
| KernelFrames.Lifecycle | question/kernel/system_calls.c:5-49 | exactly which processes exist and who is whose parent after each kind of kernel entry |
| Fairness.ScheduleCases | question/kernel/scheduler.c:92-114 | a scheduler call either uses up one slice tick or switches to an eligible process with a full slice |
| Fairness.BoundedWaiting | question/kernel/scheduler.c:17-113 | in every run during which p does not run, scheduler calls stay below p's rank plus 9 per exit and 16 per fork or exec, and equal the growth of its waiting_time |
| Fairness.RankBound | question/kernel/scheduler.c:106-110 | the rank is at most 9 per active process of the type (plus 5 in one case) |
| Fairness.NoStarvation | notes.md:22 | in every legal run without exit, fork and exec, whatever else programs do, p runs within 9n scheduler calls (9n+5 in one case), n being the active processes of its type |
| Fairness.WaitingIsPaidByForks | notes.md:22 | in every run at all during which p does not run, scheduler calls stay below p's rank plus a credit of the start plus 41 per successful fork |
| Fairness.StarvationNeedsForks | notes.md:22 | so p can be passed over for 1025 + 41 b calls only in runs with more than b successful forks |
| Fairness.ForkLoopFromReset | question/kernel/hilevel.c:8-20 | the state from which forks starve a process is reached from reset by a fork and an interrupt |
| Fairness.ForksStarve | notes.md:22 | with forks the claim fails, with the timer going on: for every k a run from reset ends in k timer interrupts and 2k scheduler calls in which process 2, active all along, never runs |
| Fairness.StepIsSane | question/kernel/scheduler.c:92-114 | the assumptions of the bounds are kept by every kernel entry |
| Fairness.RunIsSane | question/kernel/hilevel.c:47-73 | and by every run |
| Fairness.ResetIsSane | question/kernel/hilevel.c:8-20 | and hold after reset |
| KernelCalls.ChosenSlice | question/kernel/scheduler.c:92-112 | the process that a scheduler call chooses is active, has waited 0 calls, and has 1 more call if it is interactive and 6 if it is a background process |
| KernelCalls.ChosenProcess | question/kernel/scheduler.c:38-46 | it is the longest waiter of the type that the last process does not have, or of the same type when the other has nobody |
| KernelCalls.ScanGoesUp | question/kernel/scheduler.c:20-21 | the scan goes up from the pid after the current one, and round to it |
| KernelCalls.PriorityAfterSchedule | question/kernel/scheduler.c:80-112 | type, waiting time and time left of every process after a scheduler call |
| KernelCalls.InterruptChooses | question/kernel/hilevel.c:47-54 | the same of a timer interrupt when the slice is used up |
| KernelCalls.YieldChooses | question/kernel/system_calls.c:109-113 | a yield chooses in this way at once, whatever is left of the slice |
| KernelCalls.SliceLasts | question/kernel/scheduler.c:94-97 | over runs in which it forks nowhere and gives nothing up, a process keeps the processor through as many interrupts as its slice has left |
| KernelCalls.ExactSlice | question/kernel/scheduler.c:94-109 | so a process that an interrupt has chosen runs through exactly 1 or 6 more interrupts, and the next one chooses again |
| KernelCalls.InterruptsAreCounted | question/kernel/hilevel.c:52-53 | over every run BURSTS grows by the number of interrupts |
| KernelCalls.ChosenIsCounted | question/kernel/scheduler.c:112 | cpu_burst counts how often a process has been chosen |
| KernelCalls.KeepsRunning | question/kernel/scheduler.c:99-103 | after every kernel entry a process runs iff there is one, and only an exit can leave none |
| Forest.ForestHasNoCycle | question/kernel/processes.c:55-66 | no process is its own ancestor, and every line of ancestors ends |
| Forest.FreePidHasNoChildren | question/kernel/processes.c:81-89 | a pid is reused only without children |
| Forest.StepKeepsForest | question/kernel/system_calls.c:5-49 | every kernel entry keeps the process forest |
| Forest.ReachableIsForest | question/kernel/system_calls.c:140-147 | in every run from reset parents are active or none, free pids have no children, and there is no cycle |
| WaitProtocol.MatchedHasNoDanglingWaiter | question/kernel/processes.c:185-192 | while the two lists match no exit follows a waiter slot to a missing entry |
| WaitProtocol.WaitResult | question/kernel/system_calls.c:211-233 | what sys_wait returns, in terms of the abstract entry of the caller for the process |
| WaitProtocol.WaitKeepsMatched | question/kernel/processes.c:194-231 | a wait keeps the lists matched iff it does not run out of entries after taking a waiter slot |
| WaitProtocol.ExitKeepsMatched | question/kernel/system_calls.c:38-49 | an exit keeps them matched iff the caller waits for nobody and does not exit with -1 while somebody waits |
| WaitProtocol.StepKeepsMatched | question/kernel/processes.c:175-231 | the same, as an iff for every kernel entry |
| WaitProtocol.RunKeepsMatched | question/kernel/processes.c:175-231 | lists stay matched in every run whose callers see to these conditions |
| WaitProtocol.ReachableIsMatched | question/kernel/hilevel.c:8-20 | in every such run from reset no exit follows a waiter slot to a missing entry |
| WaitProtocol.RunKeepsOneEntry | question/kernel/processes.c:222-228 | over all runs a process has at most one entry for another |
| WaitProtocol.WaitRegisters | question/kernel/system_calls.c:211-233 | with matched lists a wait for another process answers -1 iff it leaves the caller registered |
| WaitProtocol.ForkWaitRegisters | question/kernel/system_calls.c:31-36 | fork_wait leaves the parent registered for its new child when it has a free entry and none for that pid |
| WaitProtocol.RegisteredRun | question/kernel/system_calls.c:224-227 | a registered wait goes on answering -1 until the process or the waiter exits |
| WaitProtocol.ExitStatusReachesWaiter | question/kernel/system_calls.c:38-49 | over a whole run: the exit status arrives at the registered waiter, once |
| WaitProtocol.WaitedStatusArrives | question/kernel/system_calls.c:38-49 | the same from the call of sys_wait on |
| WaitProtocol.CollectedOnce | question/kernel/system_calls.c:228-232 | a collected result leaves no entry |
| WaitProtocol.ExitWithPendingWaitDangles | question/kernel/processes.c:188 | exiting while waiting leaves a waiter slot that leads to a missing entry |
| WaitProtocol.StatusMinusOneIsLost | question/kernel/system_calls.c:224-227 | the exit status -1 is not told from "still running" |
| WaitProtocol.StuckForever | question/kernel/system_calls.c:224-227 | such a waiter is told -1 in every further run |
| Philosophers.NextKeepsInv | question/user/bin/dinning_philosophers.c:58-93 | every step of every philosopher keeps the invariant, for any number of philosophers |
| Philosophers.RightOfFormula | question/user/bin/dinning_philosophers.c:42 | the right neighbour of the code is the next one around the table |
| Philosophers.Safety | question/user/bin/dinning_philosophers.c:16-93 | in every interleaving: one lock holder, different ids, start only when all have ids and nobody before it, whoever eats has both forks, all forks back whenever the lock is free, one meal per iteration, exit status 10 |
| Philosophers.NoDeadlock | question/user/bin/dinning_philosophers.c:66-90 | as long as somebody has not exited somebody can make a step that is not waiting |
| Philosophers.Termination | question/user/bin/dinning_philosophers.c:58-93 | at most n(n+109) steps that are not waiting, after which everybody has eaten 10 times |
| Dining.RoundGetsOn | question/user/bin/dinning_philosophers.c:58-93 | under the kernel's scheduler no 1026 scheduler calls without a fork pass in which no philosopher gets on, while one is alive |
| Dining.Dinner | question/user/bin/dinning_philosophers.c:58-93 | so wherever n philosophers are in a run of the program, after 1026 n (n + 110) scheduler calls all have eaten 10 times and exited |
| Dining.ParentIsTold | question/user/bin/dinning_philosophers.c:126-131 | and the registered parent, if it goes on asking, is told 10 for each |
| Dining.LocksAgreeInTheEnd | question/user/bin/dinning_philosophers.c:16-93 | over such runs in which the lock steps of the program are the kernel's calls and nobody else reaches the parent's slot, the lock of the program is the flag in the kernel |
| Philosophers.StepLowersWork | question/user/lib/libc.c:266-273 | every step lowers the remaining work or is a turn of a waiting loop |
| Storage.BlocksOccupiedFormula | question/kernel/fs.c:25-27 | the formula of blocks_occupied is the number of blocks needed |
| Storage.BlocksOccupiedIsCeiling | question/kernel/fs.c:25-27 | that many blocks hold the bytes and fewer do not |
| Superblock.LayoutIsOrdered | question/kernel/fs.c:120-142 | superblock, inode table and data area follow one another, and distinct inodes have disjoint blocks |
| Superblock.LargeDisksHaveRoom | question/kernel/fs.c:131-133 | from 72 blocks on every disk has room for its inode table |
| Superblock.FreeBlockAnswer | question/kernel/fs.c:40-47 | the allocator gives a free markable block if there is one, otherwise one fixed address, and stays within the bitmap |
| Superblock.CapacityIsOneWord | question/kernel/bitmap.h:9 | at most 32 data blocks can ever be marked |
| Superblock.AllocationSucceeds | question/kernel/fs.c:374-405 | k allocations with k free blocks give k different free blocks and mark exactly those |
| Superblock.AllocationSticks | question/kernel/fs.c:379 | beyond that the same address comes again and again |
| Superblock.AllocationIffFree | question/kernel/fs.c:379 | k allocations give k different data blocks iff k are free |
| Inodes.InodeRoundTrip | question/kernel/fs.h:57-65 | an inode copied to bytes and back is unchanged |
| DiskFormat.LowByteFirst | question/kernel/fs.h:46-55 | words lie low byte first, and every four bytes are a word |
| DiskFormat.SuperblockBytes | question/kernel/fs.h:48-55 | at which byte of the superblock each field lies |
| DiskFormat.BitmapBits | question/kernel/bitmap.h:9-11 | in which word, bit and byte the mark of an inode or block lies |
| DiskFormat.BitValue | question/kernel/bitmap.c:11-14 | bit k of a word is worth 2 to the power of k |
| DiskFormat.LayoutFormula | question/kernel/fs.c:120-141 | number of inodes, their addresses and the start of the data as formulas |
| DiskFormat.InodeBytes | question/kernel/fs.h:57-65 | at which byte of an inode each field lies |
| DiskFormat.EmptyInodeBytes | question/kernel/fs.c:255-258 | a new inode is zero but for its id |
| DiskFormat.DirectoryBytes | question/kernel/fs.h:74-82 | at which byte of a directory each slot lies, and what is in it |
| DiskFormat.FileByte | question/kernel/fs.c:344-437 | in which block a byte of a file lies |
| DiskFormat.WrittenInode | question/kernel/fs.c:344-442 | every field of an inode after a write |
| Inodes.MarkSpanEffect | question/kernel/fs.c:56-69 | a sequential write marks its blocks and no others |
| Inodes.UnmarkBlocksEffect | question/kernel/fs.c:334-336 | delete_inode unmarks exactly the blocks of the list |
| Writes.WritingMetadata | question/kernel/fs.c:49-88 | a sequential write of metadata leaves the data area, its marks and the inode marks alone |
| Writes.InodeFrame | question/kernel/fs.c:250-268 | an inode is read back unchanged while its own blocks are left alone |
| Writes.SecondWriteConverges | question/kernel/fs.c:115-117 | of two superblock writes in a row the second stores the superblock as it is in memory |
| Writes.ChunkRound | question/kernel/fs.c:374-420 | one round of a file write keeps the chunks written so far, also when an address comes again |
| FileSystem.FileSystem.DiskWrite | question/kernel/fs.c:7-11 | a block is written whose first bytes are the data; its rest is open |
| FileSystem.FileSystem.ReadSequential | question/kernel/fs.c:49-92 | the loop reads exactly the bytes of the span, and fails iff the span goes beyond the disk |
| FileSystem.FileSystem.WriteSequential | question/kernel/fs.c:49-96 | the loop changes only the span, marks it, and leaves the bytes there, with the superblock as its own source covered exactly |
| FileSystem.FileSystem.ReadSuperblock | question/kernel/fs.c:103-106 | the superblock becomes what the disk holds, and reading fails iff the disk is shorter |
| FileSystem.FileSystem.WriteSuperblock | question/kernel/fs.c:115-117 | the superblock is written over its blocks |
| FileSystem.FileSystem.IdToAddr | question/kernel/fs.c:250-252 | the address of an inode in the table |
| FileSystem.FileSystem.ReadInode | question/kernel/fs.c:261-268 | the inode at that place, also behind the table; failure iff the id is negative or the place is not on the disk |
| FileSystem.FileSystem.WriteInode | question/kernel/fs.c:273-280 | only that inode changes, and the superblock is stored |
| FileSystem.FileSystem.FreeDataBlock | question/kernel/fs.c:40-47 | the loop computes the specified answer |
| FileSystem.FileSystem.WriteToInode | question/kernel/fs.c:348-442 | a write that fits changes one inode, the blocks it allocates and their marks as specified; one that does not fit changes nothing |
| FileSystem.FileSystem.ReadFromInode | question/kernel/fs.c:348-437 | a read returns the bytes in the blocks of the list, and fails iff it does not fit or needs a block beyond the disk |
| FileSystem.FileSystem.FreeInodeId | question/kernel/fs.c:292-299 | the first unmarked inode id or -1 |
| FileSystem.FileSystem.CreateInode | question/kernel/fs.c:308-329 | the first unmarked id is marked and its inode written, other fields being what the stack held |
| FileSystem.FileSystem.DeleteInode | question/kernel/fs.c:332-344 | the blocks of the list and the inode are unmarked and the inode is emptied |
| FileSystem.FileSystem.NewSuperblock | question/kernel/fs.c:120-142 | the fields of a new superblock |
| FileSystem.FileSystem.Format | question/kernel/fs.c:736-743 | a formatted disk: all inodes empty, nothing taken, superblock on disk |
| Ownership.WroteKeepsInv | question/kernel/fs.c:357-431 | a write keeps block ownership sound iff enough blocks are free |
| Ownership.WroteFrame | question/kernel/fs.c:374-420 | a write leaves every other file as it was, even when blocks run out |
| Ownership.WriteThenRead | question/kernel/fs.c:434-442 | what was written is read back if the allocator finds that many different blocks |
| Ownership.LostData | question/kernel/fs.c:379 | otherwise there is data of that length that is never read back |
| Ownership.HarmlessDeletion | question/kernel/fs.c:332-344 | deleting an inode that was read earlier keeps ownership sound if the blocks that it lists are marked and nobody else's |
| Ownership.DeletedKeepsInv | question/kernel/fs.c:332-344 | deleting keeps ownership sound |
| Ownership.DeletedFrame | question/kernel/fs.c:332-344 | deleting leaves every other file as it was |
| Ownership.CreatedKeepsInv | question/kernel/fs.c:308-329 | creating keeps ownership sound iff the uninitialised block list happens to be harmless |
| Ownership.EmptyIsHarmless | question/kernel/fs.c:255-258 | an inode that starts without blocks always is |
| Ownership.CreatedFrame | question/kernel/fs.c:308-329 | creating leaves every other file as it was |
| Ownership.CreatedIsFresh | question/kernel/fs.c:292-299 | a new file takes an unused inode if its mark has a place |
| Ownership.NextCreate | question/kernel/fs.c:316-320 | the next file takes another inode iff the mark of this one has a place |
| Ownership.InodeCapacity | question/kernel/fs.c:292-299 | on larger disks too the id handed out next is never above 32 |
| Accounting.WroteAccounts | question/kernel/fs.c:357-420 | a write of k blocks over B marks exactly k new blocks and leaks exactly the first min(k, B) old ones |
| Accounting.DeletedAccounts | question/kernel/fs.c:332-344 | a delete releases exactly the owned blocks and leaks none |
| Accounting.CreatedAccounts | question/kernel/fs.c:308-329 | a create marks no block and leaks what a replaced inode owned |
| FsRuns.RunKeepsInv | question/kernel/fs.c:308-442 | every state of a run with room for its writes is sound |
| FsRuns.FormattedIsSound | question/kernel/fs.c:724-743 | a formatted disk is sound, with nothing marked or leaked |
| FsRuns.RunAccounts | question/kernel/fs.c:332-420 | over whole runs: marked blocks = taken less released, leaked blocks = forgotten by overwriting |
| FsRuns.LeaksAreBounded | question/kernel/fs.c:357-360 | over whole runs of any length at most 32 blocks can be forgotten before a write finds no room |
| FsRuns.FileLasts | question/kernel/fs.c:308-442 | a file no step is about keeps inode and contents over every run |
| FsRuns.WriteThenReadLater | question/kernel/fs.c:348-442 | data written is read back after any run of operations on other files |
| FsRuns.CreateSparesFilesInUse | question/kernel/fs.c:292-299 | a create never takes a file in use whose id has a place in the bitmap |
| FsRuns.RemountRestores | question/kernel/file_system_calls.c:34-41 | in every sound state the superblock on disk is the one in memory, so that mounting again finds the same file system |
| Directories.FindAfterAdd | question/kernel/fs.c:540-549 | a directory is a map: an added name is found, others as before |
| Directories.FindAfterDelete | question/kernel/fs.c:515-537 | a deleted name is gone, others are found as before, names stay unique |
| Directories.DeleteKeepsForm | question/kernel/fs.c:515-537 | deleting keeps "." first iff the name is not "." |
| Directories.AddKeepsForm | question/kernel/fs.c:592-600 | adding keeps the form iff two slots are left, as create_file checks |
| Directories.Directory.Lookup | question/kernel/fs.c:540-549 | the loop finds the first link of that name |
| Directories.Directory.DeleteLink | question/kernel/fs.c:515-537 | exactly that link goes, the others keep their order |
| Directories.Directory.AddLink | question/kernel/fs.c:608-616 | the link is added at the end |
| Directories.Directory.StartWith | question/kernel/fs.c:479-491 | a new directory holds "." and ".." |
| Directories.DirRoundTrip | question/kernel/fs.c:449-470 | a directory written as bytes and read back is the same, slot by slot |
| Paths.TokensAppend | question/kernel/fs.c:637-641 | appending a slash and a name appends one token |
| Paths.ParseFilename | question/kernel/fs.c:625-648 | failure iff the input ends in a slash; otherwise the part behind the last slash and the part before it |
| Paths.SplitIsLossless | question/kernel/fs.c:643-645 | path, slash and file name give the input back iff the input has a slash, and then the tokens split alike |
| Paths.WalkSkipsMissing | question/kernel/fs.c:205-214 | the loop resolves the path without the missing middle names |
| Paths.WalkFromStart | question/kernel/fs.c:186-214 | the first name is looked up in the given directory; if it is missing the result is failure, or what the rest of the path leads to from the directory in the stack garbage |
| Paths.WalkIsResolve | question/kernel/fs.c:186-222 | an inode that the loop finds is what the path means iff every middle name exists, and then the loop is right also when it fails |
| Paths.MissingIsSkipped | question/kernel/fs.c:205-214 | an input for which they differ, in every directory with dots: "./x/.." without an x is the parent to the loop |
| Paths.DotsResolve | question/kernel/fs.c:479-490 | "d/." and "d/child/.." resolve to d |
| FileOps.DirectoriesFit | question/kernel/fs.c:351-355 | directories can be stored iff blocks have at least 174 bytes |
| FileOps.ReadDir | question/kernel/fs.c:463-470 | the directory in the file; failure iff the inode is no directory or its blocks cannot be read |
| FileOps.PathToInodeId | question/kernel/fs.c:186-222 | the loop over disk and directories computes the walk over all names in the path, or looks up "." when it has none |
| PathTexts.ShortPaths | question/kernel/fs.c:194-201 | slashes at the ends of a path make no difference; a path without names is "." and a name alone is looked up |
| PathTexts.PathThenName | question/kernel/fs.c:203-219 | if a path leads to a directory, the path, a slash and a name lead to what the directory has under the name; behind a file there is nothing |
| PathTexts.MissingInPath | question/kernel/fs.c:206-209 | a missing name in the middle of the text is skipped |
| FileOps.WriteDir | question/kernel/fs.c:449-460 | the directory is written to the file of the link in its first slot; failure without any change iff directories do not fit into inodes |
| FileOps.CreateFile | question/kernel/fs.c:590-623 | refused iff the name exists, two slots are not left or inodes have run out; otherwise new inode, new link, directory written, or the inode alone when directories do not fit |
| FileOps.CreateDirectory | question/kernel/fs.c:473-494 | the same, and the new file gets "." and ".." |
| FileOps.CreateRootDirectory | question/kernel/fs.c:746-769 | the first free inode becomes a directory that is its own parent |
| FileOps.RemoveFile | question/kernel/file_system_calls.c:417-428 | link, directory and inode go in this order, and nothing goes when directories do not fit |
| FileOps.RemoveDirectory | question/kernel/file_system_calls.c:376-378 | the same without the checks: the inode goes in any case |
| FileTree.DirReadsBack | question/kernel/fs.c:449-470 | a directory written to its file is read back, and the invariant is kept |
| FileTree.FreeAfterStep | question/kernel/fs.c:332-420 | what a create, write or delete takes is exactly what it leaves fewer to hand out |
| FileTree.MkdirLinks | question/kernel/fs.c:473-494 | after create_directory the invariant holds, the parent on disk has the new link, the child has its dots, and the blocks of two directories are taken |
| FileTree.MkdirResolves | question/kernel/fs.c:473-494 | every path to the parent followed by the name leads to the child, and ".." leads back |
| FileTree.RemovedUnlinks | question/kernel/file_system_calls.c:417-428 | removing takes exactly that name out of the directory on disk, frees the inode, even if that was read before the directory was written over it, and keeps all other files |
| Tree.TreeInvIsDirTree | question/kernel/fs.c:186-222 | in a well-kept tree every directory can be read and all links lead into the inode table, as path_to_inode_id needs |
| Tree.FileMadeKeepsTree | question/kernel/fs.c:590-623 | making a file keeps the tree, also when the new inode is that of the parent directory |
| Tree.DirectoryMadeKeepsTree | question/kernel/fs.c:473-494 | and so does making a directory |
| Tree.UnlinkedKeepsTree | question/kernel/file_system_calls.c:376-428 | removing keeps it iff the name is not ".", or what is written then is no directory, or is deleted at once |
| Tree.WrittenKeepsTree | question/kernel/fs.c:440-442 | writing a file that is no directory keeps it |
| Tree.RootMadeIsTree | question/kernel/fs.c:736-769 | a formatted disk with its root directory is a well-kept tree iff one directory fits into the markable data blocks |
| RootCopy.CallKeepsMount | question/kernel/file_system_calls.c:96-436 | every clean call keeps the tree, the root and a proper copy of it, and changes the root directory on disk exactly as specified |
| RootCopy.CallCoherence | question/kernel/file_system_calls.c:96-436 | after a call the copy is the root directory on disk iff the call read it again, or it was before and the call did not change the root on disk |
| RootCopy.RunKeepsMount | question/kernel/file_system_calls.c:96-436 | over runs of calls the tree is kept |
| RootCopy.PathsResolve | question/kernel/fs.c:186-222 | so paths can be resolved in every state of such a run |
| RootCopy.RunCoherence | question/kernel/file_system_calls.c:96-436 | over runs the copy is coherent iff nothing has changed the root behind it since it was last read: neither an rmdir in the root nor a file made by a failing open |
| RootCopy.MkdirRevives | question/kernel/file_system_calls.c:345-378 | the next mkdir in the root brings a removed name back, with its old inode |
| RootCopy.RmdirOfMissingName | question/kernel/file_system_calls.c:362-378 | rmdir of a missing name empties the inode of the directory that was searched and leaves all else, with the link to it |
| LiveLinks.LiveLinksAreMarked | question/kernel/fs.c:292-299 | while no link dangles, what a link leads to is marked as taken, if its mark has a place |
| LiveLinks.UnlinkKeepsLinks | question/kernel/file_system_calls.c:376-428 | removing keeps all links live iff the link was the only one to the inode, apart from those in the removed directory itself, and the rest of the parent is live |
| LiveLinks.CallKeepsLinks | question/kernel/file_system_calls.c:96-436 | every clean call keeps all links live iff a test of the state before it is met |
| LiveLinks.CoherentLinksAreLive | question/kernel/file_system_calls.c:313-328 | which mkdir and open meet whenever the copy of the root is coherent |
| LiveLinks.RunKeepsLinks | question/kernel/file_system_calls.c:96-436 | over runs of such calls no link dangles |
| LiveLinks.NewDiskHasNoDanglingLinks | question/kernel/fs.c:746-769 | nor does one on a new disk |
| FileSystemCalls.WalkInTable | question/kernel/fs.c:205-214 | a path leads into the inode table or nowhere |
| FileSystemCalls.MountIsNavigable | question/kernel/file_system_calls.c:96-436 | the calls can be made in every state that clean calls reach |
| FileSystemCalls.ParentIsParent | question/kernel/file_system_calls.c:313-328 | when the path leads to a directory, the links that a call works on are those of the copy or of a directory on disk |
| FileSystemCalls.Mounted.ReadRootDir | question/kernel/fs.c:772-778 | the copy becomes the root directory on disk, or stays when inode 0 is no readable directory |
| FileSystemCalls.Mounted.FindParent | question/kernel/file_system_calls.c:313-328 | the copy for a path of one name, otherwise what the path leads to, otherwise what the stack holds |
| FileSystemCalls.Mounted.SysMkdir | question/kernel/file_system_calls.c:305-342 | what mkdir does to disk and copy, and exactly when it does nothing |
| FileSystemCalls.Mounted.SysRm | question/kernel/file_system_calls.c:394-435 | the same for rm, which does not look at the kind of file |
| FileSystemCalls.Mounted.SysRmdir | question/kernel/file_system_calls.c:345-378 | what rmdir deletes, also when the name is missing, if that is a directory with at most two links; otherwise it fails and leaves file system and copy as they were |
| FileSystemCalls.Mounted.SysOpen | question/kernel/file_system_calls.c:96-119 | the same for open: making a missing file, the table of open files, the copy if that table took the file, and the table of the process |
| FileSystemCalls.CanCreateIff | question/kernel/fs.c:590-623 | a file can be made iff its name is new, the directory has at most 8 links, and an inode is unmarked |
| FileSystemCalls.WhoMakesFiles | question/kernel/fs.c:675-682 | which modes make a missing file: WRITE, READ_WRITE and WRITE_GLOBAL; the others fail |
| FileSystemCalls.ListedButNotGranted | question/kernel/file_system_calls.c:107-116 | when sys_open answers -1 for a file that the kernel has listed |
| FileSystemCalls.EmptyDirHoldsNothing | question/kernel/file_system_calls.c:371-374 | what sys_rmdir deletes has no names but its dots, so no file loses its last link with it |
| PathTexts.MkdirPath | question/kernel/file_system_calls.c:305-342 | after sys_mkdir path_to_inode_id of the input is the new inode and all other paths mean what they meant, if the copy is coherent, the parent's path means something and the inode's mark has a place |
| PathTexts.MkdirAstray | question/kernel/file_system_calls.c:305-342 | if the path of the parent has a missing name it can fail: mkdir of "./x/./x" in a root without x |
| PathTexts.OpenPath | question/kernel/file_system_calls.c:96-119 | the same of a file that sys_open made |
| PathTexts.RmPath | question/kernel/file_system_calls.c:394-435 | after sys_rm path_to_inode_id of the input fails, if the path of the parent still means the parent |
| ReadWrite.HasPermission | question/kernel/file_system_calls.c:133-154 | process_has_file_permission in place is MayUse |
| ReadWrite.SysWrite | question/kernel/file_system_calls.c:196-225 | sys_write writes exactly when the process has permission, the inode is a file and the data fits, and changes nothing otherwise |
| ReadWrite.SysRead | question/kernel/file_system_calls.c:227-256 | sys_read returns the bytes of the file, or fails, under the same conditions |
| ReadWrite.SysClose | question/kernel/file_system_calls.c:122-131 | sys_close in place is the change of both tables that FileAccess is about |
| ReadWrite.CallKeepsFile | question/kernel/file_system_calls.c:196-435 | every clean call keeps inode and contents of every file that it does not write or remove |
| ReadWrite.FileLastsOverCalls | question/kernel/file_system_calls.c:196-435 | over runs of calls a file that is neither written nor removed keeps both |
| ReadWrite.WrittenIsReadLater | question/kernel/file_system_calls.c:196-256 | what sys_write put into a file is what can be read after any such run |
| ReadWrite.ReaderFindsData | question/kernel/file_system_calls.c:133-256 | so a process with permission reads what another wrote, if meanwhile nobody closes the descriptor and it closes nothing and does not exit |
| NewDisk.InitDisk | question/kernel/fs.c:736-743 | a formatted disk with its root directory, and exactly when there is none; it can be mounted iff the directory has room |
| NewDisk.NewDiskIsMounted | question/kernel/fs.c:736-769 | what a new disk is like: its root, its copy, the blocks left and the inodes taken |
| NewDisk.ReachableFromNewDisk | question/kernel/file_system_calls.c:22-44 | over all runs of clean calls from a new disk paths can be resolved, and the copy is coherent iff it is up to date |
| Limits.RunOutOfRoom | question/kernel/fs.c:357-379 | a run from a new disk of 12 blocks to a write for which there is data that is not read back |
| Limits.HandOutTwice | question/kernel/fs.c:292-320 | a run from a new disk of 216 blocks in which the 33rd and the 34th file get the same inode |
| Limits.ReviveDirectory | question/kernel/file_system_calls.c:305-378 | mkdir /a, rmdir /a, mkdir /b on a new disk: then /a and /b are both there, and are one directory |
| OpenFiles.OpenFileTable.AddFd | question/kernel/fs.c:555-583 | the loop computes the specified table and descriptor |
| OpenFiles.OpenFileTable.CloseFd | question/kernel/fs.c:688-717 | the loop computes the specified table |
| OpenFiles.RunKeepsTable | question/kernel/fs.c:555-717 | over all runs: one entry a file, at most ten, global entries never removed |
| OpenFiles.OpenSucceedsIff | question/kernel/fs.c:556-570 | opening succeeds iff the table has room and the file is closed or open to everyone |
| OpenFiles.OpenedEntry | question/kernel/fs.c:555-587 | what is listed: below ten entries a file that is not open gets one with its mode, and nothing else is ever listed |
| OpenFiles.ClosedCanBeOpened | question/kernel/fs.c:688-717 | a private file that was closed is not listed any more and can be opened again |
| OpenFiles.CloseKeepsAligned | question/kernel/fs.c:710-714 | descriptors stay positions iff the last entry is closed |
| OpenFiles.RunKeepsAligned | question/kernel/fs.c:555-717 | over runs that close only the last entry descriptors stay positions |
| OpenFiles.OpenKeepsUnique | question/kernel/fs.c:574 | a new descriptor is unique iff no entry has the number of entries as descriptor |
| OpenFiles.ReopenedReachesWrongFile | question/kernel/fs.c:224-231 | after closing an entry other than the last, the next opened file is reached under another file's descriptor |
| OpenFiles.ProcessFiles.Add | question/kernel/processes.c:234-246 | appended unless the table is full |
| OpenFiles.ProcessFiles.Remove | question/kernel/processes.c:249-273 | what the block move leaves in the table |
| OpenFiles.ProcessFiles.IsOpen | question/kernel/processes.c:276-284 | whether the descriptor is in the table |
| OpenFiles.RemoveWorksIff | question/kernel/processes.c:270 | a closed file is gone from the process iff its first entry is the last entry |
| OpenFiles.RemovedEntries | question/kernel/processes.c:266-272 | entry by entry, what remove_process_fd leaves |
| OpenFiles.RemoveTakesTheLast | question/kernel/processes.c:270 | otherwise the process keeps it and loses the file it opened last |
| FileAccess.AccessIsPermission | question/kernel/file_system_calls.c:133-155 | for a file not open to everyone a process has permission to read or to write iff the descriptor is in its table |
| FileAccess.WhoMayUse | question/kernel/file_system_calls.c:133-154 | which requests each mode allows, and to whom |
| FileAccess.OpenedForUse | question/kernel/file_system_calls.c:96-119 | after a process opened a file for itself it may do with it what it asked for, and nobody else may do anything |
| FileAccess.ClosedForUse | question/kernel/file_system_calls.c:122-131 | after a close of a private file nobody may use its descriptor |
| FileAccess.PermissionLasts | question/kernel/file_system_calls.c:133-154 | over runs in which nobody closes the descriptor and the process closes nothing and does not exit, its permission lasts, for the same file |
| FileAccess.ExclusiveIff | notes.md:52 | "only one process can access a file at a time" means that no private descriptor is in two tables |
| FileAccess.OpenKeepsExclusive | notes.md:52 | opening keeps it iff the descriptor about to be given out leads to a file open to everyone, or no other process holds it already (no two do, if the opener's table is full) |
| FileAccess.CloseKeepsExclusive | question/kernel/file_system_calls.c:122-131 | closing always keeps it |
| FileAccess.RenewKeepsExclusive | question/kernel/processes.c:55-66 | so does new_process, at an exit or a fork, which clears the table of the process |
| FileAccess.RunKeepsExclusive | notes.md:52 | so it holds over every run of opens, closes, exits and forks whose opens are not contested when they are made |
| FileAccess.ExitLeavesNobody | question/kernel/processes.c:55-66 | a file that a process has open when it exits can be accessed by nobody then |
| FileAccess.ExitedFileStaysLocked | question/kernel/processes.c:55-66 | and can be opened by nobody, over every run in which nobody closes its descriptor |
| FileAccess.TwoProcessesOneFile | notes.md:52 | and fails in general: after five calls two processes may write one file |
| Decimal.TextRoundTrip | question/user/lib/libc.c:3-46 | reading the text of a number gives the number |
| Decimal.TextIsDecimal | question/user/lib/libc.c:21-46 | every character of the text of a number: sign, digits by their place, no leading zero |
| Decimal.CountDigits | question/user/lib/libc.c:31-33 | the loop counts the digits, within 32 bits below 10^9 |
| Decimal.Itoa | question/user/lib/libc.c:21-46 | exactly which cells the backward loop writes, and what, for every number below 10^9: the text and its end, one place too early for 0 |
| Decimal.Atoi | question/user/lib/libc.c:3-19 | the number that the characters stand for |
| Decimal.ItoaBeforeBuffer | question/user/lib/libc.c:35-39 | so a cell before the buffer is written iff the number is 0, and then it is the one just before it |
| Decimal.Ss | question/user/lib/libc.c:49-57 | with that case caught, the text of every number below 10^9 |
| Decimal.ItoaThenAtoi | question/user/lib/libc.c:3-46 | atoi(itoa(x)) = x for 0 < abs(x) < 10^9 |
| Wire.ByteRoundTrip | question/device/PL011.c:8-67 | both ends read the hexadecimal bytes of the other as they were sent |
| Wire.DigitsSent | question/device/PL011.c:22-31 | the two characters sent for a byte |
| Wire.RequestText | question/device/disk.c:3-14 | the text of both requests |
| Wire.ServesWrite | question/device/disk.py:24-44 | the server takes a write request of the kernel for exactly that write |
| Wire.ServesRead | question/device/disk.py:50-67 | and a read request for exactly that read |
| Wire.SerialDisk.DiskWr | question/device/disk.c:72-92 | disk_wr over the line is a block write or changes nothing, within three attempts, and leaves the line clean |
| Wire.SerialDisk.DiskRd | question/device/disk.c:94-114 | disk_rd over the line returns the block, and leaves the line clean |

## Left out

- sys_kill: its handling of orphans and waiters concerns the caller instead of the victim, and killing
  oneself writes r0 into whichever context is live.
- sys_mount and sys_unmount beyond reading and writing the superblock: pointer handling of the mounted globals.
- sys_ls and sys_stat as calls: dispatch to the operations that are modelled.
- Device files: what sys_write sends to the console and what sys_read gets from it (ReadWrite has only the answers).
- Stack garbage that leads out of the disk: the calls in FileSystemCalls require that uninitialised inodes and
  directories, should the code go on with them, are readable and have links into the inode table (IsContained).
  What happens after that is in the contracts.
- File positions: every caller passes 0, and the offset logic is marked as unfinished in the source.
- Disk failures other than a bad address or length; the three attempts of disk.c are modelled for these.
- Addresses from 2^31 on, which the server would take for negative numbers and stop.
- Negative sizes, and writing inodes at or above inode_num, which would be beyond the inode table.
- Reads and writes of more than 2^32 bytes, and sequential writes beyond the last block: none of the modelled
  callers makes one.
- Block lengths below 16 and above 1024, which new_superblock does not refuse, and disks too small for their inode
  table.
- File names of 100 bytes and more (IsName), and paths of MAX_PATH_LENGTH bytes and more, which strcpy would write
  beyond their buffers.
- Requests of disk.c for other than one block of the length that the server has.
- Waiting for pids outside 1 to 30.
- 32-bit overflow of counters that only grow, and of atoi for texts of 10 and more digits.
- itoa from 10^9 on, where the power of ten overflows.
- Philosophers: the constant 16 is a parameter, at least 2; lockm and yield with the kernel calls under them are one
  step each.
- Dining: starts when the last philosopher has been made; a philosopher is assumed to make at least one step of its
  program in each of its turns, and the rest of main_dp is not modelled. Dinner does not need the lock calls to be
  the kernel's; LocksAgreeInTheEnd says when they are.
- LiveLinks.CallKeepsLinks: is about new inodes whose mark has a place, and clean calls as in RootCopy.
- The remaining inode kinds, times and file_stat_t: copied without logic.
- Console, shell programs, sleep, ps, P3 to P5 and the hardware set-up.
- create_io_devices and open_io_devices: sequences of the operations that are modelled.
- Paths.ParseFilename: excludes the empty path, for which the code reads the byte before its buffer.
- FsRuns.RunKeepsInv: is about runs in which new inodes start without blocks and writes find room;
  Ownership.CreatedKeepsInv and Ownership.WroteKeepsInv say exactly what happens otherwise.
- FileTree.MkdirLinks: assumes the same, and that the new inode is not that of the parent; Tree.DirectoryMadeKeepsTree
  covers that case.
- Accounting.CreatedAccounts: is about new inodes that start without blocks.
- RootCopy.RunCoherence: assumes that calls which change the root without reading it again do so through the copy, as
  they do for a path of a slash and a name; through another path to the root a stale copy can come right by chance.
- FileOps.RemoveFile: is given a name that is in the directory, as sys_rm has found it there.
- FileAccess.OpenKeepsExclusive: starts where the inode is known, and assumes that the root directory can be read again.
