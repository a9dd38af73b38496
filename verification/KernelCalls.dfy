/** What the kernel calls mean for processes, in the numbers of the source: time slices, children, exec, shared
    memory and locks, exits, and the counters. */
module KernelCalls {
  import opened Words
  import opened Processes
  import opened Scheduler
  import opened SystemCalls
  import opened KernelFrames
  import opened Fairness
  import opened Forest
  import opened Locks

  // ---- time slices

  /** The process that a scheduler call has chosen has the processor for 1 more call if it is interactive, and
      for 6 if it is a background process. */
  lemma ChosenSlice(s: State)
    requires Sane(s) && TimeLeft(s, s.cur) == 0 && exists q: pid :: Active(s, q)
    ensures var t := Schedule(s);
            && Active(t, t.cur) && Waited(t, t.cur) == 0
            && TimeLeft(t, t.cur) == if Type(t, t.cur) == Interactive then 1 else 6
  {
    ScheduleCases(s);
  }

  /** The scan goes up from the process after the current one, and round to the current one itself. */
  lemma ScanGoesUp(cur: pid, p: pid)
    ensures Distance(cur, p) == if p > cur then p - cur - 1 else p - cur + 29
    ensures Candidate(cur, Distance(cur, p)) == p && Candidate(cur, 0) == if cur == 30 then 1 else cur + 1
  {
  }

  /** The priority of every process after a scheduler call: all others that are active wait one call longer, the
      current one has one call less left, or has it used up, and the one chosen then starts afresh. */
  lemma PriorityAfterSchedule(s: State, q: pid)
    requires Sane(s) && exists r: pid :: Active(s, r)
    ensures var t := Schedule(s);
            var switch, wait := TimeLeft(s, s.cur) == 0, if Active(s, q) && q != s.cur then 1 else 0;
            && (!switch ==> t.cur == s.cur)
            && Type(t, q) == Type(s, q)
            && Waited(t, q) == (if switch && q == t.cur then 0 else Waited(s, q) + wait)
            && (q != s.cur && !(switch && q == t.cur) ==> TimeLeft(t, q) == TimeLeft(s, q))
            && (!switch ==> TimeLeft(t, s.cur) == TimeLeft(s, s.cur) - 1)
  {
    ScheduleCases(s);
    ScheduleEntry(s, q);
    ScheduleEntry(s, s.cur);
  }

  /** r is the longest waiter, when the scheduler is called in s, of the type that the last process does not
      have, or of the same type when the other has nobody. */
  ghost predicate IsNext(s: State, r: pid) {
    var u, other := UpdateWaiting(s), Other(Type(s, s.cur));
    if exists q: pid :: Eligible(s, other, q) then IsLongestWaiter(u, other, r)
    else IsLongestWaiter(u, Type(s, s.cur), r)
  }

  lemma ChosenProcess(s: State)
    requires Sane(s) && TimeLeft(s, s.cur) == 0 && exists q: pid :: Active(s, q)
    ensures IsNext(s, Schedule(s).cur)
  {
    var u, other := UpdateWaiting(s), Other(Type(s, s.cur));
    forall q: pid
      ensures Eligible(u, other, q) <==> Eligible(s, other, q)
      ensures Active(u, q) <==> Active(s, q)
      ensures Waited(u, q) >= 0
    {
      AgedIsUpdated(s, q);
    }
    NextPidChoice(u);
    ScheduleEntry(s, s.cur);
    var q: pid :| Active(s, q);
    assert Active(u, q);
  }

  /** The state in which a timer interrupt calls the scheduler. */
  function Counted(s: State): State {
    s.(bursts := s.bursts + 1)
  }

  lemma CountedIsSane(s: State)
    requires Sane(s) && Running(s)
    ensures Sane(Counted(s)) && Active(Counted(s), s.cur) && TimeLeft(Counted(s), s.cur) == TimeLeft(s, s.cur)
    ensures Schedule(Counted(s)) == Tick(s)
  {
    QuietStep(s, Counted(s), s.cur);
  }

  /** An interrupt when the slice is used up chooses in this way, and gives a slice of 1 or 6. */
  lemma InterruptChooses(s: State)
    requires Sane(s) && Running(s) && TimeLeft(s, s.cur) == 0
    ensures var t := Tick(s);
            && IsNext(Counted(s), t.cur) && Active(t, t.cur)
            && TimeLeft(t, t.cur) == if Type(t, t.cur) == Interactive then 1 else 6
  {
    CountedIsSane(s);
    ChosenSlice(Counted(s));
    ChosenProcess(Counted(s));
  }

  /** A yield gives up what is left of the slice: it chooses at once. */
  lemma YieldChooses(s: State)
    requires Sane(s) && Running(s)
    ensures var t := SysYield(s);
            && IsNext(s, t.cur) && Active(t, t.cur) && Waited(t, t.cur) == 0
            && TimeLeft(t, t.cur) == if Type(t, t.cur) == Interactive then 1 else 6
  {
    var u := WithPri(s, s.cur, Proc(s, s.cur).pri.(timeLeft := 0));
    forall q: pid
      ensures Waited(u, q) == Waited(s, q) && Type(u, q) == Type(s, q) && Active(u, q) == Active(s, q)
      ensures 0 <= TimeLeft(u, q) <= 6
    {
      assert Waited(s, q) >= 0 && 0 <= TimeLeft(s, q) <= 6;
    }
    ChosenSlice(u);
    ChosenProcess(u);
    SameChoice(u, s, SysYield(s).cur);
  }

  /** What is left of slices makes no difference to the choice. */
  lemma SameChoice(u: State, s: State, r: pid)
    requires u.cur == s.cur
    requires forall q: pid :: Waited(u, q) == Waited(s, q) && Type(u, q) == Type(s, q) && Active(u, q) == Active(s, q)
    requires IsNext(u, r)
    ensures IsNext(s, r)
  {
    var v, w := UpdateWaiting(u), UpdateWaiting(s);
    forall q: pid
      ensures Waited(v, q) == Waited(w, q) && Type(v, q) == Type(w, q) && Active(v, q) == Active(w, q)
    {
      AgedIsUpdated(u, q);
      AgedIsUpdated(s, q);
    }
    var other := Other(Type(s, s.cur));
    assert forall q: pid :: Eligible(u, other, q) <==> Eligible(s, other, q);
  }

  /** The process runs on: interrupts, and calls of its own that neither call the scheduler nor fork. */
  predicate RunsOn(steps: seq<Step>) {
    forall i :: 0 <= i < |steps| ==> steps[i].Timer? || (Calls(steps[i]) == 0 && !IsFork(steps[i]))
  }

  predicate StaysCurrent(s: State, steps: seq<Step>, p: pid)
    decreases |steps|
  {
    s.cur == p && (steps == [] || StaysCurrent(Apply(s, steps[0]), steps[1..], p))
  }

  lemma InterruptInSlice(s: State)
    requires Sane(s) && Running(s) && TimeLeft(s, s.cur) > 0
    ensures var t := Tick(s);
            t.cur == s.cur && TimeLeft(t, t.cur) == TimeLeft(s, s.cur) - 1 && Type(t, t.cur) == Type(s, s.cur)
  {
    var u := s.(bursts := s.bursts + 1);
    QuietStep(s, u, s.cur);
    ScheduleEntry(u, u.cur);
  }

  /** A call that is no scheduler call keeps the slice. */
  lemma CallInSlice(s: State, a: Step)
    requires Sane(s) && Enabled(s, a) && Calls(a) == 0 && !IsFork(a)
    ensures Apply(s, a).cur == s.cur && TimeLeft(Apply(s, a), s.cur) == TimeLeft(s, s.cur)
  {
    if a.Wait? {
      WaitForIsQuiet(s, s.cur, a.child);
    } else if !a.Exec? && !a.User? {
      SharedMemoryIsQuiet(s, a);
    }
  }

  /** A process keeps the processor for as many interrupts as its slice has left. */
  lemma {:induction false} SliceLasts(s: State, steps: seq<Step>)
    requires Sane(s) && Legal(s, steps) && RunsOn(steps) && Interrupts(steps) <= TimeLeft(s, s.cur)
    ensures StaysCurrent(s, steps, s.cur) && Sane(Run(s, steps))
    ensures TimeLeft(Run(s, steps), s.cur) == TimeLeft(s, s.cur) - Interrupts(steps) && Run(s, steps).cur == s.cur
    decreases |steps|
  {
    if steps != [] {
      StepIsSane(s, steps[0]);
      if steps[0].Timer? {
        InterruptInSlice(s);
      } else {
        CallInSlice(s, steps[0]);
      }
      SliceLasts(Apply(s, steps[0]), steps[1..]);
    }
  }

  /** Exactly 1 or 6 interrupts: the process p that an interrupt has chosen runs on through that many, and the
      next one chooses again. */
  lemma ExactSlice(s: State, steps: seq<Step>)
    requires Sane(s) && Running(s) && TimeLeft(s, s.cur) == 0
    requires Legal(Tick(s), steps) && RunsOn(steps)
    requires Interrupts(steps) == if Type(Tick(s), Tick(s).cur) == Interactive then 1 else 6
    ensures var p, end := Tick(s).cur, Run(Tick(s), steps);
            && StaysCurrent(Tick(s), steps, p) && end.cur == p && TimeLeft(end, p) == 0
            && (Running(end) ==> IsNext(Counted(end), Tick(end).cur))
  {
    InterruptChooses(s);
    StepIsSane(s, Timer);
    SliceLasts(Tick(s), steps);
    if Running(Run(Tick(s), steps)) {
      InterruptChooses(Run(Tick(s), steps));
    }
  }

  // ---- the counters

  /** The kernel counts the interrupts. */
  lemma {:induction false} InterruptsAreCounted(s: State, steps: seq<Step>)
    requires Legal(s, steps)
    ensures Run(s, steps).bursts == s.bursts + Interrupts(steps)
    decreases |steps|
  {
    if steps != [] {
      StepCounts(s, steps[0]);
      InterruptsAreCounted(Apply(s, steps[0]), steps[1..]);
    }
  }

  lemma StepCounts(s: State, a: Step)
    requires Enabled(s, a)
    ensures Apply(s, a).bursts == s.bursts + (if a.Timer? then 1 else 0)
  {
    if a.Wait? {
      WaitForFrame(s, s.cur, a.child, s.cur);
    } else if a.ForkWait? {
      WaitForFrame(SysFork(s), s.cur, SysFork(s).cur, s.cur);
    }
  }

  /** cpu_burst counts how often a process has been chosen. */
  lemma ChosenIsCounted(s: State, q: pid)
    requires Sane(s) && exists r: pid :: Active(s, r)
    ensures Proc(Schedule(s), q).pri.cpuBurst ==
            Proc(s, q).pri.cpuBurst + if TimeLeft(s, s.cur) == 0 && q == Schedule(s).cur then 1 else 0
  {
    NextPidIsChoosable(s);
    BurstAfterSchedule(s, q);
  }

  lemma BurstAfterSchedule(s: State, q: pid)
    requires NextPid(UpdateWaiting(s)) != -1
    ensures Proc(Schedule(s), q).pri.cpuBurst ==
            Proc(s, q).pri.cpuBurst + if TimeLeft(s, s.cur) <= 0 && q == Schedule(s).cur then 1 else 0
  {
    var u := UpdateWaiting(s);
    assert Proc(u, q) == AgedEntry(s, q) && Proc(u, u.cur) == AgedEntry(s, s.cur);
    if TimeLeft(s, s.cur) <= 0 {
      BurstAfterDispatch(u, NextPid(u), q);
    }
  }

  lemma BurstAfterDispatch(s: State, p: pid, q: pid)
    ensures Proc(Dispatch(s, p), q).pri.cpuBurst == Proc(s, q).pri.cpuBurst + (if q == p then 1 else 0)
    ensures Dispatch(s, p).cur == p
  {
  }

  // ---- fork

  predicate NoWaits(b: Pcb) {
    && (forall i :: 0 <= i < 20 ==> b.waiting[i].pid == 0 && b.waiting[i].result == 0)
    && (forall i :: 0 <= i < 5 ==> b.waiters[i] == 0)
  }

  /** A child starts with its parent's registers and a 0 in r0, as a background process that has neither waited
      nor run, waits for nobody, is awaited by nobody and shares nothing. */
  lemma ChildIsFresh(s: State)
    requires Running(s) && FreePidFrom(s, 1) != -1
    ensures var t, c := SysFork(s), FreePidFrom(s, 1);
            var b := Proc(t, c);
            && t.cur == c && t.ctx == s.ctx.(r0 := 0) && b.ppid == s.cur && b.ctx == s.ctx.(r0 := 0)
            && b.pri.ptype == Background && b.pri.timeLeft == 0 && b.pri.waitingTime == 0
            && b.pri.level == 0 && b.pri.ioBurst == 0 && b.pri.cpuBurst == 0 && b.pri.arrival == s.bursts
            && b.shared.ptr == 0 && !b.shared.locked && NoWaits(b)
  {
  }

  /** The parent's entry differs in the saved registers only: they hold the child's pid in r0. A fork that finds
      no free pid puts -1 there and does nothing else. */
  lemma ParentAfterFork(s: State)
    requires Running(s)
    ensures var t, c := SysFork(s), FreePidFrom(s, 1);
            if c == -1 then t == s.(ctx := s.ctx.(r0 := 0xFFFF_FFFF))
            else Proc(t, s.cur) == Proc(s, s.cur).(ctx := s.ctx.(r0 := c))
  {
    if FreePidFrom(s, 1) != -1 {
      ForkFrame(s, s.cur);
    }
  }

  /** A pointer that the parent shares is found by its new child in the parent's slot. */
  lemma ChildSharesParents(s: State, ptr: word)
    requires Running(s) && FreePidFrom(s, 1) != -1 && ptr != 0 && Proc(s, s.cur).shared.ptr == ptr
    ensures SharedOwner(SysFork(s), FreePidFrom(s, 1), ptr) == s.cur
  {
    ChildIsFresh(s);
    ParentAfterFork(s);
  }

  // ---- a family around one lock

  /** q is p, which shares ptr, or a child of p that shares nothing itself. */
  predicate Family(s: State, p: pid, ptr: word, q: pid) {
    && ptr != 0 && Proc(s, p).shared.ptr == ptr
    && (q == p || (Parent(s, q) == p && Proc(s, q).shared.ptr == 0))
  }

  lemma FamilyOwner(s: State, p: pid, ptr: word, q: pid)
    requires Family(s, p, ptr, q)
    ensures SharedOwner(s, q, ptr) == p
  {
  }

  /** The parent and such children exclude each other: after one of them was told 1 by lock, any of them is told
      0, until somebody unlocks it or the parent exits. */
  lemma FamilyExcludes(s: State, p: pid, ptr: word, steps: seq<Step>)
    requires IsForest(s) && Enabled(s, Lock(ptr)) && Family(s, p, ptr, s.cur) && Result(s, Lock(ptr)) == 1
    requires Legal(Apply(s, Lock(ptr)), steps) && NeverReleased(Apply(s, Lock(ptr)), steps, p)
    ensures var u := Run(Apply(s, Lock(ptr)), steps); Family(u, p, ptr, u.cur) ==> Result(u, Lock(ptr)) == 0
  {
    var u := Run(Apply(s, Lock(ptr)), steps);
    FamilyOwner(s, p, ptr, s.cur);
    LockExcludes(s, ptr, steps, ptr);
    if Family(u, p, ptr, u.cur) {
      FamilyOwner(u, p, ptr, u.cur);
    }
  }

  // ---- sharing and locking

  /** A share stores the pointer in an empty slot and leaves the flag alone; in a slot that is in use it changes
      nothing. */
  lemma ShareStores(s: State, ptr: word)
    ensures var t, p := SysShare(s, ptr), s.cur;
            if Proc(s, p).shared.ptr == 0
            then t.ctx.r0 == 1 && Proc(t, p).shared.ptr == ptr && Proc(t, p).shared.locked == Proc(s, p).shared.locked
            else t == s.(ctx := s.ctx.(r0 := 0))
  {
  }

  /** After a share that answered 1 the pointer is the caller's, for the caller and for each of its children that
      shares nothing. */
  lemma ShareIsFound(s: State, ptr: word, q: pid)
    requires ptr != 0 && Proc(s, s.cur).shared.ptr == 0
    requires q == s.cur || (Parent(s, q) == s.cur && Proc(s, q).shared.ptr == 0)
    ensures SharedOwner(SysShare(s, ptr), q, ptr) == s.cur
  {
    ShareStores(s, ptr);
  }

  /** The caller can lock what it has just shared exactly if its flag was free. */
  lemma ShareThenLock(s: State, ptr: word)
    requires ptr != 0 && Proc(s, s.cur).shared.ptr == 0
    ensures SysLock(SysShare(s, ptr), ptr).ctx.r0 == if Proc(s, s.cur).shared.locked then 0 else 1
  {
    ShareIsFound(s, ptr, s.cur);
  }

  /** An unshare of the shared pointer leaves 0 in its place and the flag alone; any other changes nothing. */
  lemma UnshareClears(s: State, ptr: word)
    ensures var t, p := SysUnshare(s, ptr), s.cur;
            if Proc(s, p).shared.ptr == ptr
            then t.ctx.r0 == 1 && Proc(t, p).shared.ptr == 0 && Proc(t, p).shared.locked == Proc(s, p).shared.locked
            else t == s.(ctx := s.ctx.(r0 := 0))
  {
  }

  /** Lock answers 1 exactly when it takes a free flag and 0 when the flag is taken, and -1 when nobody shares the
      pointer. The flag is taken afterwards, and the pointers stay. */
  lemma LockAnswers(s: State, ptr: word)
    ensures var t, o := SysLock(s, ptr), SharedOwner(s, s.cur, ptr);
            if o == -1 then t == s.(ctx := s.ctx.(r0 := 0xFFFF_FFFF))
            else && t.ctx.r0 == (if Proc(s, o).shared.locked then 0 else 1)
                 && Proc(t, o).shared.locked && Proc(t, o).shared.ptr == Proc(s, o).shared.ptr
  {
  }

  /** Unlock answers 1 exactly when it frees a taken flag. The flag is free afterwards. */
  lemma UnlockAnswers(s: State, ptr: word)
    ensures var t, o := SysUnlock(s, ptr), SharedOwner(s, s.cur, ptr);
            if o == -1 then t == s.(ctx := s.ctx.(r0 := 0xFFFF_FFFF))
            else && t.ctx.r0 == (if Proc(s, o).shared.locked then 1 else 0)
                 && !Proc(t, o).shared.locked && Proc(t, o).shared.ptr == Proc(s, o).shared.ptr
  {
  }

  // ---- wait

  /** sys_wait hands its result over as a word, so that -1 and -2 are the two highest words. */
  lemma WaitAnswers(s: State, p: pid)
    ensures var (t, r) := WaitFor(s, s.cur, p);
            && SysWait(s, p) == t.(ctx := s.ctx.(r0 := r % 0x1_0000_0000))
            && (r == -1 ==> SysWait(s, p).ctx.r0 == 0xFFFF_FFFF) && (r == -2 ==> SysWait(s, p).ctx.r0 == 0xFFFF_FFFE)
  {
    WaitForFrame(s, s.cur, p, s.cur);
  }

  // ---- exec

  /** An exec makes its caller interactive if it is asked to, and never a background process again. */
  lemma ExecType(s: State, entry: word, interactive: bool, args: word, q: pid)
    requires Running(s) && entry != 0
    ensures Type(SysExec(s, entry, interactive, args), q) == Interactive <==>
              Type(s, q) == Interactive || (q == s.cur && interactive)
  {
  }

  /** The caller starts with fresh registers at the entry point, with the arguments in r0, on its own stack, and
      keeps everything else; the other processes keep all they have. */
  lemma ExecStarts(s: State, entry: word, interactive: bool, args: word, q: pid)
    requires Running(s) && entry != 0
    ensures var t := SysExec(s, entry, interactive, args);
            && t.cur == s.cur && t.ctx.pc == entry && t.ctx.r0 == args && t.ctx.cpsr == 0x50 && t.ctx.lr == 0
            && t.ctx.sp == StackPointer(s.tos, s.cur) && (forall i :: 0 <= i < |t.ctx.r1to12| ==> t.ctx.r1to12[i] == 0)
            && (q != s.cur ==> Proc(t, q) == Proc(s, q))
            && Proc(t, q) == Proc(s, q).(ctx := Proc(t, q).ctx, pri := Proc(t, q).pri)
            && Proc(t, q).pri == Proc(s, q).pri.(ptype := Type(t, q))
  {
  }

  /** An exec without an entry point is an exit with status 1. */
  lemma ExecOfNothing(s: State, interactive: bool, args: word)
    ensures SysExec(s, 0, interactive, args) == SysExit(s, 1)
  {
  }

  // ---- exit

  /** An exit leaves an entry with nothing in it but the stack: no program, no parent, no shared pointer, no
      lock, no waits, and the priority of a new background process. */
  lemma ExitClears(s: State, x: int)
    requires Running(s)
    ensures var b := Proc(Terminated(s, x), s.cur);
            && b.ppid == 0 && b.ctx.pc == 0 && b.shared.ptr == 0 && !b.shared.locked && NoWaits(b)
            && b.ctx.sp == StackPointer(s.tos, s.cur) && b.pri.ptype == Background && b.pri.timeLeft == 0
            && b.pri.waitingTime == 0 && b.pri.cpuBurst == 0 && b.pri.arrival == s.bursts
  {
  }

  /** The kernel has a process to run for as long as there is one: a call leaves nothing running only if it was
      the exit of the last process. */
  lemma KeepsRunning(s: State, a: Step)
    requires Sane(s) && Enabled(s, a)
    ensures Running(Apply(s, a)) <==> exists q: pid :: Active(Apply(s, a), q)
    ensures !IsExit(a) ==> Running(Apply(s, a))
  {
    var t := Apply(s, a);
    StepIsSane(s, a);
    if q: pid :| Active(t, q) {
      SomebodyRuns(s, a, q);
    }
    if !IsExit(a) {
      Lifecycle(s, a, s.cur);
      assert Active(t, s.cur);
    }
  }

  lemma SomebodyRuns(s: State, a: Step, q: pid)
    requires Sane(s) && Enabled(s, a) && Active(Apply(s, a), q)
    ensures Active(Apply(s, a), Apply(s, a).cur)
  {
    Lifecycle(s, a, q);
    if !a.Timer? && !a.Yield? && !IsExit(a) {
      Lifecycle(s, a, Apply(s, a).cur);
    }
    match a
    case Timer => TimerRuns(s);
    case Yield => YieldRuns(s);
    case Exit(x) => ExitRuns(s, x, q);
    case Exec(e, i, args) =>
      if e == 0 {
        ExitRuns(s, EXIT_FAILURE, q);
      }
    case _ =>
  }

  lemma TimerRuns(s: State)
    requires Sane(s) && Running(s)
    ensures Active(Tick(s), Tick(s).cur)
  {
    CountedIsSane(s);
    RunsAfterSchedule(Counted(s));
  }

  lemma YieldRuns(s: State)
    requires Sane(s) && Running(s)
    ensures Active(SysYield(s), SysYield(s).cur)
  {
    var u := WithPri(s, s.cur, Proc(s, s.cur).pri.(timeLeft := 0));
    forall q: pid
      ensures Waited(u, q) >= 0
    {
      assert Waited(u, q) == Waited(s, q);
    }
    RunsAfterSchedule(u);
  }

  lemma ExitRuns(s: State, x: int, q: pid)
    requires Sane(s) && Running(s) && Active(s, q) && q != s.cur
    ensures Active(SysExit(s, x), SysExit(s, x).cur)
  {
    ExitCases(s, x, q);
  }

  lemma RunsAfterSchedule(s: State)
    requires NonNegativeWaits(s) && Active(s, s.cur) && s.ctx.pc != 0
    ensures Active(Schedule(s), Schedule(s).cur)
  {
    ScheduleCases(s);
  }

  // ---- stacks

  /** The stacks of two processes do not overlap: their tops are at least 4096 bytes apart. */
  lemma StacksAreApart(tos: word, p: pid, q: pid)
    requires tos + 4096 * 30 <= 0x1_0000_0000 && p < q
    ensures StackPointer(tos, p) == tos + 4096 * (p - 1) && StackPointer(tos, p) + 4096 <= StackPointer(tos, q)
  {
  }

  // ---- reset

  /** After a reset process 1 runs the console as an interactive process without a parent, and nobody else is
      there. */
  lemma AfterReset(tos: word, console: word, q: pid)
    ensures var s := Reset(tos, console);
            && s.cur == 1 && s.bursts == 0 && s.ctx.pc == console && s.ctx.cpsr == 0x50
            && s.ctx.sp == StackPointer(tos, 1)
            && (Active(s, q) <==> q == 1 && console != 0) && (Type(s, q) == Interactive <==> q == 1)
            && Proc(s, q).ppid == 0 && Proc(s, q).shared.ptr == 0 && !Proc(s, q).shared.locked && NoWaits(Proc(s, q))
            && Proc(s, q).ctx.sp == StackPointer(tos, q)
  {
  }
}
