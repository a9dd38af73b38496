/** What the parts of the kernel leave alone, and the virtual processor: every process sees a
    context of its own that only its own system calls change. */
module KernelFrames {
  import opened Words
  import opened Processes
  import opened Scheduler
  import opened SystemCalls

  /** The context process p has: the live one while it runs, the saved one otherwise. */
  function View(s: State, p: pid): Ctx {
    if p == s.cur then s.ctx else Proc(s, p).ctx
  }

  /** A scheduler call keeps everything but priorities, and every process keeps its context. */
  lemma ScheduleFrame(s: State, q: pid)
    ensures var t := Schedule(s);
            && Proc(t, q).ppid == Proc(s, q).ppid && Proc(t, q).shared == Proc(s, q).shared
            && Proc(t, q).waiting == Proc(s, q).waiting && Proc(t, q).waiters == Proc(s, q).waiters
            && View(t, q) == View(s, q)
            && ((Active(s, s.cur) <==> s.ctx.pc != 0) ==> (Active(t, q) <==> Active(s, q)))
  {
    var u := UpdateWaiting(s);
    assert Proc(u, q) == AgedEntry(s, q) && Proc(u, u.cur) == AgedEntry(s, s.cur);
    if Proc(u, u.cur).pri.timeLeft <= 0 && NextPid(u) != -1 {
      DispatchFrame(u, NextPid(u), q);
    }
  }

  /** q's entry apart from its priority, and what q sees. */
  predicate SameForProcess(s: State, t: State, q: pid) {
    && Proc(t, q).ppid == Proc(s, q).ppid && Proc(t, q).shared == Proc(s, q).shared
    && Proc(t, q).waiting == Proc(s, q).waiting && Proc(t, q).waiters == Proc(s, q).waiters
    && View(t, q) == View(s, q)
    && (Active(t, q) <==> Active(s, q))
  }

  lemma TimerFrame(s: State, q: pid)
    requires Running(s)
    ensures SameForProcess(s, Tick(s), q)
  {
    var u := s.(bursts := s.bursts + 1);
    assert Proc(u, q) == Proc(s, q) && View(u, q) == View(s, q) && (Active(u, u.cur) <==> u.ctx.pc != 0);
    ScheduleFrame(u, q);
  }

  lemma YieldFrame(s: State, q: pid)
    requires Running(s)
    ensures SameForProcess(s, SysYield(s), q)
  {
    ScheduleFrame(WithPri(s, s.cur, Proc(s, s.cur).pri.(timeLeft := 0)), q);
  }

  lemma ExitViews(s: State, x: int, q: pid)
    requires Running(s)
    ensures View(SysExit(s, x), q) == if q == s.cur then InitialCtx(StackPointer(s.tos, q)) else View(s, q)
  {
    TerminatedFrame(s, x, q);
    ScheduleFrame(Terminated(s, x), q);
  }

  lemma DispatchFrame(u: State, p: pid, q: pid)
    ensures var t := Dispatch(u, p);
            && Proc(t, q).ppid == Proc(u, q).ppid && Proc(t, q).shared == Proc(u, q).shared
            && Proc(t, q).waiting == Proc(u, q).waiting && Proc(t, q).waiters == Proc(u, q).waiters
            && View(t, q) == View(u, q)
            && Proc(t, q).ctx == if q == u.cur && p != q then u.ctx else Proc(u, q).ctx
  {
  }

  /** The table entries just before the scheduler call of an exit. */
  lemma TerminatedFrame(s: State, x: int, q: pid)
    ensures var z := Terminated(s, x);
            && z.cur == s.cur && z.ctx == InitialCtx(StackPointer(s.tos, s.cur))
            && Proc(z, q) ==
               if q == s.cur then Blank(0, s.bursts, StackPointer(s.tos, s.cur))
               else var b := ResolvedEntry(s, s.cur, x, q); if b.ppid == s.cur then b.(ppid := 0) else b
  {
  }

  lemma WaitForFrame(s: State, q: pid, p: pid, r: pid)
    ensures var t := WaitFor(s, q, p).0;
            && t.cur == s.cur && t.ctx == s.ctx && t.bursts == s.bursts && t.tos == s.tos
            && Proc(t, r) == Proc(s, r).(waiting := Proc(t, r).waiting, waiters := Proc(t, r).waiters)
  {
    if Slot(Proc(s, q).waiting, p) == -1 {
      SetWaitingFrame(s, q, p, r);
    }
  }

  lemma SetWaitingFrame(s: State, q: pid, p: pid, r: pid)
    ensures var t := SetWaiting(s, q, p).0;
            && t.cur == s.cur && t.ctx == s.ctx && t.bursts == s.bursts && t.tos == s.tos
            && Proc(t, r) == Proc(s, r).(waiting := Proc(t, r).waiting, waiters := Proc(t, r).waiters)
  {
  }

  /** The table entries after a fork that found the free pid c. */
  lemma ForkFrame(s: State, q: pid)
    requires FreePidFrom(s, 1) != -1 && Running(s)
    ensures var t, c := SysFork(s), FreePidFrom(s, 1);
            && t.cur == c && t.ctx == s.ctx.(r0 := 0)
            && Proc(t, q) == if q == c then Child(s, c)
                             else if q == s.cur then Proc(s, q).(ctx := s.ctx.(r0 := c)) else Proc(s, q)
  {
  }

  /** The value that a call hands to its caller in r0. */
  function Result(s: State, a: Step): int
    requires a.Wait? || a.Share? || a.Unshare? || a.Lock? || a.Unlock?
  {
    match a
    case Wait(p) => WaitFor(s, s.cur, p).1
    case Share(ptr) => if Proc(s, s.cur).shared.ptr != 0 then 0 else 1
    case Unshare(ptr) => if Proc(s, s.cur).shared.ptr != ptr then 0 else 1
    case Lock(ptr) =>
      var o := SharedOwner(s, s.cur, ptr);
      if o == -1 then -1 else if Proc(s, o).shared.locked then 0 else 1
    case Unlock(ptr) =>
      var o := SharedOwner(s, s.cur, ptr);
      if o == -1 then -1 else if Proc(s, o).shared.locked then 1 else 0
  }

  /** The context that p should see after step a. */
  function NextView(s: State, a: Step, p: pid): Ctx {
    match a
    case Timer => View(s, p)
    case Yield => View(s, p)
    case Fork => ForkView(s, p)
    case ForkWait => ForkView(s, p)
    case Exit(x) => if p == s.cur then InitialCtx(StackPointer(s.tos, p)) else View(s, p)
    case Exec(e, _, args) =>
      if p == s.cur then
        (if e == 0 then InitialCtx(StackPointer(s.tos, p))
         else InitialCtx(StackPointer(s.tos, p)).(pc := e, r0 := args))
      else View(s, p)
    case User(c) => if p == s.cur then c else View(s, p)
    case _ => if p == s.cur then View(s, p).(r0 := ToWord(Result(s, a))) else View(s, p)
  }

  /** A fork gives the child the caller's context with 0 in r0, and the caller the child's pid. */
  function ForkView(s: State, p: pid): Ctx {
    var c := FreePidFrom(s, 1);
    if p == c then View(s, s.cur).(r0 := 0)
    else if p == s.cur then View(s, p).(r0 := ToWord(c))
    else View(s, p)
  }

  /** Every entry of the kernel changes the contexts that processes see in exactly this way: the
      interrupt and yield change none, the other calls only the caller's and a new child's. */
  lemma VirtualCpu(s: State, a: Step, p: pid)
    requires Enabled(s, a)
    ensures View(Apply(s, a), p) == NextView(s, a, p)
  {
    match a
    case Timer => TimerFrame(s, p);
    case Yield => YieldFrame(s, p);
    case Fork => ForkViews(s, p);
    case ForkWait =>
      ForkViews(s, p);
      WaitForFrame(SysFork(s), s.cur, SysFork(s).cur, p);
    case Exit(x) => ExitViews(s, x, p);
    case Exec(e, i, args) => ExecViews(s, a, p);
    case _ => OtherViews(s, a, p);
  }

  lemma ExecViews(s: State, a: Step, p: pid)
    requires Running(s) && a.Exec?
    ensures View(Apply(s, a), p) == NextView(s, a, p)
  {
    if a.entry == 0 {
      ExitViews(s, EXIT_FAILURE, p);
    }
  }

  lemma OtherViews(s: State, a: Step, p: pid)
    requires a.Wait? || a.Share? || a.Unshare? || a.Lock? || a.Unlock? || a.User?
    ensures View(Apply(s, a), p) == NextView(s, a, p)
  {
    match a
    case Wait(c) => WaitForFrame(s, s.cur, c, p);
    case User(c) =>
    case _ => SharedMemoryFrame(s, a, p);
  }

  lemma ForkViews(s: State, p: pid)
    requires Running(s)
    ensures View(SysFork(s), p) == ForkView(s, p)
  {
  }

  /** The process whose shared-memory slot a call is about, or -1. */
  function SlotOwner(s: State, a: Step): int
    requires a.Share? || a.Unshare? || a.Lock? || a.Unlock?
  {
    match a
    case Lock(ptr) => SharedOwner(s, s.cur, ptr)
    case Unlock(ptr) => SharedOwner(s, s.cur, ptr)
    case _ => s.cur
  }

  /** Sharing and locking change one shared-memory slot and the caller's r0. */
  lemma SharedMemoryFrame(s: State, a: Step, q: pid)
    requires a.Share? || a.Unshare? || a.Lock? || a.Unlock?
    ensures var t := Apply(s, a);
            && t.cur == s.cur && t.ctx == s.ctx.(r0 := ToWord(Result(s, a)))
            && Proc(t, q) == Proc(s, q).(shared := Proc(t, q).shared)
            && (q != SlotOwner(s, a) ==> Proc(t, q) == Proc(s, q))
  {
  }

  /** Along the run, p itself only gets interrupted or yields. */
  predicate OnlyPreempted(s: State, steps: seq<Step>, p: pid)
    decreases |steps|
  {
    steps == [] ||
    (&& (s.cur == p ==> steps[0].Timer? || steps[0].Yield?)
     && OnlyPreempted(Apply(s, steps[0]), steps[1..], p))
  }

  /** However long the run and whatever the other processes do in it, a process that only gets
      interrupted or yields finds its context as it left it. */
  lemma {:induction false} ContextSurvivesRuns(s: State, steps: seq<Step>, p: pid)
    requires Legal(s, steps) && View(s, p).pc != 0 && OnlyPreempted(s, steps, p)
    ensures View(Run(s, steps), p) == View(s, p)
    decreases |steps|
  {
    if steps != [] {
      VirtualCpu(s, steps[0], p);
      ContextSurvivesRuns(Apply(s, steps[0]), steps[1..], p);
    }
  }

  predicate SameLinks(s: State, t: State, q: pid) {
    (Active(t, q) <==> Active(s, q)) && Proc(t, q).ppid == Proc(s, q).ppid
  }

  /** Which processes exist, and who is whose parent, after each kind of step. */
  lemma Lifecycle(s: State, a: Step, q: pid)
    requires Enabled(s, a)
    ensures var t, c := Apply(s, a), FreePidFrom(s, 1);
            if IsFork(a) && c != -1 then
              && t.cur == c && (Active(t, q) <==> Active(s, q) || q == c)
              && Proc(t, q).ppid == if q == c then s.cur else Proc(s, q).ppid
            else if IsExit(a) then
              && (Active(t, q) <==> Active(s, q) && q != s.cur)
              && Proc(t, q).ppid == if q == s.cur || Proc(s, q).ppid == s.cur then 0 else Proc(s, q).ppid
            else SameLinks(s, t, q)
  {
    match a
    case Fork => ForkLinks(s, q);
    case ForkWait => ForkWaitLinks(s, q);
    case Exit(x) => ExitLinks(s, x, q);
    case Exec(_, _, _) => ExecLinks(s, a, q);
    case _ => OtherLinks(s, a, q);
  }

  lemma OtherLinks(s: State, a: Step, q: pid)
    requires Running(s) && !IsFork(a) && !a.Exit? && !a.Exec?
    ensures SameLinks(s, Apply(s, a), q)
  {
    match a
    case Timer => TimerFrame(s, q);
    case Yield => YieldFrame(s, q);
    case Wait(c) => WaitForFrame(s, s.cur, c, q);
    case User(_) =>
    case _ => SharedMemoryFrame(s, a, q);
  }

  lemma ForkWaitLinks(s: State, q: pid)
    requires Running(s)
    ensures var t, c := SysForkWait(s), FreePidFrom(s, 1);
            if c == -1 then SameLinks(s, t, q)
            else && t.cur == c && (Active(t, q) <==> Active(s, q) || q == c)
                 && Proc(t, q).ppid == if q == c then s.cur else Proc(s, q).ppid
  {
    ForkLinks(s, q);
    var t := SysFork(s);
    WaitForFrame(t, s.cur, t.cur, q);
  }

  lemma ExecLinks(s: State, a: Step, q: pid)
    requires Running(s) && a.Exec?
    ensures var t := Apply(s, a);
            if a.entry != 0 then SameLinks(s, t, q)
            else && (Active(t, q) <==> Active(s, q) && q != s.cur)
                 && Proc(t, q).ppid == if q == s.cur || Proc(s, q).ppid == s.cur then 0 else Proc(s, q).ppid
  {
    if a.entry == 0 {
      ExitLinks(s, EXIT_FAILURE, q);
    }
  }

  lemma ForkLinks(s: State, q: pid)
    requires Running(s)
    ensures var t, c := SysFork(s), FreePidFrom(s, 1);
            if c == -1 then SameLinks(s, t, q)
            else && t.cur == c && (Active(t, q) <==> Active(s, q) || q == c)
                 && Proc(t, q).ppid == if q == c then s.cur else Proc(s, q).ppid
  {
  }

  lemma ExitLinks(s: State, x: int, q: pid)
    requires Running(s)
    ensures var t := SysExit(s, x);
            && (Active(t, q) <==> Active(s, q) && q != s.cur)
            && Proc(t, q).ppid == if q == s.cur || Proc(s, q).ppid == s.cur then 0 else Proc(s, q).ppid
  {
    var z := Terminated(s, x);
    TerminatedFrame(s, x, q);
    TerminatedFrame(s, x, s.cur);
    ScheduleFrame(z, q);
  }
}
