/** What lock means for the processes that use it: exclusion over runs of the kernel, and the lock of
    the dining philosophers. */
module Locks {
  import opened Words
  import opened Processes
  import opened SystemCalls
  import opened KernelFrames
  import opened Forest
  import P = Philosophers

  /** The owner of ptr for p is p or its parent, whichever shares ptr, p first; there is none exactly when
      neither does. */
  lemma OwnerMeaning(s: State, p: pid, ptr: word)
    ensures var o := SharedOwner(s, p, ptr);
            && (o != -1 ==> (o == p || o == Parent(s, p)) && Proc(s, o).shared.ptr == ptr)
            && (Proc(s, p).shared.ptr == ptr ==> o == p)
            && (o == -1 <==> forall q: pid :: q == p || q == Parent(s, p) ==> Proc(s, q).shared.ptr != ptr)
  {
  }

  /** Process o lives and the lock in its shared-memory slot is taken. */
  predicate Locked(s: State, o: pid) {
    Active(s, o) && Proc(s, o).shared.locked
  }

  /** The step is an unlock that reaches o, or the exit of o. */
  predicate Releases(s: State, a: Step, o: pid) {
    || (a.Unlock? && SharedOwner(s, s.cur, a.ptr) == o)
    || (IsExit(a) && s.cur == o)
  }

  lemma ForkKeepsSlots(s: State, a: Step, o: pid)
    requires Enabled(s, a) && IsFork(a) && Active(s, o)
    ensures Proc(Apply(s, a), o).shared == Proc(s, o).shared
  {
    if FreePidFrom(s, 1) != -1 {
      ForkFrame(s, o);
    }
    if a.ForkWait? {
      WaitForFrame(SysFork(s), s.cur, SysFork(s).cur, o);
    }
  }

  lemma ExitKeepsSlots(s: State, x: int, o: pid)
    requires s.cur != o
    ensures Proc(SysExit(s, x), o).shared == Proc(s, o).shared
  {
    TerminatedFrame(s, x, o);
    ScheduleFrame(Terminated(s, x), o);
  }

  /** The step is a call that reaches the shared-memory slot of o, or one of o itself on that slot. */
  predicate ReachesSlot(s: State, a: Step, o: pid) {
    || ((a.Lock? || a.Unlock?) && SharedOwner(s, s.cur, a.ptr) == o)
    || ((a.Share? || a.Unshare?) && s.cur == o)
  }

  /** No other step but the exit of o changes that slot. */
  lemma StepKeepsSlot(s: State, a: Step, o: pid)
    requires Enabled(s, a) && Active(s, o) && !ReachesSlot(s, a, o) && !(IsExit(a) && s.cur == o)
    ensures Proc(Apply(s, a), o).shared == Proc(s, o).shared
  {
    match a
    case Timer => TimerFrame(s, o);
    case Yield => YieldFrame(s, o);
    case Fork => ForkKeepsSlots(s, a, o);
    case ForkWait => ForkKeepsSlots(s, a, o);
    case Exit(x) => ExitKeepsSlots(s, x, o);
    case Exec(e, _, _) =>
      if e == 0 {
        ExitKeepsSlots(s, EXIT_FAILURE, o);
      }
    case Wait(c) => WaitForFrame(s, s.cur, c, o);
    case User(_) =>
    case _ => SharedMemoryFrame(s, a, o);
  }

  /** A taken lock stays taken over every kernel entry except exactly those that release it. */
  lemma StepKeepsLock(s: State, a: Step, o: pid)
    requires Enabled(s, a) && Locked(s, o)
    ensures Locked(Apply(s, a), o) <==> !Releases(s, a, o)
  {
    Lifecycle(s, a, o);
    match a
    case Timer => TimerFrame(s, o);
    case Yield => YieldFrame(s, o);
    case Fork => ForkKeepsSlots(s, a, o);
    case ForkWait => ForkKeepsSlots(s, a, o);
    case Exit(x) =>
      if s.cur != o {
        ExitKeepsSlots(s, x, o);
      }
    case Exec(e, _, _) =>
      if e == 0 && s.cur != o {
        ExitKeepsSlots(s, EXIT_FAILURE, o);
      }
    case Wait(c) => WaitForFrame(s, s.cur, c, o);
    case User(_) =>
    case _ => SharedMemoryFrame(s, a, o);
  }

  /** No step of the run releases the lock of o. */
  predicate NeverReleased(s: State, steps: seq<Step>, o: pid)
    decreases |steps|
  {
    steps == [] || (!Releases(s, steps[0], o) && NeverReleased(Apply(s, steps[0]), steps[1..], o))
  }

  lemma {:induction false} RunKeepsLock(s: State, steps: seq<Step>, o: pid)
    requires Legal(s, steps) && Locked(s, o) && NeverReleased(s, steps, o)
    ensures Locked(Run(s, steps), o)
    decreases |steps|
  {
    if steps != [] {
      StepKeepsLock(s, steps[0], o);
      RunKeepsLock(Apply(s, steps[0]), steps[1..], o);
    }
  }

  /** The owner of a pointer lives: it is the caller or its parent. */
  lemma OwnerIsActive(s: State, ptr: word)
    requires IsForest(s) && Running(s) && SharedOwner(s, s.cur, ptr) != -1
    ensures Active(s, SharedOwner(s, s.cur, ptr))
  {
    OwnerMeaning(s, s.cur, ptr);
    if SharedOwner(s, s.cur, ptr) != s.cur && !Active(s, SharedOwner(s, s.cur, ptr)) {
      FreePidHasNoChildren(s, SharedOwner(s, s.cur, ptr), s.cur);
    }
  }

  /** Mutual exclusion over runs of the kernel. After a lock that returned 1, every lock that reaches the
      same owner returns 0, whoever makes it and through whichever pointer, until an unlock reaches that
      owner or the owner exits. */
  lemma LockExcludes(s: State, ptr: word, steps: seq<Step>, ptr': word)
    requires IsForest(s) && Enabled(s, Lock(ptr)) && Result(s, Lock(ptr)) == 1
    requires var o := SharedOwner(s, s.cur, ptr); NeverReleased(Apply(s, Lock(ptr)), steps, o)
    requires Legal(Apply(s, Lock(ptr)), steps)
    ensures var u, o := Run(Apply(s, Lock(ptr)), steps), SharedOwner(s, s.cur, ptr);
            SharedOwner(u, u.cur, ptr') == o ==> Result(u, Lock(ptr')) == 0
  {
    var o := SharedOwner(s, s.cur, ptr);
    OwnerIsActive(s, ptr);
    Lifecycle(s, Lock(ptr), o);
    RunKeepsLock(Apply(s, Lock(ptr)), steps, o);
  }

  /** The exit of a process that has taken the lock of another one never releases it: the lock stays taken
      until somebody else unlocks it. */
  lemma HolderExitKeepsLock(s: State, x: int, o: pid)
    requires Enabled(s, Exit(x)) && Locked(s, o) && s.cur != o
    ensures Locked(SysExit(s, x), o)
  {
    StepKeepsLock(s, Exit(x), o);
  }

  // ---- the lock of the philosophers

  /** The current process is a philosopher: a child of o, which shares ptr, that shares nothing itself. */
  predicate IsChildOf(s: State, o: pid, ptr: word) {
    && ptr != 0 && Parent(s, s.cur) == o && s.cur != o
    && Proc(s, s.cur).shared.ptr == 0 && Proc(s, o).shared.ptr == ptr
  }

  /** The flag in the model of the philosophers is the flag of the kernel: philosopher k takes it with a lock
      that returns 1, waits with one that returns 0, and frees it with an unlock that returns 1. */
  lemma PhilosopherLock(s: State, o: pid, ptr: word, d: P.State, k: nat)
    requires IsChildOf(s, o, ptr) && d.locked == Proc(s, o).shared.locked && P.Shaped(d) && k < P.N(d)
    ensures var c := d.phils[k].pc;
            && (c.LockForId? || c.Acquire? ==>
                  && P.Next(d, k).locked == Proc(Apply(s, Lock(ptr)), o).shared.locked
                  && Result(s, Lock(ptr)) == if P.Next(d, k) == d then 0 else 1)
            && (c.ReleaseId? || c.Release? ==>
                  && P.Next(d, k).locked == Proc(Apply(s, Unlock(ptr)), o).shared.locked
                  && (d.locked ==> Result(s, Unlock(ptr)) == 1))
  {
    assert SharedOwner(s, s.cur, ptr) == o;
    var c := d.phils[k].pc;
    if (c.LockForId? || c.Acquire?) && !d.locked {
      assert P.Next(d, k).locked;
    }
  }
}
