/** Bounded waiting. notes.md (line 22) claims "No chance of starvation". Exactly the forks decide it:
    a process waits for boundedly many scheduler calls in runs with boundedly many successful forks,
    whatever else happens in them, and without a bound on forks it can wait forever. */
module Fairness {
  import opened Sets
  import opened Words
  import opened Processes
  import opened Scheduler
  import opened SystemCalls
  import opened KernelFrames

  function TimeLeft(s: State, p: pid): int {
    Proc(s, p).pri.timeLeft
  }

  /** What every reachable state satisfies: waits count up from 0, a slice is at most 6, and the
      saved entry of the current process agrees with the live context on being active. */
  ghost predicate Sane(s: State) {
    && NonNegativeWaits(s)
    && (forall p: pid :: 0 <= TimeLeft(s, p) <= 6)
    && (Active(s, s.cur) <==> s.ctx.pc != 0)
  }

  /** The processes that may still be chosen before p among those of p's type. */
  ghost function Ahead(s: State, p: pid): set<pid> {
    set q: pid | 1 <= q <= MAX_PROCESSES && q != p && Eligible(s, Type(s, p), q) && Waited(s, q) >= Waited(s, p)
  }

  ghost predicate HasActive(s: State, ty: ProcessType) {
    exists q: pid :: Eligible(s, ty, q)
  }

  /** An upper bound on the scheduler calls until p's type is served next. */
  ghost function Delay(s: State, p: pid): int {
    var other := Other(Type(s, p));
    TimeLeft(s, s.cur) + 1
    + (if Type(s, s.cur) == Type(s, p) && HasActive(s, other) then Slice(other) + 1 else 0)
  }

  /** The ranking function: it bounds the scheduler calls until p runs. */
  ghost function Rank(s: State, p: pid): int {
    Delay(s, p) + 9 * |Ahead(s, p)|
  }

  lemma SmallerAhead(s: State, t: State, p: pid, gone: set<pid>)
    requires Ahead(t, p) <= Ahead(s, p) - gone && gone <= Ahead(s, p)
    ensures |Ahead(t, p)| <= |Ahead(s, p)| - |gone|
  {
    assert |Ahead(s, p) - gone| == |Ahead(s, p)| - |gone|;
    SubsetSize(Ahead(t, p), Ahead(s, p) - gone);
  }

  /** The wait of q as update_waiting leaves it. */
  function Aged(s: State, q: pid): int {
    Waited(s, q) + (if Active(s, q) && q != s.cur then 1 else 0)
  }

  lemma AgedIsUpdated(s: State, q: pid)
    ensures var u := UpdateWaiting(s);
            Active(u, q) == Active(s, q) && Type(u, q) == Type(s, q) && Waited(u, q) == Aged(s, q)
  {
  }

  /** What one scheduler call does to the fields of q that the choice depends on. */
  lemma ScheduleEntry(s: State, q: pid)
    requires Active(s, s.cur) <==> s.ctx.pc != 0
    ensures var t, next := Schedule(s), NextPid(UpdateWaiting(s));
            var kept := TimeLeft(s, s.cur) > 0 || next == -1;
            && t.cur == (if kept then s.cur else next)
            && Active(t, q) == Active(s, q) && Type(t, q) == Type(s, q)
            && Waited(t, q) == (if !kept && q == t.cur then 0 else Aged(s, q))
            && TimeLeft(t, q) == (if !kept && q == t.cur then Slice(Type(s, q))
                                  else if TimeLeft(s, s.cur) > 0 && q == s.cur then TimeLeft(s, q) - 1
                                  else TimeLeft(s, q))
            && (t.ctx.pc != 0 <==> Active(t, t.cur))
  {
  }

  /** t is s after a scheduler call that keeps the current process. */
  ghost predicate Kept(s: State, t: State) {
    && t.cur == s.cur && (t.ctx.pc != 0 <==> Active(t, t.cur))
    && forall q: pid ::
         && Active(t, q) == Active(s, q) && Type(t, q) == Type(s, q) && Waited(t, q) == Aged(s, q)
         && TimeLeft(t, q) == TimeLeft(s, q) - (if q == s.cur then 1 else 0)
  }

  /** t is s after a scheduler call that chooses a process, possibly the same one again. */
  ghost predicate Switched(s: State, t: State) {
    && (t.ctx.pc != 0 <==> Active(t, t.cur))
    && forall q: pid ::
         && Active(t, q) == Active(s, q) && Type(t, q) == Type(s, q)
         && Waited(t, q) == (if q == t.cur then 0 else Aged(s, q))
         && TimeLeft(t, q) == (if q == t.cur then Slice(Type(s, q)) else TimeLeft(s, q))
  }

  /** r is a choice that the scheduler may make: toggling types if it can, longest wait first. */
  ghost predicate Choosable(s: State, r: pid) {
    && Active(s, r)
    && (Type(s, r) == Type(s, s.cur) ==> !HasActive(s, Other(Type(s, s.cur))))
    && forall q: pid :: Eligible(s, Type(s, r), q) ==> Aged(s, q) <= Aged(s, r)
  }

  lemma NextPidIsChoosable(s: State)
    requires NonNegativeWaits(s) && exists p: pid :: Active(s, p)
    ensures var r := NextPid(UpdateWaiting(s)); r != -1 && Choosable(s, r)
  {
    var u := UpdateWaiting(s);
    forall q: pid {
      AgedIsUpdated(s, q);
    }
    NextPidChoice(u);
    var p: pid :| Active(s, p);
    assert Active(u, p);
    var r := NextPid(u);
    forall q: pid
      ensures Eligible(s, Type(s, r), q) ==> Eligible(u, Type(u, r), q)
      ensures Eligible(s, Other(Type(s, s.cur)), q) ==> Eligible(u, Other(Type(u, u.cur)), q)
    {
    }
  }

  lemma ScheduleCases(s: State)
    requires Active(s, s.cur) <==> s.ctx.pc != 0
    requires NonNegativeWaits(s) && exists p: pid :: Active(s, p)
    ensures var t := Schedule(s);
            if TimeLeft(s, s.cur) > 0 then Kept(s, t) else Switched(s, t) && Choosable(s, t.cur)
  {
    NextPidIsChoosable(s);
    ScheduleEntry(s, s.cur);
    var t := Schedule(s);
    var kept := TimeLeft(s, s.cur) > 0;
    forall q: pid
      ensures Active(t, q) == Active(s, q) && Type(t, q) == Type(s, q)
      ensures Waited(t, q) == (if !kept && q == t.cur then 0 else Aged(s, q))
      ensures TimeLeft(t, q) == (if !kept && q == t.cur then Slice(Type(s, q))
                                 else TimeLeft(s, q) - (if kept && q == s.cur then 1 else 0))
    {
      ScheduleEntry(s, q);
    }
  }

  lemma KeptLowersRank(s: State, t: State, p: pid)
    requires Kept(s, t) && Active(s, p) && p != s.cur
    ensures Rank(t, p) <= Rank(s, p) - 1
  {
    SmallerAhead(s, t, p, {});
    assert HasActive(t, Other(Type(s, p))) ==> HasActive(s, Other(Type(s, p))) by {
      assert forall q: pid :: Eligible(t, Other(Type(s, p)), q) ==> Eligible(s, Other(Type(s, p)), q);
    }
  }

  /** Choosing a process other than p: either a rival leaves Ahead, or p's type is next. */
  lemma SwitchLowersRank(s: State, t: State, p: pid)
    requires Switched(s, t) && Choosable(s, t.cur) && Active(s, p) && p != s.cur && p != t.cur
    requires NonNegativeWaits(s) && TimeLeft(s, s.cur) == 0
    ensures Delay(t, p) <= 9 && |Ahead(t, p)| <= |Ahead(s, p)|
    ensures Active(s, s.cur) ==> Rank(t, p) <= Rank(s, p) - 1
  {
    var ty, r := Type(s, p), t.cur;
    if Type(s, r) == ty {
      assert Eligible(s, ty, p);
      assert r in Ahead(s, p) && r !in Ahead(t, p);
      SmallerAhead(s, t, p, {r});
      assert HasActive(t, Other(ty)) ==> HasActive(s, Other(ty)) by {
        assert forall q: pid :: Eligible(t, Other(ty), q) ==> Eligible(s, Other(ty), q);
      }
    } else {
      SmallerAhead(s, t, p, {});
      assert Eligible(s, Other(ty), r);
      assert Type(s, s.cur) != ty ==> HasActive(s, ty) by {
        assert Eligible(s, ty, p);
      }
    }
  }

  /** t agrees with s on everything the scheduler looks at. */
  ghost predicate Quiet(s: State, t: State) {
    && t.cur == s.cur && (t.ctx.pc != 0 <==> s.ctx.pc != 0)
    && forall q: pid ::
         && Active(t, q) == Active(s, q) && Type(t, q) == Type(s, q)
         && Waited(t, q) == Waited(s, q) && TimeLeft(t, q) == TimeLeft(s, q)
  }

  predicate SameEntry(s: State, t: State, q: pid) {
    && Active(t, q) == Active(s, q) && Type(t, q) == Type(s, q)
    && Waited(t, q) == Waited(s, q) && TimeLeft(t, q) == TimeLeft(s, q)
  }

  /** t is s with the fresh background process c running in place of the caller. */
  ghost predicate Forked(s: State, t: State, c: pid) {
    && !Active(s, c) && t.cur == c && t.ctx.pc != 0
    && Active(t, c) && Type(t, c) == Background && Waited(t, c) == 0 && TimeLeft(t, c) == 0
    && forall q: pid :: q != c ==>
         && Active(t, q) == Active(s, q) && Type(t, q) == Type(s, q)
         && Waited(t, q) == Waited(s, q) && TimeLeft(t, q) == TimeLeft(s, q)
  }

  /** t is s after the current process became interactive, if it was asked to. */
  ghost predicate Retyped(s: State, t: State, interactive: bool) {
    && (Type(t, s.cur) == Interactive <==> interactive || Type(s, s.cur) == Interactive)
    && t.cur == s.cur && t.ctx.pc != 0 && Active(t, s.cur)
    && Waited(t, s.cur) == Waited(s, s.cur) && TimeLeft(t, s.cur) == TimeLeft(s, s.cur)
    && forall q: pid :: q != s.cur ==>
         && Active(t, q) == Active(s, q) && Type(t, q) == Type(s, q)
         && Waited(t, q) == Waited(s, q) && TimeLeft(t, q) == TimeLeft(s, q)
  }

  /** t is s without the current process. */
  ghost predicate Gone(s: State, t: State) {
    && t.cur == s.cur && t.ctx.pc == 0 && !Active(t, s.cur)
    && Type(t, s.cur) == Background && Waited(t, s.cur) == 0 && TimeLeft(t, s.cur) == 0
    && forall q: pid :: q != s.cur ==>
         && Active(t, q) == Active(s, q) && Type(t, q) == Type(s, q)
         && Waited(t, q) == Waited(s, q) && TimeLeft(t, q) == TimeLeft(s, q)
  }

  lemma ForkEffect(s: State)
    requires Running(s)
    ensures var c := FreePidFrom(s, 1);
            if c == -1 then Quiet(s, SysFork(s)) else Forked(s, SysFork(s), c)
  {
  }

  lemma QuietIfSameEntries(s: State, t: State)
    requires t.cur == s.cur && t.ctx.pc == s.ctx.pc && forall r: pid :: SameEntry(s, t, r)
    ensures Quiet(s, t)
  {
    forall r: pid
      ensures && Active(t, r) == Active(s, r) && Type(t, r) == Type(s, r)
              && Waited(t, r) == Waited(s, r) && TimeLeft(t, r) == TimeLeft(s, r)
    {
      assert SameEntry(s, t, r);
    }
  }

  lemma WaitForIsQuiet(s: State, q: pid, p: pid)
    ensures Quiet(s, WaitFor(s, q, p).0)
  {
    forall r: pid
      ensures SameEntry(s, WaitFor(s, q, p).0, r)
    {
      WaitForEntry(s, q, p, r);
    }
    WaitForEntry(s, q, p, s.cur);
    QuietIfSameEntries(s, WaitFor(s, q, p).0);
  }

  lemma WaitForEntry(s: State, q: pid, p: pid, r: pid)
    ensures var t := WaitFor(s, q, p).0; t.cur == s.cur && t.ctx == s.ctx && SameEntry(s, t, r)
  {
    WaitForFrame(s, q, p, r);
  }

  lemma TerminatedEffect(s: State, x: int)
    requires Running(s)
    ensures Gone(s, Terminated(s, x))
  {
  }

  lemma ExecEffect(s: State, entry: word, interactive: bool, args: word)
    requires Running(s) && entry != 0
    ensures Retyped(s, SysExec(s, entry, interactive, args), interactive)
  {
  }

  /** The scheduler calls that a step makes. */
  function Calls(a: Step): nat {
    if a.Timer? || a.Yield? || IsExit(a) then 1 else 0
  }

  /** How far a step can set p back, in scheduler calls: an exit may restart the count of turns,
      and a fork or exec may in addition bring one more rival. */
  function SetBack(a: Step): nat {
    if IsExit(a) then 9
    else if a.Fork? || a.ForkWait? || a.Exec? then 16
    else 0
  }

  lemma ExitCases(s: State, x: int, p: pid)
    requires Sane(s) && Running(s) && Active(s, p) && p != s.cur
    ensures var z, t := Terminated(s, x), SysExit(s, x);
            Gone(s, z) && Switched(z, t) && Choosable(z, t.cur)
  {
    TerminatedEffect(s, x);
    ScheduleCases(Terminated(s, x));
  }

  lemma ExitStep(s: State, x: int, p: pid)
    requires Sane(s) && Running(s) && Active(s, p) && p != s.cur && SysExit(s, x).cur != p
    ensures var t := SysExit(s, x);
            Sane(t) && Active(t, p) && Rank(t, p) <= Rank(s, p) + 8 && Waited(t, p) == Waited(s, p) + 1
  {
    ExitCases(s, x, p);
    GoneStep(s, Terminated(s, x), SysExit(s, x), p);
  }

  lemma GoneStep(s: State, z: State, t: State, p: pid)
    requires Sane(s) && Running(s) && Active(s, p) && p != s.cur && t.cur != p
    requires Gone(s, z) && Switched(z, t) && Choosable(z, t.cur)
    ensures Sane(t) && Active(t, p) && Rank(t, p) <= Rank(s, p) + 8 && Waited(t, p) == Waited(s, p) + 1
  {
    SwitchLowersRank(z, t, p);
    SmallerAhead(s, z, p, {});
  }

  lemma ForkedIsSane(s: State, t: State, c: pid)
    requires Sane(s) && Running(s) && Forked(s, t, c)
    ensures Sane(t)
  {
  }

  lemma ForkedStep(s: State, t: State, c: pid, p: pid)
    requires Sane(s) && Running(s) && Forked(s, t, c) && Active(s, p) && p != s.cur
    ensures Sane(t) && Active(t, p) && Rank(t, p) <= Rank(s, p) + 16
  {
    ForkedIsSane(s, t, c);
    assert Ahead(t, p) <= Ahead(s, p) + {c};
    SubsetSize(Ahead(t, p), Ahead(s, p) + {c});
  }

  lemma RetypedStep(s: State, t: State, interactive: bool, p: pid)
    requires Sane(s) && Running(s) && Retyped(s, t, interactive) && Active(s, p) && p != s.cur
    ensures Sane(t) && Active(t, p) && Rank(t, p) <= Rank(s, p) + 16
  {
    assert Ahead(t, p) <= Ahead(s, p) + {s.cur};
    SubsetSize(Ahead(t, p), Ahead(s, p) + {s.cur});
  }

  lemma QuietStep(s: State, t: State, p: pid)
    requires Sane(s) && Quiet(s, t) && Active(s, p)
    ensures Sane(t) && Active(t, p) && Rank(t, p) == Rank(s, p) && Waited(t, p) == Waited(s, p)
  {
    assert Ahead(t, p) == Ahead(s, p);
    var other := Other(Type(s, p));
    assert forall q: pid :: Eligible(s, other, q) <==> Eligible(t, other, q);
    assert HasActive(s, other) <==> HasActive(t, other);
  }

  lemma ScheduleStep(s: State, p: pid)
    requires Sane(s) && Running(s) && Active(s, p) && p != s.cur && Schedule(s).cur != p
    ensures var t := Schedule(s);
            Sane(t) && Active(t, p) && Rank(t, p) <= Rank(s, p) - 1 && Waited(t, p) == Waited(s, p) + 1
  {
    ScheduleCases(s);
    if TimeLeft(s, s.cur) > 0 {
      KeptLowersRank(s, Schedule(s), p);
    } else {
      SwitchLowersRank(s, Schedule(s), p);
    }
  }

  lemma EndSliceStep(s: State, t: State, p: pid)
    requires Sane(s) && t == WithPri(s, s.cur, Proc(s, s.cur).pri.(timeLeft := 0))
    ensures Sane(t) && (Active(t, p) <==> Active(s, p)) && Rank(t, p) <= Rank(s, p) && Waited(t, p) == Waited(s, p)
    ensures Running(s) ==> Running(t)
  {
    var other := Other(Type(s, p));
    assert forall q: pid ::
      && Active(t, q) == Active(s, q) && Type(t, q) == Type(s, q) && Waited(t, q) == Waited(s, q)
      && TimeLeft(t, q) == if q == s.cur then 0 else TimeLeft(s, q);
    assert Ahead(t, p) == Ahead(s, p);
    assert forall q: pid :: Eligible(s, other, q) <==> Eligible(t, other, q);
    assert HasActive(s, other) <==> HasActive(t, other);
  }

  lemma SchedulerCallStep(s: State, a: Step, p: pid)
    requires Sane(s) && Enabled(s, a) && Active(s, p) && p != s.cur && Apply(s, a).cur != p
    requires Calls(a) == 1
    ensures var t := Apply(s, a);
            Sane(t) && Active(t, p) && Rank(t, p) <= Rank(s, p) + SetBack(a) - 1
            && Waited(t, p) == Waited(s, p) + 1
  {
    match a
    case Timer => TimerStep(s, p);
    case Yield => YieldStep(s, p);
    case Exit(x) => ExitStep(s, x, p);
    case Exec(_, _, _) => ExitStep(s, EXIT_FAILURE, p);
  }

  lemma TimerStep(s: State, p: pid)
    requires Sane(s) && Running(s) && Active(s, p) && p != s.cur && Tick(s).cur != p
    ensures var t := Tick(s);
            Sane(t) && Active(t, p) && Rank(t, p) <= Rank(s, p) - 1 && Waited(t, p) == Waited(s, p) + 1
  {
    var t := s.(bursts := s.bursts + 1);
    QuietStep(s, t, p);
    ScheduleStep(t, p);
  }

  lemma YieldStep(s: State, p: pid)
    requires Sane(s) && Running(s) && Active(s, p) && p != s.cur && SysYield(s).cur != p
    ensures var t := SysYield(s);
            Sane(t) && Active(t, p) && Rank(t, p) <= Rank(s, p) - 1 && Waited(t, p) == Waited(s, p) + 1
  {
    var t := WithPri(s, s.cur, Proc(s, s.cur).pri.(timeLeft := 0));
    EndSliceStep(s, t, p);
    ScheduleStep(t, p);
  }

  lemma SharedMemoryIsQuiet(s: State, a: Step)
    requires a.Share? || a.Unshare? || a.Lock? || a.Unlock?
    ensures Quiet(s, Apply(s, a))
  {
  }

  lemma OtherStep(s: State, a: Step, p: pid)
    requires Sane(s) && Enabled(s, a) && Active(s, p) && p != s.cur && Apply(s, a).cur != p
    requires Calls(a) == 0
    ensures var t := Apply(s, a);
            Sane(t) && Active(t, p) && Rank(t, p) <= Rank(s, p) + SetBack(a) && Waited(t, p) == Waited(s, p)
  {
    var t := Apply(s, a);
    match a
    case Fork =>
      ForkEffect(s);
      ForkStep(s, p);
    case ForkWait =>
      ForkStep(s, p);
      WaitForIsQuiet(SysFork(s), s.cur, SysFork(s).cur);
      QuietStep(SysFork(s), t, p);
    case Exec(e, i, args) =>
      ExecEffect(s, e, i, args);
      RetypedStep(s, t, i, p);
    case Wait(c) =>
      WaitForIsQuiet(s, s.cur, c);
      QuietStep(s, t, p);
    case User(_) =>
      QuietStep(s, t, p);
    case _ =>
      SharedMemoryIsQuiet(s, a);
      QuietStep(s, t, p);
  }

  lemma ForkStep(s: State, p: pid)
    requires Sane(s) && Running(s) && Active(s, p) && p != s.cur
    ensures var t := SysFork(s);
            Sane(t) && Active(t, p) && Rank(t, p) <= Rank(s, p) + 16 && Waited(t, p) == Waited(s, p)
  {
    ForkEffect(s);
    var c := FreePidFrom(s, 1);
    if c == -1 {
      QuietStep(s, SysFork(s), p);
    } else {
      ForkedStep(s, SysFork(s), c, p);
    }
  }

  function TotalCalls(steps: seq<Step>): nat {
    if steps == [] then 0 else Calls(steps[0]) + TotalCalls(steps[1..])
  }

  function TotalSetBack(steps: seq<Step>): nat {
    if steps == [] then 0 else SetBack(steps[0]) + TotalSetBack(steps[1..])
  }

  /** p is not the current process anywhere along the run, its two ends included. */
  predicate NeverCurrent(s: State, steps: seq<Step>, p: pid)
    decreases |steps|
  {
    s.cur != p && (steps == [] || NeverCurrent(Apply(s, steps[0]), steps[1..], p))
  }

  /** In any run of any length, over all kernel entries, during which p does not run, the number of
      scheduler calls stays below p's rank at the start plus 9 for every exit and 16 for every
      fork or exec. It is also what p's waiting_time has grown by. */
  lemma {:induction false} BoundedWaiting(s: State, steps: seq<Step>, p: pid)
    requires Sane(s) && Legal(s, steps) && Active(s, p) && NeverCurrent(s, steps, p)
    ensures TotalCalls(steps) < Rank(s, p) + TotalSetBack(steps)
    ensures Waited(Run(s, steps), p) == Waited(s, p) + TotalCalls(steps)
    decreases |steps|
  {
    if steps != [] {
      var t := Apply(s, steps[0]);
      assert t.cur != p;
      if Calls(steps[0]) == 1 {
        SchedulerCallStep(s, steps[0], p);
      } else {
        OtherStep(s, steps[0], p);
      }
      BoundedWaiting(t, steps[1..], p);
    }
  }

  /** The processes that compete with p, p included. */
  ghost function OfType(s: State, ty: ProcessType): set<pid> {
    set q: pid | 1 <= q <= MAX_PROCESSES && Eligible(s, ty, q)
  }

  lemma RankBound(s: State, p: pid)
    requires Sane(s) && Active(s, p)
    ensures Rank(s, p) <= 9 * |OfType(s, Type(s, p))| + 5
    ensures TimeLeft(s, s.cur) <= Slice(Type(s, s.cur)) ==> Rank(s, p) <= 9 * |OfType(s, Type(s, p))|
  {
    var all := OfType(s, Type(s, p));
    assert p in all;
    assert Ahead(s, p) <= all - {p};
    SubsetSize(Ahead(s, p), all - {p});
  }

  /** No exit, fork or exec is among the steps. Programs may run and make all the other calls. */
  predicate FixedProcesses(steps: seq<Step>) {
    forall i :: 0 <= i < |steps| ==> SetBack(steps[i]) == 0
  }

  /** No chance of starvation while the set of processes is fixed: among n active processes of its
      type, p runs within 9n scheduler calls, or 9n+5 when an exec has left the current process a
      background slice with the interactive type. */
  lemma NoStarvation(s: State, steps: seq<Step>, p: pid)
    requires Sane(s) && Legal(s, steps) && Active(s, p) && FixedProcesses(steps)
    requires var n := |OfType(s, Type(s, p))|;
             TotalCalls(steps) >= 9 * n + 5
             || (TotalCalls(steps) >= 9 * n && TimeLeft(s, s.cur) <= Slice(Type(s, s.cur)))
    ensures !NeverCurrent(s, steps, p)
  {
    if NeverCurrent(s, steps, p) {
      BoundedWaiting(s, steps, p);
      RankBound(s, p);
      FixedHasNoSetBack(steps);
    }
  }

  lemma {:induction false} FixedHasNoSetBack(steps: seq<Step>)
    requires FixedProcesses(steps)
    ensures TotalSetBack(steps) == 0
  {
    if steps != [] {
      FixedHasNoSetBack(steps[1..]);
    }
  }

  // ---- exits and execs cannot starve anybody

  ghost function Actives(s: State): set<pid> {
    set q: pid | 1 <= q <= MAX_PROCESSES && Active(s, q)
  }

  /** What the processes there are can still do to p: each can exit once, and a background process
      can become interactive once before it does. */
  ghost function Credit(s: State): nat {
    9 * |Actives(s)| + 16 * |OfType(s, Background)|
  }

  /** The forks of a run that find a free pid. */
  function Births(s: State, steps: seq<Step>): nat
    decreases |steps|
  {
    if steps == [] then 0
    else (if IsFork(steps[0]) && FreePidFrom(s, 1) != -1 then 1 else 0) + Births(Apply(s, steps[0]), steps[1..])
  }

  ghost predicate SameKinds(s: State, t: State) {
    forall q: pid :: Active(t, q) == Active(s, q) && Type(t, q) == Type(s, q)
  }

  lemma SameKindsSameCredit(s: State, t: State)
    requires SameKinds(s, t)
    ensures Credit(t) == Credit(s)
  {
    assert Actives(t) == Actives(s) && OfType(t, Background) == OfType(s, Background);
  }

  lemma GoneCredit(s: State, t: State)
    requires Running(s) && Gone(s, t)
    ensures Credit(t) <= Credit(s) - 9
  {
    assert s.cur in Actives(s);
    assert Actives(t) == Actives(s) - {s.cur} && OfType(t, Background) <= OfType(s, Background);
    SubsetSize(OfType(t, Background), OfType(s, Background));
  }

  lemma ForkedCredit(s: State, t: State, c: pid)
    requires Forked(s, t, c)
    ensures Credit(t) == Credit(s) + 25
  {
    assert c !in Actives(s) && Actives(t) == Actives(s) + {c};
    assert c !in OfType(s, Background) && OfType(t, Background) == OfType(s, Background) + {c};
  }

  /** An exec that makes its caller interactive uses up the credit for that; any other changes nothing
      that the scheduler looks at. */
  lemma ExecStep(s: State, t: State, interactive: bool, p: pid)
    requires Sane(s) && Running(s) && Retyped(s, t, interactive) && Active(s, p) && p != s.cur
    ensures Rank(t, p) + Credit(t) <= Rank(s, p) + Credit(s)
  {
    if Type(t, s.cur) == Type(s, s.cur) {
      QuietStep(s, t, p);
      SameKindsSameCredit(s, t);
    } else {
      RetypedStep(s, t, interactive, p);
      assert s.cur in OfType(s, Background);
      assert Actives(t) == Actives(s) && OfType(t, Background) == OfType(s, Background) - {s.cur};
    }
  }

  lemma ExitPays(s: State, x: int, p: pid)
    requires Sane(s) && Running(s) && Active(s, p) && p != s.cur && SysExit(s, x).cur != p
    ensures Rank(SysExit(s, x), p) + Credit(SysExit(s, x)) <= Rank(s, p) + Credit(s) - 1
  {
    var z := Terminated(s, x);
    ExitStep(s, x, p);
    ExitCases(s, x, p);
    GoneCredit(s, z);
    SameKindsSameCredit(z, SysExit(s, x));
  }

  lemma ForkPays(s: State, p: pid)
    requires Sane(s) && Running(s) && Active(s, p) && p != s.cur
    ensures Rank(SysFork(s), p) + Credit(SysFork(s))
            <= Rank(s, p) + Credit(s) + (if FreePidFrom(s, 1) != -1 then 41 else 0)
  {
    var c := FreePidFrom(s, 1);
    ForkEffect(s);
    if c == -1 {
      QuietStep(s, SysFork(s), p);
      SameKindsSameCredit(s, SysFork(s));
    } else {
      ForkedStep(s, SysFork(s), c, p);
      ForkedCredit(s, SysFork(s), c);
    }
  }

  lemma ScheduleKeepsKinds(s: State)
    requires Active(s, s.cur) <==> s.ctx.pc != 0
    ensures SameKinds(s, Schedule(s))
  {
    forall q: pid
      ensures Active(Schedule(s), q) == Active(s, q) && Type(Schedule(s), q) == Type(s, q)
    {
      ScheduleEntry(s, q);
    }
  }

  lemma TimerPays(s: State, p: pid)
    requires Sane(s) && Running(s) && Active(s, p) && p != s.cur && Tick(s).cur != p
    ensures Rank(Tick(s), p) + Credit(Tick(s)) <= Rank(s, p) + Credit(s) - 1
  {
    TimerStep(s, p);
    TickKeepsKinds(s);
    SameKindsSameCredit(s, Tick(s));
  }

  lemma TickKeepsKinds(s: State)
    requires Active(s, s.cur) <==> s.ctx.pc != 0
    ensures SameKinds(s, Tick(s))
  {
    var u := s.(bursts := s.bursts + 1);
    ScheduleKeepsKinds(u);
    forall q: pid
      ensures Active(Tick(s), q) == Active(s, q) && Type(Tick(s), q) == Type(s, q)
    {
      assert Active(u, q) == Active(s, q) && Type(u, q) == Type(s, q);
    }
  }

  lemma YieldPays(s: State, p: pid)
    requires Sane(s) && Running(s) && Active(s, p) && p != s.cur && SysYield(s).cur != p
    ensures Rank(SysYield(s), p) + Credit(SysYield(s)) <= Rank(s, p) + Credit(s) - 1
  {
    YieldStep(s, p);
    YieldKeepsKinds(s);
    SameKindsSameCredit(s, SysYield(s));
  }

  lemma YieldKeepsKinds(s: State)
    requires Active(s, s.cur) <==> s.ctx.pc != 0
    ensures SameKinds(s, SysYield(s))
  {
    var u := WithPri(s, s.cur, Proc(s, s.cur).pri.(timeLeft := 0));
    ScheduleKeepsKinds(u);
    forall q: pid
      ensures Active(SysYield(s), q) == Active(s, q) && Type(SysYield(s), q) == Type(s, q)
    {
      assert Active(u, q) == Active(s, q) && Type(u, q) == Type(s, q);
    }
  }

  lemma ExecPays(s: State, entry: word, interactive: bool, args: word, p: pid)
    requires Sane(s) && Running(s) && entry != 0 && Active(s, p) && p != s.cur
    ensures var t := SysExec(s, entry, interactive, args); Rank(t, p) + Credit(t) <= Rank(s, p) + Credit(s)
  {
    ExecEffect(s, entry, interactive, args);
    ExecStep(s, SysExec(s, entry, interactive, args), interactive, p);
  }

  /** Rank and credit together fall with every scheduler call and rise only with a successful fork. */
  lemma StepPays(s: State, a: Step, p: pid)
    requires Sane(s) && Enabled(s, a) && Active(s, p) && p != s.cur && Apply(s, a).cur != p
    ensures Rank(Apply(s, a), p) + Credit(Apply(s, a))
            <= Rank(s, p) + Credit(s) - Calls(a) + (if IsFork(a) && FreePidFrom(s, 1) != -1 then 41 else 0)
  {
    var t := Apply(s, a);
    match a
    case Timer => TimerPays(s, p);
    case Yield => YieldPays(s, p);
    case Fork => ForkPays(s, p);
    case ForkWait =>
      ForkPays(s, p);
      ForkStep(s, p);
      WaitForIsQuiet(SysFork(s), s.cur, SysFork(s).cur);
      QuietStep(SysFork(s), t, p);
      SameKindsSameCredit(SysFork(s), t);
    case Exit(x) => ExitPays(s, x, p);
    case Exec(e, i, args) =>
      if e == 0 {
        ExitPays(s, EXIT_FAILURE, p);
      } else {
        ExecPays(s, e, i, args, p);
      }
    case Wait(c) =>
      WaitForIsQuiet(s, s.cur, c);
      QuietStep(s, t, p);
      SameKindsSameCredit(s, t);
    case User(_) =>
      QuietStep(s, t, p);
      SameKindsSameCredit(s, t);
    case _ =>
      SharedMemoryIsQuiet(s, a);
      QuietStep(s, t, p);
      SameKindsSameCredit(s, t);
  }

  /** In any run of any length, over all kernel entries, during which p does not run, the number of
      scheduler calls is bounded by the start and the number of successful forks alone. */
  lemma {:induction false} WaitingIsPaidByForks(s: State, steps: seq<Step>, p: pid)
    requires Sane(s) && Legal(s, steps) && Active(s, p) && NeverCurrent(s, steps, p)
    ensures TotalCalls(steps) < Rank(s, p) + Credit(s) + 41 * Births(s, steps)
    decreases |steps|
  {
    if steps != [] {
      var t := Apply(s, steps[0]);
      assert t.cur != p;
      StepPays(s, steps[0], p);
      if Calls(steps[0]) == 1 {
        SchedulerCallStep(s, steps[0], p);
      } else {
        OtherStep(s, steps[0], p);
      }
      WaitingIsPaidByForks(t, steps[1..], p);
    }
  }

  /** Starvation happens only through forks without end: from any state of any run a process that does
      not run in 1025 + 41 b scheduler calls has seen more than b successful forks. */
  lemma StarvationNeedsForks(s: State, steps: seq<Step>, p: pid, b: nat)
    requires Sane(s) && Legal(s, steps) && Active(s, p) && NeverCurrent(s, steps, p)
    requires TotalCalls(steps) >= 1025 + 41 * b
    ensures Births(s, steps) > b
  {
    WaitingIsPaidByForks(s, steps, p);
    RankBound(s, p);
    PidsAreFew(OfType(s, Type(s, p)));
    PidsAreFew(Actives(s));
    PidsAreFew(OfType(s, Background));
  }

  lemma PidsAreFew(a: set<pid>)
    ensures |a| <= MAX_PROCESSES
  {
    PidsUpTo(a, MAX_PROCESSES);
  }

  lemma {:induction false} PidsUpTo(a: set<pid>, n: nat)
    requires forall q: pid :: q in a ==> q <= n
    ensures |a| <= n
    decreases n
  {
    if n == 0 {
      assert a == {};
    } else {
      var rest := set q: pid | q in a && q < n;
      PidsUpTo(rest, n - 1);
      assert a <= rest + (set q: pid | q in a && q == n);
      if q: pid :| q in a && q == n {
        assert a == rest + {q};
      } else {
        assert a == rest;
      }
    }
  }

  // ---- forks without end do starve

  /** An interactive process runs, no other interactive process is active, and there is a free pid
      and an active background process p. */
  ghost predicate ForkLoop(s: State, p: pid) {
    && Sane(s) && Running(s) && Type(s, s.cur) == Interactive
    && Active(s, p) && Type(s, p) == Background
    && (forall q: pid :: Eligible(s, Interactive, q) ==> q == s.cur)
    && (exists q: pid :: !Active(s, q))
  }

  /** The process can be interrupted once before it loses the processor. */
  ghost predicate Rested(s: State, p: pid) {
    ForkLoop(s, p) && TimeLeft(s, s.cur) >= 1
  }

  /** k rounds of an interrupt, a fork and the exit of the child. */
  function ForkRounds(k: nat): seq<Step> {
    if k == 0 then [] else [Timer, Fork, Exit(0)] + ForkRounds(k - 1)
  }

  function Interrupts(steps: seq<Step>): nat
    decreases |steps|
  {
    if steps == [] then 0 else (if steps[0].Timer? then 1 else 0) + Interrupts(steps[1..])
  }

  lemma ForkLoopReturns(s: State, t: State, z: State, r: State, p: pid, c: pid)
    requires ForkLoop(s, p) && Forked(s, t, c) && Gone(t, z) && Switched(z, r) && Choosable(z, r.cur)
    ensures Rested(r, p) && r.cur == s.cur
  {
    assert Eligible(z, Interactive, s.cur);
    assert HasActive(z, Other(Background));
    assert Eligible(z, Interactive, r.cur);
    assert Eligible(s, Interactive, r.cur);
    forall q: pid | Eligible(r, Interactive, q)
      ensures q == r.cur
    {
      assert Eligible(z, Interactive, q) && Eligible(s, Interactive, q);
    }
    assert !Active(r, c);
  }

  lemma ChildExitReturns(s: State, t: State, p: pid, c: pid)
    requires ForkLoop(s, p) && Forked(s, t, c)
    ensures Rested(SysExit(t, 0), p) && SysExit(t, 0).cur == s.cur
  {
    ForkedIsSane(s, t, c);
    ExitCases(t, 0, p);
    ForkLoopReturns(s, t, Terminated(t, 0), SysExit(t, 0), p, c);
  }

  lemma ChildCanExit(s: State)
    requires Running(s) && FreePidFrom(s, 1) != -1
    ensures var t := Apply(s, Fork);
            t.cur == FreePidFrom(s, 1) && Running(t) && Proc(t, t.cur).waiters == FreeWaiterList()
  {
  }

  lemma FreshProcessCanExit(t: State)
    requires Running(t) && Proc(t, t.cur).waiters == FreeWaiterList()
    ensures Enabled(t, Exit(0)) && Apply(t, Exit(0)) == SysExit(t, 0)
  {
  }

  ghost predicate Starved(s: State, steps: seq<Step>, p: pid) {
    Legal(s, steps) && NeverCurrent(s, steps, p)
  }

  lemma OneStep(s: State, a: Step, t: State, rest: seq<Step>, p: pid)
    requires Enabled(s, a) && s.cur != p && t == Apply(s, a) && Starved(t, rest, p)
    ensures Starved(s, [a] + rest, p)
  {
    assert ([a] + rest)[1..] == rest;
  }

  /** An interrupt only uses up the slice. */
  lemma TickStays(s: State, p: pid)
    requires Rested(s, p)
    ensures Enabled(s, Timer) && ForkLoop(Tick(s), p) && Tick(s).cur == s.cur
  {
    CountedIsRested(s, p);
    LoopStays(s.(bursts := s.bursts + 1), p);
  }

  lemma CountedIsRested(s: State, p: pid)
    requires Rested(s, p)
    ensures Rested(s.(bursts := s.bursts + 1), p)
  {
    var u := s.(bursts := s.bursts + 1);
    QuietStep(s, u, p);
    forall q: pid
      ensures Active(u, q) == Active(s, q) && Eligible(u, Interactive, q) == Eligible(s, Interactive, q)
    {
    }
  }

  lemma LoopStays(s: State, p: pid)
    requires Rested(s, p)
    ensures ForkLoop(Schedule(s), p) && Schedule(s).cur == s.cur
  {
    var t := Schedule(s);
    ScheduleIsSane(s);
    forall q: pid
      ensures t.cur == s.cur && Active(t, q) == Active(s, q) && Type(t, q) == Type(s, q)
    {
      ScheduleEntry(s, q);
    }
    ScheduleEntry(s, s.cur);
    var q: pid :| !Active(s, q);
    assert !Active(t, q);
    assert forall q: pid :: Eligible(t, Interactive, q) ==> Eligible(s, Interactive, q);
  }

  /** One child that is forked and exits at once gives the processor back to its parent. */
  lemma ForkExitReturns(s: State, p: pid) returns (u: State)
    requires ForkLoop(s, p)
    ensures Rested(u, p)
    ensures forall rest :: Starved(u, rest, p) ==> Starved(s, [Fork] + ([Exit(0)] + rest), p)
  {
    var c, t := FreePidFrom(s, 1), Apply(s, Fork);
    ForkEffect(s);
    ChildCanExit(s);
    FreshProcessCanExit(t);
    ChildExitReturns(s, t, p, c);
    u := Apply(t, Exit(0));
    forall rest | Starved(u, rest, p)
      ensures Starved(s, [Fork] + ([Exit(0)] + rest), p)
    {
      OneStep(t, Exit(0), u, rest, p);
      OneStep(s, Fork, t, [Exit(0)] + rest, p);
    }
  }

  /** And so does an interrupt before that. */
  lemma RoundReturns(s: State, p: pid) returns (u: State)
    requires Rested(s, p)
    ensures Rested(u, p)
    ensures forall rest :: Starved(u, rest, p) ==> Starved(s, [Timer, Fork, Exit(0)] + rest, p)
  {
    TickStays(s, p);
    u := ForkExitReturns(Tick(s), p);
    forall rest | Starved(u, rest, p)
      ensures Starved(s, [Timer, Fork, Exit(0)] + rest, p)
    {
      var two := [Fork] + ([Exit(0)] + rest);
      OneStep(s, Timer, Tick(s), two, p);
      assert [Timer] + two == [Timer, Fork, Exit(0)] + rest;
    }
  }

  lemma {:induction false} ForkRoundsCalls(k: nat)
    ensures TotalCalls(ForkRounds(k)) == 2 * k && Interrupts(ForkRounds(k)) == k
  {
    if k > 0 {
      ForkRoundsCalls(k - 1);
      var rest := ForkRounds(k - 1);
      var last, two, all := [Exit(0)] + rest, [Fork, Exit(0)] + rest, ForkRounds(k);
      assert last[1..] == rest && two[1..] == last && all[1..] == two;
      assert Interrupts(last) == k - 1 && Interrupts(two) == k - 1;
      assert TotalCalls(last) == 2 * k - 1 && TotalCalls(two) == 2 * k - 1;
    }
  }

  lemma {:induction false} ForkRoundsStarve(s: State, p: pid, k: nat)
    requires Rested(s, p)
    ensures Starved(s, ForkRounds(k), p)
    decreases k
  {
    if k > 0 {
      var u := RoundReturns(s, p);
      ForkRoundsStarve(u, p, k - 1);
    }
  }

  /** Only the interactive process 1 and the background process 2 are active, and 2 has used its slice. */
  ghost predicate Pair(s: State) {
    && Sane(s) && s.cur == 2 && TimeLeft(s, 2) == 0 && Type(s, 1) == Interactive && Type(s, 2) == Background
    && forall q: pid :: Active(s, q) <==> q == 1 || q == 2
  }

  lemma PairReturns(s: State)
    requires Pair(s)
    ensures Rested(Schedule(s), 2)
  {
    var t := Schedule(s);
    assert Active(s, 1) && !Active(s, 3);
    ScheduleCases(s);
    assert HasActive(s, Interactive) by {
      assert Eligible(s, Interactive, 1);
    }
    ScheduleIsSane(s);
    assert t.cur == 1 && Active(t, 2) && !Active(t, 3);
  }

  lemma TickReturns(s: State)
    requires Pair(s)
    ensures Rested(Tick(s), 2)
  {
    var u := s.(bursts := s.bursts + 1);
    QuietStep(s, u, 2);
    forall q: pid
      ensures Active(u, q) <==> q == 1 || q == 2
    {
      assert Active(u, q) == Active(s, q);
    }
    PairReturns(u);
  }

  lemma ResetForks(tos: word, console: word)
    requires console != 0
    ensures var s := Reset(tos, console); Enabled(s, Fork) && Running(SysFork(s)) && Pair(SysFork(s))
  {
    var s := Reset(tos, console);
    var t := SysFork(s);
    ResetIsSane(tos, console);
    assert Active(s, 1) && !Active(s, 2) && FreePidFrom(s, 1) == 2;
    ForkEffect(s);
    ForkedIsSane(s, t, 2);
    assert Forked(s, t, 2);
  }

  /** The console forks once and is interrupted: it runs again, and its child waits. */
  lemma ForkLoopFromReset(tos: word, console: word)
    requires console != 0
    ensures Legal(Reset(tos, console), [Fork, Timer]) && Rested(Run(Reset(tos, console), [Fork, Timer]), 2)
  {
    ResetForks(tos, console);
    TickReturns(SysFork(Reset(tos, console)));
    assert [Fork, Timer][1..] == [Timer];
    assert [Timer][1..] == [];
  }

  /** Without a bound on forks the claim of notes.md fails, in runs from reset and however often the timer
      interrupts: for every k there is one that ends in k interrupts and 2k scheduler calls during which
      process 2, active all along, never runs. */
  lemma ForksStarve(tos: word, console: word, k: nat)
    requires console != 0
    ensures Legal(Reset(tos, console), [Fork, Timer] + ForkRounds(k))
    ensures Interrupts(ForkRounds(k)) == k && TotalCalls(ForkRounds(k)) == 2 * k
    ensures var s := Run(Reset(tos, console), [Fork, Timer]);
            && Active(s, 2) && NeverCurrent(s, ForkRounds(k), 2)
            && Waited(Run(s, ForkRounds(k)), 2) == Waited(s, 2) + 2 * k
  {
    var s := Run(Reset(tos, console), [Fork, Timer]);
    ForkLoopFromReset(tos, console);
    ForkRoundsStarve(s, 2, k);
    ForkRoundsCalls(k);
    RunConcat(Reset(tos, console), [Fork, Timer], ForkRounds(k));
    BoundedWaiting(s, ForkRounds(k), 2);
  }

  lemma ScheduleIsSane(s: State)
    requires Sane(s)
    ensures Sane(Schedule(s))
  {
    ScheduleEntry(s, s.cur);
    forall q: pid
      ensures Waited(Schedule(s), q) >= 0 && 0 <= TimeLeft(Schedule(s), q) <= 6
    {
      ScheduleEntry(s, q);
      assert Waited(s, q) >= 0 && 0 <= TimeLeft(s, q) <= 6;
    }
  }

  lemma ExitIsSane(s: State, x: int)
    requires Sane(s) && Running(s)
    ensures Sane(SysExit(s, x))
  {
    TerminatedEffect(s, x);
    ScheduleIsSane(Terminated(s, x));
  }

  lemma YieldIsSane(s: State)
    requires Sane(s)
    ensures Sane(SysYield(s))
  {
    EndSliceStep(s, WithPri(s, s.cur, Proc(s, s.cur).pri.(timeLeft := 0)), s.cur);
    ScheduleIsSane(WithPri(s, s.cur, Proc(s, s.cur).pri.(timeLeft := 0)));
  }

  lemma StepIsSane(s: State, a: Step)
    requires Sane(s) && Enabled(s, a)
    ensures Sane(Apply(s, a))
  {
    match a
    case Timer => TickIsSane(s);
    case Yield => YieldIsSane(s);
    case Fork => ForkIsSane(s);
    case ForkWait => ForkWaitIsSane(s);
    case Exit(x) => ExitIsSane(s, x);
    case Exec(e, i, args) => ExecIsSane(s, e, i, args);
    case _ => QuietIsSane(s, a);
  }

  lemma TickIsSane(s: State)
    requires Sane(s) && Running(s)
    ensures Sane(Tick(s))
  {
    QuietStep(s, s.(bursts := s.bursts + 1), s.cur);
    ScheduleIsSane(s.(bursts := s.bursts + 1));
  }

  lemma ExecIsSane(s: State, e: word, i: bool, args: word)
    requires Sane(s) && Running(s)
    ensures Sane(SysExec(s, e, i, args))
  {
    if e == 0 {
      ExitIsSane(s, EXIT_FAILURE);
    } else {
      ExecEffect(s, e, i, args);
    }
  }

  lemma QuietIsSane(s: State, a: Step)
    requires Sane(s) && Enabled(s, a)
    requires a.Wait? || a.User? || a.Share? || a.Unshare? || a.Lock? || a.Unlock?
    ensures Sane(Apply(s, a))
  {
    if a.Wait? {
      WaitForIsQuiet(s, s.cur, a.child);
    } else if !a.User? {
      SharedMemoryIsQuiet(s, a);
    }
    QuietStep(s, Apply(s, a), s.cur);
  }

  lemma ForkWaitIsSane(s: State)
    requires Sane(s) && Running(s)
    ensures Sane(SysForkWait(s))
  {
    ForkIsSane(s);
    var t := SysFork(s);
    WaitForIsQuiet(t, s.cur, t.cur);
    QuietStep(t, SysForkWait(s), t.cur);
  }

  lemma ForkIsSane(s: State)
    requires Sane(s) && Running(s)
    ensures Sane(SysFork(s)) && Active(SysFork(s), SysFork(s).cur)
  {
    ForkEffect(s);
    if FreePidFrom(s, 1) == -1 {
      QuietStep(s, SysFork(s), s.cur);
    } else {
      ForkedIsSane(s, SysFork(s), FreePidFrom(s, 1));
    }
  }

  /** Every state that a run from reset reaches is one that the bounds above speak about. */
  lemma {:induction false} RunIsSane(s: State, steps: seq<Step>)
    requires Sane(s) && Legal(s, steps)
    ensures Sane(Run(s, steps))
    decreases |steps|
  {
    if steps != [] {
      StepIsSane(s, steps[0]);
      RunIsSane(Apply(s, steps[0]), steps[1..]);
    }
  }

  lemma ResetIsSane(tos: word, console: word)
    ensures Sane(Reset(tos, console))
  {
  }
}
