/** The wait protocol: who waits for whom, and how an exit status reaches its waiters. */
module WaitProtocol {
  import opened Words
  import opened Processes
  import opened Scheduler
  import opened SystemCalls
  import opened KernelFrames

  datatype Option<T> = None | Some(value: T)

  /** The result that list w holds for p; -1 while p has not exited. */
  function Entry(w: WaitingList, p: pid): Option<int> {
    var i := Slot(w, p);
    if i == -1 then None else Some(w[i].result)
  }

  function EntryOf(s: State, q: pid, p: pid): Option<int> {
    Entry(Proc(s, q).waiting, p)
  }

  /** Every process has at most one entry in w. */
  predicate OneEntryEach(w: WaitingList) {
    forall i, j :: 0 <= i < j < MAX_WAITING && w[i].pid == w[j].pid ==> w[i].pid == 0
  }

  predicate OneSlotEach(w: WaiterList) {
    forall i, j :: 0 <= i < j < MAX_WAITERS && w[i] == w[j] ==> w[i] == 0
  }

  /** q sits in a waiter slot of p exactly when q has an entry for p without a result. */
  predicate Paired(s: State, p: pid, q: pid) {
    q in Proc(s, p).waiters <==> EntryOf(s, q, p) == Some(-1)
  }

  /** The lists of q hold every process at most once, and a free pid takes no part. */
  ghost predicate Tidy(s: State, q: pid) {
    && OneEntryEach(Proc(s, q).waiting) && OneSlotEach(Proc(s, q).waiters)
    && (forall i :: 0 <= i < MAX_WAITERS ==> 0 <= Proc(s, q).waiters[i] <= MAX_PROCESSES)
    && (!Active(s, q) ==> Proc(s, q).waiters == FreeWaiterList() && forall p: pid :: EntryOf(s, q, p) == None)
  }

  ghost predicate Matched(s: State) {
    && (forall q: pid :: Tidy(s, q))
    && (forall p: pid, q: pid :: Paired(s, p, q))
  }

  /** A matched state never makes an exit follow a waiter slot to a missing entry. */
  lemma MatchedHasNoDanglingWaiter(s: State, p: pid)
    requires Matched(s)
    ensures NoDanglingWaiter(s, p)
  {
    forall i | 0 <= i < MAX_WAITERS && Proc(s, p).waiters[i] != 0
      ensures var q := Proc(s, p).waiters[i]; 1 <= q <= MAX_PROCESSES && Slot(Proc(s, q).waiting, p) != -1
    {
      assert Tidy(s, p);
      assert Paired(s, p, Proc(s, p).waiters[i]);
    }
  }

  // ---- entries of a single list

  lemma ResolvedEntryOf(w: WaitingList, p: pid, x: int, r: pid)
    ensures var v := Resolve(w, p, x);
            && Entry(v, r) == (if r == p && Entry(w, p) != None then Some(x) else Entry(w, r))
            && (OneEntryEach(w) ==> OneEntryEach(v))
  {
    var v := Resolve(w, p, x);
    SamePidsSameSlot(w, v, r);
  }

  lemma SamePidsSameSlot(w: WaitingList, v: WaitingList, r: int)
    requires forall k :: 0 <= k < MAX_WAITING ==> v[k].pid == w[k].pid
    ensures Slot(v, r) == Slot(w, r)
  {
  }

  lemma AddedEntryOf(w: WaitingList, i: nat, p: pid, r: pid)
    requires i < MAX_WAITING && w[i].pid == 0 && Entry(w, p) == None
    ensures var v := w[i := Waiting(p, -1)];
            && Entry(v, r) == (if r == p then Some(-1) else Entry(w, r))
            && (OneEntryEach(w) ==> OneEntryEach(v))
  {
    var v: WaitingList := w[i := Waiting(p, -1)];
    var a, b := Slot(w, r), Slot(v, r);
    assert v[i].pid == p;
    if r != p {
      assert a != -1 ==> v[a].pid == r;
      assert b != -1 ==> b != i && w[b].pid == r;
    }
  }

  lemma ClearedEntryOf(w: WaitingList, p: pid, r: pid)
    requires OneEntryEach(w) && Entry(w, p) != None
    ensures var v := w[Slot(w, p) := Waiting(0, -1)];
            && Entry(v, r) == (if r == p then None else Entry(w, r))
            && OneEntryEach(v)
  {
    var i := Slot(w, p);
    var v: WaitingList := w[i := Waiting(0, -1)];
    var a, b := Slot(w, r), Slot(v, r);
    assert forall k :: 0 <= k < MAX_WAITING && k != i ==> w[k].pid != p;
    if r != p {
      assert a != -1 ==> a != i && v[a].pid == r;
      assert b != -1 ==> b != i && w[b].pid == r;
    }
  }

  lemma FreeListIsEmpty(p: pid)
    ensures Entry(FreeWaitingList(), p) == None && OneEntryEach(FreeWaitingList())
    ensures p !in FreeWaiterList() && OneSlotEach(FreeWaiterList())
  {
  }

  lemma FilledSlot(w: WaiterList, q: pid, r: pid)
    requires FreeWaiter(w) != -1
    ensures var v := w[FreeWaiter(w) := q];
            && (r in v <==> r == q || r in w)
            && (OneSlotEach(w) && q !in w ==> OneSlotEach(v))
  {
    var j := FreeWaiter(w);
    var v := w[j := q];
    if r in w {
      var k :| 0 <= k < MAX_WAITERS && w[k] == r;
      assert k != j && v[k] == r;
    }
    assert v[j] == q;
  }

  // ---- one call of sys_wait

  /** q would take a waiter slot of p without finding a free entry of its own. */
  predicate OutOfEntries(s: State, q: pid, p: pid) {
    && EntryOf(s, q, p) == None && Active(s, p) && FreeWaiter(Proc(s, p).waiters) != -1
    && Slot(Proc(s, q).waiting, 0) == -1
  }

  predicate CanRegister(s: State, q: pid, p: pid) {
    && EntryOf(s, q, p) == None && Active(s, p) && FreeWaiter(Proc(s, p).waiters) != -1
    && Slot(Proc(s, q).waiting, 0) != -1
  }

  /** The result of a wait by q for p: -1 while p runs, p's status once p has exited, and -2 when
      p is not active or no slot is left. */
  lemma WaitResult(s: State, q: pid, p: pid)
    ensures var r := WaitFor(s, q, p).1;
            match EntryOf(s, q, p)
            case Some(x) => r == x
            case None => r == if CanRegister(s, q, p) then -1 else -2
  {
  }

  /** What a wait by q for p does to the lists of any process u. A result other than -1 is handed
      over once: its entry is gone afterwards. */
  lemma WaitEffect(s: State, q: pid, p: pid, u: pid)
    requires OneEntryEach(Proc(s, q).waiting)
    ensures var t := WaitFor(s, q, p).0;
            && (u != q ==> Proc(t, u).waiting == Proc(s, u).waiting)
            && OneEntryEach(Proc(t, q).waiting)
            && EntryOf(t, q, u) == (if u != p then EntryOf(s, q, u)
                                    else match EntryOf(s, q, p)
                                         case Some(x) => (if x == -1 then Some(-1) else None)
                                         case None => if CanRegister(s, q, p) then Some(-1) else None)
            && Proc(t, u).waiters == (if u == p && (CanRegister(s, q, p) || OutOfEntries(s, q, p))
                                      then Proc(s, u).waiters[FreeWaiter(Proc(s, u).waiters) := q]
                                      else Proc(s, u).waiters)
  {
    var w := Proc(s, q).waiting;
    WaitLists(s, q, p, u);
    WaitLists(s, q, p, q);
    if EntryOf(s, q, p) != None {
      ClearedEntryOf(w, p, u);
    } else if CanRegister(s, q, p) {
      AddedEntryOf(w, Slot(w, 0), p, u);
    }
  }

  /** The lists of u after q has waited for p. */
  lemma WaitLists(s: State, q: pid, p: pid, u: pid)
    ensures var t, w, fw := WaitFor(s, q, p).0, Proc(s, q).waiting, FreeWaiter(Proc(s, p).waiters);
            && Proc(t, u).waiting ==
               (if u != q || EntryOf(s, q, p) == Some(-1) then Proc(s, u).waiting
                else if EntryOf(s, q, p) != None then w[Slot(w, p) := Waiting(0, -1)]
                else if CanRegister(s, q, p) then w[Slot(w, 0) := Waiting(p, -1)]
                else w)
            && Proc(t, u).waiters ==
               (if u == p && (CanRegister(s, q, p) || OutOfEntries(s, q, p))
                then Proc(s, p).waiters[fw := q] else Proc(s, u).waiters)
  {
    if EntryOf(s, q, p) == None && Active(s, p) && FreeWaiter(Proc(s, p).waiters) != -1 {
      var s1 := AddWaiter(s, p, FreeWaiter(Proc(s, p).waiters), q);
      assert Proc(s1, q).waiting == Proc(s, q).waiting;
    }
  }

  // ---- when each step keeps the table matched

  lemma WaitKeepsSlots(s: State, q: pid, p: pid, u: pid)
    requires Tidy(s, u) && OneEntryEach(Proc(s, q).waiting) && Active(s, q) && Paired(s, p, q)
    ensures var v := Proc(WaitFor(s, q, p).0, u).waiters;
            && OneSlotEach(v) && (forall i :: 0 <= i < MAX_WAITERS ==> 0 <= v[i] <= MAX_PROCESSES)
            && (!Active(s, u) ==> v == FreeWaiterList())
  {
    WaitEffect(s, q, p, u);
    if u == p && FreeWaiter(Proc(s, p).waiters) != -1 {
      FilledSlot(Proc(s, p).waiters, q, q);
    }
  }

  lemma WaitKeepsTidy(s: State, q: pid, p: pid, u: pid)
    requires Tidy(s, u) && Tidy(s, q) && Active(s, q) && Paired(s, p, q)
    ensures Tidy(WaitFor(s, q, p).0, u)
  {
    var t := WaitFor(s, q, p).0;
    WaitForFrame(s, q, p, u);
    WaitKeepsSlots(s, q, p, u);
    assert OneEntryEach(Proc(t, u).waiting) && (u != q ==> Proc(t, u).waiting == Proc(s, u).waiting) by {
      WaitEffect(s, q, p, u);
    }
    forall r: pid
      ensures u != q ==> EntryOf(t, u, r) == EntryOf(s, u, r)
    {
    }
  }

  lemma WaitKeepsPaired(s: State, q: pid, p: pid, u: pid, r: pid)
    requires Paired(s, u, r) && OneEntryEach(Proc(s, q).waiting) && !OutOfEntries(s, q, p)
    ensures Paired(WaitFor(s, q, p).0, u, r)
  {
    WaitEffect(s, q, p, u);
    WaitEffect(s, q, p, r);
    if u == p && FreeWaiter(Proc(s, p).waiters) != -1 {
      FilledSlot(Proc(s, p).waiters, q, r);
    }
  }

  /** A wait keeps the table matched exactly when it does not run out of entries half-way. */
  lemma WaitKeepsMatched(s: State, q: pid, p: pid)
    requires Matched(s) && Active(s, q)
    ensures Matched(WaitFor(s, q, p).0) <==> !OutOfEntries(s, q, p)
  {
    var t := WaitFor(s, q, p).0;
    assert Tidy(s, q) && Paired(s, p, q);
    if OutOfEntries(s, q, p) {
      WaitEffect(s, q, p, p);
      FilledSlot(Proc(s, p).waiters, q, q);
      assert !Paired(t, p, q);
    } else {
      forall u: pid
        ensures Tidy(t, u)
      {
        assert Tidy(s, u);
        WaitKeepsTidy(s, q, p, u);
      }
      forall u: pid, r: pid
        ensures Paired(t, u, r)
      {
        assert Paired(s, u, r);
        WaitKeepsPaired(s, q, p, u, r);
      }
    }
  }

  /** The lists of u after the current process has exited with status x. */
  lemma ExitLists(s: State, x: int, u: pid)
    requires Running(s)
    ensures var t := SysExit(s, x);
            && (Active(t, u) <==> Active(s, u) && u != s.cur)
            && Proc(t, u).waiting ==
               (if u == s.cur then FreeWaitingList()
                else if u in Proc(s, s.cur).waiters then Resolve(Proc(s, u).waiting, s.cur, x)
                else Proc(s, u).waiting)
            && Proc(t, u).waiters == (if u == s.cur then FreeWaiterList() else Proc(s, u).waiters)
  {
    ExitLinks(s, x, u);
    TerminatedFrame(s, x, u);
    ScheduleFrame(Terminated(s, x), u);
  }

  /** The entry of u for p after the current process has exited with status x. */
  lemma ExitEntry(s: State, x: int, u: pid, p: pid)
    requires Running(s)
    ensures EntryOf(SysExit(s, x), u, p) ==
            if u == s.cur then None
            else if p == s.cur && u in Proc(s, s.cur).waiters && EntryOf(s, u, p) != None then Some(x)
            else EntryOf(s, u, p)
    ensures OneEntryEach(Proc(s, u).waiting) ==> OneEntryEach(Proc(SysExit(s, x), u).waiting)
  {
    ExitLists(s, x, u);
    FreeListIsEmpty(p);
    ResolvedEntryOf(Proc(s, u).waiting, s.cur, x, p);
  }

  /** Another process waits for the caller. */
  ghost predicate HasOtherWaiter(s: State) {
    exists q: pid :: q != s.cur && q in Proc(s, s.cur).waiters
  }

  /** The caller waits for another process. */
  ghost predicate HasPendingWait(s: State) {
    exists p: pid :: p != s.cur && EntryOf(s, s.cur, p) == Some(-1)
  }

  ghost predicate CleanExit(s: State, x: int) {
    (x != -1 || !HasOtherWaiter(s)) && !HasPendingWait(s)
  }

  /** An exit keeps the table matched exactly when the caller waits for nobody and does not hand
      the status -1, which means "still running", to somebody who waits for it. */
  lemma ExitKeepsMatched(s: State, x: int)
    requires Matched(s) && Running(s)
    ensures Matched(SysExit(s, x)) <==> CleanExit(s, x)
  {
    var t := SysExit(s, x);
    if HasPendingWait(s) {
      var p: pid :| p != s.cur && EntryOf(s, s.cur, p) == Some(-1);
      assert Paired(s, p, s.cur);
      ExitEntry(s, x, s.cur, p);
      ExitLists(s, x, p);
      assert !Paired(t, p, s.cur);
    } else if !CleanExit(s, x) {
      var q: pid :| q != s.cur && q in Proc(s, s.cur).waiters;
      assert Paired(s, s.cur, q);
      ExitEntry(s, x, q, s.cur);
      ExitLists(s, x, s.cur);
      FreeListIsEmpty(q);
      assert !Paired(t, s.cur, q);
    } else {
      forall u: pid
        ensures Tidy(t, u)
      {
        assert Tidy(s, u);
        ExitKeepsTidy(s, x, u);
      }
      forall p: pid, u: pid
        ensures Paired(t, p, u)
      {
        assert Paired(s, p, u);
        ExitKeepsPaired(s, x, p, u);
      }
    }
  }

  lemma ExitKeepsTidy(s: State, x: int, u: pid)
    requires Tidy(s, u) && Running(s)
    ensures Tidy(SysExit(s, x), u)
  {
    var t := SysExit(s, x);
    ExitLists(s, x, u);
    FreeListIsEmpty(u);
    forall p: pid
      ensures EntryOf(t, u, p) == None || EntryOf(s, u, p) != None
      ensures u == s.cur ==> EntryOf(t, u, p) == None
      ensures OneEntryEach(Proc(t, u).waiting)
    {
      ExitEntry(s, x, u, p);
    }
  }

  lemma ExitKeepsPaired(s: State, x: int, p: pid, u: pid)
    requires Paired(s, p, u) && Running(s) && CleanExit(s, x)
    ensures Paired(SysExit(s, x), p, u)
  {
    ExitEntry(s, x, u, p);
    ExitLists(s, x, p);
    FreeListIsEmpty(u);
    assert p == s.cur && u != s.cur && u in Proc(s, p).waiters ==> HasOtherWaiter(s);
    assert u == s.cur && p != s.cur && EntryOf(s, u, p) == Some(-1) ==> HasPendingWait(s);
  }

  lemma ForkKeepsMatched(s: State)
    requires Matched(s) && Running(s)
    ensures Matched(SysFork(s)) && Active(SysFork(s), s.cur)
  {
    var t, c := SysFork(s), FreePidFrom(s, 1);
    if c == -1 {
      WithR0KeepsMatched(s, -1);
    } else {
      ForkFrame(s, s.cur);
      forall u: pid
        ensures Tidy(t, u)
      {
        ForkFrame(s, u);
        assert Tidy(s, u);
        FreshOrSameLists(s, t, c, u);
      }
      forall p: pid, u: pid
        ensures Paired(t, p, u)
      {
        ForkFrame(s, u);
        ForkFrame(s, p);
        assert Paired(s, p, u) && Tidy(s, c);
        FreeListIsEmpty(p);
        FreeListIsEmpty(u);
      }
    }
  }

  lemma FreshOrSameLists(s: State, t: State, c: pid, u: pid)
    requires Tidy(s, u)
    requires Proc(t, u).waiting == (if u == c then FreeWaitingList() else Proc(s, u).waiting)
    requires Proc(t, u).waiters == (if u == c then FreeWaiterList() else Proc(s, u).waiters)
    requires Active(t, u) <==> Active(s, u) || u == c
    ensures Tidy(t, u)
  {
    FreeListIsEmpty(u);
    forall p: pid
      ensures u != c ==> EntryOf(t, u, p) == EntryOf(s, u, p)
    {
    }
  }

  lemma SameListsKeepMatched(s: State, t: State)
    requires Matched(s)
    requires forall u: pid ::
               && Proc(t, u).waiting == Proc(s, u).waiting && Proc(t, u).waiters == Proc(s, u).waiters
               && (Active(t, u) <==> Active(s, u))
    ensures Matched(t)
  {
    forall u: pid
      ensures Tidy(t, u)
    {
      assert Tidy(s, u);
      assert forall p: pid :: EntryOf(t, u, p) == EntryOf(s, u, p);
    }
    forall p: pid, u: pid
      ensures Paired(t, p, u)
    {
      assert Paired(s, p, u);
    }
  }

  function StatusOf(a: Step): int
    requires IsExit(a)
  {
    if a.Exit? then a.status else EXIT_FAILURE
  }

  /** What the caller of a has to see to for the table to stay matched. */
  ghost predicate Clean(s: State, a: Step) {
    && (IsExit(a) ==> CleanExit(s, StatusOf(a)))
    && (a.Wait? ==> !OutOfEntries(s, s.cur, a.child))
    && (a.ForkWait? ==> !OutOfEntries(SysFork(s), s.cur, SysFork(s).cur))
  }

  lemma OtherLists(s: State, a: Step, u: pid)
    requires Running(s) && !IsExit(a) && !IsFork(a) && !a.Wait?
    ensures var t := Apply(s, a);
            && Proc(t, u).waiting == Proc(s, u).waiting && Proc(t, u).waiters == Proc(s, u).waiters
            && (Active(t, u) <==> Active(s, u))
  {
    match a
    case Timer => TimerFrame(s, u);
    case Yield => YieldFrame(s, u);
    case Exec(_, _, _) =>
    case User(_) =>
    case _ => SharedMemoryFrame(s, a, u);
  }

  lemma WithR0KeepsMatched(s: State, r: int)
    ensures Matched(WithR0(s, r)) <==> Matched(s)
  {
    if Matched(s) {
      SameListsKeepMatched(s, WithR0(s, r));
    }
    if Matched(WithR0(s, r)) {
      SameListsKeepMatched(WithR0(s, r), s);
    }
  }

  /** Every kernel entry keeps the table matched exactly when its caller sees to Clean. */
  lemma StepKeepsMatched(s: State, a: Step)
    requires Matched(s) && Enabled(s, a)
    ensures Matched(Apply(s, a)) <==> Clean(s, a)
  {
    if IsExit(a) {
      ExitKeepsMatched(s, StatusOf(a));
    } else if a.Wait? {
      WaitKeepsMatched(s, s.cur, a.child);
      WithR0KeepsMatched(WaitFor(s, s.cur, a.child).0, WaitFor(s, s.cur, a.child).1);
    } else if a.Fork? {
      ForkKeepsMatched(s);
    } else if a.ForkWait? {
      ForkKeepsMatched(s);
      WaitKeepsMatched(SysFork(s), s.cur, SysFork(s).cur);
    } else {
      forall u: pid
        ensures var t := Apply(s, a);
                && Proc(t, u).waiting == Proc(s, u).waiting && Proc(t, u).waiters == Proc(s, u).waiters
                && (Active(t, u) <==> Active(s, u))
      {
        OtherLists(s, a, u);
      }
      SameListsKeepMatched(s, Apply(s, a));
    }
  }

  /** Every step of the run satisfies ok in the state in which it is taken. */
  ghost predicate Along(s: State, steps: seq<Step>, ok: (State, Step) -> bool)
    decreases |steps|
  {
    steps == [] || (ok(s, steps[0]) && Along(Apply(s, steps[0]), steps[1..], ok))
  }

  ghost predicate AllClean(s: State, steps: seq<Step>)
    decreases |steps|
  {
    steps == [] || (Clean(s, steps[0]) && AllClean(Apply(s, steps[0]), steps[1..]))
  }

  /** In every run whose callers see to Clean the table stays matched. */
  lemma {:induction false} RunKeepsMatched(s: State, steps: seq<Step>)
    requires Matched(s) && Legal(s, steps) && AllClean(s, steps)
    ensures Matched(Run(s, steps))
    decreases |steps|
  {
    if steps != [] {
      StepKeepsMatched(s, steps[0]);
      RunKeepsMatched(Apply(s, steps[0]), steps[1..]);
    }
  }

  lemma ResetIsMatched(tos: word, console: word)
    ensures Matched(Reset(tos, console))
  {
    var s := Reset(tos, console);
    forall q: pid
      ensures Tidy(s, q)
    {
      assert Proc(s, q).waiting == FreeWaitingList() && Proc(s, q).waiters == FreeWaiterList();
      FreeListIsEmpty(q);
      forall p: pid
        ensures EntryOf(s, q, p) == None
      {
        FreeListIsEmpty(p);
      }
    }
    forall p: pid, q: pid
      ensures Paired(s, p, q)
    {
      FreeListIsEmpty(q);
      FreeListIsEmpty(p);
    }
  }

  /** In every run from reset whose callers see to Clean, no exit ever follows a waiter slot to a missing
      entry. */
  lemma ReachableIsMatched(tos: word, console: word, steps: seq<Step>, p: pid)
    requires Legal(Reset(tos, console), steps) && AllClean(Reset(tos, console), steps)
    ensures Matched(Run(Reset(tos, console), steps)) && NoDanglingWaiter(Run(Reset(tos, console), steps), p)
  {
    ResetIsMatched(tos, console);
    RunKeepsMatched(Reset(tos, console), steps);
    MatchedHasNoDanglingWaiter(Run(Reset(tos, console), steps), p);
  }

  // ---- delivery of an exit status

  /** q has registered its wait for the active process p. */
  predicate Registered(s: State, q: pid, p: pid) {
    && p != q && Active(s, p) && Active(s, q) && OneEntryEach(Proc(s, q).waiting)
    && EntryOf(s, q, p) == Some(-1) && q in Proc(s, p).waiters
  }

  /** p's status x is there for q to collect. */
  predicate Delivered(s: State, q: pid, p: pid, x: int) {
    && p != q && x != -1 && Active(s, q) && OneEntryEach(Proc(s, q).waiting)
    && EntryOf(s, q, p) == Some(x) && q !in Proc(s, p).waiters
  }

  predicate Exits(s: State, a: Step, p: pid) {
    IsExit(a) && s.cur == p
  }

  /** a may collect q's entry for p. */
  predicate Collects(s: State, a: Step, q: pid, p: pid) {
    s.cur == q && (a == Wait(p) || a.ForkWait?)
  }

  /** How a wait by any process w for any process v changes the pair (q, p). */
  lemma WaitKeepsPair(s: State, w: pid, v: pid, q: pid, p: pid)
    requires OneEntryEach(Proc(s, w).waiting) && OneEntryEach(Proc(s, q).waiting)
    requires w != q || v != p || EntryOf(s, q, p) == Some(-1)
    ensures var t := WaitFor(s, w, v).0;
            && EntryOf(t, q, p) == EntryOf(s, q, p) && OneEntryEach(Proc(t, q).waiting)
            && (q in Proc(t, p).waiters <==> q in Proc(s, p).waiters || (w == q && v == p && q in Proc(t, p).waiters))
            && (w != q || v != p ==> (q in Proc(t, p).waiters <==> q in Proc(s, p).waiters))
            && (q in Proc(s, p).waiters ==> q in Proc(t, p).waiters)
            && (Active(t, q) <==> Active(s, q)) && (Active(t, p) <==> Active(s, p))
  {
    WaitEffect(s, w, v, p);
    WaitEffect(s, w, v, q);
    WaitForFrame(s, w, v, q);
    WaitForFrame(s, w, v, p);
    if v == p && FreeWaiter(Proc(s, p).waiters) != -1 {
      FilledSlot(Proc(s, p).waiters, w, q);
    }
  }

  /** A fork changes the lists of the new child only. */
  lemma ForkLists(s: State, q: pid)
    requires Running(s) && Active(s, q)
    ensures var t := SysFork(s);
            && Proc(t, q).waiting == Proc(s, q).waiting && Proc(t, q).waiters == Proc(s, q).waiters && Active(t, q)
  {
    if FreePidFrom(s, 1) != -1 {
      ForkFrame(s, q);
    }
  }

  /** A registered wait stays registered until one of the two processes exits, and q's own waits
      for p return -1 in the meantime. */
  lemma RegisteredStep(s: State, a: Step, q: pid, p: pid)
    requires Enabled(s, a) && OneEntryEach(Proc(s, s.cur).waiting)
    requires Registered(s, q, p) && !Exits(s, a, p) && !Exits(s, a, q)
    ensures Registered(Apply(s, a), q, p)
    ensures s.cur == q && a == Wait(p) ==> Result(s, a) == -1
  {
    if IsExit(a) {
      ExitEntry(s, StatusOf(a), q, p);
      ExitLists(s, StatusOf(a), q);
      ExitLists(s, StatusOf(a), p);
    } else if a.Wait? {
      WaitKeepsPair(s, s.cur, a.child, q, p);
      WaitResult(s, s.cur, a.child);
    } else if IsFork(a) {
      ForkLists(s, q);
      ForkLists(s, p);
      ForkLists(s, s.cur);
      if a.ForkWait? {
        WaitKeepsPair(SysFork(s), s.cur, SysFork(s).cur, q, p);
      }
    } else {
      OtherLists(s, a, q);
      OtherLists(s, a, p);
    }
  }

  /** The exit of p with a status other than -1 delivers it to the registered q. */
  lemma ExitDelivers(s: State, a: Step, q: pid, p: pid)
    requires Enabled(s, a) && Registered(s, q, p) && Exits(s, a, p) && StatusOf(a) != -1
    ensures Delivered(Apply(s, a), q, p, StatusOf(a))
  {
    ExitEntry(s, StatusOf(a), q, p);
    ExitLists(s, StatusOf(a), q);
    ExitLists(s, StatusOf(a), p);
    FreeListIsEmpty(q);
  }

  /** A delivered status stays until q exits or collects it, even when p's pid is reused. */
  lemma DeliveredStep(s: State, a: Step, q: pid, p: pid, x: int)
    requires Enabled(s, a) && OneEntryEach(Proc(s, s.cur).waiting)
    requires Delivered(s, q, p, x) && !Exits(s, a, q) && !Collects(s, a, q, p)
    ensures Delivered(Apply(s, a), q, p, x)
  {
    if IsExit(a) {
      ExitEntry(s, StatusOf(a), q, p);
      ExitLists(s, StatusOf(a), q);
      ExitLists(s, StatusOf(a), p);
      FreeListIsEmpty(q);
    } else if a.Wait? {
      WaitKeepsPair(s, s.cur, a.child, q, p);
    } else if IsFork(a) {
      ForkLists(s, q);
      ForkLists(s, s.cur);
      ForkedWaiters(s, p, q);
      if a.ForkWait? {
        WaitKeepsPair(SysFork(s), s.cur, SysFork(s).cur, q, p);
      }
    } else {
      OtherLists(s, a, q);
      OtherLists(s, a, p);
    }
  }

  lemma ForkedWaiters(s: State, p: pid, q: pid)
    requires Running(s) && q !in Proc(s, p).waiters
    ensures q !in Proc(SysFork(s), p).waiters
  {
  }

  /** Collecting hands the status over, and a second wait finds no entry. */
  lemma CollectedOnce(s: State, q: pid, p: pid, x: int)
    requires Delivered(s, q, p, x)
    ensures WaitFor(s, q, p).1 == x
    ensures EntryOf(WaitFor(s, q, p).0, q, p) == None
  {
  }

  /** No process ever has two entries for the same process; this needs no care from callers. */
  ghost predicate OneEntryEverywhere(s: State) {
    forall u: pid :: OneEntryEach(Proc(s, u).waiting)
  }

  lemma StepKeepsOneEntry(s: State, a: Step)
    requires Enabled(s, a) && OneEntryEverywhere(s)
    ensures OneEntryEverywhere(Apply(s, a))
  {
    forall u: pid
      ensures OneEntryEach(Proc(Apply(s, a), u).waiting)
    {
      assert OneEntryEach(Proc(s, u).waiting) && OneEntryEach(Proc(s, s.cur).waiting);
      StepKeepsListTidy(s, a, u);
    }
  }

  lemma StepKeepsListTidy(s: State, a: Step, u: pid)
    requires Enabled(s, a) && OneEntryEach(Proc(s, u).waiting) && OneEntryEach(Proc(s, s.cur).waiting)
    ensures OneEntryEach(Proc(Apply(s, a), u).waiting)
  {
    if IsExit(a) {
      ExitEntry(s, StatusOf(a), u, u);
    } else if a.Wait? {
      WaitEffect(s, s.cur, a.child, u);
    } else if IsFork(a) {
      ForkedWaiting(s, u);
      ForkedWaiting(s, s.cur);
      if a.ForkWait? {
        WaitEffect(SysFork(s), s.cur, SysFork(s).cur, u);
      }
    } else {
      OtherLists(s, a, u);
    }
  }

  lemma ForkedWaiting(s: State, u: pid)
    requires Running(s) && OneEntryEach(Proc(s, u).waiting)
    ensures OneEntryEach(Proc(SysFork(s), u).waiting)
  {
  }

  lemma {:induction false} RunKeepsOneEntry(s: State, steps: seq<Step>)
    requires Legal(s, steps) && OneEntryEverywhere(s)
    ensures OneEntryEverywhere(Run(s, steps))
    decreases |steps|
  {
    if steps != [] {
      StepKeepsOneEntry(s, steps[0]);
      RunKeepsOneEntry(Apply(s, steps[0]), steps[1..]);
    }
  }

  lemma EntryAfterWait(s: State, q: pid, p: pid)
    requires Tidy(s, q) && Tidy(s, p) && Paired(s, p, q)
    ensures var t := WaitFor(s, q, p).0;
            && OneEntryEach(Proc(t, q).waiting) && (WaitFor(s, q, p).1 == -1 <==> EntryOf(t, q, p) == Some(-1))
            && (EntryOf(t, q, p) == Some(-1) ==> Active(s, p) && q in Proc(t, p).waiters)
  {
    WaitResult(s, q, p);
    WaitEffect(s, q, p, p);
    WaitEffect(s, q, p, q);
    if CanRegister(s, q, p) {
      FilledSlot(Proc(s, p).waiters, q, q);
    }
  }

  lemma ListsAfterWait(s: State, p: pid, u: pid)
    ensures var t, w := Apply(s, Wait(p)), WaitFor(s, s.cur, p).0;
            && Active(t, u) == Active(s, u)
            && Proc(t, u).waiting == Proc(w, u).waiting && Proc(t, u).waiters == Proc(w, u).waiters
  {
    WaitForFrame(s, s.cur, p, u);
  }

  /** Where the protocol starts: in a matched state a wait for another process answers -1 exactly when it
      leaves the caller registered. */
  lemma WaitRegisters(s: State, p: pid)
    requires Matched(s) && Running(s) && p != s.cur
    ensures WaitFor(s, s.cur, p).1 == -1 <==> Registered(Apply(s, Wait(p)), s.cur, p)
  {
    var q, t := s.cur, Apply(s, Wait(p));
    assert && OneEntryEach(Proc(t, q).waiting) && (WaitFor(s, q, p).1 == -1 <==> EntryOf(t, q, p) == Some(-1))
           && (EntryOf(t, q, p) == Some(-1) ==> Active(s, p) && q in Proc(t, p).waiters) by {
      assert Tidy(s, q) && Tidy(s, p) && Paired(s, p, q);
      EntryAfterWait(s, q, p);
      ListsAfterWait(s, p, q);
      ListsAfterWait(s, p, p);
    }
    assert Active(t, q) == Active(s, q) && Active(t, p) == Active(s, p) by {
      ListsAfterWait(s, p, q);
      ListsAfterWait(s, p, p);
    }
  }

  /** So does a fork that makes a child c and finds room for the parent's entry: the parent is registered for
      its child. */
  lemma ForkWaitRegisters(s: State, c: pid)
    requires Matched(s) && Running(s) && c == FreePidFrom(s, 1)
    requires EntryOf(s, s.cur, c) == None && Slot(Proc(s, s.cur).waiting, 0) != -1
    ensures Registered(Apply(s, ForkWait), s.cur, c)
  {
    var q, t := s.cur, SysFork(s);
    assert q != c && Matched(t) && Active(t, q) && Active(t, c) && CanRegister(t, q, c) by {
      ChildCanBeAwaited(s, c);
    }
    WaitIsRegistered(t, q, c);
  }

  lemma WaitIsRegistered(t: State, q: pid, c: pid)
    requires Matched(t) && q != c && Active(t, q) && CanRegister(t, q, c)
    ensures Registered(WaitFor(t, q, c).0, q, c)
  {
    assert Tidy(t, q) && Tidy(t, c) && Paired(t, c, q);
    EntryAfterWait(t, q, c);
    WaitResult(t, q, c);
    WaitForFrame(t, q, c, q);
    WaitForFrame(t, q, c, c);
  }

  lemma ChildCanBeAwaited(s: State, c: pid)
    requires Matched(s) && Running(s) && c == FreePidFrom(s, 1)
    requires EntryOf(s, s.cur, c) == None && Slot(Proc(s, s.cur).waiting, 0) != -1
    ensures var t := SysFork(s);
            s.cur != c && Matched(t) && Active(t, s.cur) && Active(t, c) && CanRegister(t, s.cur, c)
  {
    ForkFrame(s, s.cur);
    ForkFrame(s, c);
    ForkKeepsMatched(s);
  }

  lemma MatchedHasOneEntry(s: State)
    requires Matched(s)
    ensures OneEntryEverywhere(s)
  {
    forall u: pid
      ensures OneEntryEach(Proc(s, u).waiting)
    {
      assert Tidy(s, u);
    }
  }

  lemma {:induction false} RegisteredRun(s: State, steps: seq<Step>, q: pid, p: pid)
    requires Legal(s, steps) && OneEntryEverywhere(s) && Registered(s, q, p)
    requires Along(s, steps, (t, a) => !Exits(t, a, p) && !Exits(t, a, q))
    ensures Registered(Run(s, steps), q, p)
    decreases |steps|
  {
    if steps != [] {
      RegisteredStep(s, steps[0], q, p);
      StepKeepsOneEntry(s, steps[0]);
      RegisteredRun(Apply(s, steps[0]), steps[1..], q, p);
    }
  }

  lemma {:induction false} DeliveredRun(s: State, steps: seq<Step>, q: pid, p: pid, x: int)
    requires Legal(s, steps) && OneEntryEverywhere(s) && Delivered(s, q, p, x)
    requires Along(s, steps, (t, a) => !Exits(t, a, q) && !Collects(t, a, q, p))
    ensures Delivered(Run(s, steps), q, p, x)
    decreases |steps|
  {
    if steps != [] {
      DeliveredStep(s, steps[0], q, p, x);
      StepKeepsOneEntry(s, steps[0]);
      DeliveredRun(Apply(s, steps[0]), steps[1..], q, p, x);
    }
  }

  /** The protocol over a whole run. Once q has registered, p runs on for any number of steps and
      exits with status x, and any number of further steps follow. Then q's next wait for p
      returns x, and its entry is gone. Nobody else has to follow the protocol. */
  lemma ExitStatusReachesWaiter(s: State, before: seq<Step>, exit: Step, after: seq<Step>, q: pid, p: pid)
    requires OneEntryEverywhere(s) && Registered(s, q, p) && Legal(s, before)
    requires Along(s, before, (t, a) => !Exits(t, a, p) && !Exits(t, a, q))
    requires var t := Run(s, before);
             && Enabled(t, exit) && Exits(t, exit, p) && StatusOf(exit) != -1
             && Legal(Apply(t, exit), after)
             && Along(Apply(t, exit), after, (u, a) => !Exits(u, a, q) && !Collects(u, a, q, p))
    ensures var end := Run(Apply(Run(s, before), exit), after);
            && WaitFor(end, q, p).1 == StatusOf(exit)
            && EntryOf(WaitFor(end, q, p).0, q, p) == None
  {
    RegisteredRun(s, before, q, p);
    RunKeepsOneEntry(s, before);
    var t := Run(s, before);
    StepKeepsOneEntry(t, exit);
    ExitDelivers(t, exit, q, p);
    DeliveredRun(Apply(t, exit), after, q, p, StatusOf(exit));
    CollectedOnce(Run(Apply(t, exit), after), q, p, StatusOf(exit));
  }

  /** The same from the call on: in a matched state q waits for p and is told -1. */
  lemma WaitedStatusArrives(s: State, before: seq<Step>, exit: Step, after: seq<Step>, p: pid)
    requires Matched(s) && Running(s) && p != s.cur && WaitFor(s, s.cur, p).1 == -1
    requires var q, u := s.cur, Apply(s, Wait(p));
             && Legal(u, before) && Along(u, before, (t, a) => !Exits(t, a, p) && !Exits(t, a, q))
             && var t := Run(u, before);
             && Enabled(t, exit) && Exits(t, exit, p) && StatusOf(exit) != -1
             && Legal(Apply(t, exit), after)
             && Along(Apply(t, exit), after, (v, a) => !Exits(v, a, q) && !Collects(v, a, q, p))
    ensures var end := Run(Apply(Run(Apply(s, Wait(p)), before), exit), after);
            WaitFor(end, s.cur, p).1 == StatusOf(exit) && EntryOf(WaitFor(end, s.cur, p).0, s.cur, p) == None
  {
    WaitRegisters(s, p);
    MatchedHasOneEntry(s);
    StepKeepsOneEntry(s, Wait(p));
    ExitStatusReachesWaiter(Apply(s, Wait(p)), before, exit, after, s.cur, p);
  }

  // ---- the two ways in which a caller can break the protocol

  /** A caller that exits while it waits for p leaves its waiter slot behind: p's own exit would
      then follow it to a missing entry. */
  lemma ExitWithPendingWaitDangles(s: State, x: int, p: pid)
    requires Matched(s) && Running(s) && p != s.cur && EntryOf(s, s.cur, p) == Some(-1)
    ensures !NoDanglingWaiter(SysExit(s, x), p)
  {
    assert Paired(s, p, s.cur);
    ExitEntry(s, x, s.cur, p);
    ExitLists(s, x, p);
    var i :| 0 <= i < MAX_WAITERS && Proc(s, p).waiters[i] == s.cur;
    assert Proc(SysExit(s, x), p).waiters[i] == s.cur;
  }

  /** q holds an entry without a result for p, and no exit of p will fill it in. */
  predicate Stuck(s: State, q: pid, p: pid) {
    p != q && Active(s, q) && EntryOf(s, q, p) == Some(-1) && q !in Proc(s, p).waiters
  }

  /** The exit status -1 gets lost: the waiter is stuck at once. */
  lemma StatusMinusOneIsLost(s: State, q: pid, p: pid)
    requires Running(s) && Registered(s, q, p) && s.cur == p
    ensures Stuck(SysExit(s, -1), q, p)
  {
    ExitEntry(s, -1, q, p);
    ExitLists(s, -1, q);
    ExitLists(s, -1, p);
    FreeListIsEmpty(q);
  }

  lemma StuckStep(s: State, a: Step, q: pid, p: pid)
    requires Enabled(s, a) && OneEntryEverywhere(s) && Stuck(s, q, p) && !Exits(s, a, q)
    ensures Stuck(Apply(s, a), q, p)
  {
    if IsExit(a) {
      ExitEntry(s, StatusOf(a), q, p);
      ExitLists(s, StatusOf(a), q);
      ExitLists(s, StatusOf(a), p);
      FreeListIsEmpty(q);
    } else if a.Wait? {
      WaitKeepsPair(s, s.cur, a.child, q, p);
      WaitLists(s, s.cur, a.child, p);
    } else if IsFork(a) {
      ForkLists(s, q);
      ForkedWaiting(s, s.cur);
      ForkedWaiters(s, p, q);
      if a.ForkWait? {
        WaitKeepsPair(SysFork(s), s.cur, SysFork(s).cur, q, p);
        WaitLists(SysFork(s), s.cur, SysFork(s).cur, p);
      }
    } else {
      OtherLists(s, a, q);
      OtherLists(s, a, p);
    }
  }

  /** A stuck waiter is told -1, "still running", in every run until it exits itself. */
  lemma {:induction false} StuckForever(s: State, steps: seq<Step>, q: pid, p: pid)
    requires Legal(s, steps) && OneEntryEverywhere(s) && Stuck(s, q, p)
    requires Along(s, steps, (t, a) => !Exits(t, a, q))
    ensures WaitFor(Run(s, steps), q, p).1 == -1
    decreases |steps|
  {
    if steps == [] {
      WaitResult(s, q, p);
    } else {
      StuckStep(s, steps[0], q, p);
      StepKeepsOneEntry(s, steps[0]);
      StuckForever(Apply(s, steps[0]), steps[1..], q, p);
    }
  }
}
