/** The scheduling decision and the effect of one scheduler call (scheduler.c). */
module Scheduler {
  import opened Processes

  function Type(s: State, p: pid): ProcessType {
    Proc(s, p).pri.ptype
  }

  function Waited(s: State, p: pid): int {
    Proc(s, p).pri.waitingTime
  }

  function Other(ty: ProcessType): ProcessType {
    if ty == Background then Interactive else Background
  }

  /** The time slice: scheduler calls that only count down before the next switch. */
  function Slice(ty: ProcessType): int {
    if ty == Interactive then 1 else 6
  }

  /** The i-th process of the circular scan that starts after the current process. */
  function Candidate(cur: pid, i: int): pid {
    (cur + i) % MAX_PROCESSES + 1
  }

  predicate Eligible(s: State, ty: ProcessType, p: pid) {
    Active(s, p) && Type(s, p) == ty
  }

  /** The scan of next_pid_with_type over its first n candidates. */
  function Scan(s: State, ty: ProcessType, n: nat): (r: int)
    requires n <= MAX_PROCESSES
    ensures r == -1 || 1 <= r <= MAX_PROCESSES
  {
    if n == 0 then -1
    else
      var best := Scan(s, ty, n - 1);
      var p := Candidate(s.cur, n - 1);
      if Eligible(s, ty, p) && Waited(s, p) > (if best == -1 then -1 else Waited(s, best)) then p else best
  }

  function NextPidWithType(s: State, ty: ProcessType): (r: int)
    ensures r == -1 || 1 <= r <= MAX_PROCESSES
  {
    Scan(s, ty, MAX_PROCESSES)
  }

  /** next_pid without its clause on the number of active processes; Machine.Kernel.NextPid shows
      that the clause makes no difference. */
  function NextPid(s: State): (r: int)
    ensures r == -1 || 1 <= r <= MAX_PROCESSES
  {
    var p := NextPidWithType(s, Other(Type(s, s.cur)));
    if p == -1 then NextPidWithType(s, Type(s, s.cur)) else p
  }

  function AgedEntry(s: State, p: pid): Pcb {
    var b := Proc(s, p);
    if Active(s, p) && p != s.cur then b.(pri := b.pri.(waitingTime := b.pri.waitingTime + 1)) else b
  }

  function UpdateWaiting(s: State): State {
    State(seq(MAX_PROCESSES, i requires 0 <= i < MAX_PROCESSES => AgedEntry(s, i + 1)),
          s.cur, s.ctx, s.bursts, s.tos)
  }

  function WithPri(s: State, p: pid, pri: Priority): State {
    WithProc(s, p, Proc(s, p).(pri := pri))
  }

  /** Switch to p and give it a fresh slice. */
  function Dispatch(s: State, p: pid): State {
    var t := SetCurrent(s, p);
    var pri := Proc(t, p).pri;
    WithPri(t, p, pri.(waitingTime := 0, timeLeft := Slice(pri.ptype), cpuBurst := pri.cpuBurst + 1))
  }

  /** One call of the scheduler. */
  function Schedule(s: State): State {
    var u := UpdateWaiting(s);
    var pri := Proc(u, u.cur).pri;
    if pri.timeLeft > 0 then WithPri(u, u.cur, pri.(timeLeft := pri.timeLeft - 1))
    else
      var p := NextPid(u);
      if p == -1 then u else Dispatch(u, p)
  }

  /** How far p is from the current process in the circular scan: 0 for the next pid, 29 for the
      current process itself. */
  function Distance(cur: pid, p: pid): (d: int)
    ensures 0 <= d < MAX_PROCESSES
    ensures Candidate(cur, d) == p
  {
    (p - cur - 1) % MAX_PROCESSES
  }

  lemma CandidateDistance(cur: pid, i: int)
    requires 0 <= i < MAX_PROCESSES
    ensures Distance(cur, Candidate(cur, i)) == i
    ensures Candidate(cur, MAX_PROCESSES - 1) == cur
  {
  }

  /** r is the eligible process of type ty that waited longest, the nearest one among equals. */
  predicate IsLongestWaiter(s: State, ty: ProcessType, r: pid) {
    && Eligible(s, ty, r)
    && forall q: pid :: Eligible(s, ty, q) ==>
         Waited(s, q) < Waited(s, r)
         || (Waited(s, q) == Waited(s, r) && Distance(s.cur, r) <= Distance(s.cur, q))
  }

  ghost predicate NonNegativeWaits(s: State) {
    forall p: pid :: Waited(s, p) >= 0
  }

  lemma {:induction false} ScanPrefix(s: State, ty: ProcessType, n: nat)
    requires n <= MAX_PROCESSES && NonNegativeWaits(s)
    ensures var r := Scan(s, ty, n);
            && (r == -1 ==> forall i :: 0 <= i < n ==> !Eligible(s, ty, Candidate(s.cur, i)))
            && (r != -1 ==>
                  && Eligible(s, ty, r) && Distance(s.cur, r) < n
                  && forall i :: 0 <= i < n && Eligible(s, ty, Candidate(s.cur, i)) ==>
                       Waited(s, Candidate(s.cur, i)) < Waited(s, r)
                       || (Waited(s, Candidate(s.cur, i)) == Waited(s, r) && Distance(s.cur, r) <= i))
  {
    if n > 0 {
      ScanPrefix(s, ty, n - 1);
      CandidateDistance(s.cur, n - 1);
    }
  }

  /** next_pid_with_type returns -1 exactly when no process of the type is active, and otherwise
      the longest waiter, ties going to the process that comes first after the current one. */
  lemma NextPidWithTypeIsLongestWaiter(s: State, ty: ProcessType)
    requires NonNegativeWaits(s)
    ensures var r := NextPidWithType(s, ty);
            && (r == -1 <==> forall p: pid :: !Eligible(s, ty, p))
            && (r != -1 ==> IsLongestWaiter(s, ty, r))
  {
    ScanPrefix(s, ty, MAX_PROCESSES);
    var r := NextPidWithType(s, ty);
    forall p: pid | Eligible(s, ty, p)
      ensures r != -1
      ensures Waited(s, p) < Waited(s, r)
              || (Waited(s, p) == Waited(s, r) && Distance(s.cur, r) <= Distance(s.cur, p))
    {
      assert Candidate(s.cur, Distance(s.cur, p)) == p;
    }
  }

  lemma LongestWaiterIsUnique(s: State, ty: ProcessType, r: pid, q: pid)
    requires IsLongestWaiter(s, ty, r) && IsLongestWaiter(s, ty, q)
    ensures r == q
  {
  }

  /** next_pid returns -1 exactly when nothing is active. Otherwise it takes the longest waiter of
      the type the current process does not have, and of the current type only when the other
      type has no active process. */
  lemma NextPidChoice(s: State)
    requires NonNegativeWaits(s)
    ensures var r := NextPid(s);
            var other := Other(Type(s, s.cur));
            && (r == -1 <==> forall p: pid :: !Active(s, p))
            && (r != -1 ==>
                  if exists p: pid :: Eligible(s, other, p) then IsLongestWaiter(s, other, r)
                  else IsLongestWaiter(s, Type(s, s.cur), r))
  {
    var ty := Type(s, s.cur);
    NextPidWithTypeIsLongestWaiter(s, ty);
    NextPidWithTypeIsLongestWaiter(s, Other(ty));
    forall p: pid | Active(s, p)
      ensures Eligible(s, ty, p) || Eligible(s, Other(ty), p)
    {
    }
    if NextPid(s) == -1 {
      forall p: pid
        ensures !Active(s, p)
      {
        assert !Eligible(s, ty, p) && !Eligible(s, Other(ty), p);
      }
    }
  }
}
