/** The kernel as the C code has it: a table of entries, a current process and a live context, all
    changed in place. Every method is proved against the function of the same name on states. */
module Machine {
  import opened Words
  import opened Processes
  import opened Scheduler
  import opened SystemCalls

  /** update_waiters after the first i waiter slots of p. */
  ghost function Served(s: State, p: pid, x: int, i: nat): State
    requires i <= MAX_WAITERS
  {
    if i == 0 then s
    else
      var t := Served(s, p, x, i - 1);
      var q := Proc(t, p).waiters[i - 1];
      if 1 <= q <= MAX_PROCESSES then ClearSlot(Notify(t, q, p, x), p, i - 1) else t
  }

  ghost function Notify(s: State, q: pid, p: pid, x: int): State {
    WithProc(s, q, Proc(s, q).(waiting := Resolve(Proc(s, q).waiting, p, x)))
  }

  ghost function ClearSlot(s: State, p: pid, i: nat): State
    requires i < MAX_WAITERS
  {
    WithProc(s, p, Proc(s, p).(waiters := Proc(s, p).waiters[i := 0]))
  }

  ghost function ServedPcb(s: State, p: pid, x: int, i: nat, q: pid): Pcb
    requires i <= MAX_WAITERS
  {
    var w := Proc(s, p).waiters;
    var b := if q in w[..i] then Proc(s, q).(waiting := Resolve(Proc(s, q).waiting, p, x)) else Proc(s, q);
    if q == p then b.(waiters := FreeWaiterList()[..i] + w[i..]) else b
  }

  lemma {:induction false} ServedEntry(s: State, p: pid, x: int, i: nat, q: pid)
    requires i <= MAX_WAITERS && NoDanglingWaiter(s, p)
    ensures Proc(Served(s, p, x, i), q) == ServedPcb(s, p, x, i, q)
  {
    if i == 0 {
      assert FreeWaiterList()[..0] + Proc(s, p).waiters[0..] == Proc(s, p).waiters;
    } else {
      ServedEntry(s, p, x, i - 1, q);
      ServedEntry(s, p, x, i - 1, p);
      ClearedSlots(Proc(s, p).waiters, i);
      ServeStep(Served(s, p, x, i - 1), s, p, x, i, q);
    }
  }

  lemma {:induction false} ServedFrame(s: State, p: pid, x: int, i: nat)
    requires i <= MAX_WAITERS
    ensures var t := Served(s, p, x, i); t.cur == s.cur && t.ctx == s.ctx && t.bursts == s.bursts && t.tos == s.tos
  {
    if i > 0 {
      ServedFrame(s, p, x, i - 1);
    }
  }

  lemma ClearedSlots(w: WaiterList, i: nat)
    requires 0 < i <= MAX_WAITERS
    ensures w[..i] == w[..i - 1] + [w[i - 1]]
    ensures FreeWaiterList()[..i] + w[i..] == (FreeWaiterList()[..i - 1] + w[i - 1..])[i - 1 := 0]
  {
  }

  lemma ServeStep(t: State, s: State, p: pid, x: int, i: nat, q: pid)
    requires 0 < i <= MAX_WAITERS && NoDanglingWaiter(s, p)
    requires Proc(t, p) == ServedPcb(s, p, x, i - 1, p) && Proc(t, q) == ServedPcb(s, p, x, i - 1, q)
    requires var w := Proc(s, p).waiters;
             && w[..i] == w[..i - 1] + [w[i - 1]]
             && FreeWaiterList()[..i] + w[i..] == (FreeWaiterList()[..i - 1] + w[i - 1..])[i - 1 := 0]
    ensures var r := Proc(t, p).waiters[i - 1];
            ServedPcb(s, p, x, i, q)
            == Proc(if 1 <= r <= MAX_PROCESSES then ClearSlot(Notify(t, r, p, x), p, i - 1) else t, q)
  {
    var r := Proc(t, p).waiters[i - 1];
    assert r == Proc(s, p).waiters[i - 1];
    NotifiedOnce(s, p, x, q);
    if r != 0 {
      assert 1 <= r <= MAX_PROCESSES;
      var n := Notify(t, r, p, x);
      assert Proc(n, q) == if q == r then Proc(t, q).(waiting := Resolve(Proc(t, q).waiting, p, x)) else Proc(t, q);
      assert Proc(n, p).waiters == Proc(t, p).waiters;
    } else {
      assert FreeWaiterList()[..i] + Proc(s, p).waiters[i..] == FreeWaiterList()[..i - 1] + Proc(s, p).waiters[i - 1..];
    }
  }

  lemma ServedIsUpdated(s: State, p: pid, x: int)
    requires NoDanglingWaiter(s, p)
    ensures Served(s, p, x, MAX_WAITERS) == UpdateWaiters(s, p, x)
  {
    var t, w := Served(s, p, x, MAX_WAITERS), Proc(s, p).waiters;
    assert w[..MAX_WAITERS] == w;
    forall i | 0 <= i < MAX_PROCESSES
      ensures t.pcb[i] == UpdateWaiters(s, p, x).pcb[i]
    {
      ServedEntry(s, p, x, MAX_WAITERS, i + 1);
      assert Proc(t, i + 1) == ResolvedEntry(s, p, x, i + 1);
    }
    ServedFrame(s, p, x, MAX_WAITERS);
  }

  /** A process with an entry for p still has it, in the same slot, once it has been served. */
  lemma NotifiedOnce(s: State, p: pid, x: int, q: pid)
    ensures var w := Resolve(Proc(s, q).waiting, p, x);
            Slot(w, p) == Slot(Proc(s, q).waiting, p) && Resolve(w, p, x) == w
  {
    var w := Proc(s, q).waiting;
    var j := Slot(w, p);
    if j != -1 {
      var r := Resolve(w, p, x);
      assert r[j].pid == p && forall k :: 0 <= k < j ==> r[k].pid != p;
      var l := Slot(r, p);
      assert l == j;
    }
  }

  lemma UpdateKeepsWaits(s: State)
    requires NonNegativeWaits(s)
    ensures NonNegativeWaits(UpdateWaiting(s))
  {
    forall q: pid
      ensures Waited(UpdateWaiting(s), q) >= 0
    {
      assert Proc(UpdateWaiting(s), q) == AgedEntry(s, q);
      assert Waited(s, q) >= 0;
    }
  }

  lemma TerminatedKeepsWaits(s: State, x: int)
    requires NonNegativeWaits(s)
    ensures NonNegativeWaits(Terminated(s, x))
  {
    var u := UpdateWaiters(s, s.cur, x);
    var o := FixOrphans(u, s.cur);
    forall q: pid
      ensures Waited(Terminated(s, x), q) >= 0
    {
      assert Proc(u, q) == ResolvedEntry(s, s.cur, x, q);
      assert Proc(o, q) == OrphanedEntry(u, s.cur, q);
      assert Waited(s, q) >= 0;
    }
  }

  class Kernel {
    const pcb: array<Pcb>
    const tos: word
    var current: pid
    var ctx: Ctx
    var bursts: int

    ghost predicate Valid() {
      pcb.Length == MAX_PROCESSES
    }

    ghost function St(): State
      requires Valid()
      reads this, pcb
    {
      State(pcb[..], current, ctx, bursts, tos)
    }

    constructor (tos: word, console: word)
      ensures Valid() && fresh(pcb)
      ensures St() == Processes.State(St().pcb, 1, St().ctx, 0, tos) && St() == Reset(tos, console)
    {
      this.tos := tos;
      this.current := 1;
      this.bursts := 0;
      this.ctx := InitialCtx(0);
      pcb := new Pcb[MAX_PROCESSES](_ => Blank(0, 0, 0));
      new;
      var i := 0;
      while i < MAX_PROCESSES
        invariant 0 <= i <= MAX_PROCESSES && Valid()
        invariant forall k :: 0 <= k < i ==> pcb[k] == Blank(0, 0, StackPointer(tos, k + 1))
        modifies pcb
      {
        pcb[i] := Blank(0, 0, StackPointer(tos, i + 1));
        i := i + 1;
      }
      pcb[0] := pcb[0].(ctx := pcb[0].ctx.(pc := console));
      pcb[0] := pcb[0].(pri := pcb[0].pri.(ptype := Interactive));
      ctx := pcb[0].ctx;
      assert pcb[..] == Reset(tos, console).pcb;
    }

    /** The number of active processes. The C loop starts at pid 0 and so also reads the memory
        before the table; stray is what it finds there. */
    method ActiveProcessCount(stray: bool) returns (count: int)
      requires Valid()
      ensures count == (if stray then 1 else 0) + |set p: pid | 1 <= p <= MAX_PROCESSES && Active(St(), p)|
    {
      count := if stray then 1 else 0;
      ghost var seen: set<pid> := {};
      for p := 1 to MAX_PROCESSES + 1
        invariant seen == set q: pid | 1 <= q < p && Active(St(), q)
        invariant count == (if stray then 1 else 0) + |seen|
      {
        assert (set q: pid | 1 <= q < p + 1 && Active(St(), q)) == if Active(St(), p) then seen + {p} else seen;
        seen := if pcb[p - 1].ctx.pc != 0 then seen + {p} else seen;
        if pcb[p - 1].ctx.pc != 0 {
          count := count + 1;
        }
      }
      assert seen == set p: pid | 1 <= p <= MAX_PROCESSES && Active(St(), p);
    }

    method NextPidWithType(ty: ProcessType) returns (next: int)
      requires Valid()
      ensures next == Scheduler.NextPidWithType(St(), ty)
    {
      var maxWaitingTime := -1;
      next := -1;
      for i := 0 to MAX_PROCESSES
        invariant next == Scan(St(), ty, i)
        invariant maxWaitingTime == if next == -1 then -1 else Waited(St(), next)
      {
        var p := (current + i) % MAX_PROCESSES + 1;
        if pcb[p - 1].ctx.pc == 0 {
          continue;
        }
        var pri := pcb[p - 1].pri;
        if pri.ptype == ty && pri.waitingTime > maxWaitingTime {
          next := p;
          maxWaitingTime := pri.waitingTime;
        }
      }
    }

    /** The clause on the number of active processes never changes the answer, whatever lies before
        the table: the chosen process has the type that the current one has not. */
    method NextPid(stray: bool) returns (p: int)
      requires Valid() && NonNegativeWaits(St())
      ensures p == Scheduler.NextPid(St())
    {
      var next := if pcb[current - 1].pri.ptype == Background then Interactive else Background;
      p := NextPidWithType(next);
      NextPidWithTypeIsLongestWaiter(St(), next);
      var count := ActiveProcessCount(stray);
      if p == -1 || (p == current && count > 1) {
        p := NextPidWithType(pcb[current - 1].pri.ptype);
      }
    }

    method UpdateWaiting()
      requires Valid()
      modifies pcb
      ensures St() == Scheduler.UpdateWaiting(old(St()))
    {
      for i := 0 to MAX_PROCESSES
        invariant forall p: pid :: pcb[p - 1] ==
                    if Distance(current, p) < i then AgedEntry(old(St()), p) else old(Proc(St(), p))
      {
        var p := (current + i) % MAX_PROCESSES + 1;
        CandidateDistance(current, i);
        if pcb[p - 1].ctx.pc != 0 && p != current {
          var b := pcb[p - 1];
          pcb[p - 1] := b.(pri := b.pri.(waitingTime := b.pri.waitingTime + 1));
        }
      }
      ghost var was := old(St());
      assert forall i :: 0 <= i < MAX_PROCESSES ==> pcb[i] == AgedEntry(was, i + 1);
      assert pcb[..] == Scheduler.UpdateWaiting(was).pcb;
    }

    method SetCurrent(p: pid)
      requires Valid()
      modifies this, pcb
      ensures St() == Processes.SetCurrent(old(St()), p)
    {
      if current == p {
        return;
      }
      pcb[current - 1] := pcb[current - 1].(ctx := ctx);
      current := p;
      ctx := pcb[current - 1].ctx;
    }

    /** The end of the scheduler: switch to p and fill in its priority. */
    method Dispatch(p: pid)
      requires Valid()
      modifies this, pcb
      ensures St() == Scheduler.Dispatch(old(St()), p)
    {
      SetCurrent(p);
      var pri := pcb[current - 1].pri.(waitingTime := 0);
      if pri.ptype == Interactive {
        pri := pri.(timeLeft := 1);
      } else {
        pri := pri.(timeLeft := 6);
      }
      pcb[current - 1] := pcb[current - 1].(pri := pri.(cpuBurst := pri.cpuBurst + 1));
    }

    method SchedulerCall(stray: bool)
      requires Valid() && NonNegativeWaits(St())
      modifies this, pcb
      ensures St() == Schedule(old(St()))
    {
      UpdateWaiting();
      UpdateKeepsWaits(old(St()));
      var pri := pcb[current - 1].pri;
      if pri.timeLeft > 0 {
        pcb[current - 1] := pcb[current - 1].(pri := pri.(timeLeft := pri.timeLeft - 1));
        return;
      }
      var p := NextPid(stray);
      if p == -1 {
        return;
      }
      Dispatch(p);
    }

    method NewProcess(p: pid, ppid: int)
      requires Valid()
      modifies pcb
      ensures St() == Processes.NewProcess(old(St()), p, ppid)
    {
      pcb[p - 1] := Blank(ppid, bursts, StackPointer(tos, p));
    }

    method FreePid() returns (p: int)
      requires Valid()
      ensures p == FreePidFrom(St(), 1)
    {
      p := 1;
      while p <= MAX_PROCESSES
        invariant 1 <= p <= MAX_PROCESSES + 1
        invariant FreePidFrom(St(), 1) == FreePidFrom(St(), p)
      {
        if pcb[p - 1].ctx.pc == 0 {
          return;
        }
        p := p + 1;
      }
      p := -1;
    }

    method Timer(stray: bool)
      requires Valid() && NonNegativeWaits(St())
      modifies this, pcb
      ensures St() == Tick(old(St()))
    {
      bursts := bursts + 1;
      assert NonNegativeWaits(St()) by {
        assert forall p: pid :: Waited(St(), p) == Waited(old(St()), p);
      }
      SchedulerCall(stray);
    }

    method SysYield(stray: bool)
      requires Valid() && NonNegativeWaits(St())
      modifies this, pcb
      ensures St() == SystemCalls.SysYield(old(St()))
    {
      pcb[current - 1] := pcb[current - 1].(pri := pcb[current - 1].pri.(timeLeft := 0));
      assert NonNegativeWaits(St()) by {
        assert forall p: pid :: Waited(St(), p) == Waited(old(St()), p);
      }
      SchedulerCall(stray);
    }

    method SysFork()
      requires Valid()
      modifies this, pcb
      ensures St() == SystemCalls.SysFork(old(St()))
    {
      var p := FreePid();
      if p == -1 {
        ctx := ctx.(r0 := ToWord(-1));
        return;
      }
      NewProcess(p, current);
      pcb[p - 1] := pcb[p - 1].(ctx := ctx);
      ctx := ctx.(r0 := ToWord(p));
      pcb[p - 1] := pcb[p - 1].(ctx := pcb[p - 1].ctx.(r0 := 0));
      ghost var was := old(St());
      assert St() == WithR0(WithProc(was, p, Child(was, p)), p);
      SetCurrent(p);
    }

    /** Every waiter of p gets result in its entry for p. */
    method UpdateWaiters(p: pid, result: int)
      requires Valid() && NoDanglingWaiter(St(), p)
      modifies pcb
      ensures St() == Processes.UpdateWaiters(old(St()), p, result)
    {
      ghost var was := St();
      for i := 0 to MAX_WAITERS
        invariant St() == Served(was, p, result, i)
      {
        ServedEntry(was, p, result, i, p);
        var q := pcb[p - 1].waiters[i];
        if q != 0 {
          ServedEntry(was, p, result, i, q);
          NotifiedOnce(was, p, result, q);
          var j := GetWaiting(q, p);
          var w := pcb[q - 1].waiting;
          pcb[q - 1] := pcb[q - 1].(waiting := w[j := w[j].(result := result)]);
          pcb[p - 1] := pcb[p - 1].(waiters := pcb[p - 1].waiters[i := 0]);
        }
      }
      ServedIsUpdated(was, p, result);
    }

    /** The slot in which q waits for p, or -1. */
    method GetWaiting(q: pid, p: int) returns (j: int)
      requires Valid()
      ensures j == Slot(Proc(St(), q).waiting, p)
    {
      j := 0;
      while j < MAX_WAITING
        invariant 0 <= j <= MAX_WAITING
        invariant Slot(Proc(St(), q).waiting, p) == SlotFrom(Proc(St(), q).waiting, p, j)
      {
        if pcb[q - 1].waiting[j].pid == p {
          return;
        }
        j := j + 1;
      }
      j := -1;
    }

    /** Registers q as a waiter of p and returns q's slot, or -1. */
    method SetWaiting(q: pid, p: pid) returns (j: int)
      requires Valid()
      modifies pcb
      ensures (St(), j) == Processes.SetWaiting(old(St()), q, p)
    {
      if pcb[p - 1].ctx.pc == 0 {
        return -1;
      }
      var i := 0;
      while i < MAX_WAITERS && pcb[p - 1].waiters[i] != 0
        invariant 0 <= i <= MAX_WAITERS
        invariant FreeWaiter(Proc(St(), p).waiters) == FreeWaiterFrom(Proc(St(), p).waiters, i)
      {
        i := i + 1;
      }
      if i == MAX_WAITERS {
        return -1;
      }
      pcb[p - 1] := pcb[p - 1].(waiters := pcb[p - 1].waiters[i := q]);
      j := GetWaiting(q, 0);
      if j != -1 {
        pcb[q - 1] := pcb[q - 1].(waiting := pcb[q - 1].waiting[j := Waiting(p, -1)]);
      }
    }

    /** sys_wait for q, without the write of r0. */
    method WaitFor(q: pid, p: pid) returns (result: int)
      requires Valid()
      modifies pcb
      ensures (St(), result) == SystemCalls.WaitFor(old(St()), q, p)
    {
      var j := GetWaiting(q, p);
      if j == -1 {
        j := SetWaiting(q, p);
        if j == -1 {
          return -2;
        }
      }
      result := pcb[q - 1].waiting[j].result;
      if result == -1 {
        return;
      }
      pcb[q - 1] := pcb[q - 1].(waiting := pcb[q - 1].waiting[j := Waiting(0, -1)]);
    }

    method SysWait(p: pid)
      requires Valid()
      modifies this, pcb
      ensures St() == SystemCalls.SysWait(old(St()), p)
    {
      var result := WaitFor(current, p);
      ctx := ctx.(r0 := ToWord(result));
    }

    method SysForkWait()
      requires Valid()
      modifies this, pcb
      ensures St() == SystemCalls.SysForkWait(old(St()))
    {
      var previous := current;
      SysFork();
      var result := WaitFor(previous, current);
    }

    method FixOrphanedProcesses(ppid: pid)
      requires Valid()
      modifies pcb
      ensures St() == FixOrphans(old(St()), ppid)
    {
      ghost var was := St();
      for p := 1 to MAX_PROCESSES + 1
        invariant forall i :: 0 <= i < MAX_PROCESSES ==>
                    pcb[i] == if i < p - 1 then OrphanedEntry(was, ppid, i + 1) else was.pcb[i]
      {
        if pcb[p - 1].ppid == ppid {
          pcb[p - 1] := pcb[p - 1].(ppid := 0);
        }
      }
      assert pcb[..] == FixOrphans(was, ppid).pcb;
    }

    method SysExit(x: int, stray: bool)
      requires Valid() && NonNegativeWaits(St()) && NoDanglingWaiter(St(), current)
      modifies this, pcb
      ensures St() == SystemCalls.SysExit(old(St()), x)
    {
      UpdateWaiters(current, x);
      FixOrphanedProcesses(current);
      NewProcess(current, 0);
      ctx := InitialCtx(StackPointer(tos, current));
      assert St() == Terminated(old(St()), x);
      TerminatedKeepsWaits(old(St()), x);
      SchedulerCall(stray);
    }

    method SysExec(entry: word, interactive: bool, args: word, stray: bool)
      requires Valid() && NonNegativeWaits(St()) && (entry == 0 ==> NoDanglingWaiter(St(), current))
      modifies this, pcb
      ensures St() == SystemCalls.SysExec(old(St()), entry, interactive, args)
    {
      if entry == 0 {
        SysExit(EXIT_FAILURE, stray);
        return;
      }
      pcb[current - 1] := pcb[current - 1].(ctx := InitialCtx(StackPointer(tos, current)));
      pcb[current - 1] := pcb[current - 1].(ctx := pcb[current - 1].ctx.(pc := entry));
      if interactive {
        pcb[current - 1] := pcb[current - 1].(pri := pcb[current - 1].pri.(ptype := Interactive));
      }
      pcb[current - 1] := pcb[current - 1].(ctx := pcb[current - 1].ctx.(r0 := args));
      ctx := pcb[current - 1].ctx;
    }

    /** The process that holds ptr as shared memory for p: p itself if it shares ptr, else its parent if
        that does, else nobody. */
    method IsShared(p: pid, ptr: word) returns (o: int)
      requires Valid()
      ensures o == SharedOwner(St(), p, ptr)
      ensures o != -1 ==> 1 <= o <= MAX_PROCESSES && (o == p || o == Proc(St(), p).ppid)
      ensures o != -1 ==> Proc(St(), o).shared.ptr == ptr
      ensures Proc(St(), p).shared.ptr == ptr ==> o == p
      ensures o == -1 ==> forall q: pid :: q == p || q == Proc(St(), p).ppid ==> Proc(St(), q).shared.ptr != ptr
    {
      var ppid := pcb[p - 1].ppid;
      if pcb[p - 1].shared.ptr == ptr {
        return p;
      } else if 1 <= ppid <= MAX_PROCESSES && pcb[ppid - 1].shared.ptr == ptr {
        return ppid;
      }
      return -1;
    }

    method SysLock(ptr: word)
      requires Valid()
      modifies this, pcb
      ensures St() == SystemCalls.SysLock(old(St()), ptr)
    {
      var o := IsShared(current, ptr);
      var r := -1;
      if o != -1 {
        r := if pcb[o - 1].shared.locked then 0 else 1;
        pcb[o - 1] := pcb[o - 1].(shared := pcb[o - 1].shared.(locked := true));
      }
      ctx := ctx.(r0 := ToWord(r));
    }

    method SysUnlock(ptr: word)
      requires Valid()
      modifies this, pcb
      ensures St() == SystemCalls.SysUnlock(old(St()), ptr)
    {
      var o := IsShared(current, ptr);
      var r := -1;
      if o != -1 {
        r := if pcb[o - 1].shared.locked then 1 else 0;
        pcb[o - 1] := pcb[o - 1].(shared := pcb[o - 1].shared.(locked := false));
      }
      ctx := ctx.(r0 := ToWord(r));
    }

    method SysShare(ptr: word)
      requires Valid()
      modifies this, pcb
      ensures St() == SystemCalls.SysShare(old(St()), ptr)
    {
      if pcb[current - 1].shared.ptr != 0 {
        ctx := ctx.(r0 := 0);
        return;
      }
      pcb[current - 1] := pcb[current - 1].(shared := pcb[current - 1].shared.(ptr := ptr));
      ctx := ctx.(r0 := 1);
    }

    method SysUnshare(ptr: word)
      requires Valid()
      modifies this, pcb
      ensures St() == SystemCalls.SysUnshare(old(St()), ptr)
    {
      if pcb[current - 1].shared.ptr != ptr {
        ctx := ctx.(r0 := 0);
        return;
      }
      pcb[current - 1] := pcb[current - 1].(shared := pcb[current - 1].shared.(ptr := 0));
      ctx := ctx.(r0 := 1);
    }
  }
}
