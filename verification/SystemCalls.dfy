/** The system calls on processes (system_calls.c), the timer interrupt and the reset handler
    (hilevel.c), and the runs of the kernel that they make up. */
module SystemCalls {
  import opened Words
  import opened Processes
  import opened Scheduler

  const EXIT_FAILURE := 1

  /** After a reset process 1 runs the console, an interactive process. */
  function Reset(tos: word, console: word): State {
    var first := Blank(0, 0, StackPointer(tos, 1));
    var started := first.(ctx := first.ctx.(pc := console), pri := first.pri.(ptype := Interactive));
    State(seq(MAX_PROCESSES, i requires 0 <= i < MAX_PROCESSES =>
            if i == 0 then started else Blank(0, 0, StackPointer(tos, i + 1))),
          1, started.ctx, 0, tos)
  }

  function WithR0(s: State, r: int): State {
    s.(ctx := s.ctx.(r0 := ToWord(r)))
  }

  function Tick(s: State): State {
    Schedule(s.(bursts := s.bursts + 1))
  }

  function SysYield(s: State): State {
    Schedule(WithPri(s, s.cur, Proc(s, s.cur).pri.(timeLeft := 0)))
  }

  /** The new entry of a child: a copy of the caller's live context that sees 0 in r0. */
  function Child(s: State, c: pid): Pcb {
    Blank(s.cur, s.bursts, StackPointer(s.tos, c)).(ctx := s.ctx.(r0 := 0))
  }

  function SysFork(s: State): State {
    var c := FreePidFrom(s, 1);
    if c == -1 then WithR0(s, -1)
    else SetCurrent(WithR0(WithProc(s, c, Child(s, c)), c), c)
  }

  /** The result in slot i of q; a result other than -1 is handed over and the slot freed. */
  function Collect(s: State, q: pid, i: int): (State, int)
    requires 0 <= i < MAX_WAITING
  {
    var r := Proc(s, q).waiting[i].result;
    if r == -1 then (s, -1)
    else (WithProc(s, q, Proc(s, q).(waiting := Proc(s, q).waiting[i := Waiting(0, -1)])), r)
  }

  /** sys_wait on behalf of q: -1 while p runs, -2 when the wait cannot be registered. */
  function WaitFor(s: State, q: pid, p: pid): (State, int) {
    var i := Slot(Proc(s, q).waiting, p);
    if i != -1 then Collect(s, q, i)
    else
      var (t, j) := SetWaiting(s, q, p);
      if j == -1 then (t, -2) else Collect(t, q, j)
  }

  function SysWait(s: State, p: pid): State {
    var (t, r) := WaitFor(s, s.cur, p);
    WithR0(t, r)
  }

  /** The result of the wait is dropped: only the registration matters. */
  function SysForkWait(s: State): State {
    var t := SysFork(s);
    WaitFor(t, s.cur, t.cur).0
  }

  function OrphanedEntry(s: State, p: pid, q: pid): Pcb {
    if Proc(s, q).ppid == p then Proc(s, q).(ppid := 0) else Proc(s, q)
  }

  function FixOrphans(s: State, p: pid): State {
    State(seq(MAX_PROCESSES, i requires 0 <= i < MAX_PROCESSES => OrphanedEntry(s, p, i + 1)),
          s.cur, s.ctx, s.bursts, s.tos)
  }

  /** The state in which sys_exit calls the scheduler: the caller is gone. */
  function Terminated(s: State, x: int): State {
    var t := NewProcess(FixOrphans(UpdateWaiters(s, s.cur, x), s.cur), s.cur, 0);
    t.(ctx := InitialCtx(StackPointer(s.tos, s.cur)))
  }

  function SysExit(s: State, x: int): State {
    Schedule(Terminated(s, x))
  }

  function SysExec(s: State, entry: word, interactive: bool, args: word): State {
    if entry == 0 then SysExit(s, EXIT_FAILURE)
    else
      var b := Proc(s, s.cur);
      var c := InitialCtx(StackPointer(s.tos, s.cur)).(pc := entry, r0 := args);
      var pri := if interactive then b.pri.(ptype := Interactive) else b.pri;
      WithProc(s, s.cur, b.(ctx := c, pri := pri)).(ctx := c)
  }

  function WithShared(s: State, p: pid, sh: Shared): State {
    WithProc(s, p, Proc(s, p).(shared := sh))
  }

  function SysShare(s: State, ptr: word): State {
    var sh := Proc(s, s.cur).shared;
    if sh.ptr != 0 then WithR0(s, 0) else WithR0(WithShared(s, s.cur, sh.(ptr := ptr)), 1)
  }

  function SysUnshare(s: State, ptr: word): State {
    var sh := Proc(s, s.cur).shared;
    if sh.ptr != ptr then WithR0(s, 0) else WithR0(WithShared(s, s.cur, sh.(ptr := 0)), 1)
  }

  function SysLock(s: State, ptr: word): State {
    var o := SharedOwner(s, s.cur, ptr);
    if o == -1 then WithR0(s, -1)
    else if Proc(s, o).shared.locked then WithR0(s, 0)
    else WithR0(WithShared(s, o, Proc(s, o).shared.(locked := true)), 1)
  }

  function SysUnlock(s: State, ptr: word): State {
    var o := SharedOwner(s, s.cur, ptr);
    if o == -1 then WithR0(s, -1)
    else if Proc(s, o).shared.locked then WithR0(WithShared(s, o, Proc(s, o).shared.(locked := false)), 1)
    else WithR0(s, 0)
  }

  /** One entry of the kernel, or a stretch of the current program between two entries. */
  datatype Step =
    | Timer
    | Yield
    | Fork
    | ForkWait
    | Exit(status: int)
    | Exec(entry: word, interactive: bool, args: word)
    | Wait(child: pid)
    | Share(ptr: word)
    | Unshare(ptr: word)
    | Lock(ptr: word)
    | Unlock(ptr: word)
    | User(ctx: Ctx)

  predicate IsExit(a: Step) {
    a.Exit? || (a.Exec? && a.entry == 0)
  }

  predicate IsFork(a: Step) {
    a.Fork? || a.ForkWait?
  }

  /** The current process can execute. It is false once the last process has exited. */
  predicate Running(s: State) {
    Active(s, s.cur) && s.ctx.pc != 0
  }

  /** A program never stands at address 0, the reset vector, and an exit must not follow a waiter
      slot to a missing entry. */
  predicate Enabled(s: State, a: Step) {
    && Running(s)
    && (a.User? ==> a.ctx.pc != 0)
    && (IsExit(a) ==> NoDanglingWaiter(s, s.cur))
  }

  function Apply(s: State, a: Step): State {
    match a
    case Timer => Tick(s)
    case Yield => SysYield(s)
    case Fork => SysFork(s)
    case ForkWait => SysForkWait(s)
    case Exit(x) => SysExit(s, x)
    case Exec(e, i, args) => SysExec(s, e, i, args)
    case Wait(p) => SysWait(s, p)
    case Share(ptr) => SysShare(s, ptr)
    case Unshare(ptr) => SysUnshare(s, ptr)
    case Lock(ptr) => SysLock(s, ptr)
    case Unlock(ptr) => SysUnlock(s, ptr)
    case User(c) => s.(ctx := c)
  }

  /** steps can be taken one after the other from s. */
  predicate Legal(s: State, steps: seq<Step>)
    decreases |steps|
  {
    steps == [] || (Enabled(s, steps[0]) && Legal(Apply(s, steps[0]), steps[1..]))
  }

  function Run(s: State, steps: seq<Step>): State
    decreases |steps|
  {
    if steps == [] then s else Run(Apply(s, steps[0]), steps[1..])
  }

  lemma {:induction false} RunConcat(s: State, a: seq<Step>, b: seq<Step>)
    ensures Run(s, a + b) == Run(Run(s, a), b)
    ensures Legal(s, a + b) <==> Legal(s, a) && Legal(Run(s, a), b)
    decreases |a|
  {
    if a == [] {
      assert a + b == b;
    } else {
      assert (a + b)[1..] == a[1..] + b;
      RunConcat(Apply(s, a[0]), a[1..], b);
    }
  }
}
