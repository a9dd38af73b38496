/** The process table of the kernel and the operations on single entries of it (processes.c).
    The state is a value here; the class in Machine.dfy keeps it in a mutable table. */
module Processes {
  import opened Words

  const MAX_PROCESSES := 30
  const MAX_WAITING := 20
  const MAX_WAITERS := 5
  const PROGRAM_STACK_SIZE := 4096
  const USER_MODE: word := 0x50

  type pid = p: int | 1 <= p <= 30 witness 1

  /** A saved processor state; r0 is kept apart from the other twelve general registers
      because the kernel passes results in it. */
  datatype Ctx = Ctx(cpsr: word, pc: word, r0: word, r1to12: seq<word>, sp: word, lr: word)

  datatype ProcessType = Background | Interactive

  datatype Priority = Priority(level: int, ioBurst: int, cpuBurst: int, arrival: int,
                               timeLeft: int, waitingTime: int, ptype: ProcessType)

  datatype Shared = Shared(ptr: word, locked: bool)

  /** An entry "this process waits for pid"; result is -1 until that process exits.
      A slot whose pid is 0 is free. */
  datatype Waiting = Waiting(pid: int, result: int)

  type WaitingList = w: seq<Waiting> | |w| == 20 witness seq(20, _ => Waiting(0, 0))
  type WaiterList = w: seq<int> | |w| == 5 witness seq(5, _ => 0)

  /** One table entry. The entry of process p sits at index p-1, so its pid field is left out. */
  datatype Pcb = Pcb(ppid: int, ctx: Ctx, pri: Priority, shared: Shared,
                     waiting: WaitingList, waiters: WaiterList)

  type Table = t: seq<Pcb> | |t| == 30 witness seq(30, i => Blank(0, 0, 0))

  /** The whole kernel: the table, the current process, the context the processor will resume
      with, the number of timer ticks so far, and the base of the program stacks. */
  datatype State = State(pcb: Table, cur: pid, ctx: Ctx, bursts: int, tos: word)

  function FreeWaitingList(): WaitingList {
    seq(MAX_WAITING, i => Waiting(0, 0))
  }

  function FreeWaiterList(): WaiterList {
    [0, 0, 0, 0, 0]
  }

  function InitialCtx(sp: word): Ctx {
    Ctx(USER_MODE, 0, 0, seq(12, _ => 0), sp, 0)
  }

  /** A zeroed entry with fresh priority and context, as new_process leaves it. */
  function Blank(ppid: int, bursts: int, sp: word): Pcb {
    Pcb(ppid, InitialCtx(sp), Priority(0, 0, 0, bursts, 0, 0, Background), Shared(0, false),
        FreeWaitingList(), FreeWaiterList())
  }

  function StackPointer(tos: word, p: pid): word {
    ToWord(tos + PROGRAM_STACK_SIZE * (p - 1))
  }

  function Proc(s: State, p: pid): Pcb {
    s.pcb[p - 1]
  }

  function WithProc(s: State, p: pid, b: Pcb): State {
    s.(pcb := s.pcb[p - 1 := b])
  }

  predicate Active(s: State, p: pid) {
    Proc(s, p).ctx.pc != 0
  }

  function NewProcess(s: State, p: pid, ppid: int): State {
    WithProc(s, p, Blank(ppid, s.bursts, StackPointer(s.tos, p)))
  }

  /** The lowest inactive pid from p on, or -1. */
  function FreePidFrom(s: State, p: int): (r: int)
    requires 1 <= p <= MAX_PROCESSES + 1
    ensures r == -1 || p <= r <= MAX_PROCESSES
    ensures r != -1 ==> !Active(s, r) && forall q: pid :: p <= q < r ==> Active(s, q)
    ensures r == -1 ==> forall q: pid :: p <= q ==> Active(s, q)
    decreases MAX_PROCESSES + 1 - p
  {
    if p > MAX_PROCESSES then -1
    else if !Active(s, p) then p
    else FreePidFrom(s, p + 1)
  }

  /** The context switch: the live context goes to the old current entry, the saved context of p
      becomes live. */
  function SetCurrent(s: State, p: pid): State {
    if s.cur == p then s
    else WithProc(s, s.cur, Proc(s, s.cur).(ctx := s.ctx)).(cur := p, ctx := Proc(s, p).ctx)
  }

  /** The first slot of w from i on whose pid is p, or -1. */
  function SlotFrom(w: WaitingList, p: int, i: nat): (r: int)
    requires i <= MAX_WAITING
    ensures r == -1 || i <= r < MAX_WAITING
    ensures r != -1 ==> w[r].pid == p && forall k :: i <= k < r ==> w[k].pid != p
    ensures r == -1 ==> forall k :: i <= k < MAX_WAITING ==> w[k].pid != p
    decreases MAX_WAITING - i
  {
    if i == MAX_WAITING then -1
    else if w[i].pid == p then i
    else SlotFrom(w, p, i + 1)
  }

  function Slot(w: WaitingList, p: int): int {
    SlotFrom(w, p, 0)
  }

  /** The first free waiter slot from i on, or -1. */
  function FreeWaiterFrom(w: WaiterList, i: nat): (r: int)
    requires i <= MAX_WAITERS
    ensures r == -1 || i <= r < MAX_WAITERS
    ensures r != -1 ==> w[r] == 0 && forall k :: i <= k < r ==> w[k] != 0
    ensures r == -1 ==> forall k :: i <= k < MAX_WAITERS ==> w[k] != 0
    decreases MAX_WAITERS - i
  {
    if i == MAX_WAITERS then -1
    else if w[i] == 0 then i
    else FreeWaiterFrom(w, i + 1)
  }

  function FreeWaiter(w: WaiterList): int {
    FreeWaiterFrom(w, 0)
  }

  /** w with the result of its entry for p, if any, set to x. */
  function Resolve(w: WaitingList, p: int, x: int): WaitingList {
    var i := Slot(w, p);
    if i == -1 then w else w[i := w[i].(result := x)]
  }

  /** Every process named by a waiter slot of p has an entry for p. When this fails,
      update_waiters dereferences a null pointer. */
  predicate NoDanglingWaiter(s: State, p: pid) {
    forall i :: 0 <= i < MAX_WAITERS && Proc(s, p).waiters[i] != 0 ==>
      var q := Proc(s, p).waiters[i]; 1 <= q <= MAX_PROCESSES && Slot(Proc(s, q).waiting, p) != -1
  }

  function ResolvedEntry(s: State, p: pid, x: int, q: pid): Pcb {
    var b := if q in Proc(s, p).waiters
             then Proc(s, q).(waiting := Resolve(Proc(s, q).waiting, p, x)) else Proc(s, q);
    if q == p then b.(waiters := FreeWaiterList()) else b
  }

  /** Process p ends with status x: every waiter of p gets x in its entry for p. */
  function UpdateWaiters(s: State, p: pid, x: int): State {
    State(seq(MAX_PROCESSES, i requires 0 <= i < MAX_PROCESSES => ResolvedEntry(s, p, x, i + 1)),
          s.cur, s.ctx, s.bursts, s.tos)
  }

  /** Registration of q as a waiter of p. Note the order: the waiter slot of p is taken before
      it is known whether q has a free waiting slot. */
  function SetWaiting(s: State, q: pid, p: pid): (State, int) {
    var j := FreeWaiter(Proc(s, p).waiters);
    if !Active(s, p) || j == -1 then (s, -1) else SetWaitingSlot(AddWaiter(s, p, j, q), q, p)
  }

  function AddWaiter(s: State, p: pid, j: int, q: pid): State
    requires 0 <= j < MAX_WAITERS
  {
    WithProc(s, p, Proc(s, p).(waiters := Proc(s, p).waiters[j := q]))
  }

  function SetWaitingSlot(s: State, q: pid, p: pid): (State, int) {
    var i := Slot(Proc(s, q).waiting, 0);
    if i == -1 then (s, -1)
    else (WithProc(s, q, Proc(s, q).(waiting := Proc(s, q).waiting[i := Waiting(p, -1)])), i)
  }

  /** The process whose shared-memory slot holds ptr for p: p itself or else its parent.
      A process without a parent reads the entry before the table; that entry is taken never to
      hold ptr. */
  function SharedOwner(s: State, p: pid, ptr: word): (r: int)
    ensures r == -1 || 1 <= r <= MAX_PROCESSES
  {
    if Proc(s, p).shared.ptr == ptr then p
    else if 1 <= Proc(s, p).ppid <= MAX_PROCESSES && Proc(s, Proc(s, p).ppid).shared.ptr == ptr
    then Proc(s, p).ppid
    else -1
  }
}
