/** The dining philosophers program (dinning_philosophers.c): N processes that share an arbitrator
    record and a test-and-set lock, interleaved one memory access at a time. */
module Philosophers {
  import opened Sets

  const ITERATIONS := 10

  /** Where a philosopher stands. The positions from Check to Release lie between a successful
      lock and the unlock that ends it; j counts the iterations of the main loop. */
  datatype Pc =
    | NotStarted
    | LockForId
    | Check(i: nat)
    | ReadId(i: nat)
    | ClearId(i: nat)
    | Announce(i: nat)
    | ReleaseId
    | AwaitStart
    | Think(j: nat)
    | Acquire(j: nat)
    | LeftRead(j: nat)
    | LeftClear(j: nat)
    | RightRead(j: nat)
    | RightClear(j: nat)
    | Eat(j: nat)
    | PutLeft(j: nat)
    | PutRight(j: nat)
    | Release(j: nat)
    | Exited(status: int)

  /** A philosopher with its local variables. */
  datatype Phil = Phil(pc: Pc, id: int, eaten: int, left: int, right: int)

  /** The shared lock and arbitrator, and all philosophers. */
  datatype State = State(locked: bool, forks: seq<int>, ids: seq<int>, started: int, phils: seq<Phil>)

  function N(s: State): nat {
    |s.phils|
  }

  /** The state in which main_dp starts to spawn. */
  function Init(n: nat): State {
    State(false, seq(n, _ => 1), seq(n, i => i), 0, seq(n, _ => Phil(NotStarted, -1, 0, 0, 0)))
  }

  predicate Shaped(s: State) {
    && N(s) >= 2 && |s.forks| == N(s) && |s.ids| == N(s)
    && forall k :: 0 <= k < N(s) ==> InRange(s, s.phils[k])
  }

  /** The array indices that p is about to use lie within the arrays. */
  predicate InRange(s: State, p: Phil) {
    && (p.pc.Check? ==> p.pc.i <= N(s))
    && (p.pc.ReadId? || p.pc.ClearId? || p.pc.Announce? ==> p.pc.i < N(s))
    && (InFork(p.pc) ==> 0 <= p.id < N(s))
  }

  predicate InGetId(pc: Pc) {
    pc.Check? || pc.ReadId? || pc.ClearId? || pc.Announce? || pc.ReleaseId?
  }

  predicate InFork(pc: Pc) {
    || pc.LeftRead? || pc.LeftClear? || pc.RightRead? || pc.RightClear?
    || pc.Eat? || pc.PutLeft? || pc.PutRight? || pc.Release?
  }

  /** p is between a successful lock and its unlock. */
  predicate InCritical(pc: Pc) {
    InGetId(pc) || InFork(pc)
  }

  /** The index of the fork to the right of id. */
  function RightOf(s: State, id: int): int {
    if id + 1 == N(s) then 0 else id + 1
  }

  lemma RightOfFormula(s: State, id: nat)
    requires id < N(s)
    ensures RightOf(s, id) == (id + 1) % N(s)
  {
  }

  function WithPhil(s: State, k: nat, p: Phil): State
    requires k < N(s)
  {
    s.(phils := s.phils[k := p])
  }

  /** The next step of philosopher k; a step that has to wait leaves the state as it is. */
  function Next(s: State, k: nat): State
    requires Shaped(s) && k < N(s)
  {
    var p := s.phils[k];
    match p.pc
    case NotStarted => WithPhil(s, k, p.(pc := LockForId))
    case LockForId => if s.locked then s else WithPhil(s, k, p.(pc := Check(0))).(locked := true)
    case Check(i) =>
      if i == N(s) then WithPhil(s, k, p.(pc := ReleaseId))
      else if s.ids[i] != -1 then WithPhil(s, k, p.(pc := ReadId(i)))
      else WithPhil(s, k, p.(pc := Check(i + 1)))
    case ReadId(i) => WithPhil(s, k, p.(pc := ClearId(i), id := s.ids[i]))
    case ClearId(i) => WithPhil(s, k, p.(pc := Announce(i))).(ids := s.ids[i := -1])
    case Announce(i) =>
      WithPhil(s, k, p.(pc := ReleaseId)).(started := if i == N(s) - 1 then 1 else s.started)
    case ReleaseId => WithPhil(s, k, p.(pc := AwaitStart)).(locked := false)
    case AwaitStart => if s.started == 0 then s else WithPhil(s, k, p.(pc := Think(0)))
    case Think(j) => WithPhil(s, k, p.(pc := if j < ITERATIONS then Acquire(j) else Exited(p.eaten)))
    case Acquire(j) => if s.locked then s else WithPhil(s, k, p.(pc := LeftRead(j))).(locked := true)
    case LeftRead(j) => WithPhil(s, k, p.(pc := LeftClear(j), left := s.forks[p.id]))
    case LeftClear(j) =>
      WithPhil(s, k, p.(pc := RightRead(j))).(forks := if p.left != 0 then s.forks[p.id := 0] else s.forks)
    case RightRead(j) => WithPhil(s, k, p.(pc := RightClear(j), right := s.forks[RightOf(s, p.id)]))
    case RightClear(j) =>
      WithPhil(s, k, p.(pc := Eat(j))).(forks := if p.right != 0 then s.forks[RightOf(s, p.id) := 0] else s.forks)
    case Eat(j) =>
      WithPhil(s, k, p.(pc := PutLeft(j), eaten := if p.left != 0 && p.right != 0 then p.eaten + 1 else p.eaten))
    case PutLeft(j) =>
      WithPhil(s, k, p.(pc := PutRight(j))).(forks := if p.left != 0 then s.forks[p.id := 1] else s.forks)
    case PutRight(j) =>
      WithPhil(s, k, p.(pc := Release(j))).(forks := if p.right != 0 then s.forks[RightOf(s, p.id) := 1] else s.forks)
    case Release(j) => WithPhil(s, k, p.(pc := Think(j + 1))).(locked := false)
    case Exited(_) => s
  }

  /** The philosophers that have taken an id. */
  predicate HasId(pc: Pc) {
    pc.Announce? || pc.ReleaseId? || pc.AwaitStart? || pc.Think? || pc.Acquire? || InFork(pc) || pc.Exited?
  }

  ghost function Holders(s: State): set<nat> {
    set k: nat | k < N(s) && HasId(s.phils[k].pc)
  }

  /** The number of ids that are gone: they go in order, from 0 on. */
  ghost predicate Taken(s: State, t: nat) {
    && t <= N(s) && |s.ids| == N(s)
    && (forall i :: 0 <= i < N(s) ==> s.ids[i] == if i < t then -1 else i)
    && |Holders(s)| == t
  }

  /** What the position of p says about its variables and, given t ids gone, about the forks. */
  predicate Local(s: State, p: Phil, t: nat)
    requires Shaped(s)
  {
    && (HasId(p.pc) ==> 0 <= p.id < t)
    && match p.pc
       case NotStarted => p.eaten == 0
       case LockForId => p.eaten == 0
       case Check(i) => p.eaten == 0 && i <= t
       case ReadId(i) => p.eaten == 0 && i == t
       case ClearId(i) => p.eaten == 0 && i == t && p.id == t
       case Announce(i) => p.eaten == 0 && i == t - 1
       case ReleaseId => p.eaten == 0
       case AwaitStart => p.eaten == 0
       case Think(j) => j <= ITERATIONS && p.eaten == j
       case Acquire(j) => j < ITERATIONS && p.eaten == j
       case LeftRead(j) => j < ITERATIONS && p.eaten == j
       case LeftClear(j) => j < ITERATIONS && p.eaten == j && p.left == 1
       case RightRead(j) => j < ITERATIONS && p.eaten == j && p.left == 1
       case RightClear(j) => j < ITERATIONS && p.eaten == j && p.left == 1 && p.right == 1
       case Eat(j) => j < ITERATIONS && p.eaten == j && p.left == 1 && p.right == 1
       case PutLeft(j) => j < ITERATIONS && p.eaten == j + 1 && p.left == 1 && p.right == 1
       case PutRight(j) => j < ITERATIONS && p.eaten == j + 1 && p.left == 1 && p.right == 1
       case Release(j) => j < ITERATIONS && p.eaten == j + 1
       case Exited(x) => x == ITERATIONS
  }

  /** Fork f is off the table while p holds it. */
  predicate HoldsFork(s: State, p: Phil, f: int)
    requires N(s) > 0
  {
    || (f == p.id && (p.pc.RightRead? || p.pc.RightClear? || p.pc.Eat? || p.pc.PutLeft?))
    || (f == RightOf(s, p.id) && (p.pc.Eat? || p.pc.PutLeft? || p.pc.PutRight?))
  }

  ghost predicate Locals(s: State, t: nat) {
    Shaped(s) && forall k :: 0 <= k < N(s) ==> Local(s, s.phils[k], t)
  }

  /** Philosopher h holds the lock and is the only one in a critical section; -1 stands for nobody. */
  predicate LockHeldBy(s: State, h: int) {
    && -1 <= h < N(s) && (s.locked <==> h != -1)
    && forall k :: 0 <= k < N(s) ==> (InCritical(s.phils[k].pc) <==> k == h)
  }

  predicate DistinctIds(s: State) {
    forall k, l :: 0 <= k < l < N(s) && HasId(s.phils[k].pc) && HasId(s.phils[l].pc) ==>
      s.phils[k].id != s.phils[l].id
  }

  /** All forks lie on the table except those that the holder of the lock has picked up. */
  predicate ForksOnTable(s: State, h: int) {
    && N(s) > 0 && |s.forks| == N(s) && -1 <= h < N(s)
    && forall f :: 0 <= f < N(s) ==> s.forks[f] == if h != -1 && HoldsFork(s, s.phils[h], f) then 0 else 1
  }

  /** The start signal is given once all ids are gone, by the philosopher that took the last one. */
  predicate SignalInv(s: State, t: nat, h: int) {
    && -1 <= h < N(s) && (s.started == 0 || s.started == 1)
    && (s.started == 1 ==> t == N(s))
    && (t == N(s) ==> s.started == 1 || (h != -1 && s.phils[h].pc.Announce?))
  }

  /** The invariant of the program, with t ids gone and philosopher h holding the lock. */
  ghost predicate InvAt(s: State, t: nat, h: int) {
    && Locals(s, t) && Taken(s, t) && LockHeldBy(s, h) && DistinctIds(s) && ForksOnTable(s, h) && SignalInv(s, t, h)
  }

  ghost predicate Inv(s: State) {
    exists t: nat, h: int :: InvAt(s, t, h)
  }

  lemma InitHasInv(n: nat)
    requires n >= 2
    ensures Inv(Init(n))
  {
    var s := Init(n);
    assert Holders(s) == {};
    assert InvAt(s, 0, -1);
  }

  /** While k has no id, not all ids are gone. */
  lemma IdLeft(s: State, t: nat, k: nat)
    requires Taken(s, t) && k < N(s) && !HasId(s.phils[k].pc)
    ensures t < N(s)
  {
    SubsetSize(Holders(s), Below(N(s)) - {k});
  }

  ghost function Below(n: nat): (r: set<nat>)
    ensures |r| == n && forall i: nat :: i in r <==> i < n
  {
    if n == 0 then {} else Below(n - 1) + {n - 1}
  }

  function NextTaken(s: State, k: nat, t: nat): nat
    requires k < N(s)
  {
    if s.phils[k].pc.ClearId? then t + 1 else t
  }

  function NextHolder(s: State, k: nat, h: int): int
    requires k < N(s)
  {
    var pc := s.phils[k].pc;
    if (pc.LockForId? || pc.Acquire?) && !s.locked then k
    else if pc.ReleaseId? || pc.Release? then -1
    else h
  }

  lemma HoldersAfter(s: State, k: nat)
    requires Shaped(s) && k < N(s)
    ensures var c := s.phils[k].pc;
            Holders(Next(s, k)) == if c.ClearId? || (c.Check? && c.i == N(s)) then Holders(s) + {k} else Holders(s)
  {
    var n, c := Next(s, k), s.phils[k].pc;
    assert N(n) == N(s);
    assert HasId(n.phils[k].pc) <==> HasId(c) || c.ClearId? || (c.Check? && c.i == N(s));
    assert forall l :: 0 <= l < N(s) && l != k ==> n.phils[l] == s.phils[l];
  }

  lemma LockStep(s: State, h: int, k: nat)
    requires Shaped(s) && LockHeldBy(s, h) && k < N(s)
    ensures LockHeldBy(Next(s, k), NextHolder(s, k, h))
  {
    var n, h' := Next(s, k), NextHolder(s, k, h);
    assert InCritical(s.phils[k].pc) <==> k == h;
    assert n.locked <==> h' != -1;
    forall l | 0 <= l < N(n)
      ensures InCritical(n.phils[l].pc) <==> l == h'
    {
      assert InCritical(s.phils[l].pc) <==> l == h;
    }
  }

  lemma TakenStep(s: State, t: nat, h: int, k: nat)
    requires InvAt(s, t, h) && k < N(s)
    ensures Taken(Next(s, k), NextTaken(s, k, t))
  {
    HoldersAfter(s, k);
    assert Local(s, s.phils[k], t);
    if !HasId(s.phils[k].pc) {
      IdLeft(s, t, k);
    }
  }

  /** What k's position says after its own step. */
  lemma OwnLocalStep(s: State, t: nat, h: int, k: nat)
    requires Shaped(s) && k < N(s) && Shaped(Next(s, k)) && Local(s, s.phils[k], t) && Taken(s, t)
    requires LockHeldBy(s, h) && ForksOnTable(s, h) && SignalInv(s, t, h) && (!HasId(s.phils[k].pc) ==> t < N(s))
    ensures Local(Next(s, k), Next(s, k).phils[k], NextTaken(s, k, t))
  {
    if InFork(s.phils[k].pc) {
      OwnForkStep(s, t, h, k);
    }
  }

  lemma OwnForkStep(s: State, t: nat, h: int, k: nat)
    requires Shaped(s) && k < N(s) && Shaped(Next(s, k)) && Local(s, s.phils[k], t) && InFork(s.phils[k].pc)
    requires LockHeldBy(s, h) && ForksOnTable(s, h)
    ensures Local(Next(s, k), Next(s, k).phils[k], t)
  {
    var p := s.phils[k];
    assert k == h;
    assert 0 <= RightOf(s, p.id) < N(s) && RightOf(s, p.id) != p.id;
  }

  lemma ShapedStep(s: State, t: nat, k: nat)
    requires Locals(s, t) && Taken(s, t) && k < N(s)
    requires !HasId(s.phils[k].pc) ==> t < N(s)
    ensures Shaped(Next(s, k))
  {
    assert Local(s, s.phils[k], t);
  }

  lemma OtherLocalStep(s: State, t: nat, h: int, k: nat, l: nat)
    requires InvAt(s, t, h) && k < N(s) && l < N(s) && l != k && Shaped(Next(s, k))
    ensures Local(Next(s, k), Next(s, k).phils[l], NextTaken(s, k, t))
  {
    assert Local(s, s.phils[l], t);
    assert !(InCritical(s.phils[k].pc) && InCritical(s.phils[l].pc));
  }

  lemma LocalsStep(s: State, t: nat, h: int, k: nat)
    requires InvAt(s, t, h) && k < N(s)
    ensures Locals(Next(s, k), NextTaken(s, k, t))
  {
    assert Local(s, s.phils[k], t);
    if !HasId(s.phils[k].pc) {
      IdLeft(s, t, k);
    }
    ShapedStep(s, t, k);
    OwnLocalStep(s, t, h, k);
    var n := Next(s, k);
    forall l | 0 <= l < N(n)
      ensures Local(n, n.phils[l], NextTaken(s, k, t))
    {
      if l != k {
        OtherLocalStep(s, t, h, k, l);
      }
    }
  }

  lemma DistinctIdsStep(s: State, t: nat, h: int, k: nat)
    requires InvAt(s, t, h) && k < N(s)
    ensures DistinctIds(Next(s, k))
  {
    var n := Next(s, k);
    assert Local(s, s.phils[k], t);
    if !HasId(s.phils[k].pc) {
      IdLeft(s, t, k);
    }
    assert HasId(s.phils[k].pc) ==> n.phils[k].id == s.phils[k].id;
    assert HasId(n.phils[k].pc) && !HasId(s.phils[k].pc) ==> n.phils[k].id == t;
    IdsAreTaken(s, t, h);
  }

  lemma IdsAreTaken(s: State, t: nat, h: int)
    requires InvAt(s, t, h)
    ensures forall l :: 0 <= l < N(s) && HasId(s.phils[l].pc) ==> s.phils[l].id < t
  {
    forall l | 0 <= l < N(s) && HasId(s.phils[l].pc)
      ensures s.phils[l].id < t
    {
      assert Local(s, s.phils[l], t);
    }
  }

  lemma ForksStepOfHolder(s: State, t: nat, h: int, k: nat)
    requires Shaped(s) && k < N(s) && Local(s, s.phils[k], t) && LockHeldBy(s, h) && ForksOnTable(s, h)
    requires InFork(s.phils[k].pc)
    ensures ForksOnTable(Next(s, k), NextHolder(s, k, h))
  {
    var p := s.phils[k];
    assert k == h;
    assert RightOf(s, p.id) != p.id && 0 <= RightOf(s, p.id) < N(s);
  }

  lemma ForksStep(s: State, t: nat, h: int, k: nat)
    requires Shaped(s) && k < N(s) && Local(s, s.phils[k], t) && LockHeldBy(s, h) && ForksOnTable(s, h)
    ensures ForksOnTable(Next(s, k), NextHolder(s, k, h))
  {
    if InFork(s.phils[k].pc) {
      ForksStepOfHolder(s, t, h, k);
    }
  }

  lemma SignalStep(s: State, t: nat, h: int, k: nat)
    requires InvAt(s, t, h) && k < N(s)
    ensures SignalInv(Next(s, k), NextTaken(s, k, t), NextHolder(s, k, h))
  {
  }

  /** Every step of every philosopher keeps the invariant. */
  lemma NextKeepsInv(s: State, k: nat)
    requires Inv(s) && k < N(s)
    ensures Inv(Next(s, k)) && N(Next(s, k)) == N(s)
  {
    var t: nat, h: int :| InvAt(s, t, h);
    LockStep(s, h, k);
    TakenStep(s, t, h, k);
    LocalsStep(s, t, h, k);
    DistinctIdsStep(s, t, h, k);
    assert Local(s, s.phils[k], t);
    ForksStep(s, t, h, k);
    SignalStep(s, t, h, k);
    assert InvAt(Next(s, k), NextTaken(s, k, t), NextHolder(s, k, h));
  }

  /** The state after the philosophers named by the schedule have taken one step each, in order. */
  function Run(s: State, schedule: seq<nat>): State
    decreases |schedule|
  {
    if schedule == [] then s
    else if Shaped(s) && schedule[0] < N(s) then Run(Next(s, schedule[0]), schedule[1..])
    else Run(s, schedule[1..])
  }

  lemma {:induction false} RunKeepsInv(s: State, schedule: seq<nat>)
    requires Inv(s)
    ensures Inv(Run(s, schedule)) && N(Run(s, schedule)) == N(s)
    decreases |schedule|
  {
    if schedule != [] {
      if schedule[0] < N(s) {
        NextKeepsInv(s, schedule[0]);
        RunKeepsInv(Next(s, schedule[0]), schedule[1..]);
      } else {
        RunKeepsInv(s, schedule[1..]);
      }
    }
  }

  /** p has begun to think and eat. */
  predicate HasBegun(pc: Pc) {
    pc.Think? || pc.Acquire? || InFork(pc) || pc.Exited?
  }

  /** Nobody begins before the start signal. */
  predicate AwaitsSignal(s: State) {
    forall k :: 0 <= k < N(s) && HasBegun(s.phils[k].pc) ==> s.started != 0
  }

  lemma NextAwaitsSignal(s: State, k: nat)
    requires Shaped(s) && k < N(s) && AwaitsSignal(s)
    ensures AwaitsSignal(Next(s, k))
  {
    var n := Next(s, k);
    forall l | 0 <= l < N(n) && HasBegun(n.phils[l].pc)
      ensures n.started != 0
    {
      assert l != k ==> n.phils[l] == s.phils[l];
      assert HasBegun(s.phils[l].pc) ==> s.started != 0;
    }
  }

  lemma {:induction false} RunAwaitsSignal(s: State, schedule: seq<nat>)
    requires Inv(s) && AwaitsSignal(s)
    ensures AwaitsSignal(Run(s, schedule))
    decreases |schedule|
  {
    if schedule != [] {
      if schedule[0] < N(s) {
        var t: nat, h: int :| InvAt(s, t, h);
        NextAwaitsSignal(s, schedule[0]);
        NextKeepsInv(s, schedule[0]);
        RunAwaitsSignal(Next(s, schedule[0]), schedule[1..]);
      } else {
        RunAwaitsSignal(s, schedule[1..]);
      }
    }
  }

  /** What holds in every interleaving of any number of philosophers: at most one is between lock
      and unlock; the ids handed out differ; the start signal comes only when everybody has one, and
      nobody begins before it; all forks are on the table whenever the lock is free, and whoever eats has
      both of its own; a philosopher has eaten once for every iteration it completed; and it exits with 10. */
  lemma Safety(n: nat, schedule: seq<nat>)
    requires n >= 2
    ensures var s := Run(Init(n), schedule);
            && N(s) == n
            && (forall k, l :: 0 <= k < l < n ==> !(InCritical(s.phils[k].pc) && InCritical(s.phils[l].pc)))
            && (forall k, l :: 0 <= k < l < n && HasId(s.phils[k].pc) && HasId(s.phils[l].pc) ==>
                  s.phils[k].id != s.phils[l].id)
            && (s.started == 1 ==> forall k :: 0 <= k < n ==> HasId(s.phils[k].pc))
            && (forall k :: 0 <= k < n && HasBegun(s.phils[k].pc) ==> s.started == 1)
            && (!s.locked ==> s.forks == seq(n, _ => 1))
            && (forall k :: 0 <= k < n && s.phils[k].pc.Eat? ==> HasBothForks(s, s.phils[k].id))
            && (forall k :: 0 <= k < n && s.phils[k].pc.Think? ==> s.phils[k].eaten == s.phils[k].pc.j)
            && (forall k :: 0 <= k < n && s.phils[k].pc.Exited? ==> s.phils[k].pc.status == 10)
  {
    InitHasInv(n);
    RunKeepsInv(Init(n), schedule);
    RunAwaitsSignal(Init(n), schedule);
    var s := Run(Init(n), schedule);
    var t: nat, h: int :| InvAt(s, t, h);
    if s.started == 1 {
      AllHaveIds(s, t);
    }
    assert forall k :: 0 <= k < n ==> Local(s, s.phils[k], t);
    forall k | 0 <= k < n && s.phils[k].pc.Eat?
      ensures HasBothForks(s, s.phils[k].id)
    {
      assert InRange(s, s.phils[k]);
      RightOfFormula(s, s.phils[k].id);
    }
  }

  /** The forks on both sides are off the table. */
  predicate HasBothForks(s: State, id: int) {
    |s.forks| == N(s) && 0 <= id < N(s) && s.forks[id] == 0 && s.forks[(id + 1) % N(s)] == 0
  }

  lemma AllHaveIds(s: State, t: nat)
    requires Taken(s, t) && t == N(s)
    ensures forall k :: 0 <= k < N(s) ==> HasId(s.phils[k].pc)
  {
    forall k | 0 <= k < N(s)
      ensures HasId(s.phils[k].pc)
    {
      if !HasId(s.phils[k].pc) {
        IdLeft(s, t, k);
      }
    }
  }

  /** A bound on the steps that a philosopher at pc still makes, waiting not counted. */
  function Work(n: nat, pc: Pc): int {
    match pc
    case NotStarted => n + 109
    case LockForId => n + 108
    case Check(i) => n - i + 107
    case ReadId(_) => 106
    case ClearId(_) => 105
    case Announce(_) => 104
    case ReleaseId => 103
    case AwaitStart => 102
    case Think(j) => 10 * (ITERATIONS - j) + 1
    case Acquire(j) => 10 * (ITERATIONS - j)
    case LeftRead(j) => 10 * (ITERATIONS - j) - 1
    case LeftClear(j) => 10 * (ITERATIONS - j) - 2
    case RightRead(j) => 10 * (ITERATIONS - j) - 3
    case RightClear(j) => 10 * (ITERATIONS - j) - 4
    case Eat(j) => 10 * (ITERATIONS - j) - 5
    case PutLeft(j) => 10 * (ITERATIONS - j) - 6
    case PutRight(j) => 10 * (ITERATIONS - j) - 7
    case Release(j) => 10 * (ITERATIONS - j) - 8
    case Exited(_) => 0
  }

  function TotalWork(n: nat, phils: seq<Phil>): int {
    if phils == [] then 0 else Work(n, phils[0].pc) + TotalWork(n, phils[1..])
  }

  lemma {:induction false} UpdatedWork(n: nat, phils: seq<Phil>, k: nat, p: Phil)
    requires k < |phils|
    ensures TotalWork(n, phils[k := p]) == TotalWork(n, phils) - Work(n, phils[k].pc) + Work(n, p.pc)
  {
    if k > 0 {
      UpdatedWork(n, phils[1..], k - 1, p);
      assert phils[k := p][1..] == phils[1..][k - 1 := p];
    } else {
      assert phils[k := p][1..] == phils[1..];
    }
  }

  /** A step changes nothing or lowers the total work. */
  lemma StepLowersWork(s: State, k: nat)
    requires Inv(s) && k < N(s)
    ensures var n := Next(s, k);
            n == s || TotalWork(N(s), n.phils) < TotalWork(N(s), s.phils)
  {
    var t: nat, h: int :| InvAt(s, t, h);
    assert Local(s, s.phils[k], t);
    var n := Next(s, k);
    UpdatedWork(N(s), s.phils, k, n.phils[k]);
    OwnStepWork(s, t, k);
  }

  lemma OwnStepWork(s: State, t: nat, k: nat)
    requires Shaped(s) && k < N(s) && Local(s, s.phils[k], t)
    ensures var n := Next(s, k);
            && n.phils == s.phils[k := n.phils[k]]
            && (n == s || Work(N(s), n.phils[k].pc) < Work(N(s), s.phils[k].pc))
  {
  }

  /** Philosopher k can make a step that is not waiting. */
  predicate CanStep(s: State, k: nat) {
    Shaped(s) && k < N(s) && Next(s, k) != s
  }

  /** No deadlock and no livelock: as long as somebody has not exited, somebody can make a step
      that is not waiting. */
  lemma NoDeadlock(s: State)
    requires Inv(s) && exists k :: 0 <= k < N(s) && !s.phils[k].pc.Exited?
    ensures exists k :: CanStep(s, k)
  {
    var t: nat, h: int :| InvAt(s, t, h);
    if h != -1 {
      HolderSteps(s, t, h);
      assert CanStep(s, h);
    } else {
      var k :| 0 <= k < N(s) && !s.phils[k].pc.Exited?;
      if s.started == 0 {
        var l := Unassigned(s, t);
        assert Next(s, l).phils[l].pc != s.phils[l].pc;
        assert CanStep(s, l);
      } else {
        FreeStep(s, t, k);
      }
    }
  }

  lemma FreeStep(s: State, t: nat, k: nat)
    requires InvAt(s, t, -1) && s.started != 0 && k < N(s) && !s.phils[k].pc.Exited?
    ensures CanStep(s, k)
  {
  }

  lemma HolderSteps(s: State, t: nat, h: int)
    requires InvAt(s, t, h) && h != -1
    ensures Next(s, h) != s
  {
  }

  lemma AllHold(s: State)
    requires forall k :: 0 <= k < N(s) ==> HasId(s.phils[k].pc)
    ensures |Holders(s)| == N(s)
  {
    assert Holders(s) == Below(N(s));
  }

  /** While the lock is free and the signal is out, somebody has no id yet. */
  lemma Unassigned(s: State, t: nat) returns (l: nat)
    requires InvAt(s, t, -1) && s.started == 0
    ensures l < N(s) && (s.phils[l].pc.NotStarted? || s.phils[l].pc.LockForId?)
  {
    if forall k :: 0 <= k < N(s) ==> HasId(s.phils[k].pc) {
      AllHold(s);
      assert false;
    }
    l :| l < N(s) && !HasId(s.phils[l].pc);
  }

  /** The number of steps of the schedule that are not waiting. */
  function Effective(s: State, schedule: seq<nat>): nat
    decreases |schedule|
  {
    if schedule == [] then 0
    else if Shaped(s) && schedule[0] < N(s) then
      (if Next(s, schedule[0]) == s then 0 else 1) + Effective(Next(s, schedule[0]), schedule[1..])
    else Effective(s, schedule[1..])
  }

  lemma {:induction false} WorkBoundsSteps(s: State, schedule: seq<nat>)
    requires Inv(s)
    ensures Effective(s, schedule) + TotalWork(N(s), Run(s, schedule).phils) <= TotalWork(N(s), s.phils)
    decreases |schedule|
  {
    if schedule != [] {
      var k := schedule[0];
      if k < N(s) {
        NextKeepsInv(s, k);
        StepLowersWork(s, k);
        WorkBoundsSteps(Next(s, k), schedule[1..]);
      } else {
        WorkBoundsSteps(s, schedule[1..]);
      }
    }
  }

  lemma {:induction false} InitialWork(n: nat, phils: seq<Phil>)
    requires forall k :: 0 <= k < |phils| ==> phils[k].pc == NotStarted
    ensures TotalWork(n, phils) == |phils| * (n + 109)
  {
    if phils != [] {
      InitialWork(n, phils[1..]);
      assert |phils| * (n + 109) == (|phils| - 1) * (n + 109) + (n + 109);
    }
  }

  lemma {:induction false} WorkIsNonNegative(s: State, t: nat, i: nat)
    requires Locals(s, t) && i <= N(s)
    ensures TotalWork(N(s), s.phils[i..]) >= 0
    decreases N(s) - i
  {
    if i < N(s) {
      WorkIsNonNegative(s, t, i + 1);
      assert s.phils[i..][1..] == s.phils[i + 1..] && Local(s, s.phils[i], t);
    }
  }

  /** Every interleaving makes at most n(n+109) steps that are not waiting, and one in which nobody
      can make such a step any more has ended with everybody having eaten 10 times. */
  lemma Termination(n: nat, schedule: seq<nat>)
    requires n >= 2
    ensures Effective(Init(n), schedule) <= n * (n + 109)
    ensures var s := Run(Init(n), schedule);
            (exists k :: CanStep(s, k))
            || forall k :: 0 <= k < N(s) ==> s.phils[k].pc == Exited(10)
  {
    InitHasInv(n);
    WorkBoundsSteps(Init(n), schedule);
    InitialWork(n, Init(n).phils);
    RunKeepsInv(Init(n), schedule);
    Safety(n, schedule);
    var s := Run(Init(n), schedule);
    var t: nat, h: int :| InvAt(s, t, h);
    assert s.phils[0..] == s.phils;
    WorkIsNonNegative(s, t, 0);
    if exists k :: 0 <= k < N(s) && !s.phils[k].pc.Exited? {
      NoDeadlock(s);
    }
  }
}
