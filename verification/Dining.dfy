/** The dining philosophers under the scheduler of the kernel: every one of them exits, and its parent is told
    how often it has eaten. */
module Dining {
  import opened Sets
  import opened Words
  import opened Processes
  import opened Scheduler
  import opened SystemCalls
  import opened KernelFrames
  import opened Fairness
  import opened WaitProtocol
  import opened Forest
  import opened Locks
  import P = Philosophers

  /** A kernel entry or stretch of the current program, with or without a step of the philosopher program when
      the current process is a philosopher. */
  datatype Act = Act(step: Step, move: bool)

  /** The kernel, the program, and whether the current process has made a step of the program since the
      scheduler was last called. */
  datatype Room = Room(s: State, d: P.State, moved: bool)

  /** Philosopher k is process who[k]. */
  predicate Seats(who: seq<pid>) {
    forall k, l :: 0 <= k < l < |who| ==> who[k] != who[l]
  }

  function After(x: Room, act: Act, who: seq<pid>): Room
    requires May(x, act, who)
  {
    Room(Apply(x.s, act.step),
         if act.move then P.Next(x.d, Seat(x.s.cur, who)) else x.d,
         Calls(act.step) == 0 && (x.moved || act.move))
  }

  function Seat(p: pid, who: seq<pid>): (k: nat)
    requires p in who
    ensures k < |who| && who[k] == p
  {
    if who[0] == p then 0 else 1 + Seat(p, who[1..])
  }

  /** What may happen: nobody forks, and a philosopher follows its program. It makes a step of it in every
      turn, until it is at the end; from there it exits in its next turn at the latest, with the status that
      the program has come to. */
  predicate May(x: Room, act: Act, who: seq<pid>) {
    && Enabled(x.s, act.step) && !IsFork(act.step) && P.Shaped(x.d) && P.N(x.d) == |who|
    && (act.move ==> x.s.cur in who)
    && (x.s.cur in who ==> Follows(x, act, Seat(x.s.cur, who)))
  }

  predicate Follows(x: Room, act: Act, k: nat)
    requires P.Shaped(x.d) && k < P.N(x.d)
  {
    && !act.step.Exec?
    && (act.move ==> !x.d.phils[k].pc.Exited?)
    && (Calls(act.step) == 1 ==> x.moved || act.move || act.step.Exit?)
    && (act.step.Exit? ==> !act.move && x.d.phils[k].pc == P.Exited(act.step.status))
  }

  predicate Allowed(x: Room, acts: seq<Act>, who: seq<pid>)
    decreases |acts|
  {
    acts == [] || (May(x, acts[0], who) && Allowed(After(x, acts[0], who), acts[1..], who))
  }

  function End(x: Room, acts: seq<Act>, who: seq<pid>): Room
    requires Allowed(x, acts, who)
    decreases |acts|
  {
    if acts == [] then x else End(After(x, acts[0], who), acts[1..], who)
  }

  function Steps(acts: seq<Act>): (r: seq<Step>)
    ensures |r| == |acts|
  {
    seq(|acts|, i requires 0 <= i < |acts| => acts[i].step)
  }

  /** What holds in the room: the invariants of both parts, and a philosopher lives until it is at the end of
      its program. */
  ghost predicate RoomInv(x: Room, who: seq<pid>) {
    && Sane(x.s) && P.Inv(x.d) && P.N(x.d) == |who| && Seats(who)
    && forall k :: 0 <= k < |who| && !x.d.phils[k].pc.Exited? ==> Active(x.s, who[k])
  }

  lemma SeatOf(who: seq<pid>, k: nat)
    requires Seats(who) && k < |who|
    ensures Seat(who[k], who) == k
  {
  }

  /** Without forks only the scheduler changes the current process. */
  lemma CurStays(s: State, a: Step)
    requires Enabled(s, a) && !IsFork(a) && Calls(a) == 0
    ensures Apply(s, a).cur == s.cur
  {
    if a.Wait? {
      WaitForFrame(s, s.cur, a.child, s.cur);
    }
  }

  lemma ActiveAfter(s: State, a: Step, p: pid)
    requires Enabled(s, a) && !IsFork(a)
    ensures Active(Apply(s, a), p) <==> Active(s, p) && !(IsExit(a) && s.cur == p)
  {
    Lifecycle(s, a, p);
  }

  lemma ActKeepsInv(x: Room, act: Act, who: seq<pid>)
    requires RoomInv(x, who) && May(x, act, who)
    ensures RoomInv(After(x, act, who), who)
  {
    var y := After(x, act, who);
    StepIsSane(x.s, act.step);
    if act.move {
      P.NextKeepsInv(x.d, Seat(x.s.cur, who));
    }
    forall k | 0 <= k < |who| && !y.d.phils[k].pc.Exited?
      ensures Active(y.s, who[k])
    {
      SeatOf(who, k);
      ActiveAfter(x.s, act.step, who[k]);
      if act.move {
        OthersStay(x.d, Seat(x.s.cur, who), k);
      }
    }
  }

  lemma OthersStay(d: P.State, k: nat, l: nat)
    requires P.Shaped(d) && k < P.N(d) && l < P.N(d)
    ensures l != k ==> P.Next(d, k).phils[l] == d.phils[l]
    ensures d.phils[l].pc.Exited? ==> P.Next(d, k).phils[l].pc == d.phils[l].pc
  {
  }

  // ---- what is left to do

  /** The philosophers that have not exited. */
  ghost function Alive(s: State, who: seq<pid>): set<nat> {
    set k: nat | k < |who| && Active(s, who[k])
  }

  /** The steps of the program that are left, and the exits. */
  ghost function Left(x: Room, who: seq<pid>): int {
    P.TotalWork(P.N(x.d), x.d.phils) + |Alive(x.s, who)|
  }

  lemma LeftIsNonNegative(x: Room, who: seq<pid>)
    requires RoomInv(x, who)
    ensures P.TotalWork(P.N(x.d), x.d.phils) >= 0
  {
    var t: nat, h: int :| P.InvAt(x.d, t, h);
    assert x.d.phils[0..] == x.d.phils;
    P.WorkIsNonNegative(x.d, t, 0);
  }

  /** No act adds to what is left, and one that adds nothing to what is done leaves the program where it is
      and lets no philosopher go. */
  lemma ActLowersLeft(x: Room, act: Act, who: seq<pid>)
    requires RoomInv(x, who) && May(x, act, who)
    ensures var y := After(x, act, who);
            && Left(y, who) <= Left(x, who)
            && (Left(y, who) == Left(x, who) ==> y.d == x.d && Alive(y.s, who) == Alive(x.s, who))
  {
    var y := After(x, act, who);
    ActKeepsInv(x, act, who);
    if act.move {
      P.StepLowersWork(x.d, Seat(x.s.cur, who));
    }
    forall k: nat | k < |who|
      ensures Active(y.s, who[k]) ==> Active(x.s, who[k])
    {
      ActiveAfter(x.s, act.step, who[k]);
    }
    SubsetSize(Alive(y.s, who), Alive(x.s, who));
    if |Alive(y.s, who)| == |Alive(x.s, who)| {
      SameSize(Alive(y.s, who), Alive(x.s, who));
    }
  }

  lemma SameSize(a: set<nat>, b: set<nat>)
    requires a <= b && |a| == |b|
    ensures a == b
  {
    Difference(b, a);
    assert b - a == {};
  }

  lemma {:induction false} EndKeepsInv(x: Room, acts: seq<Act>, who: seq<pid>)
    requires RoomInv(x, who) && Allowed(x, acts, who)
    ensures RoomInv(End(x, acts, who), who) && Left(End(x, acts, who), who) <= Left(x, who)
    decreases |acts|
  {
    if acts != [] {
      ActKeepsInv(x, acts[0], who);
      ActLowersLeft(x, acts[0], who);
      EndKeepsInv(After(x, acts[0], who), acts[1..], who);
    }
  }

  // ---- a philosopher that can go on gets its turn

  /** Philosopher k can make a step of the program that is not waiting, or can exit. */
  predicate Ready(x: Room, k: nat, who: seq<pid>) {
    k < |who| && Active(x.s, who[k]) && P.Shaped(x.d) && P.N(x.d) == |who| &&
    (P.CanStep(x.d, k) || x.d.phils[k].pc.Exited?)
  }

  lemma SomebodyIsReady(x: Room, who: seq<pid>) returns (k: nat)
    requires RoomInv(x, who) && Alive(x.s, who) != {}
    ensures Ready(x, k, who)
  {
    var t: nat, h: int :| P.InvAt(x.d, t, h);
    if l :| 0 <= l < |who| && !x.d.phils[l].pc.Exited? {
      P.NoDeadlock(x.d);
      k :| P.CanStep(x.d, k);
      if x.d.phils[k].pc.Exited? {
        assert false;
      }
    } else {
      k :| k in Alive(x.s, who);
    }
  }

  /** Nothing of the program gets done in these acts. */
  ghost predicate Still(x: Room, acts: seq<Act>, who: seq<pid>) {
    RoomInv(x, who) && Allowed(x, acts, who) && Left(End(x, acts, who), who) == Left(x, who)
  }

  lemma StillTail(x: Room, acts: seq<Act>, who: seq<pid>)
    requires Still(x, acts, who) && acts != []
    ensures var y := After(x, acts[0], who);
            Still(y, acts[1..], who) && y.d == x.d && Alive(y.s, who) == Alive(x.s, who)
  {
    ActKeepsInv(x, acts[0], who);
    ActLowersLeft(x, acts[0], who);
    EndKeepsInv(After(x, acts[0], who), acts[1..], who);
  }

  lemma StillReady(x: Room, act: Act, y: Room, k: nat, who: seq<pid>)
    requires Ready(x, k, who) && y.d == x.d && Alive(y.s, who) == Alive(x.s, who)
    ensures Ready(y, k, who)
  {
    assert k in Alive(x.s, who);
  }

  /** The first act of a turn of philosopher k, if nothing gets done in it. */
  lemma TurnStart(x: Room, act: Act, k: nat, who: seq<pid>)
    requires RoomInv(x, who) && May(x, act, who) && Ready(x, k, who) && x.s.cur == who[k] && !x.moved
    requires After(x, act, who).d == x.d && Alive(After(x, act, who).s, who) == Alive(x.s, who)
    ensures Calls(act.step) == 0 && After(x, act, who).s.cur == who[k] && !After(x, act, who).moved
  {
    SeatOf(who, k);
    ActiveAfter(x.s, act.step, who[k]);
    assert k in Alive(x.s, who);
    if Calls(act.step) == 0 {
      CurStays(x.s, act.step);
    }
  }

  lemma StepsTail(acts: seq<Act>)
    requires acts != []
    ensures Steps(acts) == [acts[0].step] + Steps(acts[1..]) && Steps(acts)[1..] == Steps(acts[1..])
    ensures TotalCalls(Steps(acts)) == Calls(acts[0].step) + TotalCalls(Steps(acts[1..]))
  {
    assert Steps(acts)[1..] == Steps(acts[1..]);
  }

  /** In such a stretch a philosopher that is ready does not begin a turn that ends in it. */
  lemma {:induction false} NoTurn(x: Room, acts: seq<Act>, k: nat, who: seq<pid>)
    requires Still(x, acts, who) && Ready(x, k, who) && TotalCalls(Steps(acts)) >= 1
    requires x.s.cur == who[k] ==> !x.moved
    ensures x.s.cur != who[k]
    decreases |acts|
  {
    if x.s.cur == who[k] {
      var y := After(x, acts[0], who);
      StillTail(x, acts, who);
      StillReady(x, acts[0], y, k, who);
      TurnStart(x, acts[0], k, who);
      StepsTail(acts);
      NoTurn(y, acts[1..], k, who);
    }
  }

  lemma StepsAreLegal(x: Room, acts: seq<Act>, who: seq<pid>)
    requires Allowed(x, acts, who)
    ensures Legal(x.s, Steps(acts)) && Births(x.s, Steps(acts)) == 0
    ensures Run(x.s, Steps(acts)) == End(x, acts, who).s
    decreases |acts|
  {
    if acts != [] {
      StepsTail(acts);
      StepsAreLegal(After(x, acts[0], who), acts[1..], who);
    }
  }

  /** After an act the ready philosopher is not in the middle of a turn, if it was not current before. */
  lemma FreshTurn(x: Room, act: Act, p: pid, who: seq<pid>)
    requires May(x, act, who) && x.s.cur != p
    ensures After(x, act, who).s.cur == p ==> !After(x, act, who).moved
  {
    if Calls(act.step) == 0 {
      CurStays(x.s, act.step);
    }
  }

  /** The first m acts have one scheduler call less than all, and during them p does not run. */
  ghost predicate PassedOver(x: Room, acts: seq<Act>, m: nat, p: pid) {
    m <= |acts| && NeverCurrent(x.s, Steps(acts[..m]), p)
    && TotalCalls(Steps(acts[..m])) == TotalCalls(Steps(acts)) - 1
  }

  /** So it does not run before the last scheduler call of the stretch. */
  lemma {:induction false} NeverBeforeLast(x: Room, acts: seq<Act>, k: nat, who: seq<pid>) returns (m: nat)
    requires Still(x, acts, who) && Ready(x, k, who) && TotalCalls(Steps(acts)) >= 1
    requires x.s.cur == who[k] ==> !x.moved
    ensures PassedOver(x, acts, m, who[k])
    decreases |acts|
  {
    var y := After(x, acts[0], who);
    NoTurn(x, acts, k, who);
    StepsTail(acts);
    if TotalCalls(Steps(acts[1..])) == 0 {
      m := 0;
    } else {
      StillTail(x, acts, who);
      StillReady(x, acts[0], y, k, who);
      FreshTurn(x, acts[0], who[k], who);
      var m' := NeverBeforeLast(y, acts[1..], k, who);
      m := m' + 1;
      LongerPrefix(x, acts, m', who[k], who);
    }
  }

  lemma LongerPrefix(x: Room, acts: seq<Act>, m: nat, p: pid, who: seq<pid>)
    requires acts != [] && May(x, acts[0], who) && x.s.cur != p && PassedOver(After(x, acts[0], who), acts[1..], m, p)
    ensures PassedOver(x, acts, m + 1, p)
  {
    var prefix := acts[..m + 1];
    assert prefix[1..] == acts[1..][..m] && prefix[0] == acts[0];
    StepsTail(prefix);
    StepsTail(acts);
  }

  lemma {:induction false} AllowedPrefix(x: Room, acts: seq<Act>, m: nat, who: seq<pid>)
    requires Allowed(x, acts, who) && m <= |acts|
    ensures Allowed(x, acts[..m], who) && Allowed(End(x, acts[..m], who), acts[m..], who)
    ensures End(End(x, acts[..m], who), acts[m..], who) == End(x, acts, who)
    decreases m
  {
    if m > 0 {
      AllowedPrefix(After(x, acts[0], who), acts[1..], m - 1, who);
      assert acts[..m][1..] == acts[1..][..m - 1] && acts[1..][m - 1..] == acts[m..];
    } else {
      assert acts[..0] == [] && acts[0..] == acts;
    }
  }

  /** The scheduler calls within which some philosopher that can go on has had a turn. */
  const ROUND := 1026

  /** The bound on waiting leaves no stretch of 1026 scheduler calls in which nothing gets done. */
  lemma RoundGetsOn(x: Room, acts: seq<Act>, who: seq<pid>)
    requires RoomInv(x, who) && Allowed(x, acts, who) && Alive(x.s, who) != {} && !x.moved
    requires TotalCalls(Steps(acts)) >= ROUND
    ensures Left(End(x, acts, who), who) < Left(x, who)
  {
    EndKeepsInv(x, acts, who);
    if Left(End(x, acts, who), who) == Left(x, who) {
      var k := SomebodyIsReady(x, who);
      var m := NeverBeforeLast(x, acts, k, who);
      AllowedPrefix(x, acts, m, who);
      StepsAreLegal(x, acts[..m], who);
      StarvationNeedsForks(x.s, Steps(acts[..m]), who[k], 0);
    }
  }

  /** The first acts with n scheduler calls; they end with one. */
  lemma {:induction false} FirstCalls(x: Room, acts: seq<Act>, n: nat, who: seq<pid>) returns (m: nat)
    requires Allowed(x, acts, who) && 0 < n <= TotalCalls(Steps(acts))
    ensures m <= |acts| && TotalCalls(Steps(acts[..m])) == n
    ensures TotalCalls(Steps(acts[m..])) == TotalCalls(Steps(acts)) - n
    ensures Allowed(x, acts[..m], who) && !End(x, acts[..m], who).moved
    decreases |acts|
  {
    StepsTail(acts);
    var y := After(x, acts[0], who);
    var c := Calls(acts[0].step);
    if n == c {
      m := 1;
      assert acts[..1] == [acts[0]] && acts[..1][1..] == [];
      StepsTail(acts[..1]);
    } else {
      var m' := FirstCalls(y, acts[1..], n - c, who);
      m := m' + 1;
      assert acts[..m][1..] == acts[1..][..m'] && acts[m..] == acts[1..][m'..];
      StepsTail(acts[..m]);
    }
  }

  /** Every philosopher has exited once there have been 1026 scheduler calls for each step that was left. */
  lemma {:induction false} AllExit(x: Room, acts: seq<Act>, who: seq<pid>, left: nat)
    requires RoomInv(x, who) && Allowed(x, acts, who) && !x.moved && Left(x, who) <= left
    requires TotalCalls(Steps(acts)) >= ROUND * left
    ensures Alive(End(x, acts, who).s, who) == {}
    decreases left
  {
    if Alive(x.s, who) == {} {
      EndKeepsInv(x, acts, who);
      DeadStayDead(x, acts, who);
    } else {
      LeftIsNonNegative(x, who);
      assert left >= 1 by {
        AliveIsLeft(x, who);
      }
      var m := FirstCalls(x, acts, ROUND, who);
      var y := End(x, acts[..m], who);
      AllowedPrefix(x, acts, m, who);
      EndKeepsInv(x, acts[..m], who);
      RoundGetsOn(x, acts[..m], who);
      AllExit(y, acts[m..], who, left - 1);
    }
  }

  lemma AliveIsLeft(x: Room, who: seq<pid>)
    requires RoomInv(x, who) && Alive(x.s, who) != {}
    ensures Left(x, who) >= 1
  {
    LeftIsNonNegative(x, who);
  }

  lemma {:induction false} DeadStayDead(x: Room, acts: seq<Act>, who: seq<pid>)
    requires Allowed(x, acts, who) && Alive(x.s, who) == {}
    ensures Alive(End(x, acts, who).s, who) == {}
    decreases |acts|
  {
    if acts != [] {
      var y := After(x, acts[0], who);
      forall k: nat | k < |who|
        ensures !Active(y.s, who[k])
      {
        assert k !in Alive(x.s, who);
        ActiveAfter(x.s, acts[0].step, who[k]);
      }
      DeadStayDead(y, acts[1..], who);
    }
  }

  /** The philosophers sit at the table: the program is somewhere in one of its runs, and each of them is an
      active process as long as it has not come to its end. */
  ghost predicate Seated(x: Room, who: seq<pid>, schedule: seq<nat>) {
    && |who| >= 2 && x.d == P.Run(P.Init(|who|), schedule) && P.N(x.d) == |who| && !x.moved && Sane(x.s) && Seats(who)
    && forall k :: 0 <= k < |who| && !x.d.phils[k].pc.Exited? ==> Active(x.s, who[k])
  }

  /** The steps and exits of n philosophers. */
  function Bound(n: nat): nat {
    n * (n + 110)
  }

  lemma SeatedHasInv(x: Room, who: seq<pid>, schedule: seq<nat>)
    requires Seated(x, who, schedule)
    ensures RoomInv(x, who) && Left(x, who) <= Bound(|who|)
  {
    var n := |who|;
    P.InitHasInv(n);
    P.RunKeepsInv(P.Init(n), schedule);
    P.WorkBoundsSteps(P.Init(n), schedule);
    P.InitialWork(n, P.Init(n).phils);
    AliveAtMost(x.s, who);
    assert n * (n + 110) == n * (n + 109) + n;
  }

  ghost predicate AllHaveEaten(y: Room, who: seq<pid>) {
    && P.N(y.d) == |who|
    && forall k :: 0 <= k < |who| ==> !Active(y.s, who[k]) && y.d.phils[k].pc == P.Exited(10)
  }

  /** However the kernel schedules them, whatever the other processes do, and wherever the philosophers were when
      the last one was made: after 1026 n (n + 110) scheduler calls without a fork all n have eaten 10 times and
      exited. */
  lemma Dinner(x: Room, acts: seq<Act>, who: seq<pid>, schedule: seq<nat>)
    requires Seated(x, who, schedule) && Allowed(x, acts, who)
    requires TotalCalls(Steps(acts)) >= ROUND * Bound(|who|)
    ensures AllHaveEaten(End(x, acts, who), who)
  {
    SeatedHasInv(x, who, schedule);
    AllExit(x, acts, who, Bound(|who|));
    EndKeepsInv(x, acts, who);
    DeadHaveEaten(End(x, acts, who), who);
  }

  lemma DeadHaveEaten(y: Room, who: seq<pid>)
    requires RoomInv(y, who) && Alive(y.s, who) == {}
    ensures AllHaveEaten(y, who)
  {
    forall k | 0 <= k < |who|
      ensures !Active(y.s, who[k]) && y.d.phils[k].pc == P.Exited(P.ITERATIONS)
    {
      assert k !in Alive(y.s, who);
      ExitedWithTen(y.d, k);
    }
  }

  lemma ExitedWithTen(d: P.State, k: nat)
    requires P.Inv(d) && k < P.N(d)
    ensures d.phils[k].pc.Exited? ==> d.phils[k].pc == P.Exited(P.ITERATIONS)
  {
    var t: nat, h: int :| P.InvAt(d, t, h);
    assert P.Local(d, d.phils[k], t);
  }

  lemma AliveAtMost(s: State, who: seq<pid>)
    ensures |Alive(s, who)| <= |who|
  {
    SubsetSize(Alive(s, who), P.Below(|who|));
  }

  // ---- the parent

  /** Process o does not exit in these acts, and has not been told yet how p ended. */
  predicate Patient(x: Room, acts: seq<Act>, who: seq<pid>, o: pid, p: pid)
    requires Allowed(x, acts, who)
    decreases |acts|
  {
    acts == [] || (
      && !Exits(x.s, acts[0].step, o)
      && (x.s.cur == o && acts[0].step == Wait(p) ==> Result(x.s, acts[0].step) == -1)
      && Patient(After(x, acts[0], who), acts[1..], who, o, p))
  }

  /** o is registered for p, or p has exited with 10 and o can ask. */
  predicate Promised(s: State, o: pid, p: pid) {
    Registered(s, o, p) || Delivered(s, o, p, P.ITERATIONS)
  }

  lemma ActKeepsPromise(x: Room, act: Act, k: nat, who: seq<pid>, o: pid)
    requires RoomInv(x, who) && May(x, act, who) && OneEntryEverywhere(x.s) && k < |who|
    requires Promised(x.s, o, who[k]) && !Exits(x.s, act.step, o)
    requires x.s.cur == o && act.step == Wait(who[k]) ==> Result(x.s, act.step) == -1
    ensures Promised(After(x, act, who).s, o, who[k])
  {
    var p, a := who[k], act.step;
    assert OneEntryEach(Proc(x.s, x.s.cur).waiting);
    if Registered(x.s, o, p) {
      if Exits(x.s, a, p) {
        SeatOf(who, k);
        ExitedWithTen(x.d, k);
        ExitDelivers(x.s, a, o, p);
      } else {
        RegisteredStep(x.s, a, o, p);
      }
    } else {
      CollectedOnce(x.s, o, p, P.ITERATIONS);
      DeliveredStep(x.s, a, o, p, P.ITERATIONS);
    }
  }

  lemma {:induction false} EndKeepsPromise(x: Room, acts: seq<Act>, k: nat, who: seq<pid>, o: pid)
    requires RoomInv(x, who) && Allowed(x, acts, who) && OneEntryEverywhere(x.s) && k < |who|
    requires Promised(x.s, o, who[k]) && Patient(x, acts, who, o, who[k])
    ensures Promised(End(x, acts, who).s, o, who[k])
    decreases |acts|
  {
    if acts != [] {
      ActKeepsInv(x, acts[0], who);
      ActKeepsPromise(x, acts[0], k, who, o);
      StepKeepsOneEntry(x.s, acts[0].step);
      EndKeepsPromise(After(x, acts[0], who), acts[1..], k, who, o);
    }
  }

  /** And the parent is told: once it is registered for a philosopher and goes on asking, the first answer other
      than "still running" is 10, and within that bound it is there. */
  lemma ParentIsTold(x: Room, acts: seq<Act>, who: seq<pid>, schedule: seq<nat>, k: nat, o: pid)
    requires Seated(x, who, schedule) && Allowed(x, acts, who) && k < |who|
    requires TotalCalls(Steps(acts)) >= ROUND * Bound(|who|)
    requires OneEntryEverywhere(x.s) && Registered(x.s, o, who[k]) && Patient(x, acts, who, o, who[k])
    ensures WaitFor(End(x, acts, who).s, o, who[k]).1 == 10
  {
    Dinner(x, acts, who, schedule);
    SeatedHasInv(x, who, schedule);
    EndKeepsPromise(x, acts, k, who, o);
    CollectedOnce(End(x, acts, who).s, o, who[k], P.ITERATIONS);
  }

  // ---- the lock

  /** The philosophers are children of o, which shares ptr, and share nothing themselves, and the lock of the
      program is that of the kernel. */
  ghost predicate Agree(x: Room, who: seq<pid>, o: pid, ptr: word) {
    && ptr != 0 && o !in who && Active(x.s, o) && Proc(x.s, o).shared.ptr == ptr
    && x.d.locked == Proc(x.s, o).shared.locked
    && forall k :: 0 <= k < |who| ==> IsChild(x.s, who[k], o)
  }

  predicate IsChild(s: State, p: pid, o: pid) {
    Active(s, p) ==> Parent(s, p) == o && Proc(s, p).shared.ptr == 0
  }

  /** The steps of the program at its locks are the calls of the kernel, no other act reaches the slot of o, o
      does not exit, and philosophers share nothing. */
  predicate Keyed(x: Room, act: Act, who: seq<pid>, o: pid, ptr: word)
    requires May(x, act, who)
  {
    && !Exits(x.s, act.step, o) && (x.s.cur in who ==> !act.step.Share? && !act.step.Unshare?)
    && if act.move && AtLock(x.d.phils[Seat(x.s.cur, who)].pc) then act.step == Lock(ptr)
       else if act.move && AtUnlock(x.d.phils[Seat(x.s.cur, who)].pc) then act.step == Unlock(ptr)
       else !ReachesSlot(x.s, act.step, o)
  }

  predicate AtLock(pc: P.Pc) {
    pc.LockForId? || pc.Acquire?
  }

  predicate AtUnlock(pc: P.Pc) {
    pc.ReleaseId? || pc.Release?
  }

  lemma ChildrenStay(x: Room, act: Act, who: seq<pid>, o: pid, k: nat)
    requires May(x, act, who) && !Exits(x.s, act.step, o) && k < |who| && IsChild(x.s, who[k], o) && o != who[k]
    requires x.s.cur in who ==> !act.step.Share? && !act.step.Unshare?
    ensures IsChild(Apply(x.s, act.step), who[k], o)
  {
    var p, a := who[k], act.step;
    ActiveAfter(x.s, a, p);
    if Active(Apply(x.s, a), p) {
      Lifecycle(x.s, a, p);
      if !ReachesSlot(x.s, a, p) {
        StepKeepsSlot(x.s, a, p);
      } else {
        SharedMemoryFrame(x.s, a, p);
      }
    }
  }

  lemma LockMoves(x: Room, act: Act, who: seq<pid>, o: pid, ptr: word)
    requires RoomInv(x, who) && May(x, act, who) && Agree(x, who, o, ptr) && Keyed(x, act, who, o, ptr)
    ensures After(x, act, who).d.locked == Proc(After(x, act, who).s, o).shared.locked
    ensures Proc(After(x, act, who).s, o).shared.ptr == ptr
  {
    var k := if x.s.cur in who then Seat(x.s.cur, who) else 0;
    if act.move && (AtLock(x.d.phils[k].pc) || AtUnlock(x.d.phils[k].pc)) {
      assert IsChild(x.s, who[k], o);
      PhilosopherLock(x.s, o, ptr, x.d, k);
      SharedMemoryFrame(x.s, act.step, o);
    } else {
      StepKeepsSlot(x.s, act.step, o);
    }
  }

  /** In such acts the flag that the kernel keeps for o is the lock of the program throughout. */
  lemma LocksAgree(x: Room, act: Act, who: seq<pid>, o: pid, ptr: word)
    requires RoomInv(x, who) && May(x, act, who) && Agree(x, who, o, ptr) && Keyed(x, act, who, o, ptr)
    ensures Agree(After(x, act, who), who, o, ptr)
  {
    LockMoves(x, act, who, o, ptr);
    ActiveAfter(x.s, act.step, o);
    forall k | 0 <= k < |who|
      ensures IsChild(After(x, act, who).s, who[k], o)
    {
      assert IsChild(x.s, who[k], o);
      ChildrenStay(x, act, who, o, k);
    }
  }

  predicate AllKeyed(x: Room, acts: seq<Act>, who: seq<pid>, o: pid, ptr: word)
    requires Allowed(x, acts, who)
    decreases |acts|
  {
    acts == [] || (Keyed(x, acts[0], who, o, ptr) && AllKeyed(After(x, acts[0], who), acts[1..], who, o, ptr))
  }

  lemma {:induction false} LocksAgreeInTheEnd(x: Room, acts: seq<Act>, who: seq<pid>, o: pid, ptr: word)
    requires RoomInv(x, who) && Allowed(x, acts, who) && Agree(x, who, o, ptr) && AllKeyed(x, acts, who, o, ptr)
    ensures Agree(End(x, acts, who), who, o, ptr)
    decreases |acts|
  {
    if acts != [] {
      ActKeepsInv(x, acts[0], who);
      LocksAgree(x, acts[0], who, o, ptr);
      LocksAgreeInTheEnd(After(x, acts[0], who), acts[1..], who, o, ptr);
    }
  }
}
