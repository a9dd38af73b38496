/** The parent relation is a forest over active processes, in every run. */
module Forest {
  import opened Words
  import opened Processes
  import opened Scheduler
  import opened SystemCalls
  import opened KernelFrames

  function Parent(s: State, p: pid): int {
    Proc(s, p).ppid
  }

  /** An order of creation: every parent was there before its children. */
  ghost predicate Older(s: State, birth: seq<nat>) {
    |birth| == MAX_PROCESSES
    && forall p: pid :: 1 <= Parent(s, p) <= MAX_PROCESSES ==> birth[Parent(s, p) - 1] < birth[p - 1]
  }

  ghost predicate IsForest(s: State) {
    && (forall p: pid :: Parent(s, p) == 0 || (1 <= Parent(s, p) <= MAX_PROCESSES && Active(s, Parent(s, p))))
    && (forall p: pid :: !Active(s, p) ==> Parent(s, p) == 0)
    && (exists birth: seq<nat> :: Older(s, birth))
  }

  /** The k-th ancestor of p, or 0 beyond the root. */
  ghost function Ancestor(s: State, p: pid, k: nat): int
    decreases k
  {
    if k == 0 then p
    else if 1 <= Parent(s, p) <= MAX_PROCESSES then Ancestor(s, Parent(s, p), k - 1)
    else 0
  }

  lemma {:induction false} AncestorsAreOlder(s: State, birth: seq<nat>, p: pid, k: nat)
    requires Older(s, birth)
    ensures var a := Ancestor(s, p, k);
            0 <= a <= MAX_PROCESSES && (a != 0 ==> birth[a - 1] + k <= birth[p - 1])
    decreases k
  {
    if k > 0 && 1 <= Parent(s, p) <= MAX_PROCESSES {
      AncestorsAreOlder(s, birth, Parent(s, p), k - 1);
    }
  }

  /** No process is its own ancestor, and the line of ancestors of every process ends. */
  lemma ForestHasNoCycle(s: State, p: pid)
    requires IsForest(s)
    ensures forall k: nat :: k > 0 ==> Ancestor(s, p, k) != p
    ensures exists n: nat :: Ancestor(s, p, n) == 0
  {
    var birth: seq<nat> :| Older(s, birth);
    forall k: nat | k > 0
      ensures Ancestor(s, p, k) != p
    {
      AncestorsAreOlder(s, birth, p, k);
    }
    AncestorsAreOlder(s, birth, p, birth[p - 1] + 1);
    assert Ancestor(s, p, birth[p - 1] + 1) == 0;
  }

  /** A pid that is free has no children, so a process that reuses it starts with none. */
  lemma FreePidHasNoChildren(s: State, c: pid, p: pid)
    requires IsForest(s) && !Active(s, c)
    ensures Parent(s, p) != c
  {
  }

  lemma ForkKeepsForest(s: State, t: State, c: pid)
    requires IsForest(s) && Running(s) && !Active(s, c)
    requires forall q: pid ::
               && (Active(t, q) <==> Active(s, q) || q == c)
               && Parent(t, q) == if q == c then s.cur as int else Parent(s, q)
    ensures IsForest(t)
  {
    var birth: seq<nat> :| Older(s, birth);
    var later := birth[c - 1 := birth[s.cur - 1] + 1];
    forall p: pid | 1 <= Parent(t, p) <= MAX_PROCESSES
      ensures later[Parent(t, p) - 1] < later[p - 1]
    {
      if p != c {
        FreePidHasNoChildren(s, c, p);
      }
    }
    assert Older(t, later);
  }

  lemma ExitKeepsForest(s: State, t: State)
    requires IsForest(s)
    requires forall q: pid ::
               && (Active(t, q) <==> Active(s, q) && q != s.cur)
               && Parent(t, q) == if q == s.cur || Parent(s, q) == s.cur then 0 else Parent(s, q)
    ensures IsForest(t)
  {
    var birth: seq<nat> :| Older(s, birth);
    assert Older(t, birth);
  }

  lemma SameLinksKeepForest(s: State, t: State)
    requires IsForest(s)
    requires forall q: pid :: (Active(t, q) <==> Active(s, q)) && Parent(t, q) == Parent(s, q)
    ensures IsForest(t)
  {
    var birth: seq<nat> :| Older(s, birth);
    assert Older(t, birth);
  }

  lemma StepKeepsForest(s: State, a: Step)
    requires IsForest(s) && Enabled(s, a)
    ensures IsForest(Apply(s, a))
  {
    var t, c := Apply(s, a), FreePidFrom(s, 1);
    if IsFork(a) && c != -1 {
      forall q: pid
        ensures Active(t, q) <==> Active(s, q) || q == c
        ensures Parent(t, q) == if q == c then s.cur as int else Parent(s, q)
      {
        Lifecycle(s, a, q);
      }
      ForkKeepsForest(s, t, c);
    } else if IsExit(a) {
      forall q: pid
        ensures (Active(t, q) <==> Active(s, q) && q != s.cur)
        ensures Parent(t, q) == if q == s.cur || Parent(s, q) == s.cur then 0 else Parent(s, q)
      {
        Lifecycle(s, a, q);
      }
      ExitKeepsForest(s, t);
    } else {
      forall q: pid
        ensures (Active(t, q) <==> Active(s, q)) && Parent(t, q) == Parent(s, q)
      {
        Lifecycle(s, a, q);
      }
      SameLinksKeepForest(s, t);
    }
  }

  lemma {:induction false} RunKeepsForest(s: State, steps: seq<Step>)
    requires IsForest(s) && Legal(s, steps)
    ensures IsForest(Run(s, steps))
    decreases |steps|
  {
    if steps != [] {
      StepKeepsForest(s, steps[0]);
      RunKeepsForest(Apply(s, steps[0]), steps[1..]);
    }
  }

  /** In every run of the kernel from reset, every parent is an active process or none, free pids
      have neither parent nor children, and no process is its own ancestor. */
  lemma ReachableIsForest(tos: word, console: word, steps: seq<Step>)
    requires Legal(Reset(tos, console), steps)
    ensures IsForest(Run(Reset(tos, console), steps))
  {
    assert Older(Reset(tos, console), seq(MAX_PROCESSES, _ => 0));
    RunKeepsForest(Reset(tos, console), steps);
  }
}
