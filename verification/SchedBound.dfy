/** When waiting for the processor is bounded (i386/whitex/multitasking.h:179-335): the exact condition on
    base priorities, over all runs from the initial table. */
module SchedBound {
  import opened Common
  import opened SchedModel
  import opened SchedFairness

  // ---------- what shuts a process out ----------

  /** The base of slot `q` shuts `p` out, and `q` is awake. */
  ghost predicate Shadowed(s: Sched, p: nat, q: nat) {
    && p < |s.procs| && q < |s.procs| && q != p && s.running != p
    && !Lets(s.procs[q].base, q < p, Cap(s.procs[p].base))
    && s.procs[q].dyn >= s.procs[q].base && s.procs[p].dyn <= Cap(s.procs[p].base)
    && s.procs[q].state == Running && s.procs[q].sleepUntil == 0
  }

  ghost predicate StaysRunnable(t: Sched, q: nat) {
    q < |t.procs| && t.procs[q].state == Running && t.procs[q].sleepUntil == 0
  }

  lemma ShadowYield(t: Sched, p: nat, q: nat)
    requires Shadowed(t, p, q)
    ensures Shadowed(Yield(t), p, q)
  {
    hide Yield;
    PicksFirstMaximum(t, q);
  }

  lemma ShadowStep(s: Sched, op: Op, p: nat, q: nat)
    requires Valid(s) && Shadowed(s, p, q)
    requires StaysRunnable(Act(s, op).s, q)
    ensures Shadowed(Next(s, op), p, q)
  {
    var t := Act(s, op).s;
    assert KeptSlot(s.procs[q], t.procs[q], q == s.running);
    assert KeptSlot(s.procs[p], t.procs[p], false);
    assert Shadowed(t, p, q);
    ShadowYield(t, p, q);
  }

  /** One process that stays runnable and whose base shuts `p` out starves it, in every run, forever: a base of
      at least 100 in a lower slot, or of more than 100 in a higher one. */
  lemma {:induction false} HighBaseStarves(ss: seq<Sched>, ops: seq<Op>, p: nat, q: nat, n: nat)
    requires IsRun(ss, ops) && Shadowed(ss[0], p, q) && n < |ss|
    requires forall i :: 0 <= i < |ops| ==>
               Valid(ss[i]) && StaysRunnable(Act(ss[i], ops[i]).s, q)
    ensures Shadowed(ss[n], p, q) && ss[n].running != p
  {
    if n > 0 {
      HighBaseStarves(ss, ops, p, q, n - 1);
      assert Follows(ss, ops, n - 1);
      ShadowStep(ss[n - 1], ops[n - 1], p, q);
    }
  }

  // ---------- runs with given base priorities ----------

  ghost predicate RunTo(ss: seq<Sched>, ops: seq<Op>, s: Sched) {
    IsRun(ss, ops) && ss[0] == Initial() && ss[|ops|] == s
  }

  ghost predicate Reached(s: Sched) { exists ss, ops :: RunTo(ss, ops, s) }

  /** A run from a reached state in which `p` is ready all the time, `bound` selections pass, and `p` never
      runs; registrations take the bases given, in order. */
  ghost predicate Waits(ss: seq<Sched>, ops: seq<Op>, bases: seq<nat>, p: nat, bound: nat) {
    && IsRun(ss, ops) && Reached(ss[0]) && p < |ss[0].procs| && WillBeAwake(ss[0], p)
    && (forall i :: 0 <= i < |ss| ==> Ready(ss[i], bases, p) && ss[i].running != p)
    && Selections(ss, ops, |ops|) >= bound
  }

  /** Some run makes `p` wait this long. */
  ghost predicate CanWait(bases: seq<nat>, p: nat, bound: nat) { exists ss, ops :: Waits(ss, ops, bases, p, bound) }

  /** No base shuts `p` out. */
  ghost predicate FairBases(bases: seq<nat>, p: nat)
    requires p < |bases|
  {
    forall q :: 0 <= q < |bases| && q != p ==> Lets(bases[q], q < p, Cap(bases[p]))
  }

  // ---------- without a cover the wait is bounded ----------

  lemma {:induction false} RunTame(ss: seq<Sched>, ops: seq<Op>, n: nat)
    requires IsRun(ss, ops) && ss[0] == Initial() && n <= |ops|
    ensures Valid(ss[n]) && TameTable(ss[n])
  {
    hide TameTable;
    if n == 0 {
      InitialTame();
    } else {
      RunTame(ss, ops, n - 1);
      assert Follows(ss, ops, n - 1);
      NextValid(ss[n - 1], ops[n - 1]);
      NextTame(ss[n - 1], ops[n - 1]);
    }
  }

  /** A process waits at most 50000 selections to reach its cap, and then as long as its rivals can take turns. */
  lemma WaitsCover(ss: seq<Sched>, ops: seq<Op>, bases: seq<nat>, p: nat, n: nat)
    requires p < |bases| && Waits(ss, ops, bases, p, AGING_LIMIT * MAX_PRIORITY + n)
    ensures Coverable(bases, p, n)
  {
    if n == 0 {
      var none: seq<nat> := [];
      assert |none| == 0 && IsCover(bases, p, none);
    } else {
      var rs, rops :| RunTo(rs, rops, ss[0]);
      RunTame(rs, rops, |rops|);
      assert Contends(ss, ops, bases, p);
      if !Coverable(bases, p, n) { BoundedWaiting(ss, ops, bases, p, n); }
    }
  }

  // ---------- a base that shuts it out makes it unbounded ----------

  function SlotAt(bases: seq<nat>, i: nat): Pcb
    requires i < |bases|
  {
    if i == 0 then Initial().procs[0] else NewPcb(99 + i, bases[i], false)
  }

  /** The table after `n` registrations by the master process, and nothing else. */
  function Registered(bases: seq<nat>, n: nat): (s: Sched)
    requires n < |bases|
    ensures |s.procs| == n + 1
  {
    Sched(seq(n + 1, i requires 0 <= i <= n => SlotAt(bases, i)), 0, 100 + n, 0)
  }

  lemma RegisteredNext(bases: seq<nat>, n: nat)
    requires n + 1 < |bases| <= MAX_TASKS
    ensures Valid(Registered(bases, n))
    ensures Next(Registered(bases, n), Register(bases[n + 1], false, true)) == Registered(bases, n + 1)
  {
    assert Next(Registered(bases, n), Register(bases[n + 1], false, true)).procs == Registered(bases, n + 1).procs;
  }

  function Pauses(s: Sched, n: nat): (t: Sched)
    requires |s.procs| > 0
    ensures |t.procs| == |s.procs|
  {
    if n == 0 then s else Yield(Pauses(s, n - 1))
  }

  /** Everybody is ready. */
  ghost predicate Calm(s: Sched) {
    Valid(s) && TameTable(s) && forall i :: 0 <= i < |s.procs| ==> s.procs[i].state == Running && s.procs[i].sleepUntil == 0
  }

  lemma CalmYield(s: Sched)
    requires Calm(s)
    ensures Calm(Yield(s)) && Next(s, Pause) == Yield(s) && |Yield(s).procs| == |s.procs|
    ensures forall i :: 0 <= i < |s.procs| ==> Yield(s).procs[i].base == s.procs[i].base
  {
    hide TameTable;
    YieldTame(s);
    YieldValid(s);
  }

  lemma {:induction false} CalmPauses(s: Sched, n: nat)
    requires Calm(s)
    ensures Calm(Pauses(s, n))
    ensures forall i :: 0 <= i < |s.procs| ==> Pauses(s, n).procs[i].base == s.procs[i].base
  {
    hide Calm, Yield;
    CalmValid(s);
    if n > 0 {
      CalmPauses(s, n - 1);
      CalmYield(Pauses(s, n - 1));
    }
  }

  function PauseStates(s: Sched, n: nat): (ss: seq<Sched>)
    requires |s.procs| > 0
    ensures |ss| == n + 1 && forall i :: 0 <= i <= n ==> ss[i] == Pauses(s, i)
  {
    seq(n + 1, i requires 0 <= i <= n => Pauses(s, i))
  }

  /** Pausing over and over from a calm table is a run in which every call selects. */
  lemma PauseRun(s: Sched, n: nat)
    requires Calm(s) && |s.procs| > 1
    ensures IsRun(PauseStates(s, n), Copies(n, Pause)) && Selections(PauseStates(s, n), Copies(n, Pause), n) == n
  {
    hide Calm, Yield;
    var ss, ops := PauseStates(s, n), Copies(n, Pause);
    forall i | 0 <= i < n
      ensures Follows(ss, ops, i)
    {
      CalmPauses(s, i);
      CalmYield(Pauses(s, i));
      CalmValid(Pauses(s, i));
    }
    CalmValid(s);
    AllSelect(ss, ops, n);
  }

  lemma CalmValid(s: Sched)
    requires Calm(s)
    ensures Valid(s)
  {
  }

  lemma {:induction false} AllSelect(ss: seq<Sched>, ops: seq<Op>, n: nat)
    requires IsRun(ss, ops) && n <= |ops|
    requires forall i :: 0 <= i < |ops| ==> ops[i] == Pause && |ss[i].procs| > 1
    ensures Selections(ss, ops, n) == n
  {
    if n > 0 {
      AllSelect(ss, ops, n - 1);
      assert Follows(ss, ops, n - 1);
    }
  }

  lemma RegisteredCalm(bases: seq<nat>)
    requires 0 < |bases| <= MAX_TASKS && bases[0] == DEFAULT_PRIORITY
    ensures var s := Registered(bases, |bases| - 1); Calm(s) && BasesOf(s, bases)
  {
  }

  /** The run that registers everybody and then pauses `k` times. */
  lemma PausesReached(bases: seq<nat>, k: nat)
    requires 0 < |bases| <= MAX_TASKS && bases[0] == DEFAULT_PRIORITY
    ensures Reached(Pauses(Registered(bases, |bases| - 1), k))
  {
    hide Yield, Calm;
    var n := |bases| - 1;
    var s := Registered(bases, n);
    RegisteredCalm(bases);
    var ss := seq(n, i requires 0 <= i < n => Registered(bases, i)) + PauseStates(s, k);
    var ops := seq(n, i requires 0 <= i < n => Register(bases[i + 1], false, true)) + Copies(k, Pause);
    forall i | 0 <= i < |ops|
      ensures Follows(ss, ops, i)
    {
      if i < n {
        RegisteredNext(bases, i);
        assert ss[i + 1] == Registered(bases, i + 1);
      } else {
        CalmPauses(s, i - n);
        CalmYield(Pauses(s, i - n));
        CalmValid(Pauses(s, i - n));
      }
    }
    assert ss[0] == Registered(bases, 0);
    RegisteredFirst(bases);
    CalmValid(s);
    assert RunTo(ss, ops, Pauses(s, k));
  }

  lemma RegisteredFirst(bases: seq<nat>)
    requires |bases| > 0 && bases[0] == DEFAULT_PRIORITY
    ensures Registered(bases, 0) == Initial() && Valid(Initial())
  {
    assert Registered(bases, 0).procs == Initial().procs;
  }

  lemma {:induction false} ShadowPauses(s: Sched, p: nat, q: nat, n: nat)
    requires Shadowed(s, p, q)
    ensures Shadowed(Pauses(s, n), p, q)
  {
    hide Shadowed, Yield;
    ShadowPositive(s, p, q);
    if n > 0 {
      ShadowPauses(s, p, q, n - 1);
      ShadowPositive(Pauses(s, n - 1), p, q);
      ShadowYield(Pauses(s, n - 1), p, q);
    }
  }

  lemma ShadowPositive(s: Sched, p: nat, q: nat)
    requires Shadowed(s, p, q)
    ensures |s.procs| > 1 && s.running != p
  {
  }

  /** In a calm table the slot that shuts `p` out keeps it from being picked. */
  lemma ShadowStart(s: Sched, p: nat, q: nat)
    requires Calm(s) && p < |s.procs| && q < |s.procs| && q != p
    requires !Lets(s.procs[q].base, q < p, Cap(s.procs[p].base))
    ensures Shadowed(Yield(s), p, q)
  {
    PicksFirstMaximum(s, q);
    CalmYield(s);
    assert Tame(s.procs[p]) && Tame(s.procs[q]);
  }

  /** After registering everybody and pausing `k` times, `p` is not the one running. */
  ghost predicate PassedBy(bases: seq<nat>, p: nat, k: nat)
    requires |bases| > 0
  {
    Pauses(Registered(bases, |bases| - 1), k).running != p
  }

  /** Pausing over and over from a reached calm table is a wait, if `p` never runs. */
  lemma PausesWait(bases: seq<nat>, k: nat, p: nat, bound: nat)
    requires p < |bases| <= MAX_TASKS && |bases| > 1 && bases[0] == DEFAULT_PRIORITY
    requires forall i: nat :: k <= i <= k + bound ==> PassedBy(bases, p, i)
    ensures CanWait(bases, p, bound)
  {
    hide Yield, Calm;
    var s := Registered(bases, |bases| - 1);
    RegisteredCalm(bases);
    PausesReached(bases, k);
    CalmPauses(s, k);
    var s1 := Pauses(s, k);
    var ss, ops := PauseStates(s1, bound), Copies(bound, Pause);
    PauseRun(s1, bound);
    forall i | 0 <= i < |ss|
      ensures Ready(ss[i], bases, p) && ss[i].running != p
    {
      CalmPauses(s1, i);
      CalmAt(Pauses(s1, i), p);
      PausesAdd(s, k, i);
      assert PassedBy(bases, p, k + i);
      assert BasesOf(Pauses(s1, i), bases);
    }
    CalmAt(s1, p);
    assert Waits(ss, ops, bases, p, bound);
  }

  lemma {:induction false} PausesAdd(s: Sched, k: nat, i: nat)
    requires |s.procs| > 0
    ensures Pauses(Pauses(s, k), i) == Pauses(s, k + i)
  {
    hide Yield;
    if i > 0 { PausesAdd(s, k, i - 1); }
  }

  lemma UnfairBasesStarve(bases: seq<nat>, p: nat, q: nat, bound: nat)
    requires p < |bases| <= MAX_TASKS && bases[0] == DEFAULT_PRIORITY && q < |bases| && q != p
    requires !Lets(bases[q], q < p, Cap(bases[p]))
    ensures CanWait(bases, p, bound)
  {
    hide Yield, Calm, Shadowed;
    var s := Registered(bases, |bases| - 1);
    RegisteredCalm(bases);
    ShadowStart(s, p, q);
    forall i: nat | 1 <= i <= 1 + bound
      ensures PassedBy(bases, p, i)
    {
      assert Pauses(s, 1) == Yield(s) by { assert Pauses(s, 0) == s; }
      PausesAdd(s, 1, i - 1);
      ShadowPauses(Yield(s), p, q, i - 1);
      ShadowPositive(Pauses(s, i), p, q);
    }
    PausesWait(bases, 1, p, bound);
  }

  lemma CalmAt(s: Sched, p: nat)
    requires Calm(s) && p < |s.procs|
    ensures s.procs[p].state == Running && WillBeAwake(s, p)
  {
  }
}
