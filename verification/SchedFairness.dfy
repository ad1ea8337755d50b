/** Aging and starvation (i386/whitex/multitasking.h:179-229). */
module SchedFairness {
  import opened Common
  import opened SchedModel

  /** The greatest dynamic priority a process with this base reaches: aging stops at the maximum. */
  function Cap(base: nat): nat { if base > MAX_PRIORITY then base else MAX_PRIORITY }

  /** What every run keeps: the dynamic priority stays between the base and the cap. */
  ghost predicate Tame(p: Pcb) { p.base <= p.dyn <= Cap(p.base) && p.acc < AGING_LIMIT }

  ghost predicate TameTable(s: Sched) {
    s.running < |s.procs| && forall i :: 0 <= i < |s.procs| ==> Tame(s.procs[i])
  }

  /** A base that does not shut out a process that can reach `cap`: ties go to the lower slot. */
  predicate Lets(base: nat, below: bool, cap: nat) { if below then base < cap else base <= cap }

  lemma InitialTame()
    ensures Valid(Initial()) && TameTable(Initial())
  {
  }

  lemma YieldTame(s: Sched)
    requires TameTable(s)
    ensures TameTable(Yield(s)) && |Yield(s).procs| == |s.procs|
    ensures forall i :: 0 <= i < |s.procs| ==> Yield(s).procs[i].base == s.procs[i].base
  {
    hide Best, Eligible;
  }

  lemma ActTame(s: Sched, op: Op)
    requires Valid(s) && TameTable(s)
    ensures TameTable(Act(s, op).s)
  {
    var t := Act(s, op).s;
    forall i | 0 <= i < |t.procs|
      ensures Tame(t.procs[i])
    {
      if i < |s.procs| { assert KeptSlot(s.procs[i], t.procs[i], i == s.running); }
    }
  }

  /** Every call keeps priorities between base and cap. */
  lemma NextTame(s: Sched, op: Op)
    requires Valid(s) && TameTable(s)
    ensures TameTable(Next(s, op))
  {
    ActTame(s, op);
    YieldTame(Act(s, op).s);
  }

  /** Agings still missing before a process reaches the maximum priority. */
  ghost function Missing(p: Pcb): nat
    requires Tame(p)
  {
    if p.dyn >= MAX_PRIORITY then 0 else AGING_LIMIT * (MAX_PRIORITY - p.dyn) - p.acc
  }

  lemma AgingCounts(p: Pcb)
    requires Tame(p) && p.state == Running
    ensures Tame(Aged(p))
    ensures Missing(Aged(p)) == if Missing(p) == 0 then 0 else Missing(p) - 1
  {
  }

  /** Awake at the next selection. */
  ghost predicate WillBeAwake(s: Sched, p: nat)
    requires p < |s.procs|
  {
    s.procs[p].sleepUntil == 0 || s.procs[p].sleepUntil <= (s.ticks + 1) % WORD
  }

  // ---------- one selection ----------

  /** A selection that does not pick the ready slot `p` ages it by one. */
  lemma PassedOver(s: Sched, p: nat)
    requires TameTable(s) && p < |s.procs| && |s.procs| > 1 && p != s.running
    requires s.procs[p].state == Running && WillBeAwake(s, p) && Yield(s).running != p
    ensures var s' := Yield(s);
            && TameTable(s') && s'.procs[p] == Aged(s.procs[p]).(sleepUntil := 0)
  {
    YieldTame(s);
  }

  /** A slot as the selection loop compares it: aged, unless it is the running one. */
  ghost function Shown(s: Sched, i: nat): Pcb
    requires i < |s.procs|
  {
    if i == s.running then s.procs[i] else Aged(s.procs[i])
  }

  /** The slot the selection loop returns: the lowest one with the greatest priority shown. */
  lemma SelectsFirstMaximum(t: Sched, q: nat)
    requires 0 < |t.procs| && q < |t.procs| && Eligible(t.procs[q], t.ticks)
    ensures var j := Select(t).next;
            && j < |t.procs| && Shown(t, q).dyn <= Shown(t, j).dyn
            && (q < j ==> Shown(t, q).dyn < Shown(t, j).dyn)
            && Select(t).procs == Refreshed(t)[j := Rewound(Refreshed(t)[j])]
            && Eligible(t.procs[j], t.ticks)
  {
    var procs := Refreshed(t);
    BestIsFirstMaximum(procs, t.ticks, |procs|);
    assert Eligible(procs[q], t.ticks) && procs[q].dyn == Shown(t, q).dyn;
    var j := Select(t).next;
    assert procs[j].dyn == Shown(t, j).dyn;
  }

  /** If some slot `q` is ready, the slot picked shows at least its priority, more if it lies above
      it, and starts over at its base. */
  lemma PicksFirstMaximum(s: Sched, q: nat)
    requires |s.procs| > 1 && q < |s.procs| && s.procs[q].state == Running && WillBeAwake(s, q)
    ensures var j := Yield(s).running;
            && j < |s.procs| && Shown(s, q).dyn <= Shown(s, j).dyn
            && (q < j ==> Shown(s, q).dyn < Shown(s, j).dyn)
            && s.procs[j].state == Running && WillBeAwake(s, j)
            && Yield(s).procs[j] == Rewound(Shown(s, j)).(sleepUntil := 0)
    ensures |Yield(s).procs| == |s.procs|
    ensures forall i :: 0 <= i < |s.procs| && i != Yield(s).running ==>
              Yield(s).procs[i] == Woken(Shown(s, i), (s.ticks + 1) % WORD)
  {
    var t := s.(ticks := (s.ticks + 1) % WORD);
    SelectsFirstMaximum(t, q);
    assert Yield(s).running == Select(t).next && Yield(s).procs == Select(t).procs;
  }

  // ---------- covers ----------

  /** Agings a process needs from its base to the maximum. */
  function Rest(base: nat): nat { if base >= MAX_PRIORITY then 0 else AGING_LIMIT * (MAX_PRIORITY - base) }

  /** A base with which a slot can be picked before one that has reached `cap`: it shuts it out, or it lies below
      and ages up to the maximum, which is the cap. */
  predicate Rival(base: nat, below: bool, cap: nat) { !Lets(base, below, cap) || (below && cap == MAX_PRIORITY) }

  /** A sequence of rivals of `p`, each resting long enough between its turns. Nothing but base priorities. */
  ghost predicate IsCover(bases: seq<nat>, p: nat, turns: seq<nat>)
    requires p < |bases|
  {
    && (forall i :: 0 <= i < |turns| ==>
          turns[i] < |bases| && turns[i] != p && Rival(bases[turns[i]], turns[i] < p, Cap(bases[p])))
    && forall i, j :: 0 <= i < j < |turns| && turns[i] == turns[j] ==> j - i > Rest(bases[turns[i]])
  }

  /** The rivals of `p` can take `n` turns in a row. */
  ghost predicate Coverable(bases: seq<nat>, p: nat, n: nat)
    requires p < |bases|
  {
    exists turns :: |turns| == n && IsCover(bases, p, turns)
  }

  /** The processes registered so far have the first of these bases. */
  ghost predicate BasesOf(s: Sched, bases: seq<nat>) {
    |s.procs| <= |bases| && forall i :: 0 <= i < |s.procs| ==> s.procs[i].base == bases[i]
  }

  /** Agings that the slot of turn `i` has still to do, at least, after `n` turns. */
  function Owed(bases: seq<nat>, turns: seq<nat>, i: nat): int
    requires i < |turns| && turns[i] < |bases|
  {
    if i + 2 >= |turns| then Rest(bases[turns[i]]) else Rest(bases[turns[i]]) - (|turns| - 2 - i)
  }

  /** The turns taken in front of `p` so far are a cover, and every slot picked still has to rest. */
  ghost predicate Tracked(s: Sched, bases: seq<nat>, p: nat, turns: seq<nat>)
    requires TameTable(s) && p < |bases|
  {
    && IsCover(bases, p, turns) && (|turns| > 0 ==> s.running == turns[|turns| - 1])
    && forall i :: 0 <= i < |turns| ==>
         turns[i] < |s.procs| && Missing(s.procs[turns[i]]) >= Owed(bases, turns, i)
  }

  /** Once `p` shows the maximum priority, only a rival that shows the maximum too can be picked instead, and it
      starts again at its base. */
  lemma PickedIsRival(s: Sched, bases: seq<nat>, p: nat)
    requires TameTable(s) && BasesOf(s, bases) && p < |s.procs| && |s.procs| > 1 && p != s.running
    requires s.procs[p].state == Running && WillBeAwake(s, p) && Missing(s.procs[p]) <= 1 && Yield(s).running != p
    ensures var s', j := Yield(s), Yield(s).running;
            && j < |s.procs| && Rival(bases[j], j < p, Cap(bases[p]))
            && Tame(Shown(s, j)) && Missing(Shown(s, j)) == 0
            && j < |s'.procs| && Tame(s'.procs[j]) && Missing(s'.procs[j]) == Rest(bases[j])
  {
    PicksFirstMaximum(s, p);
    AgingCounts(s.procs[p]);
    var j := Yield(s).running;
    assert Tame(s.procs[j]) && Tame(s.procs[p]) && s.procs[j].base == bases[j] && s.procs[p].base == bases[p];
    if s.procs[j].state == Running { AgingCounts(s.procs[j]); }
  }

  /** A slot that is not picked comes at most one aging closer, and none while it runs. */
  lemma SlowReturn(s: Sched, i: nat)
    requires TameTable(s) && i < |s.procs| && |s.procs| > 1
    ensures Tame(Shown(s, i)) && Missing(Shown(s, i)) >= Missing(s.procs[i]) - if i == s.running then 0 else 1
    ensures i != Yield(s).running ==>
              i < |Yield(s).procs| && Tame(Yield(s).procs[i]) && Missing(Yield(s).procs[i]) == Missing(Shown(s, i))
  {
    if s.procs[i].state == Running { AgingCounts(s.procs[i]); }
  }

  /** Each further pick is one more turn of a cover. */
  lemma OneMoreTurn(s: Sched, bases: seq<nat>, p: nat, turns: seq<nat>)
    requires TameTable(s) && BasesOf(s, bases) && p < |s.procs| && |s.procs| > 1 && p != s.running
    requires s.procs[p].state == Running && WillBeAwake(s, p) && Missing(s.procs[p]) <= 1 && Yield(s).running != p
    requires Tracked(s, bases, p, turns)
    ensures TameTable(Yield(s)) && Tracked(Yield(s), bases, p, turns + [Yield(s).running])
  {
    hide Yield, Missing, Tame, Shown, Rival, Rest, Cap;
    YieldTame(s);
    PickedIsRival(s, bases, p);
    var s', j := Yield(s), Yield(s).running;
    var turns' := turns + [j];
    forall i | 0 <= i < |turns|
      ensures turns[i] == j ==> |turns| - i > Rest(bases[j])
      ensures Missing(s'.procs[turns[i]]) >= Owed(bases, turns', i)
    {
      SlowReturn(s, turns[i]);
    }
  }

  // ---------- whole runs ----------

  predicate Selects(s: Sched, op: Op)
    requires Valid(s)
  {
    Act(s, op).resched && |Act(s, op).s.procs| > 1
  }

  /** Selections among the first `n` calls of a run. */
  ghost function Selections(ss: seq<Sched>, ops: seq<Op>, n: nat): nat
    requires IsRun(ss, ops) && n <= |ops|
  {
    if n == 0 then 0
    else
      assert Follows(ss, ops, n - 1);
      Selections(ss, ops, n - 1) + if Selects(ss[n - 1], ops[n - 1]) then 1 else 0
  }

  /** A run during which nobody stops or kills slot `p`, and registrations take the bases given, in order. */
  ghost predicate Contends(ss: seq<Sched>, ops: seq<Op>, bases: seq<nat>, p: nat) {
    && IsRun(ss, ops) && TameTable(ss[0]) && p < |ss[0].procs| && WillBeAwake(ss[0], p)
    && forall i :: 0 <= i < |ss| ==> Ready(ss[i], bases, p)
  }

  ghost predicate Ready(s: Sched, bases: seq<nat>, p: nat) {
    BasesOf(s, bases) && p < |s.procs| && s.procs[p].state == Running
  }

  /** The call before its yield changes nothing that waiting depends on. */
  lemma BeforeYield(s: Sched, op: Op, bases: seq<nat>, p: nat)
    requires Valid(s) && TameTable(s) && p < |s.procs| && BasesOf(Next(s, op), bases)
    requires p != s.running && WillBeAwake(s, p)
    ensures var t := Act(s, op).s;
            && TameTable(t) && BasesOf(t, bases) && t.running == s.running && |t.procs| >= |s.procs| > 1 && WillBeAwake(t, p)
            && forall i :: 0 <= i < |s.procs| ==> Missing(t.procs[i]) == Missing(s.procs[i])
  {
    hide Act, Yield;
    var t := Act(s, op).s;
    ActTame(s, op);
    YieldTame(t);
    forall i | 0 <= i < |s.procs|
      ensures Missing(t.procs[i]) == Missing(s.procs[i])
    {
      assert KeptSlot(s.procs[i], t.procs[i], i == s.running);
    }
    assert KeptSlot(s.procs[p], t.procs[p], false);
    assert s.running < |s.procs|;
  }

  /** State of the wait after `k` selections that all passed over `p`, which began `first` selections
      short of competing at its cap. */
  ghost predicate Waiting(s: Sched, bases: seq<nat>, p: nat, first: nat, k: nat, turns: seq<nat>) {
    && TameTable(s) && BasesOf(s, bases) && p < |s.procs| && WillBeAwake(s, p)
    && (k < first ==> turns == [] && (Missing(s.procs[p]) == first - k || (k == 0 && first == 1 && Missing(s.procs[p]) == 0)))
    && (k >= first ==> Missing(s.procs[p]) == 0 && |turns| == k + 1 - first && Tracked(s, bases, p, turns))
  }

  lemma WaitStep(s: Sched, op: Op, s': Sched, bases: seq<nat>, p: nat, first: nat, k: nat, k': nat, turns: seq<nat>)
      returns (turns': seq<nat>)
    requires Valid(s) && Ready(s', bases, p) && s' == Next(s, op) && k' == if Selects(s, op) then k + 1 else k
    requires Waiting(s, bases, p, first, k, turns) && first >= 1
    requires p != s.running && s'.running != p
    ensures Waiting(s', bases, p, first, k', turns')
  {
    BeforeYield(s, op, bases, p);
    var t := Act(s, op).s;
    turns' := turns;
    if Selects(s, op) {
      assert Yield(t).procs[p].state == t.procs[p].state;
      turns' := WaitSelection(t, bases, p, first, k, turns);
    }
  }

  lemma WaitSelection(t: Sched, bases: seq<nat>, p: nat, first: nat, k: nat, turns: seq<nat>) returns (turns': seq<nat>)
    requires Waiting(t, bases, p, first, k, turns) && first >= 1 && |t.procs| > 1
    requires p != t.running && Yield(t).running != p && t.procs[p].state == Running
    ensures Waiting(Yield(t), bases, p, first, k + 1, turns')
  {
    PassedOver(t, p);
    AgingCounts(t.procs[p]);
    YieldTame(t);
    turns' := turns;
    if k + 1 >= first {
      OneMoreTurn(t, bases, p, turns);
      turns' := turns + [Yield(t).running];
    }
  }

  /** The selection in which a process first competes at its cap. */
  ghost function FirstChance(p: Pcb): (n: nat)
    requires Tame(p)
    ensures 1 <= n <= AGING_LIMIT * MAX_PRIORITY
  {
    if Missing(p) == 0 then 1 else Missing(p)
  }

  lemma WaitStart(s: Sched, bases: seq<nat>, p: nat)
    requires TameTable(s) && BasesOf(s, bases) && p < |s.procs| && WillBeAwake(s, p)
    ensures Waiting(s, bases, p, FirstChance(s.procs[p]), 0, [])
  {
  }

  /** One call of a run. */
  lemma WaitOn(ss: seq<Sched>, ops: seq<Op>, bases: seq<nat>, p: nat, first: nat, n: nat, turns: seq<nat>)
      returns (turns': seq<nat>)
    requires Contends(ss, ops, bases, p) && n < |ops| && first >= 1
    requires ss[n].running != p && ss[n + 1].running != p
    requires Waiting(ss[n], bases, p, first, Selections(ss, ops, n), turns)
    ensures Waiting(ss[n + 1], bases, p, first, Selections(ss, ops, n + 1), turns')
  {
    assert Follows(ss, ops, n) && Ready(ss[n + 1], bases, p);
    turns' := WaitStep(ss[n], ops[n], ss[n + 1], bases, p, first, Selections(ss, ops, n), Selections(ss, ops, n + 1), turns);
  }

  lemma {:induction false} WaitRun(ss: seq<Sched>, ops: seq<Op>, bases: seq<nat>, p: nat, n: nat) returns (turns: seq<nat>)
    requires Contends(ss, ops, bases, p) && n <= |ops|
    requires forall i :: 0 <= i <= n ==> ss[i].running != p
    ensures Waiting(ss[n], bases, p, FirstChance(ss[0].procs[p]), Selections(ss, ops, n), turns)
  {
    hide Waiting, Valid, Follows, WillBeAwake, Tame, Missing, BasesOf;
    assert Ready(ss[0], bases, p);
    if n == 0 {
      WaitStart(ss[0], bases, p);
      turns := [];
    } else {
      var before := WaitRun(ss, ops, bases, p, n - 1);
      turns := WaitOn(ss, ops, bases, p, FirstChance(ss[0].procs[p]), n - 1, before);
    }
  }

  /** Bounded waiting: whatever the other processes do, a process that nobody stops or kills, and whose rivals cannot
      take `n` turns in a row, runs within as many selections as it misses agings (at least one), and `n - 1`
      more. */
  lemma BoundedWaiting(ss: seq<Sched>, ops: seq<Op>, bases: seq<nat>, p: nat, n: nat)
    requires Contends(ss, ops, bases, p) && p < |bases| && n > 0 && !Coverable(bases, p, n)
    requires Selections(ss, ops, |ops|) >= FirstChance(ss[0].procs[p]) + n - 1
    ensures exists i :: 0 <= i < |ss| && ss[i].running == p
  {
    if forall i :: 0 <= i < |ss| ==> ss[i].running != p {
      var turns := WaitRun(ss, ops, bases, p, |ops|);
      assert |turns[..n]| == n && IsCover(bases, p, turns[..n]);
    }
  }
}
