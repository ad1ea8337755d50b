/** A cover is all it takes to make a process wait (i386/whitex/multitasking.h:179-379): the run in which its
    rivals take their turns. The master process registers everybody; each rival stops itself after its turn and is
    continued just in time to age up to the next one; before its first turn it sleeps. */
module SchedCover {
  import opened Common
  import opened SchedModel
  import opened SchedFairness
  import opened SchedBound

  const LONGEST := AGING_LIMIT * MAX_PRIORITY

  /** Base priorities that do not shut `p` out, and turns of its rivals. */
  datatype Plan = Plan(bases: seq<nat>, p: nat, turns: seq<nat>)

  ghost predicate Sound(pl: Plan) {
    && pl.p < |pl.bases| <= MAX_TASKS && pl.bases[0] == DEFAULT_PRIORITY && FairBases(pl.bases, pl.p)
    && |pl.turns| > 0 && IsCover(pl.bases, pl.p, pl.turns)
  }

  /** The next turn of slot `q` from `i` on; long after the last one if there is none. */
  function NextTurn(turns: seq<nat>, i: nat, q: nat): (n: nat)
    requires i <= |turns|
    ensures i <= n && (n < |turns| ==> turns[n] == q) && (n >= |turns| ==> n == |turns| + LONGEST)
    ensures forall k :: i <= k < n && k < |turns| ==> turns[k] != q
    decreases |turns| - i
  {
    if i == |turns| then |turns| + LONGEST else if turns[i] == q then i else NextTurn(turns, i + 1, q)
  }

  /** Rivals of a process that nothing shuts out lie below it and age up to the maximum. */
  lemma TurnsBelow(pl: Plan, i: nat)
    requires Sound(pl) && i < |pl.turns|
    ensures pl.turns[i] < pl.p && pl.bases[pl.turns[i]] < MAX_PRIORITY && Cap(pl.bases[pl.p]) == MAX_PRIORITY
    ensures AGING_LIMIT <= Rest(pl.bases[pl.turns[i]]) <= LONGEST
    ensures i > 0 ==> pl.turns[i - 1] != pl.turns[i]
    ensures i > 0 ==> NextTurn(pl.turns, i, pl.turns[i - 1]) >= i + Rest(pl.bases[pl.turns[i - 1]])
  {
    var q := pl.turns[i];
    assert Rival(pl.bases[q], q < pl.p, Cap(pl.bases[pl.p])) && Lets(pl.bases[q], q < pl.p, Cap(pl.bases[pl.p]));
    if i > 0 { var n := NextTurn(pl.turns, i, pl.turns[i - 1]); }
  }

  // ---------- runs put together call by call ----------

  ghost predicate Hops(ss: seq<Sched>, ops: seq<Op>, s: Sched, t: Sched, bases: seq<nat>, p: nat, n: nat) {
    && IsRun(ss, ops) && ss[0] == s && ss[|ops|] == t && Selections(ss, ops, |ops|) == n
    && forall i :: 0 <= i < |ss| ==> Ready(ss[i], bases, p) && ss[i].running != p
  }

  /** From `s` to `t` in `n` selections, during which `p` is ready and never runs. */
  ghost predicate Hop(s: Sched, t: Sched, bases: seq<nat>, p: nat, n: nat) {
    exists ss, ops :: Hops(ss, ops, s, t, bases, p, n)
  }

  /** `t` is reached; in a wait, that began at `s`, over `n` selections that passed `p` over. */
  ghost predicate Leads(s: Sched, t: Sched, pl: Plan, n: nat, wait: bool) {
    Reached(t) && (wait ==> Hop(s, t, pl.bases, pl.p, n))
  }

  lemma {:induction false} SelectionsGrow(ss: seq<Sched>, ops: seq<Op>, s: Sched, op: Op, n: nat)
    requires IsRun(ss, ops) && IsRun(ss + [s], ops + [op]) && n <= |ops|
    ensures Selections(ss + [s], ops + [op], n) == Selections(ss, ops, n)
  {
    if n > 0 {
      SelectionsGrow(ss, ops, s, op, n - 1);
      assert Follows(ss, ops, n - 1) && Follows(ss + [s], ops + [op], n - 1);
    }
  }

  lemma RunGrows(ss: seq<Sched>, ops: seq<Op>, op: Op)
    requires IsRun(ss, ops) && Valid(ss[|ops|])
    ensures IsRun(ss + [Next(ss[|ops|], op)], ops + [op])
  {
    hide Valid, Next;
    var ss', ops' := ss + [Next(ss[|ops|], op)], ops + [op];
    assert ss'[0] == ss[0];
    forall i | 0 <= i < |ops'|
      ensures Follows(ss', ops', i)
    {
      if i < |ops| { assert Follows(ss, ops, i); }
    }
  }

  lemma ReachedGrows(s: Sched, op: Op)
    requires Reached(s) && Valid(s)
    ensures Reached(Next(s, op))
  {
    hide Valid, Next;
    var ss, ops :| RunTo(ss, ops, s);
    RunGrows(ss, ops, op);
    assert RunTo(ss + [Next(s, op)], ops + [op], Next(s, op));
  }

  lemma HopGrows(s: Sched, t: Sched, bases: seq<nat>, p: nat, n: nat, op: Op)
    requires Hop(s, t, bases, p, n) && Valid(t) && Ready(Next(t, op), bases, p) && Next(t, op).running != p
    ensures Hop(s, Next(t, op), bases, p, if Selects(t, op) then n + 1 else n)
  {
    hide Valid, Next, Ready, Selects;
    var ss, ops :| Hops(ss, ops, s, t, bases, p, n);
    RunGrows(ss, ops, op);
    var ss', ops' := ss + [Next(t, op)], ops + [op];
    SelectionsGrow(ss, ops, Next(t, op), op, |ops|);
    assert Selections(ss', ops', |ops| + 1) == n + if Selects(t, op) then 1 else 0;
    assert Hops(ss', ops', s, Next(t, op), bases, p, if Selects(t, op) then n + 1 else n);
  }

  lemma LeadsOn(s: Sched, t: Sched, pl: Plan, n: nat, wait: bool, op: Op)
    requires Leads(s, t, pl, n, wait) && Valid(t)
    requires wait ==> Ready(Next(t, op), pl.bases, pl.p) && Next(t, op).running != pl.p
    ensures Leads(s, Next(t, op), pl, if Selects(t, op) then n + 1 else n, wait)
  {
    hide Valid, Next, Ready, Selects, Reached, Hop;
    ReachedGrows(t, op);
    if wait { HopGrows(s, t, pl.bases, pl.p, n, op); }
  }

  // ---------- the turns ----------

  /** The tick before the first selection of the plan. */
  function Start(pl: Plan): nat { 2 * |pl.bases| - 1 + LONGEST }

  ghost predicate Named(s: Sched) { forall q :: 0 <= q < |s.procs| ==> s.procs[q].pid == 100 + q }

  /** What every state of the run satisfies. */
  ghost predicate Sane(s: Sched, bases: seq<nat>) { Valid(s) && TameTable(s) && BasesOf(s, bases) && Named(s) }

  lemma SaneYield(s: Sched, bases: seq<nat>)
    requires Sane(s, bases)
    ensures Sane(Yield(s), bases) && |Yield(s).procs| == |s.procs| && Yield(s).ticks == (s.ticks + 1) % WORD
  {
    YieldTame(s);
    YieldValid(s);
    YieldKeepsPids(s);
    hide Yield;
  }

  lemma SaneAt(s: Sched, bases: seq<nat>, q: nat)
    requires Sane(s, bases) && q < |s.procs|
    ensures Tame(s.procs[q]) && q < |bases| && s.procs[q].base == bases[q] && s.procs[q].pid == 100 + q && Valid(s)
  {
  }

  /** How slot `q` waits for its next turn `n`, before selection `i`: stopped at its base until there are just
      enough selections left to age; or aging, to reach the maximum at its turn; or, before its first turn,
      asleep at the maximum. `slack` is 1 once everybody who is due has been woken. */
  ghost predicate Awaits(c: Pcb, n: nat, i: nat, start: nat, slack: nat) {
    && Tame(c)
    && (|| (c.state == Stopped && c.sleepUntil == 0 && Missing(c) == Rest(c.base) && n - i + 1 >= Rest(c.base) + slack)
        || (c.state == Running && c.sleepUntil == 0 && Missing(c) == n - i + 1)
        || (c.state == Running && c.sleepUntil == start + n + 1 && Missing(c) == 0 && n < LONGEST))
  }

  /** What holds all along. */
  ghost predicate Frame(s: Sched, pl: Plan, i: nat) {
    && Sane(s, pl.bases) && pl.p < |s.procs| == |pl.bases|
    && (i <= LONGEST ==> s.ticks == Start(pl) + i)
    && s.procs[pl.p].state == Running && s.procs[pl.p].sleepUntil == 0
  }

  /** A slot that has just been picked. */
  ghost predicate Fresh(c: Pcb) {
    Tame(c) && c.state == Running && c.sleepUntil == 0 && Missing(c) == Rest(c.base)
  }

  /** Before selection `i`; of the slots that are due, those below `k` have been woken. */
  ghost predicate Stage(s: Sched, pl: Plan, i: nat, k: nat)
    requires Sound(pl)
  {
    && i <= |pl.turns| && Frame(s, pl, i)
    && (if i == 0 then s.running == pl.p else s.running == pl.turns[i - 1])
    && (i > 0 ==> s.running < |s.procs| && Fresh(s.procs[s.running]))
    && forall q :: 0 <= q < |s.procs| && q != pl.p && q != s.running ==>
         Awaits(s.procs[q], NextTurn(pl.turns, i, q), i, Start(pl), if q < k then 1 else 0)
  }

  lemma LiveAt(s: Sched, q: nat)
    requires q < |s.procs| && s.procs[q].state != Dead && forall j :: 0 <= j < |s.procs| ==> s.procs[j].pid == 100 + j
    ensures FirstLive(s.procs, 100 + q, 0) == q
  {
  }

  /** Slot `k` is due: it is stopped, with just enough selections left to age. */
  ghost predicate Due(s: Sched, pl: Plan, i: nat, k: nat)
    requires Sound(pl) && Stage(s, pl, i, k) && k < |pl.bases|
  {
    && k != pl.p && k != s.running && s.procs[k].state == Stopped
    && NextTurn(pl.turns, i, k) - i + 1 == Rest(s.procs[k].base)
  }

  lemma WakeDue(s: Sched, pl: Plan, i: nat, k: nat)
    requires Sound(pl) && Stage(s, pl, i, k) && k < |pl.bases|
    ensures if Due(s, pl, i, k) then Stage(s.(procs := s.procs[k := s.procs[k].(state := Running)]), pl, i, k + 1)
            else Stage(s, pl, i, k + 1)
  {
    hide Sound;
  }

  /** Slot `k` is woken if it is due. */
  lemma WakeOne(s0: Sched, s: Sched, pl: Plan, i: nat, k: nat, n: nat) returns (s': Sched)
    requires Sound(pl) && Stage(s, pl, i, k) && k < |pl.bases| && Leads(s0, s, pl, n, i > 0)
    ensures Stage(s', pl, i, k + 1) && Leads(s0, s', pl, n, i > 0)
  {
    WakeDue(s, pl, i, k);
    StageReady(s, pl, i, k);
    s' := s;
    if Due(s, pl, i, k) {
      var op := Signal(100 + k, SIGCONT);
      LiveAt(s, k);
      SignalOther(s, op, k);
      hide Stage, Leads, Sound, Next, Valid, Ready;
      s' := Next(s, op);
      StageReady(s', pl, i, k + 1);
      LeadsOn(s0, s, pl, n, i > 0, op);
    }
  }

  lemma SignalOther(s: Sched, op: Op, k: nat)
    requires Valid(s) && k < |s.procs| && op == Signal(100 + k, SIGCONT) && FirstLive(s.procs, 100 + k, 0) == k
    ensures Next(s, op) == s.(procs := s.procs[k := s.procs[k].(state := Running)]) && !Selects(s, op)
    ensures Valid(Next(s, op))
  {
  }

  lemma {:induction false} WakeAll(s0: Sched, s: Sched, pl: Plan, i: nat, k: nat, n: nat) returns (s': Sched)
    requires Sound(pl) && Stage(s, pl, i, k) && k <= |pl.bases| && Leads(s0, s, pl, n, i > 0)
    ensures Stage(s', pl, i, |pl.bases|) && Leads(s0, s', pl, n, i > 0)
    decreases |pl.bases| - k
  {
    hide Stage, Leads, Sound;
    s' := s;
    if k < |pl.bases| {
      s' := WakeOne(s0, s, pl, i, k, n);
      s' := WakeAll(s0, s', pl, i, k + 1, n);
    }
  }

  /** The running slot stops itself, but for `p`, which just gives way. */
  function TurnOp(pl: Plan, i: nat): Op
    requires i <= |pl.turns|
  {
    if i == 0 then Pause else Signal(100 + pl.turns[i - 1], SIGSTOP)
  }

  /** What the call has done before it yields: every slot but `p` waits for its turn. */
  ghost predicate Poised(t: Sched, pl: Plan, i: nat)
    requires Sound(pl)
  {
    && i < |pl.turns| && Frame(t, pl, i) && t.running < |t.procs| && t.running != pl.turns[i]
    && forall q :: 0 <= q < |t.procs| && q != pl.p ==>
         Awaits(t.procs[q], NextTurn(pl.turns, i, q), i, Start(pl), 1)
         && (q == t.running ==> t.procs[q].state == Stopped)
  }

  /** The running slot has time to rest before its next turn. */
  lemma RunnerWaits(s: Sched, pl: Plan, i: nat)
    requires Sound(pl) && Stage(s, pl, i, |pl.bases|) && 0 < i < |pl.turns|
    ensures var c := s.procs[s.running].(state := Stopped);
            Awaits(c, NextTurn(pl.turns, i, s.running), i, Start(pl), 1) && s.running != pl.p && s.running != pl.turns[i]
  {
    TurnsBelow(pl, i);
    TurnsBelow(pl, i - 1);
    SaneAt(s, pl.bases, s.running);
    hide Sound, Sane;
  }

  lemma TurnActs(s: Sched, pl: Plan, i: nat)
    requires Sound(pl) && Stage(s, pl, i, |pl.bases|) && i < |pl.turns|
    ensures var e := Act(s, TurnOp(pl, i)); e.resched && Poised(e.s, pl, i)
  {
    hide Poised, Act;
    if i > 0 { LaterTurnActs(s, pl, i); } else { FirstTurnActs(s, pl); }
  }

  lemma FirstTurnActs(s: Sched, pl: Plan)
    requires Sound(pl) && Stage(s, pl, 0, |pl.bases|)
    ensures var e := Act(s, Pause); e.resched && Poised(e.s, pl, 0)
  {
    SaneAt(s, pl.bases, pl.p);
    TurnsBelow(pl, 0);
    hide Sound, Sane, Awaits;
  }

  lemma LaterTurnActs(s: Sched, pl: Plan, i: nat)
    requires Sound(pl) && Stage(s, pl, i, |pl.bases|) && 0 < i < |pl.turns|
    ensures var e := Act(s, TurnOp(pl, i)); e.resched && Poised(e.s, pl, i)
  {
    RunnerWaits(s, pl, i);
    StageSane(s, pl, i);
    LiveInSane(s, pl.bases, s.running);
    StopsSelf(s, pl.bases);
    RunnerName(s, pl, i);
    hide Sound, Act, Sane, Awaits, Stage, Poised;
    StoppedPoised(s, Act(s, TurnOp(pl, i)).s, pl, i);
  }

  lemma StageSane(s: Sched, pl: Plan, i: nat)
    requires Sound(pl) && Stage(s, pl, i, |pl.bases|) && i > 0
    ensures Sane(s, pl.bases) && s.running < |s.procs| && s.procs[s.running].state == Running
  {
  }

  lemma RunnerName(s: Sched, pl: Plan, i: nat)
    requires Sound(pl) && Stage(s, pl, i, |pl.bases|) && 0 < i <= |pl.turns|
    ensures TurnOp(pl, i) == Signal(100 + s.running, SIGSTOP)
  {
  }

  lemma StoppedPoised(s: Sched, t: Sched, pl: Plan, i: nat)
    requires Sound(pl) && Stage(s, pl, i, |pl.bases|) && 0 < i < |pl.turns| && s.running < |s.procs| && Sane(t, pl.bases)
    requires t == s.(procs := s.procs[s.running := s.procs[s.running].(state := Stopped)])
    requires s.running != pl.p && s.running != pl.turns[i]
    requires Awaits(t.procs[s.running], NextTurn(pl.turns, i, s.running), i, Start(pl), 1)
    ensures Poised(t, pl, i)
  {
    hide Sound, Sane, Awaits, Fresh;
  }

  lemma LiveInSane(s: Sched, bases: seq<nat>, q: nat)
    requires Sane(s, bases) && q < |s.procs| && s.procs[q].state != Dead
    ensures FirstLive(s.procs, 100 + q, 0) == q
  {
    LiveAt(s, q);
  }

  lemma StopsSelf(s: Sched, bases: seq<nat>)
    requires Sane(s, bases) && FirstLive(s.procs, 100 + s.running, 0) == s.running
    ensures var e := Act(s, Signal(100 + s.running, SIGSTOP));
            e.resched && e.s == s.(procs := s.procs[s.running := s.procs[s.running].(state := Stopped)]) && Sane(e.s, bases)
  {
  }

  /** The slot whose turn it is shows the maximum. */
  lemma TurnShows(t: Sched, pl: Plan, i: nat)
    requires Sound(pl) && Poised(t, pl, i)
    ensures var a := pl.turns[i];
            && a < |t.procs| && t.procs[a].state == Running && WillBeAwake(t, a) && Shown(t, a).dyn == MAX_PRIORITY
  {
    TurnsBelow(pl, i);
    SaneAt(t, pl.bases, pl.turns[i]);
    hide Sound, Sane;
    var a := pl.turns[i];
    assert NextTurn(pl.turns, i, a) == i;
    AgingCounts(t.procs[a]);
  }

  /** Nobody else who is awake shows it in time. */
  lemma OthersShowLess(t: Sched, pl: Plan, i: nat, j: nat)
    requires Sound(pl) && Poised(t, pl, i) && j < |t.procs| && j != pl.turns[i]
    requires t.procs[j].state == Running && WillBeAwake(t, j)
    ensures Shown(t, j).dyn < MAX_PRIORITY || (j == pl.p && Shown(t, j).dyn == MAX_PRIORITY && pl.turns[i] < j)
  {
    TurnsBelow(pl, i);
    SaneAt(t, pl.bases, j);
    SoundSize(pl);
    hide Sound, Sane;
    if j == pl.p {
      AgingCounts(t.procs[j]);
    } else {
      hide Awaits, Rest, Missing;
      assert NextTurn(pl.turns, i, j) > i;
      ShowsLess(t.procs[j], NextTurn(pl.turns, i, j), i, Start(pl), t.ticks);
    }
  }

  lemma ShowsLess(c: Pcb, n: nat, i: nat, start: nat, ticks: nat)
    requires Awaits(c, n, i, start, 1) && n > i && c.state == Running && start + LONGEST + 1 < WORD
    requires i <= LONGEST ==> ticks == start + i
    requires c.sleepUntil == 0 || c.sleepUntil <= (ticks + 1) % WORD
    ensures Aged(c).dyn < MAX_PRIORITY
  {
  }

  /** The selection picks the slot whose turn it is. */
  lemma TurnPicked(t: Sched, pl: Plan, i: nat)
    requires Sound(pl) && Poised(t, pl, i)
    ensures |t.procs| > 1 && Yield(t).running == pl.turns[i]
  {
    hide Yield, Poised, Sound;
    PoisedSize(t, pl, i);
    TurnShows(t, pl, i);
    PicksFirstMaximum(t, pl.turns[i]);
    var j := Yield(t).running;
    if j != pl.turns[i] { OthersShowLess(t, pl, i, j); }
  }

  lemma PoisedSize(t: Sched, pl: Plan, i: nat)
    requires Sound(pl) && Poised(t, pl, i)
    ensures |t.procs| > 1 && i < |pl.turns|
  {
    TurnsBelow(pl, i);
  }

  /** A slot that is not picked still waits for its turn. */
  lemma TurnSlot(t: Sched, pl: Plan, i: nat, q: nat)
    requires Sound(pl) && Poised(t, pl, i) && q < |t.procs| && q != pl.p && q != pl.turns[i]
    ensures Awaits(Woken(Shown(t, q), (t.ticks + 1) % WORD), NextTurn(pl.turns, i + 1, q), i + 1, Start(pl), 0)
  {
    hide Sound, Sane;
    assert NextTurn(pl.turns, i, q) == NextTurn(pl.turns, i + 1, q) > i;
    if t.procs[q].state == Running { AgingCounts(t.procs[q]); }
  }

  lemma FrameNext(t: Sched, pl: Plan, i: nat)
    requires Sound(pl) && Poised(t, pl, i)
    ensures Frame(Yield(t), pl, i + 1)
  {
    SoundSize(pl);
    OtherReady(t, pl, i);
    hide Yield, Sound, Frame;
    FrameYield(t, pl, i);
  }

  lemma FrameYield(t: Sched, pl: Plan, i: nat)
    requires Frame(t, pl, i) && |pl.bases| <= MAX_TASKS && pl.p < |Yield(t).procs|
    requires Yield(t).procs[pl.p].state == Running && Yield(t).procs[pl.p].sleepUntil == 0
    ensures Frame(Yield(t), pl, i + 1)
  {
    hide Yield, Sane;
    SaneYield(t, pl.bases);
  }

  lemma OtherReady(t: Sched, pl: Plan, i: nat)
    requires Sound(pl) && Poised(t, pl, i)
    ensures pl.p < |Yield(t).procs| && Yield(t).procs[pl.p].state == Running && Yield(t).procs[pl.p].sleepUntil == 0
  {
    TurnPicked(t, pl, i);
    TurnShows(t, pl, i);
    TurnsBelow(pl, i);
    hide Yield, Sound, Awaits, Tame, Valid;
    PicksFirstMaximum(t, pl.turns[i]);
  }

  /** After the selection everybody waits for the next one. */
  lemma TurnTaken(t: Sched, pl: Plan, i: nat)
    requires Sound(pl) && Poised(t, pl, i)
    ensures Stage(Yield(t), pl, i + 1, 0)
  {
    TurnPicked(t, pl, i);
    TurnShows(t, pl, i);
    FrameNext(t, pl, i);
    hide Yield, Sound, Awaits;
    PicksFirstMaximum(t, pl.turns[i]);
    var u := Yield(t);
    hide Frame;
    forall q | 0 <= q < |u.procs| && q != pl.p && q != u.running
      ensures Awaits(u.procs[q], NextTurn(pl.turns, i + 1, q), i + 1, Start(pl), 0)
    {
      TurnSlot(t, pl, i, q);
    }
    PickedFresh(t, pl, i);
  }

  lemma PickedFresh(t: Sched, pl: Plan, i: nat)
    requires Sound(pl) && Poised(t, pl, i)
    ensures var u := Yield(t);
            u.running < |u.procs| && Fresh(u.procs[u.running])
  {
    TurnPicked(t, pl, i);
    TurnShows(t, pl, i);
    hide Yield, Sound, Awaits;
    PicksFirstMaximum(t, pl.turns[i]);
  }

  lemma YieldKeepsPids(t: Sched)
    requires Valid(t)
    ensures |Yield(t).procs| == |t.procs| && Yield(t).ticks == (t.ticks + 1) % WORD
    ensures forall q :: 0 <= q < |t.procs| ==> Yield(t).procs[q].pid == t.procs[q].pid
  {
    hide Best, Eligible;
  }

  lemma TakeTurn(s0: Sched, s: Sched, pl: Plan, i: nat, n: nat) returns (s': Sched)
    requires Sound(pl) && Stage(s, pl, i, 0) && i < |pl.turns| && Leads(s0, s, pl, n, i > 0)
    ensures Stage(s', pl, i + 1, 0) && Leads(s0, s', pl, n + 1, i > 0)
  {
    hide Leads, Poised, Yield, Next;
    var u := WakeAll(s0, s, pl, i, 0, n);
    TurnActs(u, pl, i);
    var t := Act(u, TurnOp(pl, i)).s;
    TurnTaken(t, pl, i);
    TurnPicked(t, pl, i);
    s' := Yield(t);
    NextIsYield(u, TurnOp(pl, i));
    StageReady(s', pl, i + 1, 0);
    TurnsBelow(pl, i);
    LeadsOn(s0, u, pl, n, i > 0, TurnOp(pl, i));
  }

  lemma NextIsYield(s: Sched, op: Op)
    requires Valid(s) && Act(s, op).resched && |Act(s, op).s.procs| > 1
    ensures Next(s, op) == Yield(Act(s, op).s) && Selects(s, op)
  {
  }

  lemma StageReady(s: Sched, pl: Plan, i: nat, k: nat)
    requires Sound(pl) && Stage(s, pl, i, k)
    ensures Valid(s) && Ready(s, pl.bases, pl.p) && WillBeAwake(s, pl.p)
    ensures i > 0 ==> s.running != pl.p
  {
  }

  /** All turns but the first are a wait. */
  lemma {:induction false} TakeTurns(s0: Sched, s: Sched, pl: Plan, i: nat) returns (s': Sched)
    requires Sound(pl) && Stage(s, pl, i, 0) && 0 < i <= |pl.turns| && Leads(s0, s, pl, i - 1, true)
    ensures Leads(s0, s', pl, |pl.turns| - 1, true)
    decreases |pl.turns| - i
  {
    hide Stage, Leads, Sound;
    s' := s;
    if i < |pl.turns| {
      s' := TakeTurn(s0, s, pl, i, i - 1);
      s' := TakeTurns(s0, s', pl, i + 1);
    }
  }

  // ---------- getting there ----------

  /** The slots that sleep until their first turn, and `p`, which sleeps until all are registered. The others stop. */
  predicate Sleeps(pl: Plan, q: nat)
    requires q < |pl.bases|
  {
    q == pl.p || NextTurn(pl.turns, 0, q) + 1 < Rest(pl.bases[q])
  }

  function WakeTick(pl: Plan, q: nat): nat
    requires |pl.bases| > 0
  {
    if q == pl.p then 2 * |pl.bases| - 1 else Start(pl) + NextTurn(pl.turns, 0, q) + 1
  }

  /** Slot `q` has put itself where the plan wants it. */
  ghost predicate Placed(c: Pcb, pl: Plan, q: nat)
    requires q < |pl.bases|
  {
    && Tame(c)
    && if Sleeps(pl, q) then c.state == Running && c.sleepUntil == WakeTick(pl, q)
    else c.state == Stopped && c.sleepUntil == 0 && Missing(c) == Rest(c.base)
  }

  /** The call with which it does so. */
  function PlaceOp(pl: Plan, q: nat, now: nat): Op
    requires q < |pl.bases|
  {
    if Sleeps(pl, q) then Sleep(if WakeTick(pl, q) >= now then WakeTick(pl, q) - now else 0) else Signal(100 + q, SIGSTOP)
  }

  ghost predicate FreshAt(c: Pcb) { c.state == Running && c.dyn == c.base && c.acc == 0 }

  /** Slots 1 to `k` are registered and placed; the master process runs. */
  ghost predicate Prepared(s: Sched, pl: Plan, k: nat) {
    && k < |pl.bases| <= MAX_TASKS && Sane(s, pl.bases)
    && |s.procs| == k + 1 && s.running == 0 && s.ticks == 2 * k && s.seed == 101 + k
    && FreshAt(s.procs[0]) && s.procs[0].sleepUntil == 0
    && forall q :: 1 <= q <= k ==> Placed(s.procs[q], pl, q)
  }

  /** Slot `k` is registered and runs, to place itself. */
  ghost predicate Placing(s: Sched, pl: Plan, k: nat) {
    && 0 < k < |pl.bases| <= MAX_TASKS && Sane(s, pl.bases)
    && |s.procs| == k + 1 && s.running == k && s.ticks == 2 * k - 1 && s.seed == 101 + k
    && FreshAt(s.procs[0]) && s.procs[0].sleepUntil == 2 * k && FreshAt(s.procs[k]) && s.procs[k].sleepUntil == 0
    && forall q :: 1 <= q < k ==> Placed(s.procs[q], pl, q)
  }

  /** After `j` agings, at least. */
  ghost predicate Warmed(c: Pcb, j: nat) { Tame(c) && (Missing(c) == 0 || Missing(c) + j <= LONGEST) }

  /** Everybody but `p` is placed, and `p` has been running for `j` selections. */
  ghost predicate Warm(s: Sched, pl: Plan, j: nat)
    requires Sound(pl)
  {
    && Sane(s, pl.bases) && |s.procs| == |pl.bases| && s.running == pl.p
    && s.ticks == 2 * |pl.bases| - 1 + j && s.procs[pl.p].state == Running && s.procs[pl.p].sleepUntil == 0
    && forall q :: 0 <= q < |s.procs| && q != pl.p ==>
         Placed(s.procs[q], pl, q) && (Sleeps(pl, q) ==> Warmed(s.procs[q], j))
  }

  /** If nobody else is ready the one ready slot is picked, and the others just age. */
  lemma OnlyReady(s: Sched, a: nat)
    requires Valid(s) && |s.procs| > 1 && a < |s.procs| && s.procs[a].state == Running && WillBeAwake(s, a)
    requires forall q :: 0 <= q < |s.procs| && q != a ==> s.procs[q].state != Running || !WillBeAwake(s, q)
    ensures |Yield(s).procs| == |s.procs| && Yield(s).running == a && Yield(s).ticks == (s.ticks + 1) % WORD
    ensures Yield(s).seed == s.seed && Yield(s).procs[a] == Rewound(Shown(s, a)).(sleepUntil := 0)
    ensures forall q :: 0 <= q < |s.procs| && q != a ==> Yield(s).procs[q] == Shown(s, q)
  {
    PicksFirstMaximum(s, a);
    YieldKeepsPids(s);
    hide Select;
  }

  lemma PlacedAges(c: Pcb, pl: Plan, q: nat)
    requires q < |pl.bases| && Placed(c, pl, q)
    ensures Placed(Aged(c), pl, q)
  {
  }

  /** Until everybody is registered no placed slot is ready. */
  lemma PlacedRests(s: Sched, pl: Plan, q: nat)
    requires q < |s.procs| && q < |pl.bases| <= MAX_TASKS && Placed(s.procs[q], pl, q)
    requires s.ticks + 1 < 2 * |pl.bases| - 1
    ensures s.procs[q].state != Running || !WillBeAwake(s, q)
  {
  }

  /** Until its first turn no placed slot but `p` is ready. */
  lemma PlacedSleeps(s: Sched, pl: Plan, q: nat)
    requires q < |s.procs| && q < |pl.bases| <= MAX_TASKS && q != pl.p && Placed(s.procs[q], pl, q)
    requires s.ticks + 1 <= Start(pl)
    ensures s.procs[q].state != Running || !WillBeAwake(s, q)
  {
  }

  /** A sleeping slot comes closer to the maximum with every selection. */
  lemma PlacedWarms(c: Pcb, pl: Plan, q: nat, j: nat)
    requires q < |pl.bases| && Placed(c, pl, q) && Sleeps(pl, q) && Warmed(c, j)
    ensures Warmed(Aged(c), j + 1)
  {
    AgingCounts(c);
  }

  lemma WarmedNone(c: Pcb)
    requires Tame(c)
    ensures Warmed(c, 0)
  {
  }

  /** The master process registers slot `k + 1` and sleeps for two ticks. */
  function Enrolled(s: Sched, pl: Plan, k: nat): Sched
    requires k + 1 < |pl.bases|
  {
    s.(procs := s.procs + [NewPcb(101 + k, pl.bases[k + 1], false)], seed := 102 + k)
  }

  lemma Enrol(s: Sched, pl: Plan, k: nat)
    requires Prepared(s, pl, k) && k + 1 < |pl.bases|
    ensures Next(s, Register(pl.bases[k + 1], false, true)) == Enrolled(s, pl, k) && Valid(Enrolled(s, pl, k))
    ensures var t := Enrolled(s, pl, k);
            && Act(t, Sleep(2)).s == t.(procs := t.procs[0 := t.procs[0].(sleepUntil := 2 * k + 2)])
            && Act(t, Sleep(2)).resched
  {
  }

  lemma EnrolPicks(s: Sched, pl: Plan, k: nat)
    requires Prepared(s, pl, k) && k + 1 < |pl.bases|
    ensures Valid(Enrolled(s, pl, k)) && Placing(Next(Enrolled(s, pl, k), Sleep(2)), pl, k + 1)
  {
    Enrol(s, pl, k);
    var t := Act(Enrolled(s, pl, k), Sleep(2)).s;
    assert Sane(t, pl.bases);
    SaneAt(t, pl.bases, 0);
    hide Sane, Valid, Act, Yield, Placed, Sleeps, WakeTick, Missing;
    forall q | 1 <= q <= k
      ensures t.procs[q].state != Running || !WillBeAwake(t, q)
    {
      PlacedRests(t, pl, q);
    }
    OnlyReady(t, k + 1);
    SaneYield(t, pl.bases);
    forall q | 1 <= q <= k
      ensures Placed(Yield(t).procs[q], pl, q)
    {
      PlacedAges(t.procs[q], pl, q);
    }
  }

  lemma PlaceActs(s: Sched, pl: Plan, q: nat)
    requires Sane(s, pl.bases) && q == s.running < |pl.bases| && FreshAt(s.procs[q]) && s.procs[q].sleepUntil == 0
    requires s.ticks <= 2 * |pl.bases| - 2 && |pl.bases| <= MAX_TASKS 
    ensures var e := Act(s, PlaceOp(pl, q, s.ticks));
            && e.resched && Valid(e.s) && |e.s.procs| == |s.procs| && e.s == s.(procs := s.procs[q := e.s.procs[q]])
            && e.s.procs[q] == s.procs[q].(state := e.s.procs[q].state, sleepUntil := e.s.procs[q].sleepUntil)
            && Sane(e.s, pl.bases) && Placed(e.s.procs[q], pl, q)
  {
    if !Sleeps(pl, q) {
      LiveAt(s, q);
      StopsSelf(s, pl.bases);
    } else if q != pl.p {
      var n := NextTurn(pl.turns, 0, q);
      assert Rest(pl.bases[q]) <= LONGEST;
    }
  }

  lemma PlacePicks(s: Sched, pl: Plan, k: nat)
    requires Placing(s, pl, k)
    ensures Prepared(Next(s, PlaceOp(pl, k, s.ticks)), pl, k)
  {
    PlaceActs(s, pl, k);
    var t := Act(s, PlaceOp(pl, k, s.ticks)).s;
    SaneAt(t, pl.bases, 0);
    hide Sane, Valid, Act, Yield, Placed, Sleeps, WakeTick, Missing;
    forall q | 1 <= q <= k
      ensures t.procs[q].state != Running || !WillBeAwake(t, q)
    {
      PlacedRests(t, pl, q);
    }
    OnlyReady(t, 0);
    SaneYield(t, pl.bases);
    forall q | 1 <= q <= k
      ensures Placed(Yield(t).procs[q], pl, q)
    {
      PlacedAges(t.procs[q], pl, q);
    }
  }

  lemma PreparedStart(pl: Plan)
    requires Sound(pl)
    ensures Valid(Initial()) && Prepared(Next(Initial(), Register(20, false, false)), pl, 0)
    ensures Reached(Next(Initial(), Register(20, false, false)))
  {
    assert RunTo([Initial()], [], Initial());
    ReachedGrows(Initial(), Register(20, false, false));
  }

  lemma {:induction false} Prepare(pl: Plan, k: nat) returns (s: Sched)
    requires Sound(pl) && k < |pl.bases|
    ensures Prepared(s, pl, k) && Reached(s)
  {
    hide Sound, Next, Reached, Valid, Sane, Placed;
    if k == 0 {
      PreparedStart(pl);
      s := Next(Initial(), Register(20, false, false));
    } else {
      s := Prepare(pl, k - 1);
      PreparedValid(s, pl, k - 1);
      Enrol(s, pl, k - 1);
      EnrolPicks(s, pl, k - 1);
      ReachedGrows(s, Register(pl.bases[k], false, true));
      var t := Enrolled(s, pl, k - 1);
      ReachedGrows(t, Sleep(2));
      var u := Next(t, Sleep(2));
      SaneAt(u, pl.bases, 0);
      PlacePicks(u, pl, k);
      ReachedGrows(u, PlaceOp(pl, k, u.ticks));
      s := Next(u, PlaceOp(pl, k, u.ticks));
    }
  }

  /** Everybody is placed, and the master process is about to yield. */
  ghost predicate Settled(t: Sched, pl: Plan) {
    && Sane(t, pl.bases) && |t.procs| == |pl.bases| <= MAX_TASKS && t.running == 0
    && t.ticks == 2 * |pl.bases| - 2 && forall q :: 0 <= q < |t.procs| ==> Placed(t.procs[q], pl, q)
  }

  lemma MasterPlaced(s: Sched, pl: Plan)
    requires Sound(pl) && Prepared(s, pl, |pl.bases| - 1)
    ensures var e := Act(s, PlaceOp(pl, 0, s.ticks)); e.resched && Settled(e.s, pl) && Next(s, PlaceOp(pl, 0, s.ticks)) == Yield(e.s)
  {
    PlaceActs(s, pl, 0);
    hide Sound, Sane, Act, Yield, Placed, Missing, Sleeps, WakeTick;
  }

  /** While nobody else's turn has come `p` is picked, and the others age. */
  lemma Alone(t: Sched, pl: Plan)
    requires Sane(t, pl.bases) && pl.p < |t.procs| == |pl.bases| <= MAX_TASKS && |t.procs| > 1 && t.ticks + 1 <= Start(pl)
    requires t.procs[pl.p].state == Running && WillBeAwake(t, pl.p)
    requires forall q :: 0 <= q < |t.procs| && q != pl.p ==> Placed(t.procs[q], pl, q)
    ensures var u := Yield(t);
            && Sane(u, pl.bases) && |u.procs| == |t.procs| && u.running == pl.p && u.ticks == (t.ticks + 1) % WORD
            && u.procs[pl.p].state == Running && u.procs[pl.p].sleepUntil == 0
            && forall q :: 0 <= q < |t.procs| && q != pl.p ==> Placed(u.procs[q], pl, q) && u.procs[q] == Shown(t, q)
  {
    SaneAt(t, pl.bases, pl.p);
    hide Sane, Valid, Yield, Placed;
    forall q | 0 <= q < |t.procs| && q != pl.p
      ensures t.procs[q].state != Running || !WillBeAwake(t, q)
    {
      PlacedSleeps(t, pl, q);
    }
    OnlyReady(t, pl.p);
    SaneYield(t, pl.bases);
    forall q | 0 <= q < |t.procs| && q != pl.p
      ensures Placed(Yield(t).procs[q], pl, q)
    {
      PlacedAges(t.procs[q], pl, q);
    }
  }

  /** `p` wakes up, alone. */
  lemma WarmStart(t: Sched, pl: Plan)
    requires Sound(pl) && Settled(t, pl)
    ensures Warm(Yield(t), pl, 0)
  {
    TurnsBelow(pl, 0);
    assert pl.p < |t.procs| && t.procs[pl.p].sleepUntil == t.ticks + 1 && t.procs[pl.p].state == Running;
    hide Sound, Sane, Valid, Yield, Placed, Missing, Sleeps, WakeTick;
    Alone(t, pl);
    forall q | 0 <= q < |t.procs| && q != pl.p
      ensures Warmed(Yield(t).procs[q], 0)
    {
      SaneAt(Yield(t), pl.bases, q);
      WarmedNone(Yield(t).procs[q]);
    }
  }

  lemma WarmOn(s: Sched, pl: Plan, j: nat)
    requires Sound(pl) && Warm(s, pl, j) && j < LONGEST
    ensures Warm(Next(s, Pause), pl, j + 1)
  {
    TurnsBelow(pl, 0);
    assert Next(s, Pause) == Yield(s);
    hide Sound, Sane, Valid, Act, Yield, Placed, Warmed, Sleeps, Next, WakeTick;
    Alone(s, pl);
    forall q | 0 <= q < |s.procs| && q != pl.p && Sleeps(pl, q)
      ensures Warmed(Yield(s).procs[q], j + 1)
    {
      PlacedWarms(s.procs[q], pl, q, j);
    }
  }

  lemma {:induction false} WarmUp(pl: Plan, j: nat) returns (s: Sched)
    requires Sound(pl) && j <= LONGEST
    ensures Warm(s, pl, j) && Reached(s)
  {
    hide Sound, Prepared, Settled, Warm, Next, Reached, Act, Yield;
    if j == 0 {
      SoundSize(pl);
      var r := Prepare(pl, |pl.bases| - 1);
      PreparedValid(r, pl, |pl.bases| - 1);
      MasterPlaced(r, pl);
      WarmStart(Act(r, PlaceOp(pl, 0, r.ticks)).s, pl);
      ReachedGrows(r, PlaceOp(pl, 0, r.ticks));
      s := Next(r, PlaceOp(pl, 0, r.ticks));
    } else {
      var r := WarmUp(pl, j - 1);
      WarmValid(r, pl, j - 1);
      WarmOn(r, pl, j - 1);
      ReachedGrows(r, Pause);
      s := Next(r, Pause);
    }
  }

  lemma SoundSize(pl: Plan)
    requires Sound(pl)
    ensures 0 < |pl.bases| <= MAX_TASKS
  {
  }

  lemma PreparedValid(s: Sched, pl: Plan, k: nat)
    requires Prepared(s, pl, k)
    ensures Valid(s)
  {
  }

  lemma WarmValid(s: Sched, pl: Plan, j: nat)
    requires Sound(pl) && Warm(s, pl, j)
    ensures Valid(s)
  {
  }

  lemma WarmStage(s: Sched, pl: Plan)
    requires Sound(pl) && Warm(s, pl, LONGEST)
    ensures Stage(s, pl, 0, 0)
  {
    hide Sound;
  }

  /** Turns of a cover, but for the first, are a wait. */
  lemma CoverWaits(pl: Plan)
    requires Sound(pl)
    ensures CanWait(pl.bases, pl.p, |pl.turns| - 1)
  {
    hide Sound, Stage, Warm;
    var s := WarmUp(pl, LONGEST);
    WarmStage(s, pl);
    SoundSize(pl);
    assert |pl.turns| > 0 by { TurnsNonempty(pl); }
    var s1 := TakeTurn(s, s, pl, 0, 0);
    StageReady(s1, pl, 1, 0);
    HopStart(s1, pl.bases, pl.p);
    var t := TakeTurns(s1, s1, pl, 1);
    var ss, ops :| Hops(ss, ops, s1, t, pl.bases, pl.p, |pl.turns| - 1);
    assert Waits(ss, ops, pl.bases, pl.p, |pl.turns| - 1);
  }

  lemma TurnsNonempty(pl: Plan)
    requires Sound(pl)
    ensures |pl.turns| > 0 && pl.p < |pl.bases|
  {
  }

  lemma HopStart(s: Sched, bases: seq<nat>, p: nat)
    requires Valid(s) && Ready(s, bases, p) && s.running != p
    ensures Hop(s, s, bases, p, 0)
  {
    assert Hops([s], [], s, s, bases, p, 0);
  }
}
