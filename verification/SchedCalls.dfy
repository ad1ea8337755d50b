/** What each call of i386/whitex/multitasking.h does to whom, and that the terminated stay dead. */
module SchedCalls {
  import opened Common
  import opened SchedModel
  import opened SchedIpc
  import opened SchedFairness

  // ---------- yielding ----------

  /** A process the next selection may pick. */
  ghost predicate Ready(p: Pcb, now: nat) {
    p.state == Running && (p.sleepUntil == 0 || p.sleepUntil <= now)
  }

  ghost predicate ReadyAt(s: Sched, i: nat) {
    i < |s.procs| && Ready(s.procs[i], (s.ticks + 1) % WORD)
  }

  /** Yielding moves the clock; with two slots or more it picks a ready one, slot 0 exactly for want of any. */
  lemma YieldPicks(s: Sched)
    requires Valid(s)
    ensures Yield(s).ticks == (s.ticks + 1) % WORD
    ensures |s.procs| == 1 ==> Yield(s).procs == s.procs && Yield(s).running == s.running
    ensures |s.procs| > 1 && (exists i :: ReadyAt(s, i)) ==> ReadyAt(s, Yield(s).running)
    ensures |s.procs| > 1 && !(exists i :: ReadyAt(s, i)) ==> Yield(s).running == 0
  {
    if |s.procs| > 1 {
      var t := s.(ticks := (s.ticks + 1) % WORD);
      var procs := Refreshed(t);
      BestIsFirstMaximum(procs, t.ticks, |procs|);
      forall i: nat | i < |s.procs|
        ensures Eligible(procs[i], t.ticks) <==> ReadyAt(s, i)
      {
      }
    }
  }

  /** A process found ready is no longer asleep, and nobody else's sleep ends. */
  lemma YieldWakes(s: Sched, i: nat)
    requires Valid(s) && i < |s.procs|
    ensures |Yield(s).procs| == |s.procs|
    ensures Yield(s).procs[i].sleepUntil == if |s.procs| > 1 && ReadyAt(s, i) then 0 else s.procs[i].sleepUntil
  {
  }

  /** The caller of `op` gave up the processor: it runs on only as slot 0, for want of any ready process. */
  ghost predicate GaveUp(s: Sched, s': Sched) {
    s'.ticks == (s.ticks + 1) % WORD && (s.running > 0 ==> s'.running != s.running)
  }

  ghost predicate KeptOn(s: Sched, s': Sched) {
    s'.ticks == s.ticks && s'.running == s.running
  }

  /** Nobody but slot `k` is touched in more than its priority and sleep. */
  ghost predicate Spares(s: Sched, s': Sched, k: nat) {
    && |s'.procs| == |s.procs| && s'.seed == s.seed
    && forall i :: 0 <= i < |s.procs| && i != k ==> SameLife(s.procs[i], s'.procs[i])
  }

  /** A caller that is no longer running leaves the processor when it yields. */
  lemma LeavesProcessor(s: Sched)
    requires Valid(s) && !ReadyAt(s, s.running)
    ensures GaveUp(s, Yield(s)) && Spares(s, Yield(s), |s.procs|)
  {
    YieldPicks(s);
    YieldKeepsLife(s);
  }

  // ---------- who is meant ----------

  ghost predicate Lowest(procs: seq<Pcb>, pid: nat, k: nat) {
    k < |procs| && procs[k].pid == pid && forall i :: 0 <= i < k ==> procs[i].pid != pid
  }

  ghost predicate LowestLiving(procs: seq<Pcb>, pid: nat, k: nat) {
    && k < |procs| && procs[k].pid == pid && procs[k].state != Dead
    && forall i :: 0 <= i < k ==> procs[i].pid != pid || procs[i].state == Dead
  }

  // ---------- termination ----------

  /** Slot `k` is dead, its waiters run again, and nobody else's life changes. */
  ghost predicate Ended(a: seq<Pcb>, b: seq<Pcb>, pid: nat, k: nat) {
    && |b| == |a| && k < |a|
    && SameLife(a[k].(state := Dead), b[k])
    && forall i :: 0 <= i < |a| && i != k ==>
         if a[i].state == Blocked && a[i].waitingOn == pid
         then SameLife(a[i].(state := Running, waitingOn := 0), b[i])
         else SameLife(a[i], b[i])
  }

  /** The first process with the pid ends, unless it is the master or critical; without one nothing happens. */
  lemma TerminateEnds(s: Sched, pid: nat)
    requires Valid(s)
    ensures var reply, t := Act(s, Terminate(pid)).reply, Next(s, Terminate(pid));
            && (reply == Status(NotFound) <==> forall i :: 0 <= i < |s.procs| ==> s.procs[i].pid != pid)
            && (reply != Status(Ok) ==> t == s)
            && forall k: nat :: Lowest(s.procs, pid, k) ==>
                 if pid == 100 || s.procs[k].critical then reply == Status(Permission)
                 else reply == Status(Ok) && Ended(s.procs, t.procs, pid, k) && KeptOn(s, t) && t.seed == s.seed
  {
    forall k: nat | Lowest(s.procs, pid, k)
      ensures k == FirstPid(s.procs, pid, 0)
    {
    }
    forall k: nat | Lowest(s.procs, pid, k) && pid != 100 && !s.procs[k].critical
      ensures Ended(s.procs, Next(s, Terminate(pid)).procs, pid, k)
    {
      TerminateKills(s, pid, k);
    }
  }

  lemma TerminateKills(s: Sched, pid: nat, k: nat)
    requires Valid(s) && Lowest(s.procs, pid, k) && pid != 100 && !s.procs[k].critical
    ensures var t := Next(s, Terminate(pid));
            Act(s, Terminate(pid)).reply == Status(Ok) && Ended(s.procs, t.procs, pid, k) && KeptOn(s, t) && t.seed == s.seed
  {
    assert FirstPid(s.procs, pid, 0) == k;
  }

  lemma TerminateSpares(s: Sched, pid: nat, k: nat)
    requires Valid(s) && Lowest(s.procs, pid, k) && (pid == 100 || s.procs[k].critical)
    ensures Next(s, Terminate(pid)) == s
  {
    assert FirstPid(s.procs, pid, 0) == k;
  }

  /** An exit ends the first process with the caller's pid in the same way and yields; a process that may not be ended
      only yields. */
  lemma ExitEnds(s: Sched, k: nat)
    requires Valid(s) && Lowest(s.procs, s.procs[s.running].pid, k)
    ensures var pid, t := s.procs[s.running].pid, Next(s, Exit);
            && (pid == 100 || s.procs[k].critical ==> t == Yield(s))
            && (pid != 100 && !s.procs[k].critical ==>
                  Ended(s.procs, t.procs, pid, k) && t.ticks == (s.ticks + 1) % WORD && (k > 0 ==> t.running != k))
  {
    var pid := s.procs[s.running].pid;
    var spared := pid == 100 || s.procs[k].critical;
    hide *;
    ExitYields(s);
    if spared {
      TerminateSpares(s, pid, k);
    } else {
      TerminateKills(s, pid, k);
      NextValid(s, Terminate(pid));
      EndedYield(s.procs, Next(s, Terminate(pid)), s.ticks, pid, k);
    }
  }

  lemma EndedYield(a: seq<Pcb>, u: Sched, ticks: nat, pid: nat, k: nat)
    requires Valid(u) && u.ticks == ticks && Ended(a, u.procs, pid, k)
    ensures Ended(a, Yield(u).procs, pid, k) && Yield(u).ticks == (ticks + 1) % WORD && (k > 0 ==> Yield(u).running != k)
  {
    hide Yield;
    YieldKeepsLife(u);
    YieldPicks(u);
    EndedThen(a, u.procs, Yield(u).procs, pid, k);
  }

  lemma EndedThen(a: seq<Pcb>, b: seq<Pcb>, c: seq<Pcb>, pid: nat, k: nat)
    requires Ended(a, b, pid, k) && |c| == |b| && forall i :: 0 <= i < |b| ==> SameLife(b[i], c[i])
    ensures Ended(a, c, pid, k)
  {
  }

  lemma ExitYields(s: Sched)
    requires Valid(s)
    ensures Next(s, Exit) == Yield(Next(s, Terminate(s.procs[s.running].pid)))
  {
    hide Yield;
  }

  /** The two calls that overwrite the caller's state whatever it is. */
  ghost predicate Blocks(s: Sched, op: Op) {
    Valid(s) && ((op.Receive? && s.procs[s.running].chan.count == 0) || (op.Wait? && Alive(s, op.target)))
  }

  /** A dead process above slot 0 is brought back exactly if it is still running and blocks. */
  lemma DeadStep(s: Sched, op: Op, k: nat)
    requires Valid(s) && 0 < k < |s.procs| && s.procs[k].state == Dead
    ensures k < |Next(s, op).procs|
    ensures Next(s, op).procs[k].state != Dead <==> k == s.running && Blocks(s, op)
    ensures s.running != k ==> Next(s, op).running != k
  {
    NextKeepsLife(s, op);
    DeadAct(s, op, k);
    var e := Act(s, op);
    assert Next(s, op) == if e.resched then Yield(e.s) else e.s;
    hide Next, Act, Yield, Blocks;
    assert SameLife(e.s.procs[k], Next(s, op).procs[k]);
    if s.running != k && e.resched { YieldPicks(e.s); }
  }

  lemma DeadAct(s: Sched, op: Op, k: nat)
    requires Valid(s) && 0 < k < |s.procs| && s.procs[k].state == Dead
    ensures var t := Act(s, op).s;
            k < |t.procs| && t.running == s.running && (t.procs[k].state != Dead <==> k == s.running && Blocks(s, op))
  {
    hide ChanOk, Enqueue, Dequeue, EmptyChannel, Kept, KeptSlot;
    if op.Wait? { LivingIsFirst(s, op.target); }
  }

  lemma LivingIsFirst(s: Sched, pid: nat)
    ensures var f := FirstLive(s.procs, pid, 0);
            (Alive(s, pid) <==> f < |s.procs|) && forall k: nat :: LowestLiving(s.procs, pid, k) ==> k == f
  {
    var f := FirstLive(s.procs, pid, 0);
    if f < |s.procs| { assert s.procs[f].pid == pid; }
  }

  /** In every run a process ended above slot 0 stays dead if and only if it does not block before it is switched away. */
  lemma {:induction false} DeadExactly(ss: seq<Sched>, ops: seq<Op>, k: nat, n: nat)
    requires IsRun(ss, ops) && 0 < k < |ss[0].procs| && ss[0].procs[k].state == Dead && n <= |ops|
    ensures forall i :: 0 <= i <= n ==> k < |ss[i].procs|
    ensures (forall i :: 0 <= i <= n ==> ss[i].procs[k].state == Dead) <==>
            !exists i :: 0 <= i < n && ss[i].running == k && Blocks(ss[i], ops[i]) && ss[i].procs[k].state == Dead
  {
    if n > 0 {
      DeadExactly(ss, ops, k, n - 1);
      assert Follows(ss, ops, n - 1);
      RunValid(ss, ops, n - 1);
      SlotsStay(ss[n - 1], ops[n - 1]);
      if ss[n - 1].procs[k].state == Dead { DeadStep(ss[n - 1], ops[n - 1], k); }
    }
  }

  lemma SlotsStay(s: Sched, op: Op)
    requires Valid(s)
    ensures |Next(s, op).procs| >= |s.procs|
  {
    NextKeepsLife(s, op);
  }

  /** In every run a process ended by another, or by its own exit, never runs and never lives again. */
  lemma EndedForGood(ss: seq<Sched>, ops: seq<Op>, pid: nat, k: nat, n: nat)
    requires IsRun(ss, ops) && 0 < n <= |ops| && 0 < k && Lowest(ss[0].procs, pid, k)
    requires pid != 100 && !ss[0].procs[k].critical
    requires (ops[0] == Terminate(pid) && ss[0].running != k) || (ops[0] == Exit && pid == ss[0].procs[ss[0].running].pid)
    ensures k < |ss[n].procs| && ss[n].procs[k].state == Dead && ss[n].running != k
  {
    assert Follows(ss, ops, 0);
    if ops[0] == Exit { ExitEnds(ss[0], k); } else { TerminateEnds(ss[0], pid); }
    var rest, restOps := ss[1..], ops[1..];
    NextValid(ss[0], ops[0]);
    forall i | 0 <= i < |restOps|
      ensures Follows(rest, restOps, i)
    {
      assert Follows(ss, ops, i + 1);
    }
    TheDeadStayDead(rest, restOps, k, n - 1);
  }

  // ---------- signals ----------

  /** The state a signal gives. */
  ghost function Signalled(p: Pcb, signal: nat): Pcb {
    if signal == 9 then p.(state := Dead) else if signal == 19 then p.(state := Stopped)
    else if signal == 18 then p.(state := Running) else p
  }

  /** A kill, a stop and a continuation set the state of the first living process with the pid; a process that kills or
      stops itself gives up the processor. */
  lemma SignalDoes(s: Sched, target: nat, signal: nat)
    requires Valid(s)
    ensures var op := Signal(target, signal);
            var reply, t := Act(s, op).reply, Next(s, op);
            && (reply == Status(InvalidOp) <==> signal > 31)
            && (reply == Status(NotFound) <==> signal <= 31 && !Alive(s, target))
            && (reply != Status(Ok) ==> t == s)
            && forall k: nat :: LowestLiving(s.procs, target, k) && signal <= 31 ==>
                 && reply == Status(Ok) && Spares(s, t, k) && SameLife(Signalled(s.procs[k], signal), t.procs[k])
                 && (if k == s.running && (signal == 9 || signal == 19) then GaveUp(s, t) else KeptOn(s, t))
  {
    LivingIsFirst(s, target);
    var f := FirstLive(s.procs, target, 0);
    if signal <= 31 && f < |s.procs| { SignalLiving(s, target, signal, f); }
  }

  lemma SignalLiving(s: Sched, target: nat, signal: nat, k: nat)
    requires Valid(s) && signal <= 31 && k == FirstLive(s.procs, target, 0) < |s.procs|
    ensures var op := Signal(target, signal);
            var t := Next(s, op);
            && Act(s, op).reply == Status(Ok) && Spares(s, t, k) && SameLife(Signalled(s.procs[k], signal), t.procs[k])
            && (if k == s.running && (signal == 9 || signal == 19) then GaveUp(s, t) else KeptOn(s, t))
  {
    hide Yield;
    var e := Act(s, Signal(target, signal));
    if e.resched { LeavesProcessor(e.s); }
  }

  // ---------- waiting ----------

  /** A wait blocks the caller on a living process and gives up the processor; otherwise nothing happens. */
  lemma WaitDoes(s: Sched, target: nat)
    requires Valid(s)
    ensures var reply, t, r := Act(s, Wait(target)).reply, Next(s, Wait(target)), s.running;
            if Alive(s, target) then
              reply == Status(Ok) && Spares(s, t, r) && GaveUp(s, t)
              && SameLife(s.procs[r].(state := Blocked, waitingOn := target), t.procs[r])
            else reply == Status(NotFound) && t == s
  {
    LivingIsFirst(s, target);
    hide Yield;
    var e := Act(s, Wait(target));
    if e.resched { LeavesProcessor(e.s); }
  }

  /** A receive on an empty channel blocks the caller for a message and gives up the processor; any other goes on. */
  lemma ReceiveDoes(s: Sched, maxLength: nat)
    requires Valid(s)
    ensures var reply, t, r := Act(s, Receive(maxLength)).reply, Next(s, Receive(maxLength)), s.running;
            && Spares(s, t, r)
            && if QueueOf(s, r) == [] then
                 reply == NoMessage && GaveUp(s, t) && SameLife(s.procs[r].(state := Blocked, waitingOn := 0), t.procs[r])
               else
                 reply.Delivered? && KeptOn(s, t) && SameLife(s.procs[r].(chan := t.procs[r].chan), t.procs[r])
  {
    assert QueueOf(s, s.running) == [] <==> s.procs[s.running].chan.count == 0;
    var e := Act(s, Receive(maxLength));
    if e.resched { LeavesProcessor(e.s); }
  }

  /** An accepted message wakes its addressee if that waits for one, and changes nobody's state otherwise. */
  lemma SendDoes(s: Sched, dest: nat, payload: seq<Byte>, kind: nat)
    requires Valid(s)
    ensures var op := Send(dest, payload, kind);
            var reply, t := Act(s, op).reply, Next(s, op);
            && KeptOn(s, t) && (reply != Status(Ok) ==> t == s)
            && forall k: nat :: LowestLiving(s.procs, dest, k) && reply == Status(Ok) ==>
                 && Spares(s, t, k)
                 && var p := s.procs[k];
                    SameLife(p.(chan := t.procs[k].chan,
                                state := if p.state == Blocked && p.waitingOn == 0 then Running else p.state), t.procs[k])
  {
    LivingIsFirst(s, dest);
  }

  /** A sleeper above slot 0 that is not yet due is not picked, and nobody's state changes. */
  lemma SleepDoes(s: Sched, duration: nat)
    requires Valid(s)
    ensures var t, r, wake := Next(s, Sleep(duration)), s.running, (s.ticks + duration) % WORD;
            && Spares(s, t, |s.procs|) && t.ticks == (s.ticks + 1) % WORD
            && (t.ticks < wake ==> (r > 0 ==> t.running != r) && t.procs[r].sleepUntil == wake)
            && (wake <= t.ticks && s.procs[r].state == Running && |s.procs| > 1 ==> t.procs[r].sleepUntil == 0)
  {
    hide Yield;
    var u := Act(s, Sleep(duration)).s;
    YieldKeepsLife(u);
    YieldPicks(u);
    YieldWakes(u, s.running);
  }

  // ---------- registration ----------

  /** A new process is the last slot, running, with the next pid; nobody else is touched. */
  lemma RegisterDoes(s: Sched, priority: nat, critical: bool, memory: bool)
    requires Valid(s)
    ensures var op := Register(priority, critical, memory);
            var reply, t, n := Act(s, op).reply, Next(s, op), |s.procs|;
            && KeptOn(s, t) && s.procs <= t.procs
            && (reply == Status(OutOfMem) <==> n == 1024) && (reply == Status(MemFault) <==> n < 1024 && !memory)
            && (n == 1024 ==> t == s)
            && (n < 1024 ==> t.seed == (s.seed + 1) % WORD && |t.procs| == if memory then n + 1 else n)
            && (reply == Status(Ok) ==>
                  && var p := t.procs[n];
                     && p.pid == s.seed && p.state == Running && p.base == p.dyn == priority && p.acc == 0
                     && p.waitingOn == p.sleepUntil == 0 && p.critical == critical && p.chan.count == 0)
  {
  }

  // ---------- the dead that come back ----------

  /** A process that terminates itself and, still running, asks for a message is blocked, not dead; the next message to
      its pid makes it run again. */
  lemma TerminationUndone(s: Sched, pid: nat, maxLength: nat, payload: seq<Byte>, kind: nat)
    returns (a: Sched, b: Sched, c: Sched)
    requires Valid(s) && s.running > 0 && Lowest(s.procs, pid, s.running) && pid != 100
    requires !s.procs[s.running].critical && s.procs[s.running].chan.count == 0 && |payload| <= IPC_MSG_SIZE
    ensures a == Next(s, Terminate(pid)) && Valid(a) && s.running < |a.procs| && a.procs[s.running].state == Dead
    ensures b == Next(a, Receive(maxLength)) && Valid(b) && s.running < |b.procs| && b.procs[s.running].state == Blocked
    ensures c == Next(b, Send(pid, payload, kind)) && s.running < |c.procs| && c.procs[s.running].state == Running
  {
    var k := s.running;
    NextValid(s, Terminate(pid));
    TerminateKills(s, pid, k);
    a := Next(s, Terminate(pid));
    NextValid(a, Receive(maxLength));
    ReceiveDoes(a, maxLength);
    assert QueueOf(a, k) == [];
    b := Next(a, Receive(maxLength));
    hide Next, Lowest;
    FirstRevived(s.procs, a.procs, b.procs, pid, k);
    SendWakes(b, pid, payload, kind, k);
    c := Next(b, Send(pid, payload, kind));
  }

  lemma FirstRevived(a: seq<Pcb>, b: seq<Pcb>, c: seq<Pcb>, pid: nat, k: nat)
    requires Lowest(a, pid, k) && Ended(a, b, pid, k) && |c| == |b| && c[k].pid == pid && c[k].state == Blocked
    requires forall i :: 0 <= i < |b| && i != k ==> SameLife(b[i], c[i])
    ensures LowestLiving(c, pid, k)
  {
    forall i | 0 <= i < k
      ensures c[i].pid != pid
    {
      assert SameLife(b[i], c[i]);
    }
  }

  lemma SendWakes(s: Sched, pid: nat, payload: seq<Byte>, kind: nat, k: nat)
    requires Valid(s) && LowestLiving(s.procs, pid, k) && |payload| <= IPC_MSG_SIZE
    requires s.procs[k].state == Blocked && s.procs[k].waitingOn == 0 && s.procs[k].chan.count == 0
    ensures k < |Next(s, Send(pid, payload, kind)).procs| && Next(s, Send(pid, payload, kind)).procs[k].state == Running
  {
    LivingIsFirst(s, pid);
  }

  /** Such a process exists in a run from the start: two registrations and one yield, and the second new process runs. */
  lemma TerminationUndoneReached() returns (a: Sched, b: Sched, s: Sched)
    ensures a == Next(Initial(), Register(20, false, true)) && Valid(a)
    ensures b == Next(a, Register(99, false, true)) && Valid(b)
    ensures s == Next(b, Pause) && Valid(s)
    ensures s.running == 2 && Lowest(s.procs, 101, 2) && !s.procs[2].critical && s.procs[2].chan.count == 0
  {
    a := Next(Initial(), Register(20, false, true));
    NextValid(Initial(), Register(20, false, true));
    b := Next(a, Register(99, false, true));
    NextValid(a, Register(99, false, true));
    NextValid(b, Pause);
    s := Next(b, Pause);
    PicksFirstMaximum(b, 2);
    YieldKeepsLife(b);
    assert Next(b, Pause) == Yield(b);
    assert forall i :: 0 <= i < 3 ==> SameLife(b.procs[i], Yield(b).procs[i]);
  }
}
