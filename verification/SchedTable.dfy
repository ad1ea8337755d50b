/** The scheduler of i386/whitex/multitasking.h in its own form: one global table of process control
    blocks, updated in place by loops. Every routine leaves the table its transition describes. */
module SchedTable {
  import opened SchedModel

  ghost function WokenAll(procs: seq<Pcb>, ticks: nat): (r: seq<Pcb>)
    ensures |r| == |procs| && forall k :: 0 <= k < |r| ==> r[k] == Woken(procs[k], ticks)
  {
    seq(|procs|, k requires 0 <= k < |procs| => Woken(procs[k], ticks))
  }

  class Scheduler {
    var table: array<Pcb>
    var active: nat
    var running: nat
    var seed: nat
    var ticks: nat

    ghost predicate Shape()
      reads this
    {
      table.Length == MAX_TASKS && 1 <= active <= MAX_TASKS && running < active
    }

    ghost function View(): Sched
      requires Shape()
      reads this, table
    {
      Sched(table[..active], running, seed, ticks)
    }

    ghost predicate Ok()
      reads this, table
    {
      Shape() && Valid(View())
    }

    /** `scheduler_initialize`. */
    constructor ()
      ensures Ok() && View() == Initial() && fresh(table)
    {
      table := new Pcb[MAX_TASKS](_ => Pcb(0, 0, 0, 0, Dead, 0, 0, false, EmptyChannel()));
      active, running, seed, ticks := 1, 0, 100, 0;
      new;
      table[0] := Pcb(100, DEFAULT_PRIORITY, DEFAULT_PRIORITY, 0, Running, 0, 0, true, EmptyChannel());
      assert table[..1] == Initial().procs;
    }

    /** `scheduler_apply_aging`. */
    method ApplyAging()
      requires Shape()
      modifies table
      ensures forall i :: 0 <= i < active ==>
                table[i] == if i == running then old(table[i]) else Aged(old(table[i]))
      ensures forall i :: active <= i < table.Length ==> table[i] == old(table[i])
    {
      for i := 0 to active
        invariant forall k :: 0 <= k < i ==> table[k] == if k == running then old(table[k]) else Aged(old(table[k]))
        invariant forall k :: i <= k < table.Length ==> table[k] == old(table[k])
      {
        if table[i].state == Running && i != running {
          var acc := table[i].acc + 1;
          table[i] := table[i].(acc := acc);
          if acc >= AGING_LIMIT {
            if table[i].dyn < MAX_PRIORITY { table[i] := table[i].(dyn := table[i].dyn + 1); }
            table[i] := table[i].(acc := 0);
          }
        }
      }
    }

    /** The scanning loop of `scheduler_select_next_candidate`: clears expired sleeps and remembers
        the first slot of greatest priority. */
    method Scan() returns (best: nat, found: bool)
      requires Shape()
      modifies table
      ensures forall k :: 0 <= k < active ==> table[k] == Woken(old(table[k]), ticks)
      ensures Best(table[..active], ticks, active) == if found then Slot(best) else Nobody
    {
      ghost var procs := WokenAll(table[..active], ticks);
      var highest := 0;
      best, found := 0, false;
      for i := 0 to active
        invariant forall k :: 0 <= k < i ==> table[k] == procs[k]
        invariant forall k :: i <= k < active ==> table[k] == old(table[k])
        invariant Best(procs, ticks, i) == if found then Slot(best) else Nobody
        invariant found ==> best < i && highest == procs[best].dyn
      {
        var pcb := table[i];
        assert procs[i] == Woken(pcb, ticks);
        if pcb.state == Running {
          if pcb.sleepUntil > 0 && ticks < pcb.sleepUntil { continue; }
          if pcb.sleepUntil > 0 { table[i] := pcb.(sleepUntil := 0); }
          if !found || pcb.dyn > highest {
            highest, best, found := pcb.dyn, i, true;
          }
        }
      }
      assert table[..active] == procs;
    }

    /** `scheduler_select_next_candidate`. */
    method SelectNext() returns (next: nat)
      requires Shape()
      modifies table
      ensures View().procs == Select(old(View())).procs && next == Select(old(View())).next
    {
      ghost var procs := Refreshed(View());
      ApplyAging();
      var best, found := Scan();
      assert table[..active] == procs;
      if found {
        table[best] := table[best].(dyn := table[best].base, acc := 0);
        assert table[..active] == procs[best := Rewound(procs[best])];
        return best;
      }
      return 0;
    }

    /** `scheduler_yield`, up to the switch of stacks. */
    method DoYield()
      requires Shape()
      modifies this`ticks, this`running, table
      ensures Shape() && View() == Yield(old(View()))
    {
      ticks := (ticks + 1) % WORD;
      if active <= 1 { return; }
      var next := SelectNext();
      running := next;
    }

    /** The yield that ends a call, given what the call did before it. */
    method Resched(ghost before: Sched, ghost op: Op)
      requires Valid(before) && Ok() && View() == Act(before, op).s && Act(before, op).resched
      modifies this`ticks, this`running, table
      ensures Ok() && View() == Next(before, op)
    {
      NextValid(before, op);
      DoYield();
    }

    method FindLive(pid: nat) returns (k: nat)
      requires Shape()
      ensures k == FirstLive(table[..active], pid, 0)
    {
      k := 0;
      while k < active && !(table[k].pid == pid && table[k].state != Dead)
        invariant k <= active
        invariant FirstLive(table[..active], pid, 0) == FirstLive(table[..active], pid, k)
      {
        k := k + 1;
      }
    }

    /** Storing one control block. */
    method Store(i: nat, p: Pcb)
      requires Ok() && i < active && ChanOk(p.chan) && KeptSlot(table[i], p, i == running)
      modifies table
      ensures Ok() && View() == Put(old(View()), i, p)
    {
      table[i] := p;
      assert table[..active] == old(table[..active])[i := p];
    }

    /** `scheduler_register_process`, the table part; `memory` says whether both allocations succeed. */
    method RegisterProcess(priority: nat, critical: bool, memory: bool) returns (code: Code)
      requires Ok()
      modifies this`active, this`seed, table
      ensures Ok() && View() == Next(old(View()), Register(priority, critical, memory))
      ensures Status(code) == Act(old(View()), Register(priority, critical, memory)).reply
    {
      if active >= MAX_TASKS { return OutOfMem; }
      var pid := seed;
      seed := (seed + 1) % WORD;
      if !memory { return MemFault; }
      table[active] := NewPcb(pid, priority, critical);
      active := active + 1;
      assert table[..active] == old(table[..active]) + [NewPcb(pid, priority, critical)];
      return Code.Ok;
    }

    /** A bare call of `scheduler_yield`. */
    method YieldNow()
      requires Ok()
      modifies this`ticks, this`running, table
      ensures Ok() && View() == Next(old(View()), Pause)
    {
      Resched(View(), Pause);
    }

    /** `scheduler_sleep`. */
    method DoSleep(duration: nat)
      requires Ok()
      modifies this`ticks, this`running, table
      ensures Ok() && View() == Next(old(View()), Sleep(duration))
    {
      ghost var was := View();
      Store(running, table[running].(sleepUntil := (ticks + duration) % WORD));
      Resched(was, Sleep(duration));
    }

    /** `scheduler_send_signal`. */
    method SendSignal(target: nat, signal: nat) returns (code: Code)
      requires Ok()
      modifies this`ticks, this`running, table
      ensures Ok() && View() == Next(old(View()), Signal(target, signal))
      ensures Status(code) == SignalAct(old(View()), target, signal).reply
    {
      ghost var was := View();
      if signal > 31 { return InvalidOp; }
      var i := FindLive(target);
      if i == active { return NotFound; }
      if signal == SIGKILL {
        Store(i, table[i].(state := Dead));
        if running == i { Resched(was, Signal(target, signal)); }
      } else if signal == SIGSTOP {
        Store(i, table[i].(state := Stopped));
        if running == i { Resched(was, Signal(target, signal)); }
      } else if signal == SIGCONT {
        Store(i, table[i].(state := Running));
      }
      return Code.Ok;
    }

    /** `scheduler_ipc_send`. */
    method IpcSend(dest: nat, payload: seq<Byte>, kind: nat) returns (code: Code)
      requires Ok()
      modifies table
      ensures Ok() && View() == Next(old(View()), Send(dest, payload, kind))
      ensures Status(code) == SendAct(old(View()), dest, payload, kind).reply
    {
      if |payload| > IPC_MSG_SIZE { return Overflow; }
      var i := FindLive(dest);
      if i == active { return NotFound; }
      var pcb := table[i];
      assert pcb == View().procs[i];
      if pcb.chan.count >= IPC_MAX_MESSAGES { return Busy; }
      pcb := pcb.(chan := Enqueue(pcb.chan, payload, table[running].pid, kind));
      if pcb.state == Blocked && pcb.waitingOn == 0 { pcb := pcb.(state := Running); }
      Store(i, pcb);
      return Code.Ok;
    }

    /** One test of the loop of `scheduler_ipc_receive`, and the delivery when a message is there. */
    method IpcReceive(maxLength: nat) returns (reply: Reply)
      requires Ok()
      modifies this`ticks, this`running, table
      ensures Ok() && View() == Next(old(View()), Receive(maxLength))
      ensures reply == ReceiveAct(old(View()), maxLength).reply
    {
      ghost var was := View();
      var pcb := table[running];
      assert pcb == View().procs[running];
      if pcb.chan.count == 0 {
        Store(running, pcb.(state := Blocked, waitingOn := 0));
        Resched(was, Receive(maxLength));
        return NoMessage;
      }
      var msg := pcb.chan.queue[pcb.chan.head];
      assert MsgOk(msg);
      var n := if msg.length > maxLength then maxLength else msg.length;
      Store(running, pcb.(chan := Dequeue(pcb.chan)));
      return Delivered(msg.data[..n], msg.sender, msg.kind);
    }

    /** `scheduler_terminate_process`. */
    method TerminateProcess(victim: nat) returns (code: Code)
      requires Ok()
      modifies table
      ensures Ok() && View() == Next(old(View()), Terminate(victim))
      ensures Status(code) == TerminateAct(old(View()), victim).reply
    {
      var i := 0;
      while i < active && table[i].pid != victim
        invariant i <= active
        invariant FirstPid(table[..active], victim, 0) == FirstPid(table[..active], victim, i)
      {
        i := i + 1;
      }
      if i == active { return NotFound; }
      if victim == 100 || table[i].critical { return Permission; }
      Store(i, table[i].(state := Dead));
      Release(victim);
      return Code.Ok;
    }

    /** The inner loop of `scheduler_terminate_process`. */
    method Release(pid: nat)
      requires Ok()
      modifies table
      ensures Ok() && table[..active] == ReleaseAll(old(table[..active]), pid)
    {
      ghost var was := table[..active];
      for j := 0 to active
        invariant forall k :: 0 <= k < j ==> table[k] == ReleasedAt(was, pid, k)
        invariant forall k :: j <= k < active ==> table[k] == was[k]
      {
        if table[j].state == Blocked && table[j].waitingOn == pid {
          table[j] := table[j].(state := Running, waitingOn := 0);
        }
      }
      assert table[..active] == ReleaseAll(was, pid);
    }

    /** `scheduler_terminate_current`. */
    method TerminateCurrent()
      requires Ok()
      modifies this`ticks, this`running, table
      ensures Ok() && View() == Next(old(View()), Exit)
    {
      ghost var was := View();
      var _ := TerminateProcess(table[running].pid);
      Resched(was, Exit);
    }

    /** `scheduler_wait_pid`. */
    method WaitPid(target: nat) returns (code: Code)
      requires Ok()
      modifies this`ticks, this`running, table
      ensures Ok() && View() == Next(old(View()), Wait(target))
      ensures Status(code) == WaitAct(old(View()), target).reply
    {
      ghost var was := View();
      var i := FindLive(target);
      if i == active { return NotFound; }
      Store(running, table[running].(state := Blocked, waitingOn := target));
      Resched(was, Wait(target));
      return Code.Ok;
    }
  }
}
