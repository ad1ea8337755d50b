/** The process table of i386/whitex/multitasking.h as a value, and every scheduler call as a
    transition of it. A call is an effect on the table, possibly followed by `scheduler_yield`;
    `scheduler_ipc_receive` is one test of its loop, which the process repeats when it runs again. */
module SchedModel {
  import opened Common

  const MAX_TASKS := 1024
  const MAX_PRIORITY := 100
  const DEFAULT_PRIORITY := 20
  const AGING_LIMIT := 500
  const IPC_MAX_MESSAGES := 32
  const IPC_MSG_SIZE := 128
  const SIGKILL := 9
  const SIGSTOP := 19
  const SIGCONT := 18
  const WORD := 0x1_0000_0000

  type Byte = x: int | 0 <= x < 256

  datatype RunState = Running | Blocked | Stopped | Dead

  datatype Msg = Msg(data: seq<Byte>, length: nat, sender: nat, kind: nat)

  datatype Channel = Channel(queue: seq<Msg>, head: nat, tail: nat, count: nat)

  datatype Pcb = Pcb(
    pid: nat,
    base: nat,
    dyn: nat,
    acc: nat,
    state: RunState,
    waitingOn: nat,
    sleepUntil: nat,
    critical: bool,
    chan: Channel)

  /** `procs` holds the slots in use; a slot is never given back. */
  datatype Sched = Sched(procs: seq<Pcb>, running: nat, seed: nat, ticks: nat)

  datatype Code = Ok | Busy | Overflow | InvalidOp | MemFault | OutOfMem | NotFound | Permission

  datatype Reply = Status(code: Code) | Delivered(data: seq<Byte>, sender: nat, kind: nat) | NoMessage

  datatype Op =
    | Pause
    | Register(priority: nat, critical: bool, memory: bool)
    | Sleep(duration: nat)
    | Signal(target: nat, signal: nat)
    | Send(dest: nat, payload: seq<Byte>, kind: nat)
    | Receive(maxLength: nat)
    | Terminate(victim: nat)
    | Exit
    | Wait(target: nat)

  // ---------- channels ----------

  ghost predicate MsgOk(m: Msg) { |m.data| == IPC_MSG_SIZE && m.length <= IPC_MSG_SIZE }

  ghost predicate ChanOk(c: Channel) {
    && |c.queue| == IPC_MAX_MESSAGES
    && (forall m :: m in c.queue ==> MsgOk(m))
    && c.head < IPC_MAX_MESSAGES && c.count <= IPC_MAX_MESSAGES
    && c.tail == (c.head + c.count) % IPC_MAX_MESSAGES
  }

  /** What a receiver can observe of a message. */
  datatype Letter = Letter(bytes: seq<Byte>, sender: nat, kind: nat)

  ghost function LetterOf(m: Msg): Letter
    requires MsgOk(m)
  {
    Letter(m.data[..m.length], m.sender, m.kind)
  }

  /** The queue a channel stands for, oldest message first. */
  ghost function Pending(c: Channel): (q: seq<Letter>)
    requires ChanOk(c)
    ensures |q| == c.count
  {
    seq(c.count, i requires 0 <= i < c.count => LetterOf(c.queue[(c.head + i) % IPC_MAX_MESSAGES]))
  }

  /** A channel cleared to zero bytes. */
  function EmptyChannel(): (c: Channel)
    ensures ChanOk(c) && c.count == 0
  {
    Channel(Copies(IPC_MAX_MESSAGES, Msg(Copies(IPC_MSG_SIZE, 0), 0, 0, 0)), 0, 0, 0)
  }

  /** `scheduler_memory_copy` into a message slot overwrites only its first bytes. */
  function WriteMsg(m: Msg, payload: seq<Byte>, sender: nat, kind: nat): (m': Msg)
    requires MsgOk(m) && |payload| <= IPC_MSG_SIZE
    ensures MsgOk(m')
  {
    Msg(payload + m.data[|payload|..], |payload|, sender, kind)
  }

  function Enqueue(c: Channel, payload: seq<Byte>, sender: nat, kind: nat): (c': Channel)
    requires ChanOk(c) && c.count < IPC_MAX_MESSAGES && |payload| <= IPC_MSG_SIZE
    ensures ChanOk(c')
  {
    Channel(c.queue[c.tail := WriteMsg(c.queue[c.tail], payload, sender, kind)],
            c.head, (c.tail + 1) % IPC_MAX_MESSAGES, c.count + 1)
  }

  function Dequeue(c: Channel): (c': Channel)
    requires ChanOk(c) && c.count > 0
    ensures ChanOk(c')
  {
    c.(head := (c.head + 1) % IPC_MAX_MESSAGES, count := c.count - 1)
  }

  // ---------- the table ----------

  ghost predicate Valid(s: Sched) {
    && 1 <= |s.procs| <= MAX_TASKS && s.running < |s.procs|
    && s.seed < WORD && s.ticks < WORD
    && forall i :: 0 <= i < |s.procs| ==> ChanOk(s.procs[i].chan)
  }

  /** `scheduler_initialize`: the master process alone in slot 0. */
  function Initial(): (s: Sched)
    ensures Valid(s)
  {
    Sched([Pcb(100, DEFAULT_PRIORITY, DEFAULT_PRIORITY, 0, Running, 0, 0, true, EmptyChannel())], 0, 100, 0)
  }

  /** The lowest slot from `i` on with this pid that is not dead; the number of slots if none is. */
  function FirstLive(procs: seq<Pcb>, pid: nat, i: nat): (k: nat)
    requires i <= |procs|
    ensures i <= k <= |procs|
    ensures k < |procs| ==> procs[k].pid == pid && procs[k].state != Dead
    ensures forall j :: i <= j < k ==> !(procs[j].pid == pid && procs[j].state != Dead)
    decreases |procs| - i
  {
    if i == |procs| || (procs[i].pid == pid && procs[i].state != Dead) then i
    else FirstLive(procs, pid, i + 1)
  }

  /** The same, but dead slots count too. */
  function FirstPid(procs: seq<Pcb>, pid: nat, i: nat): (k: nat)
    requires i <= |procs|
    ensures i <= k <= |procs|
    ensures k < |procs| ==> procs[k].pid == pid
    ensures forall j :: i <= j < k ==> procs[j].pid != pid
    decreases |procs| - i
  {
    if i == |procs| || procs[i].pid == pid then i else FirstPid(procs, pid, i + 1)
  }

  // ---------- selection ----------

  function Aged(p: Pcb): Pcb {
    if p.state != Running then p
    else if p.acc + 1 < AGING_LIMIT then p.(acc := p.acc + 1)
    else p.(acc := 0, dyn := if p.dyn < MAX_PRIORITY then p.dyn + 1 else p.dyn)
  }

  predicate Eligible(p: Pcb, ticks: nat) {
    p.state == Running && (p.sleepUntil == 0 || p.sleepUntil <= ticks)
  }

  function Woken(p: Pcb, ticks: nat): Pcb {
    if Eligible(p, ticks) then p.(sleepUntil := 0) else p
  }

  /** One slot after the aging pass, which skips the running slot, and after the wake-up test. */
  function RefreshedAt(s: Sched, i: nat): Pcb
    requires i < |s.procs|
  {
    if i == s.running then Woken(s.procs[i], s.ticks) else Woken(Aged(s.procs[i]), s.ticks)
  }

  function Refreshed(s: Sched): (procs: seq<Pcb>)
    ensures |procs| == |s.procs|
    ensures forall i :: 0 <= i < |procs| ==> procs[i] == RefreshedAt(s, i)
  {
    seq(|s.procs|, i requires 0 <= i < |s.procs| => RefreshedAt(s, i))
  }

  datatype Choice = Nobody | Slot(index: nat)

  /** The slot the selection loop holds after looking at the first `n`. */
  function Best(procs: seq<Pcb>, ticks: nat, n: nat): (b: Choice)
    requires n <= |procs|
    ensures b.Slot? ==> b.index < n && Eligible(procs[b.index], ticks)
  {
    if n == 0 then Nobody
    else
      var b := Best(procs, ticks, n - 1);
      if Eligible(procs[n - 1], ticks) && (b == Nobody || procs[n - 1].dyn > procs[b.index].dyn)
      then Slot(n - 1) else b
  }

  lemma {:induction false} BestIsFirstMaximum(procs: seq<Pcb>, ticks: nat, n: nat)
    requires n <= |procs|
    ensures var b := Best(procs, ticks, n);
            && (b == Nobody <==> forall i :: 0 <= i < n ==> !Eligible(procs[i], ticks))
            && (b.Slot? ==> forall i :: 0 <= i < n && Eligible(procs[i], ticks) ==>
                  procs[i].dyn <= procs[b.index].dyn && (i < b.index ==> procs[i].dyn < procs[b.index].dyn))
  {
    if n > 0 { BestIsFirstMaximum(procs, ticks, n - 1); }
  }

  /** `scheduler_select_next_candidate`: the table afterwards, and the slot returned. */
  function Select(s: Sched): (r: Selection)
    requires |s.procs| > 0
    ensures |r.procs| == |s.procs| && r.next < |s.procs|
  {
    var procs := Refreshed(s);
    var b := Best(procs, s.ticks, |procs|);
    if b == Nobody then Selection(procs, 0)
    else Selection(procs[b.index := Rewound(procs[b.index])], b.index)
  }

  datatype Selection = Selection(procs: seq<Pcb>, next: nat)

  /** A selected process falls back to its base priority. */
  function Rewound(p: Pcb): Pcb { p.(dyn := p.base, acc := 0) }

  function Yield(s: Sched): Sched
    requires |s.procs| > 0
  {
    var t := s.(ticks := (s.ticks + 1) % WORD);
    if |t.procs| <= 1 then t
    else
      var r := Select(t);
      t.(procs := r.procs, running := r.next)
  }

  // ---------- calls ----------

  function NewPcb(pid: nat, priority: nat, critical: bool): Pcb {
    Pcb(pid, priority, priority, 0, Running, 0, 0, critical, EmptyChannel())
  }

  /** The effect of a call up to its yield, its reply, and whether it then yields. */
  datatype Effect = Effect(s: Sched, reply: Reply, resched: bool)

  /** What no call changes before its yield: the running slot, the clock, and the scheduling fields
      of every slot already there. */
  ghost predicate Kept(s: Sched, s': Sched) {
    && Valid(s') && s'.running == s.running && s'.ticks == s.ticks && |s.procs| <= |s'.procs|
    && forall i :: 0 <= i < |s.procs| ==> KeptSlot(s.procs[i], s'.procs[i], i == s.running)
  }

  ghost predicate KeptSlot(a: Pcb, b: Pcb, current: bool) {
    && b.pid == a.pid && b.base == a.base && b.dyn == a.dyn && b.acc == a.acc
    && (!current ==> b.sleepUntil == a.sleepUntil)
  }

  /** Rewrites one slot. */
  function Put(s: Sched, i: nat, p: Pcb): (s': Sched)
    requires Valid(s) && i < |s.procs| && ChanOk(p.chan) && KeptSlot(s.procs[i], p, i == s.running)
    ensures Kept(s, s') && |s'.procs| == |s.procs| && s'.seed == s.seed
  {
    s.(procs := s.procs[i := p])
  }

  /** The waiters of a terminated process run again. */
  function ReleasedAt(procs: seq<Pcb>, pid: nat, i: nat): Pcb
    requires i < |procs|
  {
    if procs[i].state == Blocked && procs[i].waitingOn == pid
    then procs[i].(state := Running, waitingOn := 0) else procs[i]
  }

  function ReleaseAll(procs: seq<Pcb>, pid: nat): (r: seq<Pcb>)
    ensures |r| == |procs|
    ensures forall i :: 0 <= i < |r| ==> r[i] == ReleasedAt(procs, pid, i)
  {
    seq(|procs|, i requires 0 <= i < |procs| => ReleasedAt(procs, pid, i))
  }

  function TerminateAct(s: Sched, pid: nat): (e: Effect)
    requires Valid(s)
    ensures Kept(s, e.s) && |e.s.procs| == |s.procs|
  {
    var k := FirstPid(s.procs, pid, 0);
    if k == |s.procs| then Effect(s, Status(NotFound), false)
    else if pid == 100 || s.procs[k].critical then Effect(s, Status(Permission), false)
    else
      var killed := Put(s, k, s.procs[k].(state := Dead));
      Effect(killed.(procs := ReleaseAll(killed.procs, pid)), Status(Ok), false)
  }

  function SendAct(s: Sched, dest: nat, payload: seq<Byte>, kind: nat): (e: Effect)
    requires Valid(s)
    ensures Kept(s, e.s) && |e.s.procs| == |s.procs|
  {
    if |payload| > IPC_MSG_SIZE then Effect(s, Status(Overflow), false)
    else
      var k := FirstLive(s.procs, dest, 0);
      if k == |s.procs| then Effect(s, Status(NotFound), false)
      else
        var p := s.procs[k];
        if p.chan.count >= IPC_MAX_MESSAGES then Effect(s, Status(Busy), false)
        else
          var chan := Enqueue(p.chan, payload, s.procs[s.running].pid, kind);
          var state := if p.state == Blocked && p.waitingOn == 0 then Running else p.state;
          Effect(Put(s, k, p.(chan := chan, state := state)), Status(Ok), false)
  }

  function ReceiveAct(s: Sched, maxLength: nat): (e: Effect)
    requires Valid(s)
    ensures Kept(s, e.s) && |e.s.procs| == |s.procs|
  {
    var me := s.procs[s.running];
    if me.chan.count == 0 then
      Effect(Put(s, s.running, me.(state := Blocked, waitingOn := 0)), NoMessage, true)
    else
      var m := me.chan.queue[me.chan.head];
      assert MsgOk(m);
      var n := if m.length > maxLength then maxLength else m.length;
      Effect(Put(s, s.running, me.(chan := Dequeue(me.chan))), Delivered(m.data[..n], m.sender, m.kind), false)
  }

  function SignalAct(s: Sched, target: nat, signal: nat): (e: Effect)
    requires Valid(s)
    ensures Kept(s, e.s) && |e.s.procs| == |s.procs|
  {
    if signal > 31 then Effect(s, Status(InvalidOp), false)
    else
      var k := FirstLive(s.procs, target, 0);
      if k == |s.procs| then Effect(s, Status(NotFound), false)
      else if signal == SIGKILL then Effect(Put(s, k, s.procs[k].(state := Dead)), Status(Ok), k == s.running)
      else if signal == SIGSTOP then Effect(Put(s, k, s.procs[k].(state := Stopped)), Status(Ok), k == s.running)
      else if signal == SIGCONT then Effect(Put(s, k, s.procs[k].(state := Running)), Status(Ok), false)
      else Effect(s, Status(Ok), false)
  }

  function WaitAct(s: Sched, target: nat): (e: Effect)
    requires Valid(s)
    ensures Kept(s, e.s) && |e.s.procs| == |s.procs|
  {
    if FirstLive(s.procs, target, 0) == |s.procs| then Effect(s, Status(NotFound), false)
    else
      Effect(Put(s, s.running, s.procs[s.running].(state := Blocked, waitingOn := target)), Status(Ok), true)
  }

  /** The pid seed moves on even when the memory for the new process is refused. */
  function RegisterAct(s: Sched, priority: nat, critical: bool, memory: bool): (e: Effect)
    requires Valid(s)
    ensures Kept(s, e.s)
    ensures |e.s.procs| == |s.procs| || e.s.procs == s.procs + [NewPcb(s.seed, priority, critical)]
  {
    if |s.procs| >= MAX_TASKS then Effect(s, Status(OutOfMem), false)
    else
      var s' := s.(seed := (s.seed + 1) % WORD);
      if !memory then Effect(s', Status(MemFault), false)
      else Effect(s'.(procs := s.procs + [NewPcb(s.seed, priority, critical)]), Status(Ok), false)
  }

  function Act(s: Sched, op: Op): (e: Effect)
    requires Valid(s)
    ensures Kept(s, e.s)
    ensures |e.s.procs| == |s.procs| ||
            (op.Register? && e.s.procs == s.procs + [NewPcb(s.seed, op.priority, op.critical)])
  {
    match op
    case Pause => Effect(s, Status(Ok), true)
    case Register(priority, critical, memory) => RegisterAct(s, priority, critical, memory)
    case Sleep(duration) =>
      var me := s.procs[s.running];
      Effect(Put(s, s.running, me.(sleepUntil := (s.ticks + duration) % WORD)), Status(Ok), true)
    case Signal(target, signal) => SignalAct(s, target, signal)
    case Send(dest, payload, kind) => SendAct(s, dest, payload, kind)
    case Receive(maxLength) => ReceiveAct(s, maxLength)
    case Terminate(victim) => TerminateAct(s, victim)
    case Exit => TerminateAct(s, s.procs[s.running].pid).(reply := Status(Ok), resched := true)
    case Wait(target) => WaitAct(s, target)
  }

  function Next(s: Sched, op: Op): Sched
    requires Valid(s)
  {
    var e := Act(s, op);
    if e.resched then Yield(e.s) else e.s
  }

  lemma YieldValid(s: Sched)
    requires Valid(s)
    ensures Valid(Yield(s))
  {
  }

  lemma NextValid(s: Sched, op: Op)
    requires Valid(s)
    ensures Valid(Next(s, op))
  {
    YieldValid(Act(s, op).s);
  }

  /** A run: the states a sequence of calls leads through. */
  ghost predicate IsRun(ss: seq<Sched>, ops: seq<Op>) {
    && |ss| == |ops| + 1 && Valid(ss[0])
    && forall i :: 0 <= i < |ops| ==> Follows(ss, ops, i)
  }

  ghost predicate Follows(ss: seq<Sched>, ops: seq<Op>, i: nat)
    requires |ss| == |ops| + 1 && i < |ops|
  {
    Valid(ss[i]) && ss[i + 1] == Next(ss[i], ops[i])
  }

  lemma {:induction false} RunValid(ss: seq<Sched>, ops: seq<Op>, n: nat)
    requires IsRun(ss, ops) && n < |ss|
    ensures Valid(ss[n])
  {
    if n > 0 {
      assert Follows(ss, ops, n - 1);
      NextValid(ss[n - 1], ops[n - 1]);
    }
  }
}
