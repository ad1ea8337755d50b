/** Message channels, wake-ups and process lifetime (i386/whitex/multitasking.h:354-379, 409-509). */
module SchedIpc {
  import opened Common
  import opened SchedModel

  /** Selecting a process touches priorities and sleep times only. */
  ghost predicate SameLife(a: Pcb, b: Pcb) {
    b.pid == a.pid && b.state == a.state && b.waitingOn == a.waitingOn && b.critical == a.critical && b.chan == a.chan
  }

  lemma YieldKeepsLife(s: Sched)
    requires |s.procs| > 0
    ensures |Yield(s).procs| == |s.procs| && Yield(s).seed == s.seed
    ensures forall i :: 0 <= i < |s.procs| ==> SameLife(s.procs[i], Yield(s).procs[i])
  {
  }

  /** The state after a call differs from its effect in priorities, sleep times, clock and running slot only. */
  lemma NextKeepsLife(s: Sched, op: Op)
    requires Valid(s)
    ensures var t := Act(s, op).s;
            && |Next(s, op).procs| == |t.procs| && Next(s, op).seed == t.seed
            && forall i :: 0 <= i < |t.procs| ==> SameLife(t.procs[i], Next(s, op).procs[i])
  {
    YieldKeepsLife(Act(s, op).s);
  }

  // ---------- one channel is a bounded queue ----------

  lemma RingSlot(head: nat, i: nat, j: nat)
    requires head < IPC_MAX_MESSAGES && i < IPC_MAX_MESSAGES && j < IPC_MAX_MESSAGES && i != j
    ensures (head + i) % IPC_MAX_MESSAGES != (head + j) % IPC_MAX_MESSAGES
  {
  }

  lemma EnqueueAppends(c: Channel, payload: seq<Byte>, sender: nat, kind: nat)
    requires ChanOk(c) && c.count < IPC_MAX_MESSAGES && |payload| <= IPC_MSG_SIZE
    ensures Pending(Enqueue(c, payload, sender, kind)) == Pending(c) + [Letter(payload, sender, kind)]
  {
    var c' := Enqueue(c, payload, sender, kind);
    forall i | 0 <= i < c.count
      ensures Pending(c')[i] == Pending(c)[i]
    {
      RingSlot(c.head, i, c.count);
    }
    assert LetterOf(c'.queue[c.tail]) == Letter(payload, sender, kind);
    assert Pending(c')[c.count] == Letter(payload, sender, kind);
  }

  lemma DequeueTakesFirst(c: Channel)
    requires ChanOk(c) && c.count > 0
    ensures Pending(c) == [LetterOf(c.queue[c.head])] + Pending(Dequeue(c))
  {
    var c' := Dequeue(c);
    assert Pending(c)[0] == LetterOf(c.queue[c.head]);
    forall i | 0 <= i < c'.count
      ensures Pending(c')[i] == Pending(c)[i + 1]
    {
      assert (c'.head + i) % IPC_MAX_MESSAGES == (c.head + (i + 1)) % IPC_MAX_MESSAGES;
    }
    assert Pending(c)[1..] == Pending(c');
  }

  /** The queue of slot `c`; a slot not yet registered has none. */
  ghost function QueueOf(s: Sched, c: nat): seq<Letter>
    requires Valid(s)
  {
    if c < |s.procs| then Pending(s.procs[c].chan) else []
  }

  /** The letter a call puts into the queue of slot `c`, if it does. */
  ghost function SentTo(s: Sched, op: Op, c: nat): seq<Letter>
    requires Valid(s)
  {
    if op.Send? && Act(s, op).reply == Status(Ok) && FirstLive(s.procs, op.dest, 0) == c
    then [Letter(op.payload, s.procs[s.running].pid, op.kind)] else []
  }

  /** The letter a call takes from the queue of slot `c`, if it does. */
  ghost function TakenFrom(s: Sched, op: Op, c: nat): seq<Letter>
    requires Valid(s)
  {
    if op.Receive? && s.running == c && QueueOf(s, c) != [] then [QueueOf(s, c)[0]] else []
  }

  ghost function Cut(bytes: seq<Byte>, maxLength: nat): seq<Byte> {
    if |bytes| > maxLength then bytes[..maxLength] else bytes
  }

  /** What the sender and the receiver are told. */
  lemma Replies(s: Sched, op: Op)
    requires Valid(s)
    ensures op.Send? ==>
              var k := FirstLive(s.procs, op.dest, 0);
              Act(s, op).reply ==
              Status(if |op.payload| > IPC_MSG_SIZE then Overflow
                     else if k == |s.procs| then NotFound
                     else if |QueueOf(s, k)| == IPC_MAX_MESSAGES then Busy else Ok)
    ensures op.Receive? ==>
              var q := QueueOf(s, s.running);
              Act(s, op).reply ==
              if q == [] then NoMessage else Delivered(Cut(q[0].bytes, op.maxLength), q[0].sender, q[0].kind)
  {
    var chan := s.procs[s.running].chan;
    if op.Receive? && chan.count > 0 {
      DequeueTakesFirst(chan);
      var m := chan.queue[chan.head];
      assert MsgOk(m) && QueueOf(s, s.running)[0] == LetterOf(m);
      if m.length > op.maxLength { assert m.data[..m.length][..op.maxLength] == m.data[..op.maxLength]; }
    }
  }

  lemma SendStep(s: Sched, op: Op, c: nat)
    requires Valid(s) && op.Send?
    ensures QueueOf(Act(s, op).s, c) == QueueOf(s, c) + SentTo(s, op, c)
  {
    var k := FirstLive(s.procs, op.dest, 0);
    if Act(s, op).reply == Status(Ok) {
      EnqueueAppends(s.procs[k].chan, op.payload, s.procs[s.running].pid, op.kind);
    }
  }

  lemma ReceiveStep(s: Sched, op: Op, c: nat)
    requires Valid(s) && op.Receive?
    ensures QueueOf(s, c) == TakenFrom(s, op, c) + QueueOf(Act(s, op).s, c)
  {
    var chan := s.procs[s.running].chan;
    if chan.count > 0 { DequeueTakesFirst(chan); }
  }

  lemma OtherStep(s: Sched, op: Op, c: nat)
    requires Valid(s) && !op.Send? && !op.Receive?
    ensures QueueOf(Act(s, op).s, c) == QueueOf(s, c)
  {
  }

  lemma QueueStep(s: Sched, op: Op, c: nat)
    requires Valid(s)
    ensures Valid(Next(s, op))
    ensures QueueOf(s, c) + SentTo(s, op, c) == TakenFrom(s, op, c) + QueueOf(Next(s, op), c)
  {
    NextValid(s, op);
    NextKeepsLife(s, op);
    var t := Act(s, op).s;
    assert QueueOf(Next(s, op), c) == QueueOf(t, c) by {
      if c < |t.procs| { assert SameLife(t.procs[c], Next(s, op).procs[c]); }
    }
    if op.Send? { SendStep(s, op, c); }
    else if op.Receive? { ReceiveStep(s, op, c); }
    else { OtherStep(s, op, c); }
  }

  /** Everything accepted for slot `c`, and everything it has taken, in the first `n` calls of a run. */
  ghost function Accepted(ss: seq<Sched>, ops: seq<Op>, c: nat, n: nat): seq<Letter>
    requires IsRun(ss, ops) && n <= |ops|
  {
    if n == 0 then [] else
      assert Follows(ss, ops, n - 1);
      Accepted(ss, ops, c, n - 1) + SentTo(ss[n - 1], ops[n - 1], c)
  }

  ghost function Taken(ss: seq<Sched>, ops: seq<Op>, c: nat, n: nat): seq<Letter>
    requires IsRun(ss, ops) && n <= |ops|
  {
    if n == 0 then [] else
      assert Follows(ss, ops, n - 1);
      Taken(ss, ops, c, n - 1) + TakenFrom(ss[n - 1], ops[n - 1], c)
  }

  lemma Shift(q0: seq<Letter>, acc: seq<Letter>, sent: seq<Letter>, taken: seq<Letter>, t: seq<Letter>, q: seq<Letter>, q': seq<Letter>)
    requires q0 + acc == taken + q && q + sent == t + q'
    ensures q0 + (acc + sent) == (taken + t) + q'
  {
    assert q0 + (acc + sent) == (q0 + acc) + sent;
    assert (taken + q) + sent == taken + (q + sent);
    assert taken + (t + q') == (taken + t) + q';
  }

  /** Over every run, every channel is a first-in first-out queue of at most 32 messages: what was in
      it and what was accepted since is exactly what was taken, in order, and what is still in it. */
  lemma {:induction false} ChannelIsFifo(ss: seq<Sched>, ops: seq<Op>, c: nat, n: nat)
    requires IsRun(ss, ops) && n <= |ops|
    ensures Valid(ss[n]) && |QueueOf(ss[n], c)| <= IPC_MAX_MESSAGES
    ensures QueueOf(ss[0], c) + Accepted(ss, ops, c, n) == Taken(ss, ops, c, n) + QueueOf(ss[n], c)
  {
    RunValid(ss, ops, n);
    if n > 0 {
      assert Follows(ss, ops, n - 1);
      ChannelIsFifo(ss, ops, c, n - 1);
      var s, op := ss[n - 1], ops[n - 1];
      QueueStep(s, op, c);
      Shift(QueueOf(ss[0], c), Accepted(ss, ops, c, n - 1), SentTo(s, op, c),
            Taken(ss, ops, c, n - 1), TakenFrom(s, op, c), QueueOf(s, c), QueueOf(ss[n], c));
    }
  }

  // ---------- no wake-up is lost ----------

  /** A process waiting for a message has none. */
  ghost predicate NoLostWakeup(s: Sched) {
    forall i :: 0 <= i < |s.procs| && s.procs[i].state == Blocked && s.procs[i].waitingOn == 0 ==>
      s.procs[i].chan.count == 0
  }

  /** After `r` registrations the seed has not come round to a pid of 0 again. */
  ghost predicate PidsNonzero(s: Sched, r: nat) {
    && r <= WORD - 100 && s.seed == (100 + r) % WORD
    && forall i :: 0 <= i < |s.procs| ==> s.procs[i].pid != 0
  }

  lemma NonzeroStep(s: Sched, op: Op, r: nat) returns (r': nat)
    requires Valid(s) && PidsNonzero(s, r) && (op.Register? ==> r < WORD - 100)
    ensures PidsNonzero(Next(s, op), r') && r' <= if op.Register? then r + 1 else r
  {
    NextKeepsLife(s, op);
    var t := Act(s, op).s;
    r' := if t.seed == s.seed then r else r + 1;
    forall i | 0 <= i < |t.procs|
      ensures t.procs[i].pid != 0 && Next(s, op).procs[i].pid != 0
    {
      assert SameLife(t.procs[i], Next(s, op).procs[i]);
      if i < |s.procs| { assert KeptSlot(s.procs[i], t.procs[i], i == s.running); }
    }
    SeedOnlyRegister(s, op);
  }

  lemma SeedOnlyRegister(s: Sched, op: Op)
    requires Valid(s)
    ensures Act(s, op).s.seed == s.seed || (op.Register? && Act(s, op).s.seed == (s.seed + 1) % WORD)
    ensures |Act(s, op).s.procs| > |s.procs| ==> op.Register?
  {
  }

  /** The one call that loses a wakeup: waiting for pid 0, which a living process has, with a message pending. */
  predicate LosesWakeup(s: Sched, op: Op)
    requires Valid(s)
  {
    op == Wait(0) && FirstLive(s.procs, 0, 0) < |s.procs| && s.procs[s.running].chan.count > 0
  }

  /** Exactly that call loses a wakeup. */
  lemma WakeupStepExactly(s: Sched, op: Op)
    requires Valid(s) && NoLostWakeup(s)
    ensures NoLostWakeup(Next(s, op)) <==> !LosesWakeup(s, op)
  {
    hide NoLostWakeup, Act;
    WakeupAct(s, op);
    WakeupYield(s, op);
  }

  lemma WakeupYield(s: Sched, op: Op)
    requires Valid(s)
    ensures NoLostWakeup(Next(s, op)) <==> NoLostWakeup(Act(s, op).s)
  {
    hide Act, Next;
    NextKeepsLife(s, op);
    var t, u := Act(s, op).s, Next(s, op);
    assert forall i :: 0 <= i < |t.procs| ==> SameLife(t.procs[i], u.procs[i]);
  }

  lemma WakeupAct(s: Sched, op: Op)
    requires Valid(s) && NoLostWakeup(s)
    ensures NoLostWakeup(Act(s, op).s) <==> !LosesWakeup(s, op)
  {
    match op {
      case Send(dest, payload, kind) => WakeupSend(s, dest, payload, kind);
      case Wait(target) => WakeupWait(s, target);
      case Terminate(v) => WakeupTerminate(s, v);
      case Exit => WakeupTerminate(s, s.procs[s.running].pid);
      case Signal(target, signal) => WakeupSignal(s, target, signal);
      case _ =>
    }
  }

  /** A send to a slot that waits for it makes the slot runnable. */
  lemma WakeupSend(s: Sched, dest: nat, payload: seq<Byte>, kind: nat)
    requires Valid(s) && NoLostWakeup(s)
    ensures NoLostWakeup(SendAct(s, dest, payload, kind).s)
  {
  }

  lemma WakeupTerminate(s: Sched, pid: nat)
    requires Valid(s) && NoLostWakeup(s)
    ensures NoLostWakeup(TerminateAct(s, pid).s)
  {
  }

  lemma WakeupSignal(s: Sched, target: nat, signal: nat)
    requires Valid(s) && NoLostWakeup(s)
    ensures NoLostWakeup(SignalAct(s, target, signal).s)
  {
  }

  lemma WakeupWait(s: Sched, target: nat)
    requires Valid(s) && NoLostWakeup(s)
    ensures NoLostWakeup(WaitAct(s, target).s) <==> !LosesWakeup(s, Wait(target))
  {
    var t := WaitAct(s, target).s;
    if LosesWakeup(s, Wait(target)) {
      assert t.procs[s.running].state == Blocked && t.procs[s.running].chan.count > 0;
    }
  }

  /** Registrations among the first `n` calls. */
  ghost function Registrations(ops: seq<Op>, n: nat): nat
    requires n <= |ops|
  {
    if n == 0 then 0 else Registrations(ops, n - 1) + if ops[n - 1].Register? then 1 else 0
  }

  lemma {:induction false} RunKeepsPids(ss: seq<Sched>, ops: seq<Op>, n: nat) returns (r: nat)
    requires IsRun(ss, ops) && ss[0] == Initial() && n <= |ops|
    requires Registrations(ops, n) <= WORD - 100
    ensures PidsNonzero(ss[n], r) && r <= Registrations(ops, n)
  {
    if n == 0 {
      r := 0;
    } else {
      assert Follows(ss, ops, n - 1);
      r := RunKeepsPids(ss, ops, n - 1);
      r := NonzeroStep(ss[n - 1], ops[n - 1], r);
    }
  }

  /** In every run with at most 2^32 - 100 registrations, a slot blocked for a message always has an
      empty channel: a send and a receive never miss each other. */
  lemma {:induction false} WakeupsAreNotLost(ss: seq<Sched>, ops: seq<Op>, n: nat)
    requires IsRun(ss, ops) && ss[0] == Initial() && n <= |ops|
    requires Registrations(ops, n) <= WORD - 100
    ensures NoLostWakeup(ss[n])
  {
    if n > 0 {
      assert Follows(ss, ops, n - 1);
      WakeupsAreNotLost(ss, ops, n - 1);
      var r := RunKeepsPids(ss, ops, n - 1);
      WakeupStepExactly(ss[n - 1], ops[n - 1]);
    }
  }

  /** A run keeps every wakeup if and only if none of its calls is the one that loses it. */
  lemma {:induction false} WakeupsKeptExactly(ss: seq<Sched>, ops: seq<Op>, n: nat)
    requires IsRun(ss, ops) && ss[0] == Initial() && n <= |ops|
    ensures (forall k :: 0 <= k <= n ==> NoLostWakeup(ss[k])) <==>
            forall k :: 0 <= k < n ==> Valid(ss[k]) && !LosesWakeup(ss[k], ops[k])
  {
    hide NoLostWakeup, LosesWakeup, Next, Valid;
    if n == 0 {
      InitialWakeups();
    } else {
      WakeupsKeptExactly(ss, ops, n - 1);
      RunValid(ss, ops, n - 1);
      assert Follows(ss, ops, n - 1);
      if NoLostWakeup(ss[n - 1]) { WakeupStepExactly(ss[n - 1], ops[n - 1]); }
    }
  }

  lemma InitialWakeups()
    ensures NoLostWakeup(Initial())
  {
  }

  /** The master process alone, after `n` registrations for which there was no memory. */
  function Refused(n: nat): Sched { Initial().(seed := (100 + n) % WORD) }

  lemma RefusedNext(n: nat)
    requires n < WORD - 100
    ensures Valid(Refused(n)) && Next(Refused(n), Register(20, false, false)) == Refused(n + 1)
  {
    var x := 100 + n;
    assert x % WORD == x;
  }

  /** The bound on registrations is sharp: one more, and the seed has come round to 0; then the master sends itself a
      message, waits for pid 0, and is blocked with a message pending. */
  lemma WakeupLossExample() returns (ss: seq<Sched>, ops: seq<Op>)
    ensures IsRun(ss, ops) && ss[0] == Initial() && !NoLostWakeup(ss[|ops|])
    ensures Registrations(ops, |ops|) == WORD - 99
  {
    hide Yield, ReleaseAll, ChanOk;
    var n := WORD - 100;
    var a := Next(Refused(n), Register(20, false, true));
    RefusedValid(n);
    NextValid(Refused(n), Register(20, false, true));
    assert a.procs == [Initial().procs[0], NewPcb(0, 20, false)];
    var b := Next(a, Send(100, [], 0));
    NextValid(a, Send(100, [], 0));
    assert FirstLive(a.procs, 100, 0) == 0;
    var c := Next(b, Wait(0));
    assert FirstLive(b.procs, 0, 0) == 1 && b.procs[b.running].chan.count == 1;
    InitialWakeups();
    KeepsWakeups(Refused(n), a, b);
    WakeupStepExactly(b, Wait(0));
    var refusals := Copies(n, Register(20, false, false));
    ops := refusals + [Register(20, false, true), Send(100, [], 0), Wait(0)];
    ss := seq(n + 1, i requires 0 <= i <= n => Refused(i)) + [a, b, c];
    forall i | 0 <= i < |ops|
      ensures Follows(ss, ops, i)
    {
      if i < n { RefusedNext(i); }
    }
    AllRegister(ops, n + 1);
    assert Registrations(ops, n + 2) == n + 1 && Registrations(ops, n + 3) == n + 1;
  }

  lemma RefusedValid(n: nat)
    ensures Valid(Refused(n))
  {
  }

  lemma KeepsWakeups(r: Sched, a: Sched, b: Sched)
    requires Valid(r) && Valid(a) && NoLostWakeup(r)
    requires a == Next(r, Register(20, false, true)) && b == Next(a, Send(100, [], 0))
    ensures NoLostWakeup(b)
  {
    WakeupStepExactly(r, Register(20, false, true));
    WakeupStepExactly(a, Send(100, [], 0));
  }

  lemma {:induction false} AllRegister(ops: seq<Op>, n: nat)
    requires n <= |ops| && forall i :: 0 <= i < n ==> ops[i].Register?
    ensures Registrations(ops, n) == n
  {
    if n > 0 { AllRegister(ops, n - 1); }
  }

  // ---------- the dead stay dead ----------

  ghost predicate Gone(s: Sched, j: nat) {
    0 < j < |s.procs| && s.procs[j].state == Dead && s.running != j
  }

  lemma GoneAct(s: Sched, op: Op, j: nat)
    requires Valid(s) && Gone(s, j)
    ensures Gone(Act(s, op).s, j)
  {
  }

  lemma GoneYield(s: Sched, j: nat)
    requires Gone(s, j)
    ensures Gone(Yield(s), j)
  {
  }

  /** In every run a dead slot other than 0 that is not running is never revived or scheduled. */
  lemma {:induction false} TheDeadStayDead(ss: seq<Sched>, ops: seq<Op>, j: nat, n: nat)
    requires IsRun(ss, ops) && Gone(ss[0], j) && n <= |ops|
    ensures Gone(ss[n], j)
  {
    if n > 0 {
      assert Follows(ss, ops, n - 1);
      TheDeadStayDead(ss, ops, j, n - 1);
      GoneAct(ss[n - 1], ops[n - 1], j);
      GoneYield(Act(ss[n - 1], ops[n - 1]).s, j);
    }
  }

  // ---------- waiters ----------

  ghost predicate Alive(s: Sched, pid: nat) {
    exists k :: 0 <= k < |s.procs| && s.procs[k].pid == pid && s.procs[k].state != Dead
  }

  ghost predicate WaitsOn(s: Sched, i: nat, pid: nat) {
    i < |s.procs| && s.procs[i].state == Blocked && s.procs[i].waitingOn == pid
  }

  /** Whoever is blocked on a process waits for one that can still end. */
  ghost predicate NoneStranded(s: Sched) {
    forall i, pid :: WaitsOn(s, i, pid) && pid != 0 ==> Alive(s, pid)
  }

  lemma StrandedSame(s: Sched, t: Sched)
    requires |s.procs| == |t.procs|
    requires forall i :: 0 <= i < |s.procs| ==> SameLife(s.procs[i], t.procs[i])
    ensures NoneStranded(s) <==> NoneStranded(t)
  {
    forall i: nat, pid | WaitsOn(s, i, pid) || WaitsOn(t, i, pid) || Alive(s, pid) || Alive(t, pid)
      ensures (WaitsOn(s, i, pid) <==> WaitsOn(t, i, pid)) && (Alive(s, pid) <==> Alive(t, pid))
    {
      if i < |s.procs| { assert SameLife(s.procs[i], t.procs[i]); }
      if Alive(s, pid) {
        var k :| 0 <= k < |s.procs| && s.procs[k].pid == pid && s.procs[k].state != Dead;
        assert SameLife(s.procs[k], t.procs[k]);
      }
      if Alive(t, pid) {
        var k :| 0 <= k < |t.procs| && t.procs[k].pid == pid && t.procs[k].state != Dead;
        assert SameLife(s.procs[k], t.procs[k]);
      }
    }
  }

  predicate Kills(op: Op) { op.Signal? && op.signal == SIGKILL }

  /** A call that kills nobody strands nobody, if every new waiter waits on a living process. */
  lemma NobodyDies(s: Sched, t: Sched)
    requires NoneStranded(s) && |s.procs| <= |t.procs|
    requires forall i :: 0 <= i < |s.procs| ==>
               t.procs[i].pid == s.procs[i].pid && (s.procs[i].state != Dead ==> t.procs[i].state != Dead)
    requires forall i, pid :: WaitsOn(t, i, pid) && pid != 0 ==> WaitsOn(s, i, pid) || Alive(s, pid)
    ensures NoneStranded(t)
  {
    forall i, pid | WaitsOn(t, i, pid) && pid != 0
      ensures Alive(t, pid)
    {
      assert Alive(s, pid);
      var k :| 0 <= k < |s.procs| && s.procs[k].pid == pid && s.procs[k].state != Dead;
      assert t.procs[k].pid == pid && t.procs[k].state != Dead;
    }
  }

  /** Termination releases the waiters of the process it ends. */
  lemma TerminateStrandsNobody(s: Sched, pid: nat)
    requires Valid(s) && NoneStranded(s)
    ensures NoneStranded(TerminateAct(s, pid).s)
  {
    var t := TerminateAct(s, pid).s;
    if t != s {
      forall i, q | WaitsOn(t, i, q) && q != 0
        ensures Alive(t, q)
      {
        assert WaitsOn(s, i, q) && q != pid && Alive(s, q);
        var k :| 0 <= k < |s.procs| && s.procs[k].pid == q && s.procs[k].state != Dead;
        assert t.procs[k].pid == q && t.procs[k].state != Dead;
      }
    }
  }

  lemma WaitStrandsNobody(s: Sched, target: nat)
    requires Valid(s) && NoneStranded(s)
    ensures NoneStranded(WaitAct(s, target).s)
  {
    var t := WaitAct(s, target).s;
    var k := FirstLive(s.procs, target, 0);
    if k < |s.procs| {
      assert Alive(s, target);
      NobodyDies(s, t);
    }
  }

  lemma StrandStep(s: Sched, op: Op)
    requires Valid(s) && NoneStranded(s) && !Kills(op)
    ensures NoneStranded(Next(s, op))
  {
    var t := Act(s, op).s;
    match op {
      case Terminate(v) => TerminateStrandsNobody(s, v);
      case Exit => TerminateStrandsNobody(s, s.procs[s.running].pid);
      case Wait(target) => WaitStrandsNobody(s, target);
      case _ => QuietStep(s, op);
    }
    NextKeepsLife(s, op);
    StrandedSame(t, Next(s, op));
  }

  lemma QuietStep(s: Sched, op: Op)
    requires Valid(s) && NoneStranded(s) && !Kills(op) && !op.Terminate? && !op.Exit? && !op.Wait?
    ensures NoneStranded(Act(s, op).s)
  {
    var t := Act(s, op).s;
    assert forall i, pid :: WaitsOn(t, i, pid) && pid != 0 ==> WaitsOn(s, i, pid);
    NobodyDies(s, t);
  }

  /** In every run without SIGKILL no waiter is ever stranded. */
  lemma {:induction false} WaitersAreNotStranded(ss: seq<Sched>, ops: seq<Op>, n: nat)
    requires IsRun(ss, ops) && ss[0] == Initial() && n <= |ops|
    requires forall op :: op in ops ==> !Kills(op)
    ensures NoneStranded(ss[n])
  {
    if n > 0 {
      assert Follows(ss, ops, n - 1) && ops[n - 1] in ops;
      WaitersAreNotStranded(ss, ops, n - 1);
      StrandStep(ss[n - 1], ops[n - 1]);
    }
  }

  lemma AliveAfterKill(s: Sched, t: Sched, k: nat, pid: nat)
    requires k < |s.procs| && t.procs == s.procs[k := s.procs[k].(state := Dead)]
    ensures Alive(t, pid) <==>
              exists j :: 0 <= j < |s.procs| && j != k && s.procs[j].pid == pid && s.procs[j].state != Dead
  {
    assert forall j :: 0 <= j < |s.procs| && j != k ==> t.procs[j] == s.procs[j];
  }

  /** Exactly when SIGKILL strands a waiter: somebody else waits on the pid of the victim, and no
      other living process has that pid. */
  lemma KillStrandsExactly(s: Sched, pid: nat)
    requires Valid(s) && NoneStranded(s) && pid != 0
    requires FirstLive(s.procs, pid, 0) < |s.procs|
    ensures var k := FirstLive(s.procs, pid, 0);
            NoneStranded(Next(s, Signal(pid, SIGKILL))) <==>
            !((exists i :: i != k && WaitsOn(s, i, pid)) &&
              forall j :: 0 <= j < |s.procs| && j != k && s.procs[j].pid == pid ==> s.procs[j].state == Dead)
  {
    var op := Signal(pid, SIGKILL);
    var k := FirstLive(s.procs, pid, 0);
    var t := Act(s, op).s;
    NextKeepsLife(s, op);
    StrandedSame(t, Next(s, op));
    assert t.procs == s.procs[k := s.procs[k].(state := Dead)];
    if exists i :: i != k && WaitsOn(s, i, pid) {
      var i :| i != k && WaitsOn(s, i, pid);
      assert WaitsOn(t, i, pid);
    }
    forall i, q | WaitsOn(t, i, q) && q != 0 && q != pid
      ensures Alive(t, q)
    {
      assert WaitsOn(s, i, q) && Alive(s, q);
      var j :| 0 <= j < |s.procs| && s.procs[j].pid == q && s.procs[j].state != Dead;
      assert t.procs[j].pid == q && t.procs[j].state != Dead;
    }
    AliveAfterKill(s, t, k, pid);
    assert forall i :: WaitsOn(t, i, pid) ==> i != k && WaitsOn(s, i, pid);
  }

  /** A concrete run: the master starts two processes, waits for the second, and the first one kills it. */
  lemma KillStrandsExample() returns (ss: seq<Sched>, ops: seq<Op>)
    ensures IsRun(ss, ops) && ss[0] == Initial() && !NoneStranded(ss[|ops|])
  {
    hide Yield, ChanOk, ReleaseAll;
    ops := [Register(20, false, true), Register(20, false, true), Wait(101), Signal(101, SIGKILL)];
    var s0 := Initial();
    var s1, s2 := Next(s0, ops[0]), Next(Next(s0, ops[0]), ops[1]);
    NextValid(s0, ops[0]);
    NextValid(s1, ops[1]);
    assert s2.procs == s0.procs + [NewPcb(100, 20, false)] + [NewPcb(101, 20, false)];
    assert s2.procs[0].pid == 100 && s2.procs[1].pid == 100 && s2.procs[2].pid == 101;
    assert FirstLive(s2.procs, 101, 0) == 2;
    assert WaitAct(s2, 101).s.procs[0] == s2.procs[0].(state := Blocked, waitingOn := 101);
    NextValid(s2, ops[2]);
    var s3 := Next(s2, ops[2]);
    NextValid(s3, ops[3]);
    var s4 := Next(s3, ops[3]);
    NextKeepsLife(s2, ops[2]);
    assert s3.procs[0].state == Blocked && s3.procs[0].waitingOn == 101 && s3.procs[1].pid == 100;
    NextKeepsLife(s3, ops[3]);
    assert FirstLive(s3.procs, 101, 0) == 2;
    assert WaitsOn(s4, 0, 101) && !Alive(s4, 101);
    ss := [s0, s1, s2, s3, s4];
    FollowsAll(ss, ops);
  }

  lemma FollowsAll(ss: seq<Sched>, ops: seq<Op>)
    requires |ss| == 5 && |ops| == 4 && Valid(ss[0])
    requires Follows(ss, ops, 0) && Follows(ss, ops, 1) && Follows(ss, ops, 2) && Follows(ss, ops, 3)
    ensures IsRun(ss, ops)
  {
    hide Valid, Next;
  }
}
