/** The passive open of i386/whitex/internet.h (section 3.5 of RFC 9293). */
module NetTcp {
  // What the socket table becomes when segments arrive (374-458, 654-676). States are 0 closed, 1 listening,
  // 2 SYN received, 3 established.

  import opened Common
  import opened NetChecksum
  import opened NetArp

  const MAX_SOCKS := 1024
  const ISS := 0x89AB_CDEF
  const NO_IP: Ip := [0, 0, 0, 0]

  datatype Tcb = Tcb(
    used: bool,
    localPort: nat,
    remotePort: nat,
    remoteIp: Ip,
    state: nat,
    sndUna: nat,
    sndNxt: nat,
    rcvNxt: nat)

  function Blank(): Tcb { Tcb(false, 0, 0, NO_IP, 0, 0, 0, 0) }

  datatype Segment = Segment(ip: Ip, srcPort: nat, dstPort: nat, seqNum: nat, ackNum: nat, syn: bool, ack: bool)

  predicate FromPeer(t: Tcb, s: Segment) {
    t.used && t.localPort == s.dstPort && t.remotePort == s.srcPort && t.remoteIp == s.ip
  }

  predicate Listens(t: Tcb, s: Segment) { t.used && t.localPort == s.dstPort && t.state == 1 }

  /** The first socket from `i` on with the peer of the segment; the number of sockets if none. */
  function FindPeer(socks: seq<Tcb>, s: Segment, i: nat): (k: nat)
    requires i <= |socks|
    ensures i <= k <= |socks| && (k < |socks| ==> FromPeer(socks[k], s))
    ensures forall j :: i <= j < k ==> !FromPeer(socks[j], s)
    decreases |socks| - i
  {
    if i == |socks| || FromPeer(socks[i], s) then i else FindPeer(socks, s, i + 1)
  }

  function FindListener(socks: seq<Tcb>, s: Segment, i: nat): (k: nat)
    requires i <= |socks|
    ensures i <= k <= |socks| && (k < |socks| ==> Listens(socks[k], s))
    ensures forall j :: i <= j < k ==> !Listens(socks[j], s)
    decreases |socks| - i
  {
    if i == |socks| || Listens(socks[i], s) then i else FindListener(socks, s, i + 1)
  }

  /** The socket a segment goes to; the number of sockets if none. */
  function Target(socks: seq<Tcb>, s: Segment): (k: nat)
    ensures k <= |socks|
  {
    var k := FindPeer(socks, s, 0);
    if k < |socks| then k else FindListener(socks, s, 0)
  }

  /** What a segment does to its socket; `answered` says whether a buffer for the reply was there. */
  function React(t: Tcb, s: Segment, answered: bool): Tcb {
    if t.state == 1 && s.syn && !s.ack then
      t.(remotePort := s.srcPort, remoteIp := s.ip, rcvNxt := (s.seqNum + 1) % WORD, sndUna := ISS, state := 2,
         sndNxt := if answered then (ISS + 1) % WORD else ISS)
    else if t.state == 2 && s.ack && s.ackNum == t.sndNxt then t.(state := 3)
    else t
  }

  function Deliver(socks: seq<Tcb>, s: Segment, answered: bool): (r: seq<Tcb>)
    ensures |r| == |socks|
  {
    var k := Target(socks, s);
    if k == |socks| then socks else socks[k := React(socks[k], s, answered)]
  }

  /** `wx_socket`, `wx_bind` and `wx_listen` in turn, on the first unused socket. */
  function FirstUnused(socks: seq<Tcb>, i: nat): (k: nat)
    requires i <= |socks|
    ensures i <= k <= |socks| && (k < |socks| ==> !socks[k].used)
    ensures forall j :: i <= j < k ==> socks[j].used
    decreases |socks| - i
  {
    if i == |socks| || !socks[i].used then i else FirstUnused(socks, i + 1)
  }

  function Open(socks: seq<Tcb>, port: nat): (r: seq<Tcb>)
    ensures |r| == |socks|
  {
    var k := FirstUnused(socks, 0);
    if k == |socks| then socks else socks[k := socks[k].(used := true, localPort := port, state := 1)]
  }

  // ---------- runs ----------

  /** `OpenPort` is the three set-up calls in turn, as `internetmain` makes them; they may also come one by one. */
  datatype Op =
    | Arrive(s: Segment, answered: bool)
    | OpenPort(port: nat)
    | NewSocket
    | BindTo(fd: int, port: nat)
    | ListenOn(fd: int)

  predicate IsSocket(socks: seq<Tcb>, fd: int) { 0 <= fd < |socks| && socks[fd].used }

  function Next(socks: seq<Tcb>, op: Op): (r: seq<Tcb>)
    ensures |r| == |socks|
  {
    match op
    case Arrive(s, answered) => Deliver(socks, s, answered)
    case OpenPort(port) => Open(socks, port)
    case NewSocket =>
      var k := FirstUnused(socks, 0);
      if k == |socks| then socks else socks[k := socks[k].(used := true, state := 0)]
    case BindTo(fd, port) => if IsSocket(socks, fd) then socks[fd := socks[fd].(localPort := port)] else socks
    case ListenOn(fd) => if IsSocket(socks, fd) then socks[fd := socks[fd].(state := 1)] else socks
  }

  function After(ops: seq<Op>): (r: seq<Tcb>)
    ensures |r| == MAX_SOCKS
  {
    if ops == [] then Copies(MAX_SOCKS, Blank()) else Next(After(ops[..|ops| - 1]), ops[|ops| - 1])
  }

  /** Sockets are bound while they are closed, and opened once. */
  predicate Orderly(socks: seq<Tcb>, op: Op) {
    match op
    case BindTo(fd, _) => IsSocket(socks, fd) ==> socks[fd].state == 0
    case ListenOn(fd) => IsSocket(socks, fd) ==> socks[fd].state == 0
    case _ => true
  }

  ghost predicate OrderlyRun(ops: seq<Op>) { forall i :: 0 <= i < |ops| ==> Orderly(After(ops[..i]), ops[i]) }

  /** Call `i` was the SYN that socket `t` answers. */
  ghost predicate OpenedBy(ops: seq<Op>, t: Tcb, i: nat) {
    && i < |ops| && ops[i].Arrive?
    && var s := ops[i].s;
       s.syn && !s.ack && s.srcPort == t.remotePort && s.ip == t.remoteIp && s.dstPort == t.localPort
       && t.rcvNxt == (s.seqNum + 1) % WORD
       && t.sndUna == ISS && t.sndNxt == if ops[i].answered then (ISS + 1) % WORD else ISS
  }

  /** Call `j` was the peer's acknowledgement of what had been sent. */
  ghost predicate AckedBy(ops: seq<Op>, t: Tcb, j: nat) {
    && j < |ops| && ops[j].Arrive?
    && var s := ops[j].s;
       s.ack && s.ackNum == t.sndNxt && s.srcPort == t.remotePort && s.ip == t.remoteIp && s.dstPort == t.localPort
  }

  /** What every socket can account for from the history of calls. */
  ghost predicate Explained(ops: seq<Op>, t: Tcb) {
    && t.state <= 3 && (t.state > 0 ==> t.used)
    && (t.state <= 1 ==> NoPeer(t))
    && (t.state >= 2 ==> exists i: nat :: OpenedBy(ops, t, i))
    && (t.state == 3 ==> exists i: nat, j: nat :: i < j && OpenedBy(ops, t, i) && AckedBy(ops, t, j))
  }

  /** The peer of a socket that has none; a segment may come from there all the same. */
  ghost predicate NoPeer(t: Tcb) { t.remotePort == 0 && t.remoteIp == NO_IP }

  ghost predicate SamePeer(a: Tcb, b: Tcb) {
    a.localPort == b.localPort && a.remotePort == b.remotePort && a.remoteIp == b.remoteIp
  }

  /** No two connections have the same local port, remote port and remote address. */
  ghost predicate Unique(socks: seq<Tcb>) {
    forall a, b :: 0 <= a < b < |socks| && socks[a].state >= 2 && socks[b].state >= 2 ==> !SamePeer(socks[a], socks[b])
  }

  /** The same, of connections with a peer that has a port or an address. */
  ghost predicate UniquePeers(socks: seq<Tcb>) {
    forall a, b :: 0 <= a < b < |socks| && socks[a].state >= 2 && socks[b].state >= 2 && !NoPeer(socks[a]) ==>
      !SamePeer(socks[a], socks[b])
  }

  /** Sockets are taken from the first on, and a connection with the null peer has no listener of its port before
      it. */
  ghost predicate Ordered(socks: seq<Tcb>) {
    forall a, b :: 0 <= a < b < |socks| && socks[b].used ==>
      socks[a].used &&
      (socks[b].state >= 2 && NoPeer(socks[b]) && socks[a].localPort == socks[b].localPort ==> socks[a].state != 1)
  }

  /** A socket keeps its explanation as the history grows. */
  lemma StillExplained(ops: seq<Op>, op: Op, t: Tcb)
    requires Explained(ops, t)
    ensures Explained(ops + [op], t)
  {
    var ops' := ops + [op];
    if t.state >= 2 {
      var i: nat :| OpenedBy(ops, t, i);
      assert OpenedBy(ops', t, i);
    }
    if t.state == 3 {
      var i: nat, j: nat :| i < j && OpenedBy(ops, t, i) && AckedBy(ops, t, j);
      assert OpenedBy(ops', t, i) && AckedBy(ops', t, j);
    }
  }

  /** The socket a segment changes is explained by that segment. */
  lemma ReactExplained(ops: seq<Op>, t: Tcb, s: Segment, answered: bool)
    requires Explained(ops, t) && (FromPeer(t, s) || Listens(t, s))
    ensures Explained(ops + [Arrive(s, answered)], React(t, s, answered))
    ensures React(t, s, answered).state == t.state || (t.state == 1 && React(t, s, answered).state == 2)
            || (t.state == 2 && React(t, s, answered).state == 3)
  {
    var op := Arrive(s, answered);
    var ops' := ops + [op];
    var t' := React(t, s, answered);
    StillExplained(ops, op, t);
    if t'.state == 2 && t.state == 1 { assert OpenedBy(ops', t', |ops|); }
    if t'.state == 3 && t.state == 2 {
      var i: nat :| OpenedBy(ops, t, i);
      assert OpenedBy(ops', t', i) && AckedBy(ops', t', |ops|);
    }
  }

  lemma NextExplained(ops: seq<Op>, op: Op, socks: seq<Tcb>, k: nat)
    requires forall t :: t in socks ==> Explained(ops, t)
    requires k < |socks| && Orderly(socks, op)
    ensures Explained(ops + [op], Next(socks, op)[k])
  {
    var t, t' := socks[k], Next(socks, op)[k];
    StillExplained(ops, op, t);
    if op.Arrive? && k == Target(socks, op.s) { ReactExplained(ops, t, op.s, op.answered); }
  }

  /** What the state of a socket says about its use and its peer. */
  ghost predicate Settled(t: Tcb) { (t.state > 0 ==> t.used) && (t.state <= 1 ==> NoPeer(t)) }

  lemma NextOrdered(op: Op, socks: seq<Tcb>)
    requires Ordered(socks) && forall a :: 0 <= a < |socks| ==> Settled(socks[a])
    requires op.Arrive? || op.OpenPort?
    ensures Ordered(Next(socks, op))
  {
    if op.Arrive? {
      var k := Target(socks, op.s);
      if k < |socks| && Deliver(socks, op.s, op.answered)[k].state == 2 && socks[k].state == 1 && NoPeer(Deliver(socks, op.s, op.answered)[k]) {
        NullPeerFirst(socks, op.s);
      }
    }
  }

  /** A segment from the null peer goes to the first socket of its port that has no peer. */
  lemma NullPeerFirst(socks: seq<Tcb>, s: Segment)
    requires forall a :: 0 <= a < |socks| ==> Settled(socks[a])
    requires s.srcPort == 0 && s.ip == NO_IP && Target(socks, s) < |socks|
    ensures forall a :: 0 <= a < Target(socks, s) && socks[a].used && socks[a].localPort == s.dstPort ==> !NoPeer(socks[a])
    ensures FromPeer(socks[Target(socks, s)], s)
  {
    var k := FindListener(socks, s, 0);
    if k < |socks| { assert FromPeer(socks[k], s); }
  }

  /** A SYN from the null peer for a listener, while another socket of its port is connected with the null peer. */
  ghost predicate Doubles(socks: seq<Tcb>, op: Op) {
    && op.Arrive? && op.s.syn && !op.s.ack && op.s.srcPort == 0 && op.s.ip == NO_IP
    && var k := Target(socks, op.s);
       k < |socks| && socks[k].state == 1
       && exists a :: 0 <= a < |socks| && socks[a].state >= 2 && NoPeer(socks[a]) && socks[a].localPort == op.s.dstPort
  }

  /** Exactly such a segment opens a second connection with a peer. */
  lemma UniqueStepExactly(op: Op, socks: seq<Tcb>)
    requires Unique(socks) && Orderly(socks, op) && forall a :: 0 <= a < |socks| ==> Settled(socks[a])
    ensures Unique(Next(socks, op)) <==> !Doubles(socks, op)
  {
    var r := Next(socks, op);
    if op.Arrive? {
      var k := Target(socks, op.s);
      if k < |socks| && r[k].state == 2 && socks[k].state == 1 {
        var nobody := op.s.srcPort == 0 && op.s.ip == NO_IP;
        if nobody { NullPeerFirst(socks, op.s); }
        assert r[k].localPort == op.s.dstPort;
        if Doubles(socks, op) {
          var a :| 0 <= a < |socks| && socks[a].state >= 2 && NoPeer(socks[a]) && socks[a].localPort == op.s.dstPort;
          assert SamePeer(r[a], r[k]) && SamePeer(r[k], r[a]) && a != k;
        } else {
          forall a | 0 <= a < |socks| && a != k && socks[a].state >= 2
            ensures !SamePeer(r[a], r[k])
          {
            assert SamePeer(r[a], r[k]) ==> FromPeer(socks[a], op.s);
          }
        }
      }
    }
  }

  /** Connections with any other peer stay unique, whatever comes between the set-up calls. */
  lemma NextUnique(op: Op, socks: seq<Tcb>)
    requires UniquePeers(socks) && Orderly(socks, op) && forall a :: 0 <= a < |socks| ==> Settled(socks[a])
    ensures UniquePeers(Next(socks, op))
  {
    var r := Next(socks, op);
    if op.Arrive? {
      var k := Target(socks, op.s);
      if k < |socks| && r[k].state == 2 && socks[k].state == 1 && !NoPeer(r[k]) {
        forall a | 0 <= a < |socks| && a != k && socks[a].state >= 2
          ensures !SamePeer(r[a], r[k])
        {
          assert SamePeer(r[a], r[k]) ==> FromPeer(socks[a], op.s);
        }
      }
    }
  }

  lemma OrderlyFront(ops: seq<Op>)
    requires OrderlyRun(ops) && ops != []
    ensures OrderlyRun(ops[..|ops| - 1]) && Orderly(After(ops[..|ops| - 1]), ops[|ops| - 1])
  {
    var front := ops[..|ops| - 1];
    forall i | 0 <= i < |front|
      ensures Orderly(After(front[..i]), front[i])
    {
      assert front[..i] == ops[..i];
    }
  }

  /** Passive open, over every orderly history, with segments arriving between the set-up calls or not: every
      socket's state is explained by the segments that led to it, and connections are unique, but for those with a peer
      whose port and address are 0. */
  lemma {:induction false} PassiveOpen(ops: seq<Op>)
    requires OrderlyRun(ops)
    ensures forall t :: t in After(ops) ==> Explained(ops, t)
    ensures UniquePeers(After(ops))
    decreases |ops|
  {
    if ops == [] {
      assert forall t :: t in After(ops) ==> t == Blank();
    } else {
      var front, op := ops[..|ops| - 1], ops[|ops| - 1];
      OrderlyFront(ops);
      PassiveOpen(front);
      assert ops == front + [op];
      AllSettled(front);
      NextUnique(op, After(front));
      forall k | 0 <= k < MAX_SOCKS
        ensures Explained(ops, After(ops)[k])
      {
        NextExplained(front, op, After(front), k);
      }
    }
  }

  lemma AllSettled(ops: seq<Op>)
    requires forall t :: t in After(ops) ==> Explained(ops, t)
    ensures forall a :: 0 <= a < MAX_SOCKS ==> Settled(After(ops)[a])
  {
    forall a | 0 <= a < MAX_SOCKS
      ensures Settled(After(ops)[a])
    {
      assert Explained(ops, After(ops)[a]);
    }
  }

  /** Set-up calls are made in turn, with no segment between them. */
  ghost predicate AtOnce(ops: seq<Op>) { forall i :: 0 <= i < |ops| ==> ops[i].Arrive? || ops[i].OpenPort? }

  /** Then connections are unique also with the null peer. */
  lemma {:induction false} OpenedAtOnce(ops: seq<Op>)
    requires AtOnce(ops)
    ensures OrderlyRun(ops) && Unique(After(ops)) && Ordered(After(ops))
    decreases |ops|
  {
    if ops == [] {
      assert forall t :: t in After(ops) ==> t == Blank();
    } else {
      var front, op := ops[..|ops| - 1], ops[|ops| - 1];
      OpenedAtOnce(front);
      PassiveOpen(front);
      AllSettled(front);
      NextOrdered(op, After(front));
      OrderedNotDoubled(op, After(front));
      UniqueStepExactly(op, After(front));
    }
  }

  lemma OrderedNotDoubled(op: Op, socks: seq<Tcb>)
    requires Ordered(socks) && forall a :: 0 <= a < |socks| ==> Settled(socks[a])
    ensures !Doubles(socks, op)
  {
    if Doubles(socks, op) { NullPeerFirst(socks, op.s); }
  }

  function Knock(): Segment { Segment(NO_IP, 0, 80, 0, 0, true, false) }

  /** Segments between the set-up calls: two listeners of a port, the second set up first, both connected with the
      null peer. */
  function Interleaved(): (ops: seq<Op>)
    ensures |ops| == 8
  {
    [NewSocket, NewSocket, BindTo(1, 80), ListenOn(1), Arrive(Knock(), true), BindTo(0, 80), ListenOn(0), Arrive(Knock(), true)]
  }

  lemma AfterStep(ops: seq<Op>, k: nat)
    requires k < |ops|
    ensures After(ops[..k + 1]) == Next(After(ops[..k]), ops[k])
  {
    assert ops[..k + 1][..k] == ops[..k];
  }

  /** Both sockets of the run before the last segment. */
  lemma InterleavedSetUp()
    ensures var socks := After(Interleaved()[..7]);
            && socks[0] == Blank().(used := true, localPort := 80, state := 1)
            && socks[1] == Blank().(used := true, localPort := 80, state := 2, rcvNxt := 1, sndUna := ISS, sndNxt := ISS + 1)
    ensures forall i :: 0 <= i < 7 ==> Orderly(After(Interleaved()[..i]), Interleaved()[i])
  {
    hide After;
    AfterNothing();
    assert Interleaved()[..0] == [];
    AfterStep(Interleaved(), 0);
    AfterStep(Interleaved(), 1);
    AfterStep(Interleaved(), 2);
    AfterStep(Interleaved(), 3);
    AfterStep(Interleaved(), 4);
    AfterStep(Interleaved(), 5);
    AfterStep(Interleaved(), 6);
  }

  lemma AfterNothing()
    ensures After([]) == Copies(MAX_SOCKS, Blank())
  {
  }

  /** An orderly run after which two connections have the same local port, remote port and remote address. */
  lemma InterleavedExample()
    ensures OrderlyRun(Interleaved()) && !Unique(After(Interleaved()))
  {
    hide After;
    InterleavedSetUp();
    AfterStep(Interleaved(), 7);
    assert Interleaved()[..8] == Interleaved();
    var socks := After(Interleaved()[..7]);
    assert FromPeer(socks[0], Knock()) && Target(socks, Knock()) == 0;
    assert SamePeer(After(Interleaved())[0], After(Interleaved())[1]);
  }

  /** The order of a socket's life: 0 to 1 by opening, 1 to 2 to 3 by segments, and nothing else; once
      connected, its peer and its numbers never change. */
  lemma StateOnlyAdvances(ops: seq<Op>, op: Op, k: nat)
    requires OrderlyRun(ops + [op]) && k < MAX_SOCKS
    ensures var t, t' := After(ops)[k], After(ops + [op])[k];
            && (t'.state == t.state || (t'.state == t.state + 1 && t'.state <= 3))
            && (t.state == 0 && t'.state == 1 ==> op.OpenPort? || op.ListenOn?)
            && (t.state >= 2 ==> t' == t.(state := t'.state))
  {
    assert (ops + [op])[..|ops|] == ops;
    OrderlyFront(ops + [op]);
    PassiveOpen(ops);
    var socks := After(ops);
    assert socks[k] in socks && Explained(ops, socks[k]);
    if op.Arrive? && k == Target(socks, op.s) { ReactExplained(ops, socks[k], op.s, op.answered); }
  }

  // ---------- the socket table ----------

  class SocketTable {
    const socks: array<Tcb>

    ghost predicate Valid()
      reads this
    {
      socks.Length == MAX_SOCKS
    }

    /** `wx_tcp_init`. */
    constructor ()
      ensures Valid() && fresh(socks) && socks[..] == After([])
    {
      socks := new Tcb[MAX_SOCKS](_ => Blank());
      new;
      assert socks[..] == After([]);
    }

    /** The two searches of `wx_tcp_process`. */
    method FindTarget(s: Segment) returns (k: nat)
      requires Valid()
      ensures k == Target(socks[..], s)
    {
      k := 0;
      while k < MAX_SOCKS && !FromPeer(socks[k], s)
        invariant k <= MAX_SOCKS && FindPeer(socks[..], s, 0) == FindPeer(socks[..], s, k)
      {
        k := k + 1;
      }
      if k < MAX_SOCKS { return; }
      k := 0;
      while k < MAX_SOCKS && !Listens(socks[k], s)
        invariant k <= MAX_SOCKS && FindListener(socks[..], s, 0) == FindListener(socks[..], s, k)
      {
        k := k + 1;
      }
    }

    /** `wx_socket`. */
    method Socket() returns (fd: int)
      requires Valid()
      modifies socks
      ensures var k := FirstUnused(old(socks[..]), 0);
              if k == MAX_SOCKS then fd == -1 && socks[..] == old(socks[..])
              else fd == k && socks[..] == old(socks[..])[k := old(socks[..])[k].(used := true, state := 0)]
      ensures socks[..] == Next(old(socks[..]), NewSocket)
    {
      var i := 0;
      while i < MAX_SOCKS && socks[i].used
        invariant i <= MAX_SOCKS && FirstUnused(socks[..], 0) == FirstUnused(socks[..], i)
      {
        i := i + 1;
      }
      if i == MAX_SOCKS { return -1; }
      socks[i] := socks[i].(used := true, state := 0);
      return i;
    }

    /** `wx_bind`. */
    method Bind(fd: int, port: nat) returns (ok: bool)
      requires Valid()
      modifies socks
      ensures ok <==> 0 <= fd < MAX_SOCKS && old(socks[..])[fd].used
      ensures socks[..] == if ok then old(socks[..])[fd := old(socks[..])[fd].(localPort := port)] else old(socks[..])
      ensures socks[..] == Next(old(socks[..]), BindTo(fd, port))
    {
      if fd < 0 || fd >= MAX_SOCKS || !socks[fd].used { return false; }
      socks[fd] := socks[fd].(localPort := port);
      return true;
    }

    /** `wx_listen`. */
    method Listen(fd: int) returns (ok: bool)
      requires Valid()
      modifies socks
      ensures ok <==> 0 <= fd < MAX_SOCKS && old(socks[..])[fd].used
      ensures socks[..] == if ok then old(socks[..])[fd := old(socks[..])[fd].(state := 1)] else old(socks[..])
      ensures socks[..] == Next(old(socks[..]), ListenOn(fd))
    {
      if fd < 0 || fd >= MAX_SOCKS || !socks[fd].used { return false; }
      socks[fd] := socks[fd].(state := 1);
      return true;
    }

    /** The three calls in turn, as `internetmain` makes them. */
    method OpenListening(port: nat) returns (fd: int)
      requires Valid()
      modifies socks
      ensures socks[..] == Open(old(socks[..]), port)
    {
      fd := Socket();
      var _ := Bind(fd, port);
      var _ := Listen(fd);
    }
  }
}
