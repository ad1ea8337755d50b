/** That a passive open completes (i386/whitex/internet.h:374-458; section 3.5 of RFC 9293). */
module NetHandshake {
  import opened NetChecksum
  import opened NetArp
  import opened NetTcp
  import opened NetFrames

  // ---------- one segment ----------

  ghost predicate PeerOf(t: Tcb, s: Segment) {
    t.used && t.localPort == s.dstPort && t.remotePort == s.srcPort && t.remoteIp == s.ip
  }

  ghost predicate ListenerOf(t: Tcb, s: Segment) { t.used && t.localPort == s.dstPort && t.state == 1 }

  ghost predicate FirstPeer(socks: seq<Tcb>, s: Segment, k: nat) {
    k < |socks| && PeerOf(socks[k], s) && forall i :: 0 <= i < k ==> !PeerOf(socks[i], s)
  }

  ghost predicate NoPeerHas(socks: seq<Tcb>, s: Segment) { forall i :: 0 <= i < |socks| ==> !PeerOf(socks[i], s) }

  ghost predicate FirstListener(socks: seq<Tcb>, s: Segment, k: nat) {
    k < |socks| && ListenerOf(socks[k], s) && forall i :: 0 <= i < k ==> !ListenerOf(socks[i], s)
  }

  /** Socket `k` has taken up the SYN `s`: its peer, its next number, and what will have been sent. */
  ghost predicate TookUp(a: seq<Tcb>, b: seq<Tcb>, k: nat, s: Segment, answered: bool) {
    && k < |a| == |b| && (forall i :: 0 <= i < |a| && i != k ==> b[i] == a[i])
    && var t := b[k];
       && t.used == a[k].used && t.localPort == a[k].localPort && t.remotePort == s.srcPort && t.remoteIp == s.ip
       && t.state == 2 && t.rcvNxt == (s.seqNum + 1) % 0x1_0000_0000 && t.sndUna == 0x89ABCDEF
       && t.sndNxt == if answered then 0x89ABCDF0 else 0x89ABCDEF
  }

  ghost predicate Opens(s: Segment) { s.syn && !s.ack }

  /** A segment of a known peer reaches that peer's first socket, any other the first listener of its port. A SYN without ACK
      is taken up by a listener; an acknowledgement of what was sent establishes a connection that waits for it; and no
      other segment changes anything. */
  lemma SegmentDoes(socks: seq<Tcb>, s: Segment, answered: bool)
    ensures var r := Next(socks, Arrive(s, answered));
            && (forall k: nat :: FirstPeer(socks, s, k) ==>
                  if socks[k].state == 2 && s.ack && s.ackNum == socks[k].sndNxt then r == socks[k := socks[k].(state := 3)]
                  else if socks[k].state == 1 && Opens(s) then TookUp(socks, r, k, s, answered)
                  else r == socks)
            && (forall k: nat :: NoPeerHas(socks, s) && FirstListener(socks, s, k) ==>
                  if Opens(s) then TookUp(socks, r, k, s, answered) else r == socks)
            && (NoPeerHas(socks, s) && (forall i :: 0 <= i < |socks| ==> !ListenerOf(socks[i], s)) ==> r == socks)
  {
    forall k: nat | FirstPeer(socks, s, k)
      ensures FindPeer(socks, s, 0) == k
    {
      var f := FindPeer(socks, s, 0);
      assert f < |socks| ==> PeerOf(socks[f], s);
      assert PeerOf(socks[k], s) && FromPeer(socks[k], s);
    }
    var f := FindPeer(socks, s, 0);
    assert f < |socks| ==> PeerOf(socks[f], s);
    if f == |socks| {
      forall k: nat | FirstListener(socks, s, k)
        ensures FindListener(socks, s, 0) == k
      {
        var g := FindListener(socks, s, 0);
        assert g < |socks| ==> ListenerOf(socks[g], s);
        assert Listens(socks[k], s);
      }
      var g := FindListener(socks, s, 0);
      assert g < |socks| ==> ListenerOf(socks[g], s);
    }
  }

  // ---------- a handshake ----------

  function AfterAll(socks: seq<Tcb>, ops: seq<Op>): (r: seq<Tcb>)
    ensures |r| == |socks|
    decreases |ops|
  {
    if ops == [] then socks else AfterAll(Next(socks, ops[0]), ops[1..])
  }

  /** A segment of another connection. */
  ghost predicate Other(op: Op, s: Segment) {
    op.Arrive? && (op.s.ip != s.ip || op.s.srcPort != s.srcPort || op.s.dstPort != s.dstPort)
  }

  /** Socket `k` alone has the peer of `s`. */
  ghost predicate OnlyPeer(socks: seq<Tcb>, s: Segment, k: nat) {
    k < |socks| && PeerOf(socks[k], s) && forall i :: 0 <= i < |socks| && i != k ==> !PeerOf(socks[i], s)
  }

  lemma OthersPass(socks: seq<Tcb>, s: Segment, k: nat, op: Op)
    requires OnlyPeer(socks, s, k) && socks[k].state == 2 && Other(op, s)
    ensures OnlyPeer(Next(socks, op), s, k) && Next(socks, op)[k] == socks[k]
  {
  }

  /** Segments of other connections do not disturb one that is being opened. */
  lemma {:induction false} OthersLeave(socks: seq<Tcb>, s: Segment, k: nat, ops: seq<Op>)
    requires OnlyPeer(socks, s, k) && socks[k].state == 2 && forall op :: op in ops ==> Other(op, s)
    ensures OnlyPeer(AfterAll(socks, ops), s, k) && AfterAll(socks, ops)[k] == socks[k]
    decreases |ops|
  {
    if ops != [] {
      OthersPass(socks, s, k, ops[0]);
      OthersLeave(Next(socks, ops[0]), s, k, ops[1..]);
    }
  }

  /** `t` is the established connection of `s`: the peer's port and address, its next number, and one sent and acknowledged. */
  ghost predicate Established(t: Tcb, s: Segment) {
    && t.used && t.state == 3 && t.localPort == s.dstPort && t.remotePort == s.srcPort && t.remoteIp == s.ip
    && t.rcvNxt == (s.seqNum + 1) % 0x1_0000_0000 && t.sndNxt == 0x89ABCDF0
  }

  /** Once a port is open, the SYN of a new peer that is answered, any segments of other connections, and the peer's
      acknowledgement of the answer make an established connection of it, and of no other socket. */
  lemma HandshakeCompletes(socks: seq<Tcb>, port: nat, syn: Segment, others: seq<Op>, ack: Segment, answered: bool)
    requires exists i :: 0 <= i < |socks| && !socks[i].used
    requires Opens(syn) && syn.dstPort == port && NoPeerHas(Next(socks, OpenPort(port)), syn)
    requires forall op :: op in others ==> Other(op, syn)
    requires ack.ip == syn.ip && ack.srcPort == syn.srcPort && ack.dstPort == port && ack.ack && ack.ackNum == 0x89ABCDF0
    ensures var open := Next(socks, OpenPort(port));
            exists k: nat :: FirstListener(open, syn, k) &&
              var waiting := AfterAll(Next(open, Arrive(syn, true)), others);
              k < |waiting| && var done := Next(waiting, Arrive(ack, answered));
              done == waiting[k := done[k]] && Established(done[k], syn)
  {
    var open := Next(socks, OpenPort(port));
    var k := ListenerAfterOpen(socks, port, syn);
    var asked := Next(open, Arrive(syn, true));
    SegmentDoes(open, syn, true);
    assert TookUp(open, asked, k, syn, true);
    assert OnlyPeer(asked, syn, k);
    hide Next;
    OthersLeave(asked, syn, k, others);
    var waiting := AfterAll(asked, others);
    assert FirstPeer(waiting, ack, k) by {
      assert forall i :: 0 <= i < |waiting| ==> (PeerOf(waiting[i], ack) <==> PeerOf(waiting[i], syn));
    }
    SegmentDoes(waiting, ack, answered);
  }

  lemma ListenerAfterOpen(socks: seq<Tcb>, port: nat, s: Segment) returns (k: nat)
    requires (exists i :: 0 <= i < |socks| && !socks[i].used) && s.dstPort == port
    ensures FirstListener(Next(socks, OpenPort(port)), s, k)
  {
    var open := Next(socks, OpenPort(port));
    var f := FirstUnused(socks, 0);
    assert ListenerOf(open[f], s);
    k := FindListener(open, s, 0);
    assert Listens(open[f], s);
  }

  /** The first unused socket listens on the port, and no other socket is touched. */
  lemma OpenDoes(socks: seq<Tcb>, port: nat)
    ensures var r := Next(socks, OpenPort(port));
            && ((forall i :: 0 <= i < |socks| ==> socks[i].used) ==> r == socks)
            && forall k :: 0 <= k < |socks| && !socks[k].used && (forall i :: 0 <= i < k ==> socks[i].used) ==>
                 r == socks[k := socks[k].(used := true, localPort := port, state := 1)]
  {
  }

  // ---------- the two ends ----------

  /** What a peer sends that has read the answer to its SYN. */
  function Reply(read: Segment, from: Ip): Segment {
    Segment(from, read.dstPort, read.srcPort, read.ackNum, (read.seqNum + 1) % 0x1_0000_0000, false, true)
  }

  /** A peer that reads the answer to its SYN as this stack reads segments, and acknowledges what it read, is connected. */
  lemma BothEndsAgree(socks: seq<Tcb>, s: Segment, k: nat, source: Ip, answered: bool)
    requires Opens(s) && s.dstPort <= 0xFFFF && s.srcPort <= 0xFFFF && s.seqNum < 0x1_0000_0000
    requires NoPeerHas(socks, s) && FirstListener(socks, s, k)
    ensures var read := SegmentAt(SynAckSegment(React(socks[k], s, false)), 0, source);
            var asked := Next(socks, Arrive(s, true));
            && read.syn && read.ack && read.ackNum == (s.seqNum + 1) % 0x1_0000_0000
            && read.srcPort == s.dstPort && read.dstPort == s.srcPort
            && k < |asked| && var done := Next(asked, Arrive(Reply(read, s.ip), answered));
               done == asked[k := done[k]] && Established(done[k], s)
  {
    SegmentDoes(socks, s, true);
    SegmentDoes(socks, s, false);
    var t := React(socks[k], s, false);
    assert FindPeer(socks, s, 0) == |socks|;
    SynAckReadsBack(t, source);
    var read := SegmentAt(SynAckSegment(t), 0, source);
    var asked := Next(socks, Arrive(s, true));
    hide SegmentAt, SynAckSegment, Next, React;
    SegmentDoes(asked, Reply(read, s.ip), answered);
    assert FirstPeer(asked, Reply(read, s.ip), k);
  }
}
