/** What this host answers, byte by byte (i386/whitex/internet.h:217-372, 412-458). */
module NetAnswers {
  import opened NetChecksum
  import opened NetArp
  import opened NetTcp
  import opened NetFrames
  import opened NetHandshake

  // ---------- the fields of a frame ----------

  /** An Ethernet frame of this host with its type. */
  ghost predicate EthFields(f: Bytes, dest: Mac, local: Mac, hi: Byte, lo: Byte) {
    |f| >= 14 && f[0..6] == dest && f[6..12] == local && f[12] == hi && f[13] == lo
  }

  /** An IP packet of this host: version 4, header length 5, total length, lifetime, protocol, both addresses. */
  ghost predicate IpFields(f: Bytes, dest: Ip, proto: Byte) {
    && 34 <= |f| <= 0xFFFF && f[14] == 0x45 && 256 * (f[16] as int) + f[17] == |f| - 14 && f[22] == 64 && f[23] == proto
    && f[26..30] == LOCAL_IP && f[30..34] == dest
  }

  /** An ARP packet of this host for Ethernet and IP. */
  ghost predicate ArpFields(f: Bytes, opcode: Byte, local: Mac, targetMac: Mac, targetIp: Ip) {
    && |f| == 42 && f[14..22] == [0, 1, 8, 0, 6, 4, 0, opcode]
    && f[22..28] == local && f[28..32] == LOCAL_IP && f[32..38] == targetMac && f[38..42] == targetIp
  }

  lemma IpFrameFields(local: Mac, mac: Mac, dest: Ip, proto: Byte, payload: Bytes)
    requires |payload| <= 4000
    ensures var f := IpFrame(local, mac, dest, proto, payload);
            EthFields(f, mac, local, 8, 0) && IpFields(f, dest, proto) && f[34..] == payload
  {
    var f := IpFrame(local, mac, dest, proto, payload);
    var e, bare := EthHeader(mac, local, 0x0800), IpHeader(20 + |payload|, proto, dest);
    HeaderFields(20 + |payload|, proto, dest);
    assert e[12] == 8 && e[13] == 0;
    hide Checksum, EthHeader, IpHeader;
    var h := Sealed(bare, 10);
    assert f == e + (h + payload);
    hide IpFrame;
    assert f[..14] == e && f[14..34] == h && f[34..] == payload;
    assert f[0..6] == e[..6] && f[6..12] == e[6..12] && f[12] == e[12] && f[13] == e[13];
    assert f[26..30] == h[12..16] == bare[12..16] && f[30..34] == h[16..20] == bare[16..20];
    assert f[14] == h[0] == bare[0] && f[16] == h[2] == bare[2] && f[17] == h[3] == bare[3];
    assert f[22] == h[8] == bare[8] && f[23] == h[9] == bare[9];
  }

  lemma HeaderFields(len: nat, proto: Byte, dest: Ip)
    requires len <= 0xFFFF
    ensures var h := IpHeader(len, proto, dest);
            h[0] == 0x45 && 256 * (h[2] as int) + h[3] == len && h[8] == 64
  {
    var b := Put16(len);
    assert Load16(b, 0) == len;
    hide Load16;
    var h := IpHeader(len, proto, dest);
    assert h[2] == b[0] && h[3] == b[1];
  }

  lemma ArpFrameFields(opcode: Byte, local: Mac, dest: Mac, targetIp: Ip)
    ensures EthFields(ArpFrame(opcode, local, dest, targetIp), dest, local, 8, 6)
    ensures ArpFields(ArpFrame(opcode, local, dest, targetIp), opcode, local, dest, targetIp)
  {
    hide EthHeader;
    var e, a := EthHeader(dest, local, 0x0806), ArpPacket(opcode, local, dest, targetIp);
    var f := ArpFrame(opcode, local, dest, targetIp);
    assert f == e + a && f[..14] == e && f[14..] == a;
    assert f[0..6] == e[..6] && f[6..12] == e[6..12] && f[12] == e[12] && f[13] == e[13];
    assert Load16(e, 12) == 0x0806;
    assert f[14..22] == a[0..8] && f[22..28] == a[8..14] && f[28..32] == a[14..18] && f[32..38] == a[18..24] && f[38..42] == a[24..28];
  }

  // ---------- sending ----------

  /** A packet for a known host, or for all, goes out alone to that host's hardware address, or to all; for an unknown host a
      request for its address goes out instead. */
  lemma SendingDoes(table: map<Ip, Mac>, local: Mac, room: nat, dest: Ip, proto: Byte, payload: Bytes)
    requires |payload| <= 4000
    ensures var sent := SentIp(table, local, room, dest, proto, payload);
            if dest == BROADCAST || dest in table then
              if |payload| > 2014 then sent == []
              else
                |sent| == 1 && EthFields(sent[0], if dest == BROADCAST then ALL else table[dest], local, 8, 0)
                && IpFields(sent[0], dest, proto) && |sent[0]| == 34 + |payload| && sent[0][34..] == payload
            else if room == 0 then sent == []
            else |sent| == 1 && EthFields(sent[0], ALL, local, 8, 6) && ArpFields(sent[0], 1, local, ALL, dest)
  {
    hide EthFields, IpFields, ArpFields, IpFrame, ArpFrame;
    if dest == BROADCAST {
      IpFrameFields(local, ALL, dest, proto, payload);
    } else if dest in table {
      IpFrameFields(local, table[dest], dest, proto, payload);
    } else {
      ArpFrameFields(1, local, ALL, dest);
    }
  }

  // ---------- answering ----------

  /** An IP packet for this host, or for a subnet, with transport protocol `proto`, as the padded frame `p` holds it. */
  ghost predicate ForUs(p: Bytes, proto: Byte) {
    && |p| == 3840 && p[12] == 8 && p[13] == 0 && p[14] / 16 == 4 && p[14] % 16 >= 5
    && (p[30..34] == [192, 168, 1, 100] || p[33] == 255) && p[23] == proto
  }

  /** Where the transport header of `p` starts. */
  ghost function Body(p: Bytes): (k: nat)
    requires |p| == 3840
    ensures k <= 74
  {
    14 + 4 * (p[14] as int % 16)
  }

  /** An echo request of `len` bytes. */
  ghost predicate Pinged(p: Bytes, len: nat) {
    && ForUs(p, 1) && p[Body(p)] == 8 && p[Body(p) + 1] == 0 && 8 <= len <= 3720
    && len == (256 * (p[16] as int) + p[17] as int - 4 * (p[14] as int % 16)) % 0x1_0000
  }

  lemma PingedIsEcho(p: Bytes, len: nat)
    requires Pinged(p, len)
    ensures IsEcho(p) && EchoLength(p) == len && Transport(p) == Body(p)
  {
  }

  /** The answer to an echo request: from us to its source at the hardware address learnt for it, type and code 0, and the
      identifier, sequence number and data of the request. */
  ghost predicate Ponged(f: Bytes, p: Bytes, len: nat, mac: Mac, local: Mac)
    requires Pinged(p, len)
  {
    var k, source := Body(p), p[26..30];
    && EthFields(f, mac, local, 8, 0) && IpFields(f, source, 1) && |f| == 34 + len
    && f[34] == 0 && f[35] == 0 && f[38..] == p[k + 4..k + len] && Checksum(f[34..]) == 0
  }

  /** One echo request, with a buffer for the frame and one for the answer: the sockets and the cache stay as they are, and
      one frame goes out, the answer, or the question who has the source's address if that is unknown and a third buffer is
      free. A source of 255.255.255.255 is answered to all. */
  lemma PingIsAnswered(v: View, local: Mac, room: nat, frame: Bytes, len: nat)
    requires |frame| <= 2048 && Pinged(Padded(frame), len) && room >= 2
    ensures Consistent(frame)
    ensures var p := Padded(frame);
            var r := Handled(v, local, room, frame);
            var source: Ip := p[26..30];
            && r.table == v.table && r.socks == v.socks
            && if source == BROADCAST || source in v.table then
                 if len > 2014 then r.wire == v.wire
                 else |r.wire| == |v.wire| + 1 && r.wire[..|v.wire|] == v.wire
                      && Ponged(r.wire[|v.wire|], p, len, if source == BROADCAST then ALL else v.table[source], local)
               else if room == 2 then r.wire == v.wire
               else |r.wire| == |v.wire| + 1 && r.wire[..|v.wire|] == v.wire
                    && EthFields(r.wire[|v.wire|], ALL, local, 8, 6) && ArpFields(r.wire[|v.wire|], 1, local, ALL, source)
  {
    var p := Padded(frame);
    var source: Ip := p[26..30];
    var request := p[Body(p)..Body(p) + len];
    var answer := SentIp(v.table, local, room - 2, source, 1, EchoReply(request));
    PingHandled(v, local, room, frame, len);
    SendingDoes(v.table, local, room - 2, source, 1, EchoReply(request));
    if answer != [] && (source == BROADCAST || source in v.table) && len <= 2014 {
      PongFrame(answer[0], p, len, if source == BROADCAST then ALL else v.table[source], local);
    }
    hide *;
    OneMoreFrame(v.wire, answer);
  }

  lemma OneMoreFrame(wire: seq<Bytes>, answer: seq<Bytes>)
    ensures answer == [] ==> wire + answer == wire
    ensures |answer| == 1 ==> (wire + answer)[..|wire|] == wire && (wire + answer)[|wire|] == answer[0]
  {
  }

  lemma PongFrame(f: Bytes, p: Bytes, len: nat, mac: Mac, local: Mac)
    requires Pinged(p, len) && EthFields(f, mac, local, 8, 0) && IpFields(f, p[26..30], 1)
    requires f[34..] == EchoReply(p[Body(p)..Body(p) + len])
    ensures Ponged(f, p, len, mac, local)
  {
    ReplyBytes(p, len);
    hide EchoReply, Checksum;
    var r := f[34..];
    assert f[34] == r[0] && f[35] == r[1] && f[38..] == r[4..];
  }

  lemma PingHandled(v: View, local: Mac, room: nat, frame: Bytes, len: nat)
    requires |frame| <= 2048 && Pinged(Padded(frame), len) && room >= 2
    ensures var p := Padded(frame);
            Consistent(frame) && Handled(v, local, room, frame) ==
            v.(wire := v.wire + SentIp(v.table, local, room - 2, p[26..30], 1, EchoReply(p[Body(p)..Body(p) + len])))
  {
    hide SentIp, EchoReply;
    PingedIsEcho(Padded(frame), len);
  }

  lemma ReplyBytes(p: Bytes, len: nat)
    requires |p| == 3840 && Pinged(p, len)
    ensures var r := EchoReply(p[Body(p)..Body(p) + len]);
            |r| == len && r[0] == 0 && r[1] == 0 && r[4..] == p[Body(p) + 4..Body(p) + len] && Checksum(r) == 0
  {
    var request := p[Body(p)..Body(p) + len];
    EchoReplyVerifies(request);
    Slice(p, Body(p), len, 4, len);
    hide Checksum;
  }

  /** An ARP packet for Ethernet and IP with an opcode, in the padded frame `p`. */
  ghost predicate Asked(p: Bytes, opcode: nat) {
    && |p| == 3840 && p[12] == 8 && p[13] == 6 && p[14] == 0 && p[15] == 1 && p[16] == 8 && p[17] == 0
    && opcode == 256 * (p[20] as int) + p[21]
  }

  /** An ARP packet teaches the sender's address while the cache has room or knows the sender; a request for our address is
      answered to the sender with ours, and nothing else is. */
  lemma ArpIsAnswered(v: View, local: Mac, room: nat, frame: Bytes, opcode: nat)
    requires |frame| <= 2048 && Asked(Padded(frame), opcode) && room >= 1
    ensures Consistent(frame)
    ensures var p := Padded(frame);
            var r := Handled(v, local, room, frame);
            var mac: Mac, ip: Ip := p[22..28], p[28..32];
            && r.socks == v.socks && r.table == (if ip in v.table || |v.table| < 256 then v.table[ip := mac] else v.table)
            && if opcode == 1 && p[38..42] == LOCAL_IP && room >= 2 then
                 |r.wire| == |v.wire| + 1 && r.wire[..|v.wire|] == v.wire
                 && EthFields(r.wire[|v.wire|], mac, local, 8, 6) && ArpFields(r.wire[|v.wire|], 2, local, mac, ip)
               else r.wire == v.wire
  {
    hide ArpFrame, EthFields, ArpFields;
    var p := Padded(frame);
    var h := p[14..42];
    Slice(p, 14, 28, 8, 14);
    Slice(p, 14, 28, 14, 18);
    Slice(p, 14, 28, 24, 28);
    assert Load16(h, 0) == 1 && Load16(h, 2) == 0x0800 && Load16(h, 6) == opcode && Load16(p, 12) == 0x0806;
    var mac: Mac, ip: Ip := p[22..28], p[28..32];
    assert h[8..14] == mac && h[14..18] == ip;
    ArpFrameFields(2, local, mac, ip);
    OneMoreFrame(v.wire, [ArpFrame(2, local, mac, ip)]);
    OneMoreFrame(v.wire, []);
  }

  /** Ports and numbers are read high byte first. */
  lemma SegmentNumbers(p: Bytes, k: nat, source: Ip)
    requires k + 20 <= |p|
    ensures var s := SegmentAt(p, k, source);
            && s.ip == source && s.srcPort == 256 * (p[k] as int) + p[k + 1] && s.dstPort == 256 * (p[k + 2] as int) + p[k + 3]
            && s.seqNum == 0x100_0000 * (p[k + 4] as int) + 0x1_0000 * (p[k + 5] as int) + 256 * (p[k + 6] as int) + p[k + 7]
            && s.ackNum == 0x100_0000 * (p[k + 8] as int) + 0x1_0000 * (p[k + 9] as int) + 256 * (p[k + 10] as int) + p[k + 11]
  {
    var h := p[k..k + 20];
    assert h[0] == p[k] && h[1] == p[k + 1] && h[2] == p[k + 2] && h[3] == p[k + 3];
    assert h[4] == p[k + 4] && h[5] == p[k + 5] && h[6] == p[k + 6] && h[7] == p[k + 7];
    assert h[8] == p[k + 8] && h[9] == p[k + 9] && h[10] == p[k + 10] && h[11] == p[k + 11];
  }

  /** Of the flags, SYN is the one of value 2 and ACK the one of value 16. */
  lemma SegmentFlags(p: Bytes, k: nat, source: Ip, high: nat, ack: bool, mid: nat, syn: bool, fin: nat)
    requires k + 20 <= |p| && high < 8 && mid < 4 && fin < 2
    requires p[k + 13] == 32 * high + (if ack then 16 else 0) + 4 * mid + (if syn then 2 else 0) + fin
    ensures SegmentAt(p, k, source).syn == syn && SegmentAt(p, k, source).ack == ack
  {
    FlagBits(p[k + 13], high, if ack then 1 else 0, mid, if syn then 1 else 0, fin);
    var h := p[k..k + 20];
    assert h[13] == p[k + 13];
    hide Load16, Load32;
  }

  lemma FlagBits(f: nat, high: nat, a: nat, mid: nat, s: nat, fin: nat)
    requires f == 32 * high + 16 * a + 4 * mid + 2 * s + fin && a < 2 && mid < 4 && s < 2 && fin < 2
    ensures f / 2 % 2 == s && f / 16 % 2 == a
  {
    assert f / 2 == 16 * high + 8 * a + 2 * mid + s;
    assert f / 16 == 2 * high + a;
  }

  /** The answer to the SYN `s`: from us to its source at that hardware address, and read as a segment, the ports the other way
      round, our number, its number plus one, and both flags, with a window of 8192; its checksum verifies with the
      pseudo-header. */
  ghost predicate SynAcked(f: Bytes, s: Segment, mac: Mac, local: Mac) {
    && |f| == 54 && EthFields(f, mac, local, 8, 0) && IpFields(f, s.ip, 6)
    && SegmentAt(f, 34, LOCAL_IP) == Segment(LOCAL_IP, s.dstPort, s.srcPort, 0x89ABCDEF, (s.seqNum + 1) % 0x1_0000_0000, true, true)
    && f[46] == 0x50 && f[48] == 32 && f[49] == 0 && Checksum(PseudoHeader(s.ip) + f[34..]) == 0
  }

  /** A SYN for a listening port of this host, with a buffer for the frame: the listener takes it up. With a second buffer
      it is answered, if the hardware address of its source is known; otherwise that is asked for, if there is a third. */
  lemma SynIsAnswered(v: View, local: Mac, room: nat, frame: Bytes, k: nat)
    requires |frame| <= 2048 && ForUs(Padded(frame), 6) && room >= 1
    requires var p := Padded(frame);
             var s := SegmentAt(p, Body(p), p[26..30]);
             Opens(s) && NoPeerHas(v.socks, s) && FirstListener(v.socks, s, k)
    ensures Consistent(frame)
    ensures var p := Padded(frame);
            var s := SegmentAt(p, Body(p), p[26..30]);
            var r := Handled(v, local, room, frame);
            && r.table == v.table && TookUp(v.socks, r.socks, k, s, room >= 2)
            && if room >= 2 && (s.ip == BROADCAST || s.ip in v.table) then
                 |r.wire| == |v.wire| + 1 && r.wire[..|v.wire|] == v.wire
                 && SynAcked(r.wire[|v.wire|], s, if s.ip == BROADCAST then ALL else v.table[s.ip], local)
               else if room >= 3 then
                 |r.wire| == |v.wire| + 1 && r.wire[..|v.wire|] == v.wire
                 && EthFields(r.wire[|v.wire|], ALL, local, 8, 6) && ArpFields(r.wire[|v.wire|], 1, local, ALL, s.ip)
               else r.wire == v.wire
  {
    var p := Padded(frame);
    var s := SegmentAt(p, Body(p), p[26..30]);
    hide Padded, SegmentAt, Body, ForUs, Deliver, Next, SentIp, SynAckSegment, EthFields, IpFields, ArpFields, React;
    hide TookUp, FirstListener, FirstPeer, NoPeerHas, ListenerOf, Handled, Consistent, Fresh, Opens, SynAcked, Checksum;
    SynHandled(v, local, room, frame, s, k);
    var t := React(v.socks[k], s, false);
    SegmentDoes(v.socks, s, room >= 2);
    if room >= 2 {
      SendingDoes(v.table, local, room - 2, s.ip, 6, SynAckSegment(t));
      if s.ip == BROADCAST || s.ip in v.table { SynAckOnWire(v.table, local, room - 2, t, s); }
      OneMoreFrame(v.wire, SentIp(v.table, local, room - 2, s.ip, 6, SynAckSegment(t)));
    }
  }

  lemma SynAckOnWire(table: map<Ip, Mac>, local: Mac, room: nat, t: Tcb, s: Segment)
    requires (s.ip == BROADCAST || s.ip in table) && Fresh(t, s) && s.dstPort <= ONES && s.srcPort <= ONES && s.seqNum < WORD
    ensures var sent := SentIp(table, local, room, s.ip, 6, SynAckSegment(t));
            |sent| == 1 && SynAcked(sent[0], s, if s.ip == BROADCAST then ALL else table[s.ip], local)
  {
    assert t.remoteIp == s.ip && |SynAckSegment(t)| == 20;
    hide SentIp, SynAckSegment, EthFields, IpFields, ArpFields, Fresh, SynAcked;
    SendingDoes(table, local, room, s.ip, 6, SynAckSegment(t));
    SynAckedBy(SentIp(table, local, room, s.ip, 6, SynAckSegment(t))[0], t, s, if s.ip == BROADCAST then ALL else table[s.ip], local);
  }

  lemma SynAckedBy(f: Bytes, t: Tcb, s: Segment, mac: Mac, local: Mac)
    requires Fresh(t, s) && s.dstPort <= ONES && s.srcPort <= ONES && s.seqNum < WORD
    requires EthFields(f, mac, local, 8, 0) && IpFields(f, s.ip, 6) && |f| == 54 && f[34..] == SynAckSegment(t)
    ensures SynAcked(f, s, mac, local)
  {
    assert t.remoteIp == s.ip;
    SynAckVerifies(t);
    hide SynAckSegment, EthFields, IpFields, Checksum, PseudoHeader, SegmentAt, Fresh;
    SynAckBytes(f, t, s);
  }

  /** `t` has just taken up `s` and sent nothing yet. */
  ghost predicate Fresh(t: Tcb, s: Segment) {
    && t.localPort == s.dstPort && t.remotePort == s.srcPort && t.remoteIp == s.ip
    && t.sndNxt == ISS && t.rcvNxt == (s.seqNum + 1) % WORD
  }

  lemma ToSegment(v: View, local: Mac, room: nat, frame: Bytes)
    requires |frame| <= 2048 && ForUs(Padded(frame), 6) && room >= 1
    ensures var p := Padded(frame);
            Consistent(frame) && Handled(v, local, room, frame) == SegmentHandled(v, local, room - 1, SegmentAt(p, Body(p), p[26..30]))
  {
    hide SegmentHandled, SegmentAt, EchoLength, EchoFits, EchoAnswer, ArpHandled;
    var p := Padded(frame);
    hide Padded;
    assert Load16(p, 12) == 0x0800 && IpAccepted(p) && Transport(p) == Body(p) && Source(p) == p[26..30] && !IsEcho(p);
  }

  lemma SynHandled(v: View, local: Mac, room: nat, frame: Bytes, s: Segment, k: nat)
    requires |frame| <= 2048 && ForUs(Padded(frame), 6) && room >= 1
    requires s == SegmentAt(Padded(frame), Body(Padded(frame)), Padded(frame)[26..30])
    requires Opens(s) && NoPeerHas(v.socks, s) && FirstListener(v.socks, s, k)
    ensures k < |v.socks|
    ensures var t := React(v.socks[k], s, false);
            && Consistent(frame) && Fresh(t, s) && t.remoteIp == s.ip && s.dstPort <= ONES && s.srcPort <= ONES && s.seqNum < WORD
            && Handled(v, local, room, frame) ==
               v.(socks := Next(v.socks, Arrive(s, room >= 2)),
                  wire := v.wire + if room >= 2 then SentIp(v.table, local, room - 2, s.ip, 6, SynAckSegment(t)) else [])
  {
    var p := Padded(frame);
    ToSegment(v, local, room, frame);
    assert Target(v.socks, s) == k by { TargetIs(v.socks, s, k); }
    assert s.dstPort <= ONES && s.srcPort <= ONES && s.seqNum < WORD;
    hide SentIp, SynAckSegment, SegmentAt, Padded, Deliver, FindPeer, FindListener, Handled, Consistent, Body, ForUs;
  }

  lemma TargetIs(socks: seq<Tcb>, s: Segment, k: nat)
    requires NoPeerHas(socks, s) && FirstListener(socks, s, k)
    ensures Target(socks, s) == k
  {
    var f := FindPeer(socks, s, 0);
    assert f < |socks| ==> PeerOf(socks[f], s);
    var g := FindListener(socks, s, 0);
    assert g < |socks| ==> ListenerOf(socks[g], s);
    assert Listens(socks[k], s);
  }

  lemma SynAckWindow(t: Tcb)
    ensures var h := SynAckSegment(t); h[12] == 0x50 && h[14] == 32 && h[15] == 0
  {
    hide Checksum, PseudoHeader;
    var h := SynAck(t);
    assert SynAckSegment(t)[12] == h[12] && SynAckSegment(t)[14] == h[14] && SynAckSegment(t)[15] == h[15];
  }

  lemma SynAckBytes(f: Bytes, t: Tcb, s: Segment)
    requires |f| == 54 && f[34..] == SynAckSegment(t) && Fresh(t, s) && s.dstPort <= ONES && s.srcPort <= ONES && s.seqNum < WORD
    ensures SegmentAt(f, 34, LOCAL_IP) == Segment(LOCAL_IP, s.dstPort, s.srcPort, 0x89ABCDEF, (s.seqNum + 1) % WORD, true, true)
    ensures f[46] == 0x50 && f[48] == 32 && f[49] == 0
  {
    SynAckReadsBack(t, LOCAL_IP);
    var h := SynAckSegment(t);
    assert f[34..54] == h[0..20];
    assert f[46] == h[12] && f[48] == h[14] && f[49] == h[15];
    SynAckWindow(t);
    hide SynAckSegment, Load16, Load32;
  }

  /** Any segment for this host is what the sockets receive, and sends nothing unless a listener takes it up. */
  lemma SegmentIsDelivered(v: View, local: Mac, room: nat, frame: Bytes)
    requires |frame| <= 2048 && ForUs(Padded(frame), 6) && room >= 1
    ensures Consistent(frame)
    ensures var p := Padded(frame);
            var s := SegmentAt(p, Body(p), p[26..30]);
            var r := Handled(v, local, room, frame);
            && r.table == v.table && r.socks == Next(v.socks, Arrive(s, room >= 2))
            && (r.wire == v.wire || exists k: nat :: TookUp(v.socks, r.socks, k, s, true))
  {
    ToSegment(v, local, room, frame);
    var p := Padded(frame);
    var s := SegmentAt(p, Body(p), p[26..30]);
    hide *;
    SegmentEffect(v, local, room - 1, s);
  }

  lemma SegmentEffect(v: View, local: Mac, room: nat, s: Segment)
    ensures var r := SegmentHandled(v, local, room, s);
            && r.table == v.table && r.socks == Next(v.socks, Arrive(s, room >= 1))
            && (r.wire == v.wire || exists k: nat :: TookUp(v.socks, r.socks, k, s, true))
  {
    hide SentIp, SynAckSegment;
    var k := Target(v.socks, s);
    if Answers(v.socks, s, room) {
      assert TookUp(v.socks, Deliver(v.socks, s, true), k, s, true);
    } else {
      OneMoreFrame(v.wire, []);
    }
  }

  // ---------- what is not answered ----------

  /** Without a buffer, and for every frame that is neither ARP for Ethernet and IP, nor an echo request, nor a segment for
      this host, nothing changes and nothing is sent. */
  lemma TheRestIsIgnored(v: View, local: Mac, room: nat, frame: Bytes)
    requires Consistent(frame)
    requires var p := Padded(frame);
             || room == 0
             || ((forall opcode: nat :: !Asked(p, opcode)) && (forall len: nat :: !Pinged(p, len)) && !ForUs(p, 6))
    ensures Handled(v, local, room, frame) == v
  {
    var p := Padded(frame);
    if room > 0 {
      hide ArpFrame, SentIp, EchoReply, SegmentAt, Learn;
      assert !Asked(p, 256 * (p[20] as int) + p[21]);
      assert IsEcho(p) && EchoFits(EchoLength(p)) ==> Pinged(p, EchoLength(p));
      if Load16(p, 12) == 0x0806 {
        var h := p[14..42];
        assert Load16(h, 0) == Load16(p, 14) && Load16(h, 2) == Load16(p, 16);
      }
    }
  }
}
