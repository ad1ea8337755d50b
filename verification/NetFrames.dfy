/** The frames of i386/whitex/internet.h, and what each one does. */
module NetFrames {
  // What the stack reads out of a received frame, what it sends, and what one received frame does to ARP cache,
  // sockets and wire. `room` is the number of free buffers.

  import opened NetChecksum
  import opened NetArp
  import opened NetTcp

  const BUF_SIZE := 4096
  const RX_SIZE := 2048
  const HEAD := 256
  const AREA := 3840
  const ETH := 14
  const LOCAL_IP: Ip := [192, 168, 1, 100]
  const BROADCAST: Ip := [255, 255, 255, 255]
  const ALL: Mac := [0xFF, 0xFF, 0xFF, 0xFF, 0xFF, 0xFF]

  function Zeros(n: nat): (b: Bytes)
    ensures |b| == n && forall i :: 0 <= i < n ==> b[i] == 0
  {
    seq(n, _ => 0)
  }

  /** A received frame as the stack sees it: followed by the zeros of its cleared buffer. */
  function Padded(frame: Bytes): (p: Bytes)
    requires |frame| <= AREA
    ensures |p| == AREA && p[..|frame|] == frame
  {
    frame + Zeros(AREA - |frame|)
  }

  function Load16(b: Bytes, k: nat): (w: nat)
    requires k + 1 < |b|
    ensures w <= ONES
  {
    Load(b[k + 1], b[k])
  }

  function Load32(b: Bytes, k: nat): nat
    requires k + 3 < |b|
  {
    Load16(b, k) * 0x1_0000 + Load16(b, k + 2)
  }

  /** Big-endian bytes of a 16-bit value, as `WX_HTONS` stores them. */
  function Put16(w: nat): (b: Bytes)
    requires w <= ONES
    ensures |b| == 2 && Load16(b, 0) == w
  {
    [w / 256, w % 256]
  }

  function Put32(w: nat): (b: Bytes)
    requires w < WORD
    ensures |b| == 4
  {
    Put16(w / 0x1_0000) + Put16(w % 0x1_0000)
  }

  // ---------- what is sent ----------

  function EthHeader(dest: Mac, src: Mac, ethertype: nat): (h: Bytes)
    requires ethertype <= ONES
    ensures |h| == ETH && h[..6] == dest && h[6..12] == src && Load16(h, 12) == ethertype
  {
    dest + src + Put16(ethertype)
  }

  function ArpPacket(opcode: nat, senderMac: Mac, targetMac: Mac, targetIp: Ip): (p: Bytes)
    requires opcode <= ONES
    ensures |p| == 28
  {
    Put16(1) + Put16(0x0800) + [6, 4] + Put16(opcode) + senderMac + LOCAL_IP + targetMac + targetIp
  }

  function ArpFrame(opcode: nat, local: Mac, dest: Mac, targetIp: Ip): (f: Bytes)
    requires opcode <= ONES
    ensures |f| == 42
  {
    EthHeader(dest, local, 0x0806) + ArpPacket(opcode, local, dest, targetIp)
  }

  /** A header with its checksum stored in the zeroed field at `k`. */
  ghost function Sealed(b: Bytes, k: nat): (r: Bytes)
    requires k + 1 < |b|
    ensures |r| == |b|
  {
    Store16(b, k, Checksum(b))
  }

  /** The IP header with its checksum field zero. */
  function IpHeader(totalLen: nat, proto: Byte, dest: Ip): (h: Bytes)
    ensures |h| == 20 && h[10] == 0 && h[11] == 0 && h[9] == proto && h[12..16] == LOCAL_IP && h[16..20] == dest
  {
    [0x45, 0] + Put16(totalLen % 0x1_0000) + Put16(0x1337) + [0, 0, 64, proto, 0, 0] + LOCAL_IP + dest
  }

  ghost function IpFrame(local: Mac, mac: Mac, dest: Ip, proto: Byte, payload: Bytes): (f: Bytes)
    ensures |f| == 34 + |payload|
  {
    EthHeader(mac, local, 0x0800) + (Sealed(IpHeader(20 + |payload|, proto, dest), 10) + payload)
  }

  /** Frames too long for the device are dropped. */
  ghost function OnWire(f: Bytes): seq<Bytes> { if |f| > RX_SIZE then [] else [f] }

  /** What `wx_ip_send` puts on the wire: the packet, or a request for an unknown hardware address. */
  ghost function SentIp(table: map<Ip, Mac>, local: Mac, room: nat, dest: Ip, proto: Byte, payload: Bytes): seq<Bytes> {
    if dest == BROADCAST then OnWire(IpFrame(local, ALL, dest, proto, payload))
    else if dest in table then OnWire(IpFrame(local, table[dest], dest, proto, payload))
    else if room > 0 then [ArpFrame(1, local, ALL, dest)]
    else []
  }

  /** The SYN-ACK header with its checksum field zero. */
  function SynAck(t: Tcb): (h: Bytes)
    ensures |h| == 20 && h[16] == 0 && h[17] == 0
  {
    Put16(t.localPort % 0x1_0000) + Put16(t.remotePort % 0x1_0000) + Put32(t.sndNxt % WORD) + Put32(t.rcvNxt % WORD)
    + [0x50, 0x12] + Put16(8192) + [0, 0, 0, 0]
  }

  function PseudoHeader(dest: Ip): (h: Bytes)
    ensures |h| == 12
  {
    LOCAL_IP + dest + [0, 6] + Put16(20)
  }

  ghost function SynAckSegment(t: Tcb): (h: Bytes)
    ensures |h| == 20
  {
    Store16(SynAck(t), 16, Checksum(PseudoHeader(t.remoteIp) + SynAck(t)))
  }

  /** The answer to an echo request is the request with type 0 and a new checksum. */
  ghost function EchoReply(request: Bytes): (r: Bytes)
    requires |request| >= 8
    ensures |r| == |request|
  {
    Sealed([0, 0, 0, 0] + request[4..], 2)
  }

  // ---------- what is read ----------

  function Transport(p: Bytes): (k: nat)
    requires |p| == AREA
    ensures 14 <= k <= 74 && (p[ETH] % 16 >= 5 ==> k >= 34)
  {
    ETH + p[ETH] % 16 * 4
  }

  /** The IP packet is one the stack handles. */
  predicate IpAccepted(p: Bytes)
    requires |p| == AREA
  {
    p[ETH] / 16 == 4 && p[ETH] % 16 >= 5 && (p[30..34] == LOCAL_IP || p[33] == 255)
  }

  function Source(p: Bytes): Ip
    requires |p| == AREA
  {
    p[26..30]
  }

  predicate IsEcho(p: Bytes)
    requires |p| == AREA
  {
    Load16(p, 12) == 0x0800 && IpAccepted(p) && p[23] == 1 && p[Transport(p)] == 8 && p[Transport(p) + 1] == 0
  }

  /** `icmp_len`, in 16 bits. */
  function EchoLength(p: Bytes): (len: nat)
    requires |p| == AREA
    ensures len <= ONES
  {
    (Load16(p, 16) - p[ETH] % 16 * 4) % 0x1_0000
  }

  /** The reply fits its buffer: its header is there and its payload ends within 4096 bytes. */
  predicate EchoFits(len: nat) { 8 <= len <= 3720 }

  /** What the device hands over: at most 2048 bytes, and an echo request announces a length that fits. */
  predicate Consistent(frame: Bytes) {
    |frame| <= RX_SIZE && (IsEcho(Padded(frame)) ==> EchoFits(EchoLength(Padded(frame))))
  }

  /** The condition is exact: copying the payload of an echo request, `len - 8` as a 32-bit size, into a
      reply buffer at offset 384 and out of a buffer at offset `from` stays inside both buffers if and
      only if the length fits. */
  lemma EchoFitsExactly(len: nat, from: nat)
    requires len <= ONES && HEAD + ETH + 20 <= from <= HEAD + ETH + 60
    ensures EchoFits(len) <==>
              var size := (len - 8) % WORD; 384 + size <= BUF_SIZE && from + 8 + size <= BUF_SIZE
  {
  }

  /** An echo request of 36 bytes that announces an IP length of 20, and so an ICMP length of 0. */
  function ShortEcho(): (f: Bytes)
    ensures |f| == 36
  {
    Zeros(12) + [8, 0] + [0x45, 0, 0, 20, 0, 0, 0, 0, 64, 1, 0, 0, 10, 0, 0, 1] + LOCAL_IP + [8, 0]
  }

  /** It is taken for an echo request, and its payload does not fit: copying it takes 2^32 - 8 bytes. */
  lemma ShortEchoExample()
    ensures |ShortEcho()| <= RX_SIZE && IsEcho(Padded(ShortEcho())) && EchoLength(Padded(ShortEcho())) == 0
    ensures !Consistent(ShortEcho()) && (EchoLength(Padded(ShortEcho())) - 8) % WORD == WORD - 8
  {
    var f := ShortEcho();
    var p := Padded(f);
    assert forall k :: 0 <= k < 36 ==> p[k] == f[k];
    assert p[30..34] == LOCAL_IP;
  }

  /** Frames whose IP length is consistent with what was received, and leaves room for the ICMP header,
      are consistent. */
  lemma HonestFramesAreConsistent(frame: Bytes)
    requires ETH + 20 <= |frame| <= RX_SIZE
    requires frame[ETH] % 16 * 4 + 8 <= Load16(frame, 16) <= |frame| - ETH
    ensures Consistent(frame)
  {
    var p := Padded(frame);
    assert p[ETH] == p[..|frame|][ETH] && p[16] == p[..|frame|][16] && p[17] == p[..|frame|][17];
  }

  function SegmentAt(p: Bytes, k: nat, source: Ip): Segment
    requires k + 20 <= |p|
  {
    var h := p[k..k + 20];
    Segment(source, Load16(h, 0), Load16(h, 2), Load32(h, 4), Load32(h, 8), h[13] / 2 % 2 == 1, h[13] / 16 % 2 == 1)
  }

  // ---------- what a frame does ----------

  datatype View = View(table: map<Ip, Mac>, socks: seq<Tcb>, wire: seq<Bytes>)

  ghost function ArpHandled(v: View, local: Mac, room: nat, h: Bytes): View
    requires |h| == 28
  {
    if Load16(h, 0) != 1 || Load16(h, 2) != 0x0800 then v
    else
      v.(table := Learn<Ip, Mac>(v.table, h[14..18], h[8..14]),
         wire := v.wire + if Load16(h, 6) == 1 && h[24..28] == LOCAL_IP && room > 0 then [ArpFrame(2, local, h[8..14], h[14..18])] else [])
  }

  ghost function EchoAnswer(table: map<Ip, Mac>, local: Mac, room: nat, source: Ip, request: Bytes): seq<Bytes>
    requires |request| >= 8
  {
    if room == 0 then [] else SentIp(table, local, room - 1, source, 1, EchoReply(request))
  }

  /** The SYN is answered. */
  ghost predicate Answers(socks: seq<Tcb>, s: Segment, room: nat) {
    var k := Target(socks, s);
    k < |socks| && socks[k].state == 1 && s.syn && !s.ack && room > 0
  }

  ghost function SegmentHandled(v: View, local: Mac, room: nat, s: Segment): View {
    v.(socks := Deliver(v.socks, s, room > 0),
       wire := v.wire + if Answers(v.socks, s, room)
                        then SentIp(v.table, local, room - 1, s.ip, 6, SynAckSegment(React(v.socks[Target(v.socks, s)], s, false)))
                        else [])
  }

  ghost function IpHandled(v: View, local: Mac, room: nat, p: Bytes): View
    requires |p| == AREA && Load16(p, 12) == 0x0800 && (IsEcho(p) ==> EchoFits(EchoLength(p)))
  {
    if !IpAccepted(p) then v
    else if p[23] == 1 then
      if IsEcho(p)
      then v.(wire := v.wire + EchoAnswer(v.table, local, room, Source(p), p[Transport(p)..Transport(p) + EchoLength(p)]))
      else v
    else if p[23] == 6 then SegmentHandled(v, local, room, SegmentAt(p, Transport(p), Source(p)))
    else v
  }

  /** Everything one received frame does; one buffer holds the frame itself. */
  ghost function Handled(v: View, local: Mac, room: nat, frame: Bytes): View
    requires Consistent(frame)
  {
    var p := Padded(frame);
    if room == 0 then v
    else if Load16(p, 12) == 0x0806 then ArpHandled(v, local, room - 1, p[ETH..ETH + 28])
    else if Load16(p, 12) == 0x0800 then IpHandled(v, local, room - 1, p)
    else v
  }

  ghost predicate AllConsistent(frames: seq<Bytes>) { forall i :: 0 <= i < |frames| ==> Consistent(frames[i]) }

  ghost function HandledAll(v: View, local: Mac, room: nat, frames: seq<Bytes>): View
    requires AllConsistent(frames)
  {
    if frames == [] then v
    else Handled(HandledAll(v, local, room, frames[..|frames| - 1]), local, room, frames[|frames| - 1])
  }

  // ---------- what is on the wire ----------

  /** A frame this host may send: it fits the device, carries this host's addresses, and every checksum in
      it verifies. */
  ghost predicate Sound(local: Mac, f: Bytes) {
    && ETH + 20 <= |f| <= RX_SIZE && f[6..12] == local
    && (Load16(f, 12) == 0x0806 || Load16(f, 12) == 0x0800)
    && (Load16(f, 12) == 0x0800 ==>
          && f[26..30] == LOCAL_IP && Checksum(f[14..34]) == 0
          && (f[23] == 1 ==> Checksum(f[34..]) == 0)
          && (f[23] == 6 ==> |f| == 54 && Checksum(PseudoHeader(f[30..34]) + f[34..]) == 0))
  }

  ghost predicate AllSound(local: Mac, fs: seq<Bytes>) { forall i :: 0 <= i < |fs| ==> Sound(local, fs[i]) }

  lemma SoundAppend(local: Mac, a: seq<Bytes>, b: seq<Bytes>)
    requires AllSound(local, a) && AllSound(local, b)
    ensures AllSound(local, a + b)
  {
  }

  lemma SealedVerifies(b: Bytes, k: nat)
    requires k % 2 == 0 && k + 1 < |b| && b[k] == 0 && b[k + 1] == 0 && |b| <= 131074
    ensures Checksum(Sealed(b, k)) == 0
  {
    StoredChecksumVerifies(b, k);
  }

  lemma EchoReplyVerifies(request: Bytes)
    requires 8 <= |request| <= ONES
    ensures Checksum(EchoReply(request)) == 0
    ensures EchoReply(request)[4..] == request[4..]
  {
    var b: Bytes := [0, 0, 0, 0] + request[4..];
    SealedVerifies(b, 2);
    assert EchoReply(request)[4..] == b[4..];
  }

  lemma SynAckVerifies(t: Tcb)
    ensures Checksum(PseudoHeader(t.remoteIp) + SynAckSegment(t)) == 0
  {
    hide Checksum, PseudoHeader, SynAck;
    var pseudo, bare := PseudoHeader(t.remoteIp), SynAck(t);
    var whole := pseudo + bare;
    StoredChecksumVerifies(whole, 28);
    assert Store16(whole, 28, Checksum(whole)) == pseudo + SynAckSegment(t);
  }

  lemma ArpFrameSound(opcode: nat, local: Mac, dest: Mac, targetIp: Ip)
    requires opcode <= ONES
    ensures Sound(local, ArpFrame(opcode, local, dest, targetIp))
  {
    hide ArpPacket, EthHeader, Checksum, PseudoHeader;
    var e, a := EthHeader(dest, local, 0x0806), ArpPacket(opcode, local, dest, targetIp);
    var f := e + a;
    assert f[6..12] == e[6..12] && f[12] == e[12] && f[13] == e[13];
  }

  lemma IpFrameSound(local: Mac, mac: Mac, dest: Ip, proto: Byte, payload: Bytes)
    requires |payload| <= RX_SIZE - 34
    requires proto == 1 ==> Checksum(payload) == 0
    requires proto == 6 ==> |payload| == 20 && Checksum(PseudoHeader(dest) + payload) == 0
    ensures Sound(local, IpFrame(local, mac, dest, proto, payload))
  {
    hide EthHeader, IpHeader, Checksum, PseudoHeader;
    var e, bare := EthHeader(mac, local, 0x0800), IpHeader(20 + |payload|, proto, dest);
    var h := Sealed(bare, 10);
    SealedVerifies(bare, 10);
    var f := IpFrame(local, mac, dest, proto, payload);
    assert f == e + (h + payload);
    assert f[6..12] == e[6..12] && f[12] == e[12] && f[13] == e[13];
    assert f[14..34] == h && f[34..] == payload;
    assert f[26..30] == h[12..16] == bare[12..16] && f[30..34] == h[16..20] == bare[16..20];
    assert f[23] == h[9] == bare[9];
  }

  lemma SentIpSound(table: map<Ip, Mac>, local: Mac, room: nat, dest: Ip, proto: Byte, payload: Bytes)
    requires proto == 1 ==> Checksum(payload) == 0
    requires proto == 6 ==> |payload| == 20 && Checksum(PseudoHeader(dest) + payload) == 0
    ensures AllSound(local, SentIp(table, local, room, dest, proto, payload))
  {
    hide ArpFrame, IpFrame, Sound, Checksum, PseudoHeader;
    ArpFrameSound(1, local, ALL, dest);
    if |payload| <= RX_SIZE - 34 {
      IpFrameSound(local, ALL, dest, proto, payload);
      if dest in table { IpFrameSound(local, table[dest], dest, proto, payload); }
    }
  }

  lemma HandledSound(v: View, local: Mac, room: nat, frame: Bytes)
    requires Consistent(frame) && AllSound(local, v.wire)
    ensures AllSound(local, Handled(v, local, room, frame).wire)
  {
    hide ArpHandled, IpHandled, AllSound;
    var p := Padded(frame);
    if room == 0 {
    } else if Load16(p, 12) == 0x0806 {
      ArpHandledSound(v, local, room - 1, p[ETH..ETH + 28]);
    } else if Load16(p, 12) == 0x0800 {
      IpHandledSound(v, local, room - 1, p);
    }
  }

  lemma ArpHandledSound(v: View, local: Mac, room: nat, h: Bytes)
    requires |h| == 28 && AllSound(local, v.wire)
    ensures AllSound(local, ArpHandled(v, local, room, h).wire)
  {
    hide ArpFrame, Sound, AllSound;
    var mac: Mac, ip: Ip := h[8..14], h[14..18];
    ArpFrameSound(2, local, mac, ip);
    Single(local, ArpFrame(2, local, mac, ip));
    SoundAppend(local, v.wire, [ArpFrame(2, local, mac, ip)]);
    assert v.wire + [] == v.wire;
  }

  lemma Single(local: Mac, f: Bytes)
    requires Sound(local, f)
    ensures AllSound(local, [f])
  {
  }

  lemma IpHandledSound(v: View, local: Mac, room: nat, p: Bytes)
    requires |p| == AREA && Load16(p, 12) == 0x0800 && (IsEcho(p) ==> EchoFits(EchoLength(p)))
    requires AllSound(local, v.wire)
    ensures AllSound(local, IpHandled(v, local, room, p).wire)
  {
    hide SentIp, EchoReply, Sound, AllSound, SynAckSegment, SegmentHandled, SegmentAt, Checksum;
    if IsEcho(p) {
      var request := p[Transport(p)..Transport(p) + EchoLength(p)];
      EchoReplyVerifies(request);
      if room > 0 {
        SentIpSound(v.table, local, room - 1, Source(p), 1, EchoReply(request));
        SoundAppend(local, v.wire, SentIp(v.table, local, room - 1, Source(p), 1, EchoReply(request)));
      } else {
        assert v.wire + [] == v.wire;
      }
    } else if IpAccepted(p) && p[23] == 6 {
      SegmentHandledSound(v, local, room, SegmentAt(p, Transport(p), Source(p)));
    }
  }

  lemma SegmentHandledSound(v: View, local: Mac, room: nat, s: Segment)
    requires AllSound(local, v.wire)
    ensures AllSound(local, SegmentHandled(v, local, room, s).wire)
  {
    hide SentIp, Sound, AllSound, SynAckSegment, Checksum, PseudoHeader, Deliver;
    if Answers(v.socks, s, room) {
      var t := React(v.socks[Target(v.socks, s)], s, false);
      assert t.remoteIp == s.ip;
      SynAckVerifies(t);
      SentIpSound(v.table, local, room - 1, s.ip, 6, SynAckSegment(t));
      SoundAppend(local, v.wire, SentIp(v.table, local, room - 1, s.ip, 6, SynAckSegment(t)));
    } else {
      assert v.wire + [] == v.wire;
    }
  }

  /** Whatever consistent frames arrive, everything sent in answer fits the device and every checksum in it
      verifies: the IP header's, the echo reply's, and the SYN-ACK's with its pseudo-header. */
  lemma {:induction false} WireIsSound(v: View, local: Mac, room: nat, frames: seq<Bytes>)
    requires AllConsistent(frames) && AllSound(local, v.wire)
    ensures AllSound(local, HandledAll(v, local, room, frames).wire)
  {
    hide Sound, AllSound, Handled, Consistent;
    if frames != [] {
      WireIsSound(v, local, room, frames[..|frames| - 1]);
      HandledSound(HandledAll(v, local, room, frames[..|frames| - 1]), local, room, frames[|frames| - 1]);
    }
  }

  // ---------- what is sent can be read ----------

  /** An ARP packet of this host, read by the code that reads ARP packets, teaches its sender's address; and
      a request is answered by the host it asks for. */
  lemma ArpReadsBack(v: View, local: Mac, room: nat, opcode: nat, sender: Mac, target: Mac, targetIp: Ip)
    requires opcode == 1 || opcode == 2
    ensures var r := ArpHandled(v, local, room, ArpPacket(opcode, sender, target, targetIp));
            && r.table == Learn<Ip, Mac>(v.table, LOCAL_IP, sender) && r.socks == v.socks
            && r.wire == v.wire + if opcode == 1 && targetIp == LOCAL_IP && room > 0
                                  then [ArpFrame(2, local, sender, LOCAL_IP)] else []
  {
    hide Learn, ArpFrame;
    var h := ArpPacket(opcode, sender, target, targetIp);
    assert h[8..14] == sender;
    assert h[14..18] == LOCAL_IP;
    assert h[24..28] == targetIp;
  }

  /** A SYN-ACK, read by the code that reads segments, carries the connection's ports, its sequence number, the
      peer's plus one, and both flags. */
  lemma SynAckReadsBack(t: Tcb, source: Ip)
    requires t.localPort <= ONES && t.remotePort <= ONES && t.sndNxt < WORD && t.rcvNxt < WORD
    ensures SegmentAt(SynAckSegment(t), 0, source) ==
            Segment(source, t.localPort, t.remotePort, t.sndNxt, t.rcvNxt, true, true)
  {
    hide Checksum, SynAck, Load16, Load32, PseudoHeader;
    SynAckFields(t);
    var bare, c := SynAck(t), Checksum(PseudoHeader(t.remoteIp) + SynAck(t));
    assert SynAckSegment(t)[0..20] == SynAckSegment(t);
    SameLoads(bare, Store16(bare, 16, c));
  }

  lemma SameLoads(a: Bytes, b: Bytes)
    requires |a| == |b| == 20 && a[..16] == b[..16]
    ensures Load16(a, 0) == Load16(b, 0) && Load16(a, 2) == Load16(b, 2)
    ensures Load32(a, 4) == Load32(b, 4) && Load32(a, 8) == Load32(b, 8) && a[13] == b[13]
  {
    assert forall k :: 0 <= k < 16 ==> a[k] == a[..16][k] == b[..16][k] == b[k];
  }

  lemma SynAckFields(t: Tcb)
    requires t.localPort <= ONES && t.remotePort <= ONES && t.sndNxt < WORD && t.rcvNxt < WORD
    ensures var h := SynAck(t);
            && Load16(h, 0) == t.localPort && Load16(h, 2) == t.remotePort
            && Load32(h, 4) == t.sndNxt && Load32(h, 8) == t.rcvNxt && h[13] == 0x12
  {
    Put32ReadsBack(t.sndNxt);
    Put32ReadsBack(t.rcvNxt);
  }

  lemma Put32ReadsBack(w: nat)
    requires w < WORD
    ensures Load32(Put32(w), 0) == w && w % WORD == w
  {
  }

  // ---------- connections and addresses over a run ----------

  /** The call a frame makes on the sockets, if any. */
  ghost function SegmentOf(p: Bytes, room: nat): seq<Op>
    requires |p| == AREA
  {
    if room > 0 && Load16(p, 12) == 0x0800 && IpAccepted(p) && p[23] == 6
    then [Arrive(SegmentAt(p, Transport(p), Source(p)), room > 1)] else []
  }

  /** The update a frame teaches the cache, if any. */
  ghost function LessonOf(p: Bytes, room: nat): seq<Lesson<Ip, Mac>>
    requires |p| == AREA
  {
    if room > 0 && Load16(p, 12) == 0x0806 && Load16(p, 14) == 1 && Load16(p, 16) == 0x0800
    then
      var ip: Ip, mac: Mac := p[28..32], p[22..28];
      [Lesson(ip, mac)]
    else []
  }

  ghost function Segments(frames: seq<Bytes>, room: nat): seq<Op>
    requires AllConsistent(frames)
  {
    if frames == [] then [] else Segments(frames[..|frames| - 1], room) + SegmentOf(Padded(frames[|frames| - 1]), room)
  }

  ghost function Lessons(frames: seq<Bytes>, room: nat): seq<Lesson<Ip, Mac>>
    requires AllConsistent(frames)
  {
    if frames == [] then [] else Lessons(frames[..|frames| - 1], room) + LessonOf(Padded(frames[|frames| - 1]), room)
  }

  lemma FrameStep(v: View, local: Mac, room: nat, frame: Bytes, us: seq<Lesson<Ip, Mac>>, ops: seq<Op>)
    requires Consistent(frame) && v.table == Learned(us) && v.socks == After(ops)
    ensures Handled(v, local, room, frame).table == Learned(us + LessonOf(Padded(frame), room))
    ensures Handled(v, local, room, frame).socks == After(ops + SegmentOf(Padded(frame), room))
  {
    hide Deliver, ArpHandled, SegmentHandled, Learned, After, EchoAnswer, SegmentAt, Transport;
    var p := Padded(frame);
    var us', ops' := LessonOf(p, room), SegmentOf(p, room);
    if ops' == [] { assert ops + ops' == ops; } else { SegmentStep(v, local, room, p, ops); }
    if room > 0 && Load16(p, 12) == 0x0806 {
      ArpStep(v, local, room, p, us);
    } else {
      assert us + us' == us;
    }
  }

  lemma Slice<T>(p: seq<T>, a: nat, n: nat, c: nat, d: nat)
    requires a + n <= |p| && c <= d <= n
    ensures p[a..a + n][c..d] == p[a + c..a + d]
  {
    var q := p[a..a + n];
    forall i | 0 <= i < d - c
      ensures q[c..d][i] == p[a + c..a + d][i]
    {
      assert q[c + i] == p[a + c + i];
    }
  }

  lemma ArpStep(v: View, local: Mac, room: nat, p: Bytes, us: seq<Lesson<Ip, Mac>>)
    requires |p| == AREA && v.table == Learned(us) && room > 0 && Load16(p, 12) == 0x0806
    ensures ArpHandled(v, local, room - 1, p[ETH..ETH + 28]).table == Learned(us + LessonOf(p, room))
    ensures ArpHandled(v, local, room - 1, p[ETH..ETH + 28]).socks == v.socks
  {
    hide Learn, ArpFrame;
    var h := p[ETH..ETH + 28];
    assert Load16(h, 0) == Load16(p, 14) && Load16(h, 2) == Load16(p, 16);
    if LessonOf(p, room) == [] {
      assert us + [] == us;
    } else {
      var ip: Ip, mac: Mac := p[28..32], p[22..28];
      Slice(p, ETH, 28, 14, 18);
      Slice(p, ETH, 28, 8, 14);
      var us' := us + LessonOf(p, room);
      assert us'[|us|] == Lesson(ip, mac) && us'[..|us'| - 1] == us;
    }
  }

  lemma SegmentStep(v: View, local: Mac, room: nat, p: Bytes, ops: seq<Op>)
    requires |p| == AREA && v.socks == After(ops) && SegmentOf(p, room) != []
    ensures SegmentHandled(v, local, room - 1, SegmentAt(p, Transport(p), Source(p))).socks == After(ops + SegmentOf(p, room))
    ensures SegmentHandled(v, local, room - 1, SegmentAt(p, Transport(p), Source(p))).table == v.table
  {
    hide Deliver, SentIp, SynAckSegment, SegmentAt, Transport;
    assert (ops + SegmentOf(p, room))[..|ops|] == ops;
  }

  /** A run of frames, from a fresh cache and any opened sockets, is a run of `NetTcp` and of `NetArp`. */
  lemma {:induction false} RunsAreRuns(v: View, local: Mac, room: nat, frames: seq<Bytes>, before: seq<Op>)
    requires AllConsistent(frames) && v.table == map[] && v.socks == After(before)
    ensures HandledAll(v, local, room, frames).table == Learned(Lessons(frames, room))
    ensures HandledAll(v, local, room, frames).socks == After(before + Segments(frames, room))
  {
    hide Handled, Consistent, SegmentOf, LessonOf, After, Learned;
    if frames == [] {
      assert before + [] == before;
      Nothing();
    } else {
      var front, f := frames[..|frames| - 1], frames[|frames| - 1];
      RunsAreRuns(v, local, room, front, before);
      FrameStep(HandledAll(v, local, room, front), local, room, f, Lessons(front, room), before + Segments(front, room));
      assert before + Segments(front, room) + SegmentOf(Padded(f), room) == before + Segments(frames, room);
    }
  }

  lemma Nothing()
    ensures Learned<Ip, Mac>([]) == map[]
  {
  }
}
