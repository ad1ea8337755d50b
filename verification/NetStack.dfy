/** The packet path of i386/whitex/internet.h:262-372, 394-507, 635-652: the ownership of every buffer
    passes down the call tree from `wx_e1000_poll` to the device, and what the path does to cache, sockets
    and wire is `HandledAll`. */
module NetStack {
  import opened NetChecksum
  import opened NetArp
  import opened NetTcp
  import opened NetFrames
  import opened NetPool

  class Stack {
    const pool: Pool
    const arp: ArpCache
    const tcp: SocketTable
    const localMac: Mac
    var rxPackets: nat

    ghost predicate Valid()
      reads this, pool, pool.bufs, pool.used, arp, arp.entries, tcp
    {
      pool.Valid() && arp.Valid() && tcp.Valid()
    }

    ghost function Seen(): View
      reads this, pool, arp, tcp, tcp.socks
    {
      View(arp.table, tcp.socks[..], pool.wire)
    }

    constructor (mac: Mac)
      ensures Valid() && pool.inUse == {} && pool.peak == 0 && localMac == mac
      ensures Seen() == View(map[], After([]), [])
      ensures fresh(pool) && fresh(pool.bufs) && fresh(pool.used)
      ensures fresh(arp) && fresh(arp.entries) && fresh(tcp) && fresh(tcp.socks)
    {
      pool := new Pool();
      arp := new ArpCache();
      tcp := new SocketTable();
      localMac := mac;
      rxPackets := 0;
    }

    // ---------- sending ----------

    /** Writes an ARP packet into a fresh buffer and sends it. */
    method SendArp(b: nat, opcode: nat, dest: Mac, target: Ip)
      requires pool.Valid() && pool.Held(b) && pool.bufs[b] == Cleared() && opcode <= ONES
      modifies pool`wire, pool`inUse, pool.bufs, pool.used
      ensures pool.Valid() && pool.inUse == old(pool.inUse) - {b}
      ensures pool.wire == old(pool.wire) + [ArpFrame(opcode, localMac, dest, target)]
    {
      hide ArpPacket, EthHeader;
      pool.Reserve(b, 64);
      pool.Push(b, ArpPacket(opcode, localMac, dest, target));
      pool.Push(b, EthHeader(dest, localMac, 0x0806));
      assert pool.bufs[b].Packet() == ArpFrame(opcode, localMac, dest, target);
      pool.Transmit(b);
    }

    /** `wx_arp_send_request`. */
    method SendArpRequest(target: Ip)
      requires pool.Valid()
      modifies pool, pool.bufs, pool.used
      ensures pool.Valid() && pool.inUse == old(pool.inUse)
      ensures pool.peak <= Most(old(pool.peak), |old(pool.inUse)| + 1)
      ensures pool.wire == old(pool.wire) + if old(pool.Room()) > 0 then [ArpFrame(1, localMac, ALL, target)] else []
    {
      hide ArpFrame, Cleared;
      var b := pool.Alloc();
      if b >= 0 {
        SendArp(b, 1, ALL, target);
        assert pool.inUse == old(pool.inUse);
      }
    }

    /** `wx_ip_send`: consumes the buffer on every path. */
    method SendIp(b: nat, dest: Ip, proto: Byte)
      requires Valid() && pool.Held(b) && 34 <= pool.bufs[b].data <= pool.bufs[b].tail
      modifies pool, pool.bufs, pool.used
      ensures Valid() && pool.inUse == old(pool.inUse) - {b}
      ensures pool.peak <= Most(old(pool.peak), |old(pool.inUse)| + 1)
      ensures pool.wire == old(pool.wire)
                           + SentIp(arp.table, localMac, old(pool.Room()), dest, proto, old(pool.bufs[b].Packet()))
    {
      hide ArpFrame, IpFrame;
      if dest == BROADCAST {
        SendIpTo(b, ALL, dest, proto);
        return;
      }
      var found, mac := arp.Lookup(dest);
      if found {
        SendIpTo(b, mac, dest, proto);
      } else {
        SendArpRequest(dest);
        pool.Free(b);
      }
    }

    /** The rest of `wx_ip_send`, once the hardware address is known. */
    method SendIpTo(b: nat, mac: Mac, dest: Ip, proto: Byte)
      requires pool.Valid() && pool.Held(b) && 34 <= pool.bufs[b].data <= pool.bufs[b].tail
      modifies pool`wire, pool`inUse, pool.bufs, pool.used
      ensures pool.Valid() && pool.inUse == old(pool.inUse) - {b}
      ensures pool.wire == old(pool.wire) + OnWire(IpFrame(localMac, mac, dest, proto, old(pool.bufs[b].Packet())))
    {
      hide EthHeader, IpHeader, OnWire, Checksum, Store16;
      ghost var payload := pool.bufs[b].Packet();
      var bare := IpHeader(20 + (pool.bufs[b].tail - pool.bufs[b].data), proto, dest);
      var c := WxChecksum(bare);
      pool.Push(b, Store16(bare, 10, c));
      pool.Push(b, EthHeader(mac, localMac, 0x0800));
      assert pool.bufs[b].Packet() == IpFrame(localMac, mac, dest, proto, payload);
      pool.Transmit(b);
    }

    // ---------- receiving ----------

    /** `wx_arp_process`. */
    method ProcessArp(b: nat)
      requires Valid() && pool.Held(b) && pool.bufs[b].data == HEAD + ETH
      modifies pool, pool.bufs, pool.used, arp, arp.entries
      ensures Valid() && pool.inUse == old(pool.inUse) - {b}
      ensures pool.peak <= Most(old(pool.peak), |old(pool.inUse)| + 1)
      ensures Seen() == ArpHandled(old(Seen()), localMac, old(pool.Room()), old(pool.bufs[b].Area()[ETH..ETH + 28]))
    {
      hide ArpFrame, Cleared, Learn, Pool.Valid, ArpCache.Valid, SocketTable.Valid;
      var h := pool.Read(b, 0, 28);
      if Load16(h, 0) != 1 || Load16(h, 2) != 0x0800 {
        pool.Free(b);
        return;
      }
      arp.Update(h[14..18], h[8..14]);
      if Load16(h, 6) == 1 && h[24..28] == LOCAL_IP { SendArpReply(h[8..14], h[14..18]); }
      pool.Free(b);
    }

    /** The answer of `wx_arp_process`. */
    method SendArpReply(mac: Mac, ip: Ip)
      requires pool.Valid()
      modifies pool, pool.bufs, pool.used
      ensures pool.Valid() && pool.inUse == old(pool.inUse)
      ensures pool.peak <= Most(old(pool.peak), |old(pool.inUse)| + 1)
      ensures pool.wire == old(pool.wire) + if old(pool.Room()) > 0 then [ArpFrame(2, localMac, mac, ip)] else []
    {
      hide ArpFrame, Cleared;
      var rep := pool.Alloc();
      if rep >= 0 {
        SendArp(rep, 2, mac, ip);
        assert pool.inUse == old(pool.inUse);
      }
    }

    /** `wx_icmp_process`. */
    method ProcessIcmp(b: nat, source: Ip, icmpLen: nat)
      requires Valid() && pool.Held(b) && HEAD <= pool.bufs[b].data <= HEAD + 74
      requires var m := pool.bufs[b].Area()[pool.bufs[b].data - HEAD..]; m[0] == 8 && m[1] == 0 ==> EchoFits(icmpLen)
      modifies pool, pool.bufs, pool.used
      ensures Valid() && pool.inUse == old(pool.inUse) - {b}
      ensures pool.peak <= Most(old(pool.peak), |old(pool.inUse)| + 2)
      ensures var m := old(pool.bufs[b].Area()[pool.bufs[b].data - HEAD..]);
              pool.wire == old(pool.wire) + if m[0] == 8 && m[1] == 0
                                            then EchoAnswer(arp.table, localMac, old(pool.Room()), source, m[..icmpLen]) else []
    {
      hide SentIp, EchoReply, Pool.Valid, ArpCache.Valid, SocketTable.Valid;
      var h := pool.Read(b, 0, 8);
      if h[0] == 8 && h[1] == 0 {
        var rep := pool.Alloc();
        if rep < 0 {
          pool.Free(b);
          return;
        }
        var payload := pool.Read(b, 8, icmpLen - 8);
        SendEcho(rep, source, h, payload);
        assert h + payload == old(pool.bufs[b].Area()[pool.bufs[b].data - HEAD..])[..icmpLen];
        assert pool.inUse == old(pool.inUse);
      }
      pool.Free(b);
    }

    /** The echo reply of `wx_icmp_process`. */
    method SendEcho(rep: nat, source: Ip, h: Bytes, payload: Bytes)
      requires Valid() && pool.Held(rep) && pool.bufs[rep] == Cleared() && |h| == 8 && |payload| <= 3712
      modifies pool, pool.bufs, pool.used
      ensures Valid() && pool.inUse == old(pool.inUse) - {rep}
      ensures pool.peak <= Most(old(pool.peak), |old(pool.inUse)| + 1)
      ensures pool.wire == old(pool.wire) + SentIp(arp.table, localMac, old(pool.Room()), source, 1, EchoReply(h + payload))
    {
      hide SentIp, Checksum, Store16, Pool.Valid, ArpCache.Valid, SocketTable.Valid;
      pool.Reserve(rep, 128);
      pool.Append(rep, payload);
      var reply := [0, 0, 0, 0] + h[4..8];
      var c := WxChecksum(reply + payload);
      pool.Push(rep, Store16(reply, 2, c));
      EchoInParts(h, payload);
      assert pool.bufs[rep].Packet() == EchoReply(h + payload);
      SendIp(rep, source, 1);
    }

    /** `wx_tcp_process`. */
    method ProcessTcp(b: nat, source: Ip)
      requires Valid() && pool.Held(b) && HEAD <= pool.bufs[b].data <= HEAD + 74
      modifies pool, pool.bufs, pool.used, tcp.socks
      ensures Valid() && pool.inUse == old(pool.inUse) - {b}
      ensures pool.peak <= Most(old(pool.peak), |old(pool.inUse)| + 2)
      ensures Seen() == SegmentHandled(old(Seen()), localMac, old(pool.Room()),
                                       old(SegmentAt(pool.bufs[b].Area(), pool.bufs[b].data - HEAD, source)))
    {
      hide SentIp, SynAckSegment, Load16, Load32, SynAck, PseudoHeader, Pool.Valid, ArpCache.Valid;
      var h := pool.Read(b, 0, 20);
      var s := Segment(source, Load16(h, 0), Load16(h, 2), Load32(h, 4), Load32(h, 8), h[13] / 2 % 2 == 1, h[13] / 16 % 2 == 1);
      assert s == SegmentAt(pool.bufs[b].Area(), pool.bufs[b].data - HEAD, source);
      var k := tcp.FindTarget(s);
      if k < MAX_SOCKS {
        var t := tcp.socks[k];
        if t.state == 1 && s.syn && !s.ack {
          AcceptSyn(k, s);
          assert pool.inUse == old(pool.inUse);
        } else if t.state == 2 && s.ack {
          if s.ackNum == t.sndNxt { tcp.socks[k] := t.(state := 3); }
        }
      }
      pool.Free(b);
    }

    /** A SYN for a listening socket. */
    method AcceptSyn(k: nat, s: Segment)
      requires Valid() && k < MAX_SOCKS && tcp.socks[k].state == 1 && s.syn && !s.ack
      modifies pool, pool.bufs, pool.used, tcp.socks
      ensures Valid() && pool.inUse == old(pool.inUse)
      ensures pool.peak <= Most(old(pool.peak), |old(pool.inUse)| + 2)
      ensures var t := old(tcp.socks[k]);
              && tcp.socks[..] == old(tcp.socks[..])[k := React(t, s, old(pool.Room()) > 0)]
              && pool.wire == old(pool.wire)
                              + if old(pool.Room()) > 0
                                then SentIp(arp.table, localMac, old(pool.Room()) - 1, s.ip, 6, SynAckSegment(React(t, s, false))) else []
    {
      hide SentIp, SynAckSegment, Pool.Valid, ArpCache.Valid;
      var t := tcp.socks[k].(remotePort := s.srcPort, remoteIp := s.ip, rcvNxt := (s.seqNum + 1) % WORD, sndNxt := ISS);
      t := t.(sndUna := t.sndNxt, state := 2);
      tcp.socks[k] := t;
      var resp := pool.Alloc();
      if resp >= 0 {
        SendSynAck(resp, t);
        assert pool.inUse == old(pool.inUse);
        tcp.socks[k] := t.(sndNxt := (t.sndNxt + 1) % WORD);
      }
    }

    /** The SYN-ACK of `wx_tcp_process`. */
    method SendSynAck(resp: nat, t: Tcb)
      requires Valid() && pool.Held(resp) && pool.bufs[resp] == Cleared()
      modifies pool, pool.bufs, pool.used
      ensures Valid() && pool.inUse == old(pool.inUse) - {resp}
      ensures pool.peak <= Most(old(pool.peak), |old(pool.inUse)| + 1)
      ensures pool.wire == old(pool.wire) + SentIp(arp.table, localMac, old(pool.Room()), t.remoteIp, 6, SynAckSegment(t))
    {
      hide SentIp, Checksum, Store16, SynAck, PseudoHeader;
      pool.Reserve(resp, 128);
      var bare := SynAck(t);
      var c := TcpChecksum(PseudoHeader(t.remoteIp), bare);
      pool.Push(resp, Store16(bare, 16, c));
      assert pool.bufs[resp].Packet() == SynAckSegment(t);
      SendIp(resp, t.remoteIp, 6);
    }

    /** `wx_udp_process`. */
    method ProcessUdp(b: nat)
      requires Valid() && pool.Held(b) && HEAD <= pool.bufs[b].data <= HEAD + 74
      modifies pool`inUse, pool.bufs, pool.used
      ensures Valid() && pool.inUse == old(pool.inUse) - {b}
    {
      var h := pool.Read(b, 0, 8);
      if Load16(h, 4) >= 8 { pool.Pull(b, 8); }
      pool.Free(b);
    }

    /** `wx_ip_process`. */
    method ProcessIp(b: nat)
      requires Valid() && pool.Held(b) && pool.bufs[b].data == HEAD + ETH
      requires Handleable(pool.bufs[b].Area())
      modifies pool, pool.bufs, pool.used, tcp.socks
      ensures Valid() && pool.inUse == old(pool.inUse) - {b}
      ensures pool.peak <= Most(old(pool.peak), |old(pool.inUse)| + 2)
      ensures Seen() == IpHandled(old(Seen()), localMac, old(pool.Room()), old(pool.bufs[b].Area()))
    {
      hide SegmentHandled, SegmentAt, EchoAnswer, Pool.Valid, ArpCache.Valid, SocketTable.Valid, IpHandled, IsEcho, Source, EchoFits;
      ghost var p := pool.bufs[b].Area();
      var h := pool.Read(b, 0, 20);
      HeaderReads(p, h);
      var ihl := h[0] % 16;
      if h[0] / 16 != 4 || ihl < 5 || (h[16..20] != LOCAL_IP && h[19] != 255) {
        IpOther(Seen(), localMac, pool.Room(), p);
        pool.Free(b);
        return;
      }
      pool.Pull(b, ihl * 4);
      assert pool.bufs[b].Area() == p && pool.bufs[b].data == HEAD + Transport(p);
      Dispatch(b, h[9], h[12..16], (Load16(h, 2) - ihl * 4) % 0x1_0000);
    }

    /** The switch of `wx_ip_process`. */
    method Dispatch(b: nat, proto: Byte, source: Ip, icmpLen: nat)
      requires Valid() && pool.Held(b)
      requires var p := pool.bufs[b].Area();
               && Handleable(p) && IpAccepted(p) && pool.bufs[b].data == HEAD + Transport(p)
               && proto == p[23] && source == Source(p) && icmpLen == EchoLength(p)
      modifies pool, pool.bufs, pool.used, tcp.socks
      ensures Valid() && pool.inUse == old(pool.inUse) - {b}
      ensures pool.peak <= Most(old(pool.peak), |old(pool.inUse)| + 2)
      ensures Seen() == IpHandled(old(Seen()), localMac, old(pool.Room()), old(pool.bufs[b].Area()))
    {
      hide SegmentHandled, SegmentAt, EchoAnswer, Pool.Valid, ArpCache.Valid, SocketTable.Valid, IpHandled, Handleable;
      ghost var p := pool.bufs[b].Area();
      if proto == 1 {
        IpEcho(Seen(), localMac, pool.Room(), p);
        ProcessIcmp(b, source, icmpLen);
      } else if proto == 6 {
        IpSegment(Seen(), localMac, pool.Room(), p);
        ProcessTcp(b, source);
      } else {
        IpOther(Seen(), localMac, pool.Room(), p);
        if proto == 17 { ProcessUdp(b); } else { pool.Free(b); }
      }
    }

    /** `wx_eth_process`. */
    method ProcessEth(b: nat, ghost frame: Bytes)
      requires Valid() && pool.Held(b) && pool.bufs[b].data == HEAD
      requires Consistent(frame) && pool.bufs[b].Area() == Padded(frame)
      modifies pool, pool.bufs, pool.used, arp, arp.entries, tcp.socks
      ensures Valid() && pool.inUse == old(pool.inUse) - {b}
      ensures pool.peak <= Most(old(pool.peak), |old(pool.inUse)| + 2)
      ensures Seen() == Handled(old(Seen()), localMac, old(pool.Room()) + 1, frame)
    {
      hide ArpHandled, IpHandled, IsEcho, Padded, Pool.Valid, ArpCache.Valid, SocketTable.Valid;
      ghost var p := pool.bufs[b].Area();
      var h := pool.Read(b, 0, 14);
      assert Load16(h, 12) == Load16(p, 12);
      pool.Pull(b, ETH);
      assert pool.bufs[b].Area() == p;
      if Load16(h, 12) == 0x0806 {
        ProcessArp(b);
      } else if Load16(h, 12) == 0x0800 {
        ProcessIp(b);
      } else {
        pool.Free(b);
      }
    }

    /** One pass of the loop of `wx_e1000_poll`; without a free buffer the frame is dropped. */
    method Receive(frame: Bytes)
      requires Valid() && Consistent(frame)
      modifies this`rxPackets, pool, pool.bufs, pool.used, arp, arp.entries, tcp.socks
      ensures Valid() && pool.inUse == old(pool.inUse)
      ensures pool.peak <= Most(old(pool.peak), |old(pool.inUse)| + 3)
      ensures Seen() == Handled(old(Seen()), localMac, old(pool.Room()), frame)
    {
      hide ArpHandled, IpHandled, IsEcho, Pool.Valid, ArpCache.Valid, SocketTable.Valid;
      var b := pool.Alloc();
      if b >= 0 {
        pool.Append(b, frame);
        assert pool.bufs[b].Area() == Padded(frame);
        rxPackets := rxPackets + 1;
        ProcessEth(b, frame);
        assert pool.inUse == old(pool.inUse);
      }
    }

    /** `wx_e1000_poll` over the frames the device has ready: no buffer leaks, none is used after it was
        freed, none is left behind, and never more than three more than before are in use; cache, sockets
        and wire become what the frames make of them. */
    method Poll(frames: seq<Bytes>)
      requires Valid() && AllConsistent(frames)
      modifies this`rxPackets, pool, pool.bufs, pool.used, arp, arp.entries, tcp.socks
      ensures Valid() && pool.inUse == old(pool.inUse)
      ensures pool.peak <= Most(old(pool.peak), |old(pool.inUse)| + 3)
      ensures Seen() == HandledAll(old(Seen()), localMac, old(pool.Room()), frames)
    {
      hide Handled, Consistent, Pool.Valid, ArpCache.Valid, SocketTable.Valid;
      for i := 0 to |frames|
        invariant Valid() && pool.inUse == old(pool.inUse)
        invariant pool.peak <= Most(old(pool.peak), |old(pool.inUse)| + 3)
        invariant Seen() == HandledAll(old(Seen()), localMac, old(pool.Room()), frames[..i])
      {
        Receive(frames[i]);
        assert frames[..i + 1][..i] == frames[..i];
      }
      assert frames[..|frames|] == frames;
    }
  }

  /** The fields of an IP header read out of the frame. */
  lemma HeaderReads(p: Bytes, h: Bytes)
    requires |p| == AREA && h == p[ETH..ETH + 20]
    ensures h[0] == p[14] && h[9] == p[23] && h[19] == p[33] && Load16(h, 2) == Load16(p, 16)
    ensures h[16..20] == p[30..34] && h[12..16] == Source(p)
  {
    Slice(p, ETH, 20, 16, 20);
    Slice(p, ETH, 20, 12, 16);
  }

  ghost predicate Handleable(p: Bytes) {
    |p| == AREA && Load16(p, 12) == 0x0800 && (IsEcho(p) ==> EchoFits(EchoLength(p)))
  }

  lemma IpOther(v: View, local: Mac, room: nat, p: Bytes)
    requires Handleable(p) && (IpAccepted(p) ==> p[23] != 1 && p[23] != 6)
    ensures IpHandled(v, local, room, p) == v
  {
  }

  lemma IpSegment(v: View, local: Mac, room: nat, p: Bytes)
    requires Handleable(p) && IpAccepted(p) && p[23] == 6
    ensures IpHandled(v, local, room, p) == SegmentHandled(v, local, room, SegmentAt(p, Transport(p), Source(p)))
  {
  }

  lemma IpEcho(v: View, local: Mac, room: nat, p: Bytes)
    requires Handleable(p) && IpAccepted(p) && p[23] == 1
    ensures var m := p[Transport(p)..];
            && (m[0] == 8 && m[1] == 0 ==> EchoFits(EchoLength(p)))
            && IpHandled(v, local, room, p)
               == v.(wire := v.wire + if m[0] == 8 && m[1] == 0
                                      then EchoAnswer(v.table, local, room, Source(p), m[..EchoLength(p)]) else [])
  {
    hide EchoAnswer;
    var k := Transport(p);
    var m := p[k..];
    assert m[0] == p[k] && m[1] == p[k + 1];
    if IsEcho(p) { assert m[..EchoLength(p)] == p[k..k + EchoLength(p)]; }
    assert v.wire + [] == v.wire;
  }

  lemma EchoInParts(h: Bytes, payload: Bytes)
    requires |h| == 8
    ensures var reply: Bytes := [0, 0, 0, 0] + h[4..8];
            EchoReply(h + payload) == Store16(reply, 2, Checksum(reply + payload)) + payload
  {
    hide Checksum;
    var reply: Bytes := [0, 0, 0, 0] + h[4..8];
    assert [0, 0, 0, 0] + (h + payload)[4..] == reply + payload;
  }
}
