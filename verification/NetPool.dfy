/** The buffer pool of i386/whitex/internet.h:43-101 and the transmit side of the device. A buffer may be
    touched only while it is in use, and only inside its 4096 bytes. Waiting for the device to finish a
    transmission is one step. */
module NetPool {
  import opened Common
  import opened NetChecksum
  import opened NetFrames

  const POOL_SIZE := 256

  /** `data` and `tail` delimit the packet within the bytes. */
  datatype Buf = Buf(bytes: Bytes, data: nat, tail: nat) {
    ghost predicate Ok() { |bytes| == BUF_SIZE && data <= BUF_SIZE && tail <= BUF_SIZE }

    ghost function Packet(): Bytes
      requires Ok() && data <= tail
    {
      bytes[data..tail]
    }

    /** The bytes from the initial head on. */
    ghost function Area(): (p: Bytes)
      requires Ok()
      ensures |p| == AREA
    {
      bytes[HEAD..]
    }

    /** `wx_net_buf_push`, with the bytes its caller then writes there. */
    function Pushed(header: Bytes): (r: Buf)
      requires Ok() && |header| <= data <= tail
      ensures r.Ok() && r.data == data - |header| && r.tail == tail && r.Packet() == header + Packet()
    {
      var d := data - |header|;
      Buf(bytes[..d] + header + bytes[data..], d, tail)
    }

    /** `wx_net_buf_put`, with the bytes its caller then copies there. */
    function Appended(content: Bytes): (r: Buf)
      requires Ok() && data <= tail && tail + |content| <= BUF_SIZE
      ensures r.Ok() && r.data == data && r.tail == tail + |content| && r.Packet() == Packet() + content
      ensures r.bytes == bytes[..tail] + content + bytes[tail + |content|..]
    {
      Buf(bytes[..tail] + content + bytes[tail + |content|..], data, tail + |content|)
    }
  }

  function Cleared(): (b: Buf)
    ensures b.Ok()
  {
    Buf(Zeros(BUF_SIZE), HEAD, HEAD)
  }

  function Most(a: nat, b: nat): nat { if a < b then b else a }

  class Pool {
    const bufs: array<Buf>
    const used: array<bool>
    /** Frames handed to the device. */
    var wire: seq<Bytes>
    /** The most buffers ever in use at once. */
    ghost var peak: nat

    /** The buffers in use. */
    ghost var inUse: set<nat>

    ghost predicate Valid()
      reads this, bufs, used
    {
      && bufs.Length == POOL_SIZE && used.Length == POOL_SIZE
      && (forall i: nat :: i in inUse <==> i < POOL_SIZE && used[i])
      && (forall i :: 0 <= i < POOL_SIZE ==> bufs[i].Ok())
      && |inUse| <= POOL_SIZE
    }

    /** The number of free buffers. */
    ghost function Room(): nat
      reads this
    {
      if |inUse| <= POOL_SIZE then POOL_SIZE - |inUse| else 0
    }

    /** A buffer that may be touched. */
    ghost predicate Held(b: nat)
      reads this, bufs
    {
      b in inUse && b < bufs.Length && bufs[b].Ok()
    }

    constructor ()
      ensures Valid() && inUse == {} && peak == 0 && wire == [] && fresh(bufs) && fresh(used)
    {
      bufs := new Buf[POOL_SIZE](_ => Buf(Zeros(BUF_SIZE), 0, 0));
      used := new bool[POOL_SIZE](_ => false);
      wire, peak, inUse := [], 0, {};
    }

    /** `wx_net_buf_alloc`: the lowest free buffer, cleared, or -1. */
    method Alloc() returns (b: int)
      requires Valid()
      modifies this`peak, this`inUse, bufs, used
      ensures Valid()
      ensures b < 0 <==> old(Room()) == 0
      ensures b < 0 ==> inUse == old(inUse) && peak == old(peak)
      ensures b >= 0 ==>
                && Held(b) && bufs[b] == Cleared() && b !in old(inUse) && inUse == old(inUse) + {b}
                && peak == Most(old(peak), |old(inUse)| + 1)
      ensures forall i: nat :: i < b ==> i in old(inUse)
      ensures forall i :: 0 <= i < bufs.Length && i != b ==> bufs[i] == old(bufs[i])
    {
      for i := 0 to POOL_SIZE
        invariant forall k :: 0 <= k < i ==> used[k]
      {
        if !used[i] {
          used[i] := true;
          bufs[i] := Cleared();
          ghost var was := inUse;
          peak := Most(peak, |was| + 1);
          inUse := was + {i};
          CardBelow(inUse, POOL_SIZE);
          CardBelow(was, POOL_SIZE);
          return i;
        }
      }
      CardBelow(inUse, POOL_SIZE);
      return -1;
    }

    /** `wx_net_buf_free`. */
    method Free(b: nat)
      requires Valid() && b in inUse
      modifies used, this`inUse
      ensures Valid() && inUse == old(inUse) - {b}
    {
      used[b] := false;
      inUse := inUse - {b};
    }

    /** `wx_net_buf_reserve`. */
    method Reserve(b: nat, len: nat)
      requires Valid() && Held(b) && bufs[b].data + len <= BUF_SIZE && bufs[b].tail + len <= BUF_SIZE
      modifies bufs
      ensures Valid()
      ensures bufs[..] == old(bufs[..])[b := old(bufs[b]).(data := old(bufs[b]).data + len, tail := old(bufs[b]).tail + len)]
    {
      bufs[b] := bufs[b].(data := bufs[b].data + len, tail := bufs[b].tail + len);
    }

    method Push(b: nat, header: Bytes)
      requires Valid() && Held(b) && |header| <= bufs[b].data <= bufs[b].tail
      modifies bufs
      ensures Valid() && bufs[..] == old(bufs[..])[b := old(bufs[b]).Pushed(header)]
    {
      bufs[b] := bufs[b].Pushed(header);
    }

    method Append(b: nat, content: Bytes)
      requires Valid() && Held(b) && bufs[b].data <= bufs[b].tail && bufs[b].tail + |content| <= BUF_SIZE
      modifies bufs
      ensures Valid() && bufs[..] == old(bufs[..])[b := old(bufs[b]).Appended(content)]
    {
      bufs[b] := bufs[b].Appended(content);
    }

    /** `wx_net_buf_pull`. */
    method Pull(b: nat, len: nat)
      requires Valid() && Held(b) && bufs[b].data + len <= BUF_SIZE
      modifies bufs
      ensures Valid() && bufs[..] == old(bufs[..])[b := old(bufs[b]).(data := old(bufs[b]).data + len)]
    {
      bufs[b] := bufs[b].(data := bufs[b].data + len);
    }

    /** Reads from the packet's start on, which may run past its tail. */
    method Read(b: nat, off: nat, len: nat) returns (r: Bytes)
      requires Valid() && Held(b) && HEAD <= bufs[b].data && bufs[b].data + off + len <= BUF_SIZE
      ensures var k := bufs[b].data - HEAD + off; r == bufs[b].Area()[k..k + len]
    {
      var from := bufs[b].data + off;
      r := bufs[b].bytes[from..from + len];
    }

    /** `wx_e1000_tx_raw`: hands the packet to the device unless it is too long, and frees the buffer. */
    method Transmit(b: nat)
      requires Valid() && Held(b) && bufs[b].data <= bufs[b].tail
      modifies used, this`wire, this`inUse
      ensures Valid() && inUse == old(inUse) - {b}
      ensures wire == old(wire) + OnWire(bufs[b].Packet())
    {
      var len := bufs[b].tail - bufs[b].data;
      if len > RX_SIZE {
        Free(b);
        return;
      }
      wire := wire + [bufs[b].bytes[bufs[b].data..bufs[b].tail]];
      Free(b);
    }
  }
}
