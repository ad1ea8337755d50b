/** Bytes on the wire and the Internet checksum of i386/whitex/internet.h (sections 1 and 2 of RFC 1071).
    The machine is little-endian: a 16-bit load takes the low byte first. */
module NetChecksum {

  type Byte = x: int | 0 <= x < 256
  type Bytes = seq<Byte>

  const WORD := 0x1_0000_0000
  const ONES := 0xFFFF

  /** A 16-bit load. */
  function Load(lo: int, hi: int): int { lo + 256 * hi }

  /** The 16-bit words of a block added up, an odd last byte counting as a word of its own. */
  ghost function WordSum(b: Bytes): nat {
    if |b| == 0 then 0
    else if |b| == 1 then b[0]
    else Load(b[0], b[1]) + WordSum(b[2..])
  }

  /** The carries added back in until 16 bits are left. */
  function Fold(s: nat): (r: nat)
    ensures r <= ONES
  {
    if s <= ONES then s else Fold(s % 0x1_0000 + s / 0x1_0000)
  }

  /** The result of `wx_checksum`: the sum is kept in 32 bits, and the complement cut to 16. */
  ghost function Checksum(b: Bytes): (c: nat)
    ensures c <= ONES
  {
    ONES - Fold(WordSum(b) % WORD)
  }

  /** One's-complement addition is arithmetic modulo 65535, with 0 only for 0. */
  lemma {:induction false} FoldIsModulo(s: nat) returns (k: nat)
    ensures s == Fold(s) + ONES * k
    ensures Fold(s) == 0 <==> s == 0
    decreases s
  {
    if s <= ONES {
      k := 0;
    } else {
      var k1 := FoldIsModulo(s % 0x1_0000 + s / 0x1_0000);
      k := k1 + s / 0x1_0000;
    }
  }

  lemma {:induction false} SumAppend(a: Bytes, b: Bytes)
    requires |a| % 2 == 0
    ensures WordSum(a + b) == WordSum(a) + WordSum(b)
    decreases |a|
  {
    if a == [] {
      assert a + b == b;
    } else {
      assert (a + b)[2..] == a[2..] + b;
      SumAppend(a[2..], b);
    }
  }

  lemma {:induction false} SumBound(b: Bytes)
    ensures WordSum(b) <= ONES * ((|b| + 1) / 2)
    decreases |b|
  {
    if |b| > 1 {
      SumBound(b[2..]);
      assert (|b| + 1) / 2 == (|b[2..]| + 1) / 2 + 1;
    }
  }

  /** The loops of `wx_checksum`. */
  method WxChecksum(data: Bytes) returns (c: nat)
    ensures c == Checksum(data)
  {
    var sum := SumWords(data, 0);
    while sum / 0x1_0000 != 0
      invariant Fold(sum) == Fold(WordSum(data) % WORD)
      decreases sum
    {
      sum := sum % 0x1_0000 + sum / 0x1_0000;
    }
    c := ONES - sum;
  }

  /** The first loop, starting from a sum already there. */
  method SumWords(data: Bytes, start: nat) returns (sum: nat)
    requires start < WORD
    ensures sum == (start + WordSum(data)) % WORD
  {
    sum := start;
    var p, len := 0, |data|;
    ghost var carries := 0;
    while len > 1
      invariant 0 <= p <= |data| && p + len == |data| && sum < WORD
      invariant sum + WORD * carries + WordSum(data[p..]) == start + WordSum(data)
      decreases len
    {
      assert data[p..][2..] == data[p + 2..];
      var next := sum + Load(data[p], data[p + 1]);
      carries := carries + next / WORD;
      sum := next % WORD;
      p, len := p + 2, len - 2;
    }
    if len == 1 {
      var next := sum + data[p];
      carries := carries + next / WORD;
      sum := next % WORD;
    }
    Wrapped(start + WordSum(data), sum, carries);
  }

  lemma Wrapped(total: nat, sum: nat, carries: nat)
    requires sum < WORD && total == sum + WORD * carries
    ensures total % WORD == sum
  {
  }

  // ---------- a stored checksum verifies ----------

  /** A 16-bit store. */
  function Store16(b: Bytes, k: nat, w: nat): (r: Bytes)
    requires k + 1 < |b| && w <= ONES
    ensures |r| == |b|
  {
    b[k := w % 256][k + 1 := w / 256]
  }

  lemma {:induction false} SumStore(b: Bytes, k: nat, w: nat)
    requires k % 2 == 0 && k + 1 < |b| && w <= ONES && b[k] == 0 && b[k + 1] == 0
    ensures WordSum(Store16(b, k, w)) == WordSum(b) + w
  {
    var r := Store16(b, k, w);
    SumAppend(b[..k], b[k..]);
    SumAppend(r[..k], r[k..]);
    assert b == b[..k] + b[k..] && r == r[..k] + r[k..] && r[..k] == b[..k];
    assert r[k..][2..] == b[k..][2..];
  }

  lemma ComplementFolds(s: nat)
    ensures Fold(s + (ONES - Fold(s))) == ONES
  {
    var k := FoldIsModulo(s);
    var t := s + (ONES - Fold(s));
    var k1 := FoldIsModulo(t);
    assert Fold(t) == ONES * (k + 1 - k1);
  }

  /** Up to 131074 bytes the 32-bit sum cannot overflow. */
  lemma NoOverflow(b: Bytes)
    requires |b| <= 131074
    ensures Checksum(b) == ONES - Fold(WordSum(b))
  {
    hide Fold, WordSum;
    SumBound(b);
    assert WordSum(b) < WORD;
    Small(WordSum(b));
  }

  lemma Small(x: nat)
    requires x < WORD
    ensures x % WORD == x
  {
  }

  /** Storing the checksum in its zeroed, aligned field makes the whole block check to zero, as long as
      the 32-bit sum does not overflow; it cannot up to 131074 bytes. */
  lemma StoredChecksumVerifies(b: Bytes, k: nat)
    requires k % 2 == 0 && k + 1 < |b| && b[k] == 0 && b[k + 1] == 0
    requires |b| <= 131074
    ensures Checksum(Store16(b, k, Checksum(b))) == 0
  {
    hide Checksum, Fold, WordSum, Store16;
    NoOverflow(b);
    NoOverflow(Store16(b, k, Checksum(b)));
    SumStore(b, k, Checksum(b));
    ComplementFolds(WordSum(b));
  }

  // ---------- byte order ----------

  function Swap(w: nat): (r: nat)
    requires w <= ONES
    ensures r <= ONES
  {
    w % 256 * 256 + w / 256
  }

  ghost function SwapPairs(b: Bytes): (r: Bytes)
    requires |b| % 2 == 0
    ensures |r| == |b|
  {
    if b == [] then [] else [b[1], b[0]] + SwapPairs(b[2..])
  }

  lemma {:induction false} SwappedSum(b: Bytes) returns (k: int)
    requires |b| % 2 == 0
    ensures WordSum(SwapPairs(b)) == 256 * WordSum(b) - ONES * k
    ensures WordSum(SwapPairs(b)) == 0 <==> WordSum(b) == 0
    decreases |b|
  {
    if b == [] {
      k := 0;
    } else {
      var k1 := SwappedSum(b[2..]);
      assert SwapPairs(b)[2..] == SwapPairs(b[2..]);
      k := k1 + b[1];
      assert 256 * Load(b[0], b[1]) == Load(b[1], b[0]) + ONES * b[1];
    }
  }

  /** Swapping the bytes of a word multiplies it by 256 modulo 65535. */
  lemma SwapIsTimes256(w: nat)
    requires w <= ONES
    ensures 256 * w == Swap(w) + ONES * (w / 256)
    ensures Swap(w) == 0 <==> w == 0
  {
  }

  /** Two folded sums that agree modulo 65535 are equal unless one of them is 0. */
  lemma SameResidue(x: nat, y: nat, k: int)
    requires x <= ONES && y <= ONES && x == y + ONES * k && (x == 0 <==> y == 0)
    ensures x == y
  {
  }

  /** The checksum does not depend on the byte order: on byte-swapped words it is the byte-swapped
      checksum. */
  lemma ByteOrderIndependent(b: Bytes)
    requires |b| % 2 == 0 && |b| <= 131074
    ensures Checksum(SwapPairs(b)) == Swap(Checksum(b))
  {
    hide Checksum, Fold, WordSum, SwapPairs, Swap;
    var s, t := WordSum(b), WordSum(SwapPairs(b));
    NoOverflow(b);
    NoOverflow(SwapPairs(b));
    var k := SwappedSum(b);
    var k1 := FoldIsModulo(s);
    var k2 := FoldIsModulo(t);
    var f := Fold(s);
    SwapIsTimes256(f);
    SameResidue(Fold(t), Swap(f), f / 256 + 256 * k1 - k - k2);
    SwapComplement(f);
  }

  lemma SwapComplement(f: nat)
    requires f <= ONES
    ensures ONES - Swap(f) == Swap(ONES - f)
  {
    var lo, hi := f % 256, f / 256;
    assert ONES - f == (255 - hi) * 256 + (255 - lo);
  }

  // ---------- the TCP checksum ----------

  /** The checksum code of `wx_tcp_process`: two loops over pseudo-header and header, one fold. */
  method TcpChecksum(pseudo: Bytes, header: Bytes) returns (c: nat)
    requires |pseudo| % 2 == 0 && |header| % 2 == 0
    ensures c == Checksum(pseudo + header)
  {
    SumAppend(pseudo, header);
    var csum := AddLoop(pseudo, 0);
    csum := AddLoop(header, csum);
    AddWrapped(WordSum(pseudo), WordSum(header));
    while csum / 0x1_0000 != 0
      invariant Fold(csum) == Fold(WordSum(pseudo + header) % WORD)
      decreases csum
    {
      csum := csum % 0x1_0000 + csum / 0x1_0000;
    }
    c := ONES - csum;
  }

  lemma AddWrapped(a: nat, b: nat)
    ensures (a % WORD + b) % WORD == (a + b) % WORD
  {
    var q := a / WORD;
    assert a + b == a % WORD + b + WORD * q;
    ModMultiple(a % WORD + b, q);
  }

  lemma ModMultiple(x: nat, q: nat)
    ensures (x + WORD * q) % WORD == x % WORD
  {
  }

  /** One counting loop over the words of a block of even length. */
  method AddLoop(b: Bytes, start: nat) returns (csum: nat)
    requires |b| % 2 == 0 && start < WORD
    ensures csum == (start + WordSum(b)) % WORD
  {
    csum := start;
    ghost var carries := 0;
    for i := 0 to |b| / 2
      invariant csum < WORD && csum + WORD * carries == start + WordSum(b[..2 * i])
    {
      WordSumStep(b, i);
      var next := csum + Load(b[2 * i], b[2 * i + 1]);
      carries := carries + next / WORD;
      csum := next % WORD;
    }
    assert b[..2 * (|b| / 2)] == b;
    Wrapped(start + WordSum(b), csum, carries);
  }

  lemma WordSumStep(b: Bytes, i: nat)
    requires 2 * i + 1 < |b|
    ensures WordSum(b[..2 * (i + 1)]) == WordSum(b[..2 * i]) + Load(b[2 * i], b[2 * i + 1])
  {
    var w: Bytes := [b[2 * i], b[2 * i + 1]];
    assert b[..2 * (i + 1)] == b[..2 * i] + w;
    SumAppend(b[..2 * i], w);
    assert w[2..] == [];
  }
}
