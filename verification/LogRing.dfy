/** The log ring of i386/whitex/Kernel.c: the last 128 writes in order, each with a checksum of its text. */
module LogRing {

  const CAPACITY := 128
  const TEXT := 128
  const WORD := 0x1_0000_0000

  /** A signed character other than the terminator. */
  type Char = c: int | -128 <= c < 128 && c != 0 witness 1
  type Text = seq<Char>

  datatype Write = Write(level: nat, time: nat, msg: Text)
  datatype Entry = Entry(level: nat, time: nat, message: Text, checksum: nat)

  // ---------- the checksum ----------

  function Mix(h: nat, c: int): (r: nat)
    ensures r < WORD
  {
    (h * 33 + c) % WORD
  }

  function Hash(s: Text): (h: nat)
    ensures h < WORD
  {
    if s == [] then 5381 else Mix(Hash(s[..|s| - 1]), s[|s| - 1])
  }

  function Cut(s: Text, n: nat): (r: Text)
    ensures |r| <= n && r <= s
  {
    if |s| <= n then s else s[..n]
  }

  /** What is kept of a write: at most 127 characters, but the checksum of up to 128. */
  function Kept(w: Write): Entry {
    Entry(w.level, w.time, Cut(w.msg, TEXT - 1), Hash(Cut(w.msg, TEXT)))
  }

  /** The check of `cmd_sys_logs` fires. */
  predicate Tampered(e: Entry) { Hash(Cut(e.message, TEXT)) != e.checksum }

  /** `sys_calculate_checksum`. */
  method CalculateChecksum(s: Text, len: nat) returns (hash: nat)
    ensures hash == Hash(Cut(s, len))
  {
    hash := 5381;
    var i := 0;
    while i < len && i < |s|
      invariant i <= len && i <= |s| && hash == Hash(s[..i])
    {
      assert s[..i + 1][..i] == s[..i];
      hash := Mix(hash, s[i]);
      i := i + 1;
    }
    assert s[..|s|] == s;
  }

  /** `sys_safe_strncpy`. */
  method SafeCopy(src: Text, max: nat) returns (dest: Text)
    requires max > 0
    ensures dest == Cut(src, max - 1)
  {
    dest := [];
    var i := 0;
    while i < max - 1 && i < |src|
      invariant i <= max - 1 && i <= |src| && dest == src[..i]
    {
      dest := dest + [src[i]];
      i := i + 1;
    }
    assert src[..|src|] == src;
  }

  ghost function Power33(n: nat): nat { if n == 0 then 1 else 33 * Power33(n - 1) }

  /** The characters weighted by descending powers of 33. */
  ghost function Weighted(s: Text): int {
    if s == [] then 0 else s[0] * Power33(|s| - 1) + Weighted(s[1..])
  }

  lemma {:induction false} WeightedAppend(s: Text, c: Char)
    ensures Weighted(s + [c]) == 33 * Weighted(s) + c
  {
    if s == [] {
      assert [c][1..] == [] && Weighted([c]) == c * Power33(0);
    } else {
      WeightedAppend(s[1..], c);
      assert (s + [c])[1..] == s[1..] + [c];
      assert s[0] * Power33(|s|) == 33 * (s[0] * Power33(|s| - 1));
    }
  }

  /** The checksum is 5381 and the characters weighted by powers of 33, cut to 32 bits once. */
  lemma {:induction false} HashIsWeighted(s: Text)
    ensures Hash(s) == (5381 * Power33(|s|) + Weighted(s)) % 0x1_0000_0000
  {
    if s != [] {
      var front, c := s[..|s| - 1], s[|s| - 1];
      HashIsWeighted(front);
      WeightedAppend(front, c);
      assert s == front + [c];
      CutOnce(5381 * Power33(|front|) + Weighted(front), c);
    }
  }

  lemma CutOnce(x: int, c: int)
    ensures (x % WORD * 33 + c) % WORD == (33 * x + c) % WORD
  {
    var q := x / WORD;
    assert 33 * x + c == (x % WORD * 33 + c) + WORD * (33 * q);
    ModDrops(x % WORD * 33 + c, 33 * q);
  }

  lemma ModDrops(y: int, k: int)
    ensures (y + WORD * k) % WORD == y % WORD
  {
    var q := y / WORD;
    assert y + WORD * k == WORD * (q + k) + y % WORD;
  }

  /** 33 is invertible modulo 2^32. */
  lemma Odd(d: int, k: int)
    requires 33 * d == WORD * k && -WORD < d < WORD
    ensures d == 0
  {
    assert 33 * 1041204193 == 8 * WORD + 1;
    assert d == WORD * (1041204193 * k - 8 * d);
  }

  lemma MixInjective(h: nat, h': nat, c: int)
    requires h < WORD && h' < WORD && Mix(h, c) == Mix(h', c)
    ensures h == h'
  {
    var q, q' := (h * 33 + c) / WORD, (h' * 33 + c) / WORD;
    Odd(h - h', q - q');
  }

  lemma {:induction false} HashAppend(s: Text, s': Text, t: Text)
    requires Hash(s + t) == Hash(s' + t)
    ensures Hash(s) == Hash(s')
  {
    if t == [] {
      assert s + t == s && s' + t == s';
    } else {
      var front := t[..|t| - 1];
      assert (s + t)[..|s + t| - 1] == s + front && (s' + t)[..|s' + t| - 1] == s' + front;
      MixInjective(Hash(s + front), Hash(s' + front), t[|t| - 1]);
      HashAppend(s, s', front);
    }
  }

  /** Changing any one character of a stored text changes its checksum, so the check fires. */
  lemma OneChangeIsDetected(e: Entry, k: nat, c: Char)
    requires |e.message| < TEXT && !Tampered(e) && k < |e.message| && c != e.message[k]
    ensures Tampered(e.(message := e.message[k := c]))
  {
    var s := e.message;
    var s' := s[k := c];
    if Hash(s) == Hash(s') {
      assert s == s[..k + 1] + s[k + 1..] && s' == s'[..k + 1] + s[k + 1..];
      HashAppend(s[..k + 1], s'[..k + 1], s[k + 1..]);
      assert s[..k + 1][..k] == s[..k] && s'[..k + 1][..k] == s[..k];
      CharInjective(Hash(s[..k]), s[k], c);
    }
  }

  lemma CharInjective(h: nat, c: Char, c': Char)
    requires Mix(h, c) == Mix(h, c')
    ensures c == c'
  {
    var q, q' := (h * 33 + c) / WORD, (h * 33 + c') / WORD;
    assert c - c' == WORD * (q - q');
  }

  /** When a write is later taken for tampered with: exactly when its text does not fit its field and the
      character cut off is not 32 times the hash of the others short of a multiple of 2^32. */
  lemma FalseAlarmExactly(w: Write)
    ensures Tampered(Kept(w)) <==> |w.msg| >= TEXT && (32 * Hash(w.msg[..TEXT - 1]) + w.msg[TEXT - 1]) % WORD != 0
  {
    if |w.msg| >= TEXT {
      var s := w.msg[..TEXT];
      assert s[..TEXT - 1] == w.msg[..TEXT - 1];
      var h, c := Hash(w.msg[..TEXT - 1]), w.msg[TEXT - 1];
      FixedPoint(h, c);
    }
  }

  lemma FixedPoint(h: nat, c: int)
    requires h < WORD
    ensures Mix(h, c) == h <==> (32 * h + c) % WORD == 0
  {
    var q, r := (32 * h + c) / WORD, (32 * h + c) % WORD;
    assert h * 33 + c == WORD * q + (h + r);
  }

  /** A text of 128 characters or more always raises a false alarm unless its 128th is a multiple of 32. */
  lemma LongTextsAlarm(w: Write)
    requires |w.msg| >= TEXT && (w.msg[TEXT - 1] as int) % 32 != 0
    ensures Tampered(Kept(w))
  {
    hide Hash, Kept, Tampered;
    FalseAlarmExactly(w);
    MultipleOf32(Hash(w.msg[..TEXT - 1]), w.msg[TEXT - 1]);
  }

  lemma MultipleOf32(h: nat, c: int)
    ensures (32 * h + c) % WORD == 0 ==> c % 32 == 0
  {
  }

  function As(): Text { seq(TEXT, _ => 65) }

  /** 128 times the letter A is such a text. */
  lemma AlarmExample()
    ensures Tampered(Kept(Write(0, 0, As())))
  {
    LongTextsAlarm(Write(0, 0, As()));
  }

  // ---------- the ring ----------

  /** The last writes, as many as fit. */
  ghost function Recent(ws: seq<Write>): (r: seq<Write>)
    ensures |r| == if |ws| < CAPACITY then |ws| else CAPACITY
  {
    if |ws| <= CAPACITY then ws else ws[|ws| - CAPACITY..]
  }

  lemma RecentStep(ws: seq<Write>, w: Write)
    ensures Recent(ws + [w]) == (if |ws| >= CAPACITY then Recent(ws)[1..] else Recent(ws)) + [w]
  {
  }

  /** The ring holds the kept forms of `all`, in order from the head. */
  ghost predicate Ring(es: seq<Entry>, head: nat, tail: nat, count: nat, all: seq<Write>) {
    && |es| == CAPACITY && head < CAPACITY && tail == (head + count) % CAPACITY && count == |all| <= CAPACITY
    && forall k :: 0 <= k < count ==> es[(head + k) % CAPACITY] == Kept(all[k])
  }

  lemma RingShape(es: seq<Entry>, head: nat, tail: nat, count: nat, all: seq<Write>)
    requires Ring(es, head, tail, count, all)
    ensures |es| == CAPACITY && head < CAPACITY && tail < CAPACITY && count == |all| <= CAPACITY
  {
  }

  lemma DropFirst(es: seq<Entry>, head: nat, tail: nat, count: nat, all: seq<Write>)
    requires Ring(es, head, tail, count, all) && count > 0
    ensures Ring(es, (head + 1) % CAPACITY, tail, count - 1, all[1..])
  {
    hide Kept;
    var h := (head + 1) % CAPACITY;
    forall k | 0 <= k < count - 1
      ensures es[(h + k) % CAPACITY] == Kept(all[1..][k])
    {
      assert (h + k) % CAPACITY == (head + (k + 1)) % CAPACITY;
    }
  }

  lemma AddLast(es: seq<Entry>, head: nat, tail: nat, count: nat, all: seq<Write>, w: Write)
    requires Ring(es, head, tail, count, all) && count < CAPACITY
    ensures Ring(es[tail := Kept(w)], head, (tail + 1) % CAPACITY, count + 1, all + [w])
  {
    hide Kept;
    forall k | 0 <= k <= count
      ensures es[tail := Kept(w)][(head + k) % CAPACITY] == Kept((all + [w])[k])
    {
      if k < count { assert (head + k) % CAPACITY != tail; }
    }
  }

  class Log {
    const entries: array<Entry>
    var head: nat
    var tail: nat
    var count: nat
    ghost var written: seq<Write>

    /** Walking from the head gives the most recent writes in order. */
    ghost predicate Valid()
      reads this, entries
    {
      entries.Length == CAPACITY && Ring(entries[..], head, tail, count, Recent(written))
    }

    constructor ()
      ensures Valid() && written == [] && fresh(entries)
    {
      entries := new Entry[CAPACITY](_ => Entry(0, 0, [], 0));
      head, tail, count, written := 0, 0, 0, [];
    }

    /** `sys_log_write`; `now` is the tick counter. */
    method WriteLog(level: nat, now: nat, msg: Text)
      requires Valid()
      modifies this, entries
      ensures Valid() && written == old(written) + [Write(level, now, msg)]
    {
      hide Hash, Cut, Kept, Ring;
      ghost var w, all := Write(level, now, msg), Recent(written);
      RecentStep(written, w);
      RingShape(entries[..], head, tail, count, all);
      if count >= CAPACITY {
        DropFirst(entries[..], head, tail, count, all);
        head := (head + 1) % CAPACITY;
        count := count - 1;
        all := all[1..];
        RingShape(entries[..], head, tail, count, all);
      }
      AddLast(entries[..], head, tail, count, all, w);
      var text := SafeCopy(msg, TEXT);
      var checksum := CalculateChecksum(msg, TEXT);
      KeptIs(w);
      entries[tail] := Entry(level, now, text, checksum);
      tail := (tail + 1) % CAPACITY;
      count := count + 1;
      written := written + [w];
    }

    /** The loop of `cmd_sys_logs`: it shows the most recent writes in order, up to the first one that
        looks tampered with, where it panics. */
    method Show() returns (shown: seq<Entry>, panic: bool)
      requires Valid()
      ensures var all := Recent(written);
              && |shown| <= |all| && (panic <==> |shown| < |all|)
              && (forall k :: 0 <= k < |shown| ==> shown[k] == Kept(all[k]) && !Tampered(shown[k]))
              && (panic ==> Tampered(Kept(all[|shown|])))
    {
      hide Hash, Cut, Kept, Recent;
      hide Weighted, Power33;
      shown, panic := [], false;
      var current := head;
      for i := 0 to count
        invariant current == (head + i) % CAPACITY && |shown| == i
        invariant forall k :: 0 <= k < i ==> shown[k] == Kept(Recent(written)[k]) && !Tampered(shown[k])
      {
        var calculated := CalculateChecksum(entries[current].message, TEXT);
        if calculated != entries[current].checksum { return shown, true; }
        shown := shown + [entries[current]];
        NextSlot(head, i);
        current := (current + 1) % CAPACITY;
      }
    }
  }

  lemma NextSlot(head: nat, i: nat)
    ensures ((head + i) % CAPACITY + 1) % CAPACITY == (head + i + 1) % CAPACITY
  {
  }

  lemma KeptIs(w: Write)
    ensures Kept(w) == Entry(w.level, w.time, Cut(w.msg, TEXT - 1), Hash(Cut(w.msg, TEXT)))
  {
  }

  /** As long as every message fits its field, all recent writes are shown whole and nothing ever panics. */
  lemma ShortTextsNeverAlarm(ws: seq<Write>, k: nat)
    requires (forall w :: w in ws ==> |w.msg| < TEXT) && k < |Recent(ws)|
    ensures var w, e := Recent(ws)[k], Kept(Recent(ws)[k]);
            !Tampered(e) && e.message == w.msg && e.level == w.level && e.time == w.time
  {
    assert Recent(ws)[k] in ws;
    FalseAlarmExactly(Recent(ws)[k]);
  }
}
