/** A thread that nobody disturbs allocates exactly as the sequential cascade does (i386/whitex/oomk.h:236-273), and
    looks at each zone as the sequential monitor does (297-303): the step machine of `OomThreads` has the same functions. */
module OomAlone {
  import opened Common
  import opened OomModel
  import opened OomThreads
  import opened OomOutcome

  /** `n` steps of thread `t` alone lead from `s` to `s'`. */
  ghost predicate Reach(s: System, t: nat, ch: Choice, s': System, n: nat)
    decreases n
  {
    if n == 0 then s == s' else Shape(s) && t < |s.pcs| && Reach(Step(s, t, ch), t, ch, s', n - 1)
  }

  lemma {:induction false} ReachThen(s: System, t: nat, ch: Choice, a: System, n: nat, b: System, m: nat)
    requires Reach(s, t, ch, a, n) && Reach(a, t, ch, b, m)
    ensures Reach(s, t, ch, b, n + m)
    decreases n
  {
    hide Step;
    if n > 0 { ReachThen(Step(s, t, ch), t, ch, a, n - 1, b, m); }
  }

  lemma OneStep(s: System, t: nat, ch: Choice)
    requires Shape(s) && t < |s.pcs|
    ensures Reach(s, t, ch, Step(s, t, ch), 1)
  {
    hide Step;
    assert Reach(Step(s, t, ch), t, ch, Step(s, t, ch), 0);
  }

  /** One step more. */
  lemma Further(s: System, t: nat, ch: Choice, a: System, n: nat)
    requires Reach(s, t, ch, a, n) && Shape(a) && t < |a.pcs|
    ensures Reach(s, t, ch, Step(a, t, ch), n + 1)
  {
    hide Step;
    OneStep(a, t, ch);
    ReachThen(s, t, ch, a, n, Step(a, t, ch), 1);
  }

  /** The system in which thread `t` is at `pc` and the counters are those of `c`. */
  function Where(base: System, t: nat, pc: Pc, c: Ctrl): System
    requires t < |base.pcs|
  {
    base.(zones := c.zones, reclaimed := c.reclaimed, pcs := base.pcs[t := pc])
  }

  /** No lock is taken. */
  ghost predicate Calm(base: System, t: nat) {
    Shape(base) && t < |base.pcs| && forall z :: 0 <= z < 3 ==> base.locks[z] == None
  }

  /** An attempt that finds enough takes its pages and is done. */
  lemma AttemptTakes(base: System, t: nat, ch: Choice, c: Ctrl, z: ZoneId, count: nat, retry: nat)
    requires Calm(base, t) && Valid(c) && Enough(c, z, count)
    ensures Reach(Where(base, t, Look(z, count, retry), c), t, ch, Where(base, t, Idle, Take(c, z, count)), 5)
  {
    var s0 := Where(base, t, Look(z, count, retry), c);
    var s1 := Where(base, t, Lock(z, count, retry), c);
    var s2 := Where(base, t, Recheck(z, count, retry), c).(locks := base.locks[z := Some(t)]);
    var s3 := Where(base, t, Subtract(z, count), c).(locks := base.locks[z := Some(t)]);
    var s4 := Where(base, t, UnlockTaken(z), Take(c, z, count)).(locks := base.locks[z := Some(t)]);
    var s5 := Where(base, t, Idle, Take(c, z, count));
    assert base.locks[z := Some(t)][z := None] == base.locks;
    assert Step(s0, t, ch) == s1 && Step(s1, t, ch) == s2 && Step(s2, t, ch) == s3 && Step(s3, t, ch) == s4 && Step(s4, t, ch) == s5;
    hide Step, Take, Where;
    OneStep(s0, t, ch);
    Further(s0, t, ch, s1, 1);
    Further(s0, t, ch, s2, 2);
    Further(s0, t, ch, s3, 3);
    Further(s0, t, ch, s4, 4);
  }

  /** An attempt that finds too little goes on to what its number calls for. */
  lemma AttemptFails(base: System, t: nat, ch: Choice, c: Ctrl, z: ZoneId, count: nat, retry: nat)
    requires Calm(base, t) && Valid(c) && !Enough(c, z, count)
    ensures Reach(Where(base, t, Look(z, count, retry), c), t, ch, Where(base, t, AfterFailure(z, count, retry), c), 1)
  {
    var s0, s1 := Where(base, t, Look(z, count, retry), c), Where(base, t, AfterFailure(z, count, retry), c);
    assert Step(s0, t, ch) == s1;
    OneStep(s0, t, ch);
  }

  function Grown(c: Ctrl, i: nat, g: nat): Ctrl
    requires i < |c.zones|
  {
    c.(zones := c.zones[i := Grow(c.zones[i], g)])
  }

  ghost predicate ZonesOk(c: Ctrl) {
    |c.zones| == 3 && forall z :: 0 <= z < 3 ==> ZoneOk(c.zones[z])
  }

  lemma SlabZone(base: System, t: nat, ch: Choice, c: Ctrl, z: ZoneId, count: nat, i: ZoneId, sum: nat) returns (n: nat)
    requires Calm(base, t) && ZonesOk(c)
    ensures var g := SlabGain(c.zones[i]);
            Reach(Where(base, t, SlabLook(z, count, i, sum), c), t, ch, Where(base, t, SlabLook(z, count, i + 1, sum + g), Grown(c, i, g)), n)
  {
    if c.zones[i].free < c.zones[i].low {
      SlabLow(base, t, ch, c, z, count, i, sum);
      n := 2;
    } else {
      SlabEnough(base, t, ch, c, z, count, i, sum);
      n := 1;
    }
  }

  lemma SlabLow(base: System, t: nat, ch: Choice, c: Ctrl, z: ZoneId, count: nat, i: ZoneId, sum: nat)
    requires Calm(base, t) && ZonesOk(c) && c.zones[i].free < c.zones[i].low
    ensures var g := SlabGain(c.zones[i]);
            Reach(Where(base, t, SlabLook(z, count, i, sum), c), t, ch, Where(base, t, SlabLook(z, count, i + 1, sum + g), Grown(c, i, g)), 2)
  {
    var g := SlabGain(c.zones[i]);
    var s0 := Where(base, t, SlabLook(z, count, i, sum), c);
    var s1 := Where(base, t, SlabAdd(z, count, i, g, sum), c);
    assert (c.zones[i].high - c.zones[i].free) % WORD == c.zones[i].high - c.zones[i].free;
    assert Step(s0, t, ch) == s1;
    assert Step(s1, t, ch) == Where(base, t, SlabLook(z, count, i + 1, sum + g), Grown(c, i, g));
    hide Step, Grown, SlabGain;
    OneStep(s0, t, ch);
    Further(s0, t, ch, s1, 1);
  }

  lemma SlabEnough(base: System, t: nat, ch: Choice, c: Ctrl, z: ZoneId, count: nat, i: ZoneId, sum: nat)
    requires Calm(base, t) && ZonesOk(c) && c.zones[i].free >= c.zones[i].low
    ensures var g := SlabGain(c.zones[i]);
            Reach(Where(base, t, SlabLook(z, count, i, sum), c), t, ch, Where(base, t, SlabLook(z, count, i + 1, sum + g), Grown(c, i, g)), 1)
  {
    var s0 := Where(base, t, SlabLook(z, count, i, sum), c);
    assert Grown(c, i, 0) == c;
    assert Step(s0, t, ch) == Where(base, t, SlabLook(z, count, i + 1, sum), c);
    OneStep(s0, t, ch);
  }

  lemma ReachThree(t: nat, ch: Choice, a: System, b: System, c: System, d: System, n: nat, m: nat, k: nat)
    requires Reach(a, t, ch, b, n) && Reach(b, t, ch, c, m) && Reach(c, t, ch, d, k)
    ensures Reach(a, t, ch, d, n + m + k)
  {
    hide Reach;
    ReachThen(a, t, ch, b, n, c, m);
    ReachThen(a, t, ch, c, n + m, d, k);
  }

  lemma ReachFour(t: nat, ch: Choice, a: System, b: System, c: System, d: System, e: System, n: nat, m: nat, k: nat, l: nat)
    requires Reach(a, t, ch, b, n) && Reach(b, t, ch, c, m) && Reach(c, t, ch, d, k) && Reach(d, t, ch, e, l)
    ensures Reach(a, t, ch, e, n + m + k + l)
  {
    hide Reach;
    ReachThen(a, t, ch, b, n, c, m);
    ReachThen(a, t, ch, c, n + m, d, k);
    ReachThen(a, t, ch, d, n + m + k, e, l);
  }

  /** The zones as the pass leaves them one by one. */
  lemma SlabZones(c: Ctrl) returns (c1: Ctrl, c2: Ctrl, c3: Ctrl)
    requires Valid(c)
    ensures ZonesOk(c) && ZonesOk(c1) && ZonesOk(c2)
    ensures c1 == Grown(c, 0, SlabGain(c.zones[0])) && c1.zones[1] == c.zones[1]
    ensures c2 == Grown(c1, 1, SlabGain(c.zones[1])) && c2.zones[2] == c.zones[2]
    ensures c3 == Grown(c2, 2, SlabGain(c.zones[2])) && c3 == c.(zones := ShrinkSlab(c).zones)
  {
    c1 := Grown(c, 0, SlabGain(c.zones[0]));
    c2 := Grown(c1, 1, SlabGain(c.zones[1]));
    c3 := Grown(c2, 2, SlabGain(c.zones[2]));
  }

  /** The pass over the slab caches. */
  lemma SlabPass(base: System, t: nat, ch: Choice, c: Ctrl, z: ZoneId, count: nat) returns (n: nat)
    requires Calm(base, t) && Valid(c)
    ensures Reach(Where(base, t, SlabLook(z, count, 0, 0), c), t, ch, Where(base, t, Look(z, count, 1), ShrinkSlab(c)), n)
  {
    hide ShrinkSlab, Grown, SlabGain, Where, Reach;
    var c1, c2, c3 := SlabZones(c);
    var g0, g1, g2 := SlabGain(c.zones[0]), SlabGain(c.zones[1]), SlabGain(c.zones[2]);
    var n0 := SlabZone(base, t, ch, c, z, count, 0, 0);
    var n1 := SlabZone(base, t, ch, c1, z, count, 1, g0);
    var n2 := SlabZone(base, t, ch, c2, z, count, 2, g0 + g1);
    SlabEnd(base, t, ch, c, c3, z, count, g0 + g1 + g2);
    ReachFour(t, ch, Where(base, t, SlabLook(z, count, 0, 0), c), Where(base, t, SlabLook(z, count, 1, g0), c1),
              Where(base, t, SlabLook(z, count, 2, g0 + g1), c2), Where(base, t, SlabLook(z, count, 3, g0 + g1 + g2), c3),
              Where(base, t, Look(z, count, 1), ShrinkSlab(c)), n0, n1, n2, 2);
    n := n0 + n1 + n2 + 2;
  }

  lemma SlabEnd(base: System, t: nat, ch: Choice, c: Ctrl, c3: Ctrl, z: ZoneId, count: nat, sum: nat)
    requires Calm(base, t) && Valid(c) && c3 == c.(zones := ShrinkSlab(c).zones)
    requires sum == SlabGain(c.zones[0]) + SlabGain(c.zones[1]) + SlabGain(c.zones[2])
    ensures Reach(Where(base, t, SlabLook(z, count, 3, sum), c3), t, ch, Where(base, t, Look(z, count, 1), ShrinkSlab(c)), 2)
  {
    var s0, s1 := Where(base, t, SlabLook(z, count, 3, sum), c3), Where(base, t, SlabSum(z, count, sum), c3);
    assert Step(s0, t, ch) == s1 && Step(s1, t, ch) == Where(base, t, Look(z, count, 1), ShrinkSlab(c));
    OneStep(s0, t, ch);
    Further(s0, t, ch, s1, 1);
  }

  /** The pass over the page cache. */
  lemma CachePass(base: System, t: nat, ch: Choice, c: Ctrl, z: ZoneId, count: nat) returns (n: nat)
    requires Calm(base, t) && Valid(c)
    ensures Reach(Where(base, t, CacheLook(z, count), c), t, ch, Where(base, t, Look(z, count, 2), ShrinkCache(c)), n)
  {
    var g := CacheGain(c.zones[NORMAL]);
    var s0 := Where(base, t, CacheLook(z, count), c);
    var s2 := Where(base, t, CacheSum(z, count, g), Grown(c, NORMAL, g));
    var s3 := Where(base, t, Look(z, count, 2), ShrinkCache(c));
    assert Step(s2, t, ch) == s3;
    OneStep(s0, t, ch);
    if c.zones[NORMAL].free < c.zones[NORMAL].high {
      var s1 := Where(base, t, CacheAdd(z, count, g), c);
      assert Step(s0, t, ch) == s1 && Step(s1, t, ch) == s2;
      Further(s0, t, ch, s1, 1);
      n := 2;
    } else {
      assert Grown(c, NORMAL, g) == c;
      assert Step(s0, t, ch) == s2;
      n := 1;
    }
    Further(s0, t, ch, s2, n);
    n := n + 1;
  }

  /** The kill gives the victim's pages to the normal zone under its lock. */
  lemma KillTail(base: System, t: nat, c: Ctrl, rss: nat, back: Pc)
    requires Calm(base, t) && ZonesOk(c)
    ensures Reach(Where(base, t, KillLock(rss, back), c), t, Victim(rss), Where(base, t, back, Grown(c, NORMAL, rss)), 3)
  {
    var ch := Victim(rss);
    var s1 := Where(base, t, KillLock(rss, back), c);
    var s2 := Where(base, t, KillAdd(rss, back), c).(locks := base.locks[NORMAL := Some(t)]);
    var s3 := Where(base, t, KillUnlock(back), Grown(c, NORMAL, rss)).(locks := base.locks[NORMAL := Some(t)]);
    var s4 := Where(base, t, back, Grown(c, NORMAL, rss));
    assert base.locks[NORMAL := Some(t)][NORMAL := None] == base.locks;
    assert Step(s1, t, ch) == s2 && Step(s2, t, ch) == s3 && Step(s3, t, ch) == s4;
    hide Step, Where, Grown;
    OneStep(s1, t, ch);
    Further(s1, t, ch, s2, 1);
    Further(s1, t, ch, s3, 2);
  }

  lemma KillPass(base: System, t: nat, c: Ctrl, z: ZoneId, count: nat, rss: nat)
    requires Calm(base, t) && ZonesOk(c)
    ensures Reach(Where(base, t, KillPick(z, count), c), t, Victim(rss), Where(base, t, Look(z, count, 3), Grown(c, NORMAL, rss)), 4)
  {
    var s0, s1 := Where(base, t, KillPick(z, count), c), Where(base, t, KillLock(rss, Look(z, count, 3)), c);
    assert Step(s0, t, Victim(rss)) == s1;
    OneStep(s0, t, Victim(rss));
    KillTail(base, t, c, rss, Look(z, count, 3));
    hide Step, Where, Grown, Reach;
    ReachThen(s0, t, Victim(rss), s1, 1, Where(base, t, Look(z, count, 3), Grown(c, NORMAL, rss)), 3);
  }

  // ---------- the whole call ----------

  /** What the killer answers in the sequential cascade. */
  function Answer(c: Ctrl): Choice
    requires Valid(c)
  {
    var k := TriggerKiller(c);
    if k.victim.None? then NoVictim else Victim(k.pages)
  }

  /** Where the call ends: back with the pages, or halted. */
  function Ending(r: AllocRes): Pc { if r.outcome == Allocated then Idle else Halted }

  /** The attempt after the kill is the last. */
  lemma LastAlone(base: System, t: nat, ch: Choice, c: Ctrl, z: ZoneId, count: nat) returns (n: nat)
    requires Calm(base, t) && Valid(c)
    ensures Enough(c, z, count) ==> Reach(Where(base, t, Look(z, count, 3), c), t, ch, Where(base, t, Idle, Take(c, z, count)), n)
    ensures !Enough(c, z, count) ==> Reach(Where(base, t, Look(z, count, 3), c), t, ch, Where(base, t, Halted, c), n)
  {
    if Enough(c, z, count) {
      AttemptTakes(base, t, ch, c, z, count, 3);
      n := 5;
    } else {
      AttemptFails(base, t, ch, c, z, count, 3);
      n := 1;
    }
  }

  lemma KillAlone(base: System, t: nat, c: Ctrl, z: ZoneId, count: nat) returns (n: nat)
    requires Calm(base, t) && Valid(c) && !Enough(c, z, count)
    ensures var r := ThirdAttempt(c, z, count);
            Reach(Where(base, t, KillPick(z, count), c), t, Answer(c), Where(base, t, Ending(r), r.c), n)
  {
    var ch, s1, k := Answer(c), Where(base, t, KillPick(z, count), c), TriggerKiller(c);
    var r := ThirdAttempt(c, z, count);
    var last := Where(base, t, Ending(r), r.c);
    if k.victim.None? {
      assert Step(s1, t, ch) == last;
      OneStep(s1, t, ch);
      n := 1;
    } else {
      KillPass(base, t, c, z, count, k.pages);
      var s2 := Where(base, t, Look(z, count, 3), k.c);
      assert s2 == Where(base, t, Look(z, count, 3), Grown(c, NORMAL, k.pages));
      n := LastAlone(base, t, ch, k.c, z, count);
      assert last == if Enough(k.c, z, count) then Where(base, t, Idle, Take(k.c, z, count)) else Where(base, t, Halted, k.c);
      hide Where, TriggerKiller, Take;
      ReachThen(s1, t, ch, s2, 4, last, n);
      n := n + 4;
    }
  }

  lemma ThirdAlone(base: System, t: nat, c: Ctrl, z: ZoneId, count: nat) returns (n: nat)
    requires Calm(base, t) && Valid(c)
    ensures var r := ThirdAttempt(c, z, count);
            Reach(Where(base, t, Look(z, count, 2), c), t, Answer(c), Where(base, t, Ending(r), r.c), n)
  {
    var ch := Answer(c);
    if Enough(c, z, count) {
      AttemptTakes(base, t, ch, c, z, count, 2);
      n := 5;
    } else {
      AttemptFails(base, t, ch, c, z, count, 2);
      n := KillAlone(base, t, c, z, count);
      var r := ThirdAttempt(c, z, count);
      hide Where, ThirdAttempt, Answer;
      ReachThen(Where(base, t, Look(z, count, 2), c), t, ch, Where(base, t, KillPick(z, count), c), 1, Where(base, t, Ending(r), r.c), n);
      n := n + 1;
    }
  }

  lemma SecondAlone(base: System, t: nat, c: Ctrl, z: ZoneId, count: nat) returns (n: nat)
    requires Calm(base, t) && Valid(c)
    ensures Valid(ShrinkCache(c))
    ensures var r := SecondAttempt(c, z, count);
            Reach(Where(base, t, Look(z, count, 1), c), t, Answer(ShrinkCache(c)), Where(base, t, Ending(r), r.c), n)
  {
    CacheValid(c);
    var c2 := ShrinkCache(c);
    var ch := Answer(c2);
    if Enough(c, z, count) {
      AttemptTakes(base, t, ch, c, z, count, 1);
      n := 5;
    } else {
      AttemptFails(base, t, ch, c, z, count, 1);
      var n1 := CachePass(base, t, ch, c, z, count);
      var n2 := ThirdAlone(base, t, c2, z, count);
      var r := SecondAttempt(c, z, count);
      assert r == ThirdAttempt(c2, z, count);
      hide Where, ThirdAttempt, SecondAttempt, Answer, ShrinkCache;
      var s0, s1 := Where(base, t, Look(z, count, 1), c), Where(base, t, CacheLook(z, count), c);
      ReachThen(s0, t, ch, s1, 1, Where(base, t, Look(z, count, 2), c2), n1);
      ReachThen(s0, t, ch, Where(base, t, Look(z, count, 2), c2), 1 + n1, Where(base, t, Ending(r), r.c), n2);
      n := 1 + n1 + n2;
    }
  }

  lemma AfterFirst(c: Ctrl, z: ZoneId, count: nat)
    requires Valid(c) && !Enough(c, z, count)
    ensures Valid(ShrinkSlab(c)) && Valid(ShrinkCache(ShrinkSlab(c)))
    ensures Alloc(c, z, count) == SecondAttempt(ShrinkSlab(c), z, count) && Answer(ShrinkCache(ShrinkSlab(c))) == Answer(c)
  {
    hide Answer, SecondAttempt;
    SlabValid(c);
    var c1 := ShrinkSlab(c);
    CacheValid(c1);
    SameAnswer(c, ShrinkCache(c1));
  }

  lemma FirstAlone(base: System, t: nat, c: Ctrl, c1: Ctrl, ch: Choice, r: AllocRes, z: ZoneId, count: nat) returns (n: nat)
    requires Calm(base, t) && Valid(c) && !Enough(c, z, count) && c1 == ShrinkSlab(c) && Valid(c1) && Valid(ShrinkCache(c1))
    requires ch == Answer(ShrinkCache(c1)) && r == SecondAttempt(c1, z, count)
    ensures Reach(Where(base, t, Look(z, count, 0), c), t, ch, Where(base, t, Ending(r), r.c), n)
  {
    assert t < |base.pcs| && AfterFailure(z, count, 0) == SlabLook(z, count, 0, 0);
    hide *;
    AttemptFails(base, t, ch, c, z, count, 0);
    var n1 := SlabPass(base, t, ch, c, z, count);
    var n2 := SecondAlone(base, t, c1, z, count);
    ReachThree(t, ch, Where(base, t, Look(z, count, 0), c), Where(base, t, SlabLook(z, count, 0, 0), c),
               Where(base, t, Look(z, count, 1), c1), Where(base, t, Ending(r), r.c), 1, n1, n2);
    n := 1 + n1 + n2;
  }

  /** Started while no lock is taken and left alone, a thread's allocation ends with exactly the counters of the sequential
      call: at rest if that allocates, halted if it does not. */
  lemma AloneIsSequential(s: System, t: nat, c: Ctrl, z: ZoneId, count: nat) returns (n: nat)
    requires Calm(s, t) && s.pcs[t] == Idle && Valid(c) && s.zones == c.zones && s.reclaimed == c.reclaimed
    ensures var r := Alloc(c, z, count);
            Reach(Step(s, t, Request(z, count)), t, Answer(c), Where(s, t, Ending(r), r.c), n)
  {
    assert Step(s, t, Request(z, count)) == Where(s, t, Look(z, count, 0), c);
    if Enough(c, z, count) {
      AttemptTakes(s, t, Answer(c), c, z, count, 0);
      n := 5;
    } else {
      AfterFirst(c, z, count);
      n := FirstAlone(s, t, c, ShrinkSlab(c), Answer(c), Alloc(c, z, count), z, count);
    }
  }

  lemma SameAnswer(c: Ctrl, w: Ctrl)
    requires Valid(c) && Valid(w) && w.tasks == c.tasks && w.store == c.store
    requires forall z :: 0 <= z < 3 ==> w.zones[z].managed == c.zones[z].managed
    ensures Answer(w) == Answer(c)
  {
    WorstSame(c, w, |c.tasks|);
  }

  // ---------- the monitor ----------

  /** One look of the monitor, alone: a zone below its minimum costs a victim, whose pages the normal zone gets, or halts the
      thread for want of one; any other zone is passed; after the last the monitor is done. */
  lemma MonitorLooks(base: System, t: nat, c: Ctrl, i: Upto, rss: nat)
    requires Calm(base, t) && ZonesOk(c)
    ensures var here := Where(base, t, MonitorLook(i), c);
            if i == 3 then Reach(here, t, Victim(rss), Where(base, t, Idle, c), 1)
            else if Short(c, i) then
              && Reach(here, t, Victim(rss), Where(base, t, MonitorLook(i + 1), Grown(c, NORMAL, rss)), 5)
              && Reach(here, t, NoVictim, Where(base, t, Halted, c), 2)
            else Reach(here, t, Victim(rss), Where(base, t, MonitorLook(i + 1), c), 1)
  {
    var s0 := Where(base, t, MonitorLook(i), c);
    OneStep(s0, t, Victim(rss));
    OneStep(s0, t, NoVictim);
    if i < 3 && Short(c, i) {
      var back := MonitorLook(i + 1);
      var s1, s2 := Where(base, t, MonitorKill(i), c), Where(base, t, KillLock(rss, back), c);
      assert Step(s0, t, Victim(rss)) == s1 && Step(s0, t, NoVictim) == s1 && Step(s1, t, Victim(rss)) == s2;
      assert Step(s1, t, NoVictim) == Where(base, t, Halted, c);
      Further(s0, t, NoVictim, s1, 1);
      Further(s0, t, Victim(rss), s1, 1);
      KillTail(base, t, c, rss, back);
      hide Step, Where, Grown, Reach;
      ReachThen(s0, t, Victim(rss), s2, 2, Where(base, t, back, Grown(c, NORMAL, rss)), 3);
    }
  }
}
