/** When an allocation succeeds, and who is blamed when none does (i386/whitex/oomk.h:90-303), told by the counters
    alone: the free pages and watermarks of each zone, what each reclaim adds to them, and the pages of the victim. */
module OomOutcome {
  import opened Common
  import opened OomModel

  // ---------- when an allocation succeeds ----------

  /** The slab caches lift a zone below its low watermark by 100 pages at most, no further than its high one. */
  ghost function AfterSlab(z: Zone): int {
    if z.free >= z.low then z.free else if z.free + 100 <= z.high then z.free + 100 else z.high
  }

  /** The page cache lifts the normal zone half way to its high watermark. */
  ghost function AfterCache(f: int, high: int): int {
    if f >= high then f else (f + high) / 2
  }

  /** Free pages of a zone once `stage` reclaims have run. */
  ghost function FreeAt(c: Ctrl, z: nat, stage: nat): int
    requires z < 3 && |c.zones| == 3
  {
    var f1 := AfterSlab(c.zones[z]);
    if stage == 0 then c.zones[z].free else if stage == 1 || z != 1 then f1 else AfterCache(f1, c.zones[z].high)
  }

  /** What a request must find: the pages and the zone's minimum, in 32 bits. */
  ghost function Need(c: Ctrl, z: nat, count: nat): nat
    requires z < 3 && |c.zones| == 3
  {
    (count + c.zones[z].min) % 0x1_0000_0000
  }

  /** Nothing but free counts and the count of reclaimed pages differs, and every zone has the free pages of `stage`. */
  ghost predicate AtStage(c: Ctrl, c': Ctrl, stage: nat)
    requires |c.zones| == 3
  {
    && c' == c.(zones := c'.zones, reclaimed := c'.reclaimed) && |c'.zones| == 3
    && forall z :: 0 <= z < 3 ==> c'.zones[z] == c.zones[z].(free := c'.zones[z].free) && c'.zones[z].free == FreeAt(c, z, stage)
  }

  lemma SlabLifts(z: Zone)
    requires ZoneOk(z)
    ensures Grow(z, SlabGain(z)) == z.(free := Grow(z, SlabGain(z)).free) && Grow(z, SlabGain(z)).free == AfterSlab(z)
  {
  }

  lemma CacheLifts(z: Zone)
    requires ZoneOk(z)
    ensures Grow(z, CacheGain(z)) == z.(free := Grow(z, CacheGain(z)).free)
    ensures Grow(z, CacheGain(z)).free == AfterCache(z.free, z.high)
  {
  }

  lemma SlabStage(c: Ctrl)
    requires Valid(c)
    ensures Valid(ShrinkSlab(c)) && AtStage(c, ShrinkSlab(c), 1)
  {
    SlabValid(c);
    SlabLifts(c.zones[0]);
    SlabLifts(c.zones[1]);
    SlabLifts(c.zones[2]);
    hide Grow, SlabGain, AfterSlab;
  }

  lemma CacheStage(c: Ctrl, c1: Ctrl)
    requires Valid(c) && Valid(c1) && AtStage(c, c1, 1)
    ensures Valid(ShrinkCache(c1)) && AtStage(c, ShrinkCache(c1), 2)
  {
    CacheValid(c1);
    CacheLifts(c1.zones[1]);
    hide Grow, CacheGain, AfterSlab, AfterCache;
  }

  /** A request that has been met: `count` pages fewer in its zone, and nothing else. */
  ghost predicate Served(a: Ctrl, b: Ctrl, zone: nat, count: nat) {
    && |a.zones| == |b.zones| == 3 && zone < 3 && b == a.(zones := b.zones)
    && b.zones[zone] == a.zones[zone].(free := b.zones[zone].free)
    && b.zones[zone].free == (a.zones[zone].free - count) % 0x1_0000_0000
    && forall z :: 0 <= z < 3 && z != zone ==> b.zones[z] == a.zones[z]
  }

  /** A task that has been killed: dead, without pages, which the normal zone has. */
  ghost predicate Killed(a: Ctrl, b: Ctrl, victim: nat) {
    && |a.zones| == |b.zones| == 3 && victim in a.store && b == a.(zones := b.zones, store := b.store, kills := a.kills + 1)
    && b.zones[0] == a.zones[0] && b.zones[2] == a.zones[2]
    && b.zones[1] == a.zones[1].(free := (a.zones[1].free + a.store[victim].rss) % 0x1_0000_0000)
    && b.store.Keys == a.store.Keys && b.store[victim] == a.store[victim].(state := Dead, rss := 0)
    && forall t :: t in a.store && t != victim ==> b.store[t] == a.store[t]
  }

  /** The stage at which an attempt that needs no kill succeeds. */
  ghost function Stage(c: Ctrl, z: nat, count: nat): nat
    requires z < 3 && |c.zones| == 3
  {
    if Need(c, z, count) <= FreeAt(c, z, 0) then 0 else if Need(c, z, count) <= FreeAt(c, z, 1) then 1
    else if Need(c, z, count) <= FreeAt(c, z, 2) then 2 else 3
  }

  /** Reclaim never lowers a zone. */
  lemma StagesGrow(c: Ctrl, z: nat)
    requires Valid(c) && z < 3
    ensures FreeAt(c, z, 0) <= FreeAt(c, z, 1) <= FreeAt(c, z, 2)
  {
    assert ZoneOk(c.zones[z]);
  }

  /** An attempt succeeds exactly if the zone has the pages and its minimum at that stage; nothing is reclaimed before the
      first has failed or killed before the third has. What was met is met from the memory of that stage. */
  lemma AllocOutcome(c: Ctrl, zone: nat, count: nat)
    requires Valid(c) && !c.halted && zone < 3
    ensures var r, need := Alloc(c, zone, count), Need(c, zone, count);
            && (r.outcome == Allocated && r.attempts == 1 <==> need <= FreeAt(c, zone, 0))
            && (r.outcome == Allocated && r.attempts == 2 <==> FreeAt(c, zone, 0) < need <= FreeAt(c, zone, 1))
            && (r.outcome == Allocated && r.attempts == 3 <==> FreeAt(c, zone, 1) < need <= FreeAt(c, zone, 2))
            && (r.victim.Some? || r.c.halted <==> FreeAt(c, zone, 2) < need)
    ensures var r, stage := Alloc(c, zone, count), Stage(c, zone, count);
            stage < 3 ==> exists w :: AtStage(c, w, stage) && (stage == 0 ==> w == c) && Served(w, r.c, zone, count)
  {
    StagesGrow(c, zone);
    if Stage(c, zone, count) == 0 {
      assert AtStage(c, c, 0);
      TakeServes(c, zone, count);
    } else {
      hide Take, Served;
      AllocReclaims(c, zone, count);
    }
  }

  /** An allocation that fails at first. */
  lemma AllocReclaims(c: Ctrl, zone: nat, count: nat)
    requires Valid(c) && !c.halted && zone < 3 && Stage(c, zone, count) > 0
    ensures var r, stage := Alloc(c, zone, count), Stage(c, zone, count);
            && (stage == 1 ==> r.outcome == Allocated && r.attempts == 2 && r.victim.None? && !r.c.halted)
            && (stage == 2 ==> r.outcome == Allocated && r.attempts == 3 && r.victim.None? && !r.c.halted)
            && (stage == 3 ==> (r.victim.Some? || r.c.halted) && r.attempts >= 3 && (r.outcome == Allocated ==> r.attempts == 4))
            && (stage < 3 ==> exists w :: AtStage(c, w, stage) && Served(w, r.c, zone, count))
  {
    SlabStage(c);
    var c1 := ShrinkSlab(c);
    CacheStage(c, c1);
    var c2 := ShrinkCache(c1);
    AllocTries(c, c1, c2, zone, count);
    assert Stage(c, zone, count) == 3 ==> FreeAt(c, zone, 2) < Need(c, zone, count);
    hide Alloc, ShrinkSlab, ShrinkCache, FreeAt, Stage;
    if Stage(c, zone, count) == 1 {
      TakeServes(c1, zone, count);
    } else if Stage(c, zone, count) == 2 {
      TakeServes(c2, zone, count);
    } else {
      ThirdFails(c2, zone, count);
    }
  }

  lemma TakeServes(w: Ctrl, zone: nat, count: nat)
    requires Valid(w) && zone < 3
    ensures Served(w, Take(w, zone, count), zone, count)
  {
  }

  lemma AllocTries(c: Ctrl, c1: Ctrl, c2: Ctrl, zone: nat, count: nat)
    requires Valid(c) && zone < 3 && Stage(c, zone, count) > 0
    requires c1 == ShrinkSlab(c) && Valid(c1) && AtStage(c, c1, 1) && c2 == ShrinkCache(c1) && Valid(c2) && AtStage(c, c2, 2)
    ensures var r, stage := Alloc(c, zone, count), Stage(c, zone, count);
            && (stage == 1 ==> r == AllocRes(Take(c1, zone, count), Allocated, 2, None, 0))
            && (stage == 2 ==> r == AllocRes(Take(c2, zone, count), Allocated, 3, None, 0))
            && (stage == 3 ==> r == ThirdAttempt(c2, zone, count))
  {
    assert AtStage(c, c, 0);
    hide ShrinkSlab, ShrinkCache, TriggerKiller, FreeAt, Take, Stage, Need;
    StagesGrow(c, zone);
    StageTells(c, c, zone, count, 0);
    StageTells(c, c1, zone, count, 1);
    StageTells(c, c2, zone, count, 2);
    hide AtStage, Enough, Valid;
  }

  lemma StageTells(c: Ctrl, w: Ctrl, zone: nat, count: nat, stage: nat)
    requires Valid(c) && zone < 3 && stage < 3 && AtStage(c, w, stage)
    ensures Enough(w, zone, count) <==> Stage(c, zone, count) <= stage
  {
    hide AfterSlab, AfterCache;
    StagesGrow(c, zone);
  }

  lemma ThirdFails(c2: Ctrl, zone: nat, count: nat)
    requires Valid(c2) && zone < 3 && !c2.halted && Need(c2, zone, count) > c2.zones[zone].free
    ensures var r := ThirdAttempt(c2, zone, count);
            && (r.victim.Some? || r.c.halted) && r.attempts >= 3 && (r.outcome == Allocated ==> r.attempts == 4)
            && r.victim == TriggerKiller(c2).victim
  {
  }

  // ---------- when a task is killed ----------

  /** Reclaim changes nothing the choice of the victim looks at. */
  lemma {:induction false} WorstSame(c: Ctrl, w: Ctrl, n: nat)
    requires Valid(c) && Valid(w) && w.tasks == c.tasks && w.store == c.store && n <= |c.tasks|
    requires forall z :: 0 <= z < 3 ==> w.zones[z].managed == c.zones[z].managed
    ensures TotalManaged(w) == TotalManaged(c) && Worst(w, n) == Worst(c, n)
    ensures forall i :: 0 <= i < n ==> Score(w, i) == Score(c, i)
  {
    if n > 0 { WorstSame(c, w, n - 1); }
  }

  /** What follows three failures: the victim chosen from `c` is killed after both reclaims, and the request is met if the
      normal zone, which has the victim's pages now, is the one asked and has enough; in all other cases the kernel
      halts. */
  ghost predicate AfterFailures(c: Ctrl, w: Ctrl, k: Ctrl, zone: nat, count: nat, r: AllocRes)
    requires Valid(c) && zone < 3
  {
    && AtStage(c, w, 2) && r.victim == TriggerKiller(c).victim
    && (r.victim.None? ==> r == AllocRes(w.(halted := true), Panicked, 3, None, 0))
    && (r.victim.Some? ==>
          var v := r.victim.value;
          && v in c.store && Killed(w, k, v) && r.attempts == 4 && r.pages == c.store[v].rss
          && if zone == 1 && Need(c, zone, count) <= (FreeAt(c, 1, 2) + c.store[v].rss) % 0x1_0000_0000
             then r.outcome == Allocated && Served(k, r.c, zone, count)
             else r.outcome == Panicked && r.c == k.(halted := true))
  }

  lemma KillOutcome(c: Ctrl, zone: nat, count: nat) returns (w: Ctrl, k: Ctrl)
    requires Valid(c) && !c.halted && zone < 3 && FreeAt(c, zone, 2) < Need(c, zone, count)
    ensures AfterFailures(c, w, k, zone, count, Alloc(c, zone, count))
  {
    StagesGrow(c, zone);
    SlabStage(c);
    var c1 := ShrinkSlab(c);
    CacheStage(c, c1);
    w := ShrinkCache(c1);
    AllocTries(c, c1, w, zone, count);
    k := TriggerKiller(w).c;
    hide ShrinkSlab, ShrinkCache, Alloc;
    ThirdOutcome(c, w, zone, count);
  }

  lemma ThirdIs(w: Ctrl, zone: nat, count: nat)
    requires Valid(w) && zone < 3 && !Enough(w, zone, count)
    ensures var t := TriggerKiller(w);
            ThirdAttempt(w, zone, count) ==
              if t.victim.None? then AllocRes(t.c, Panicked, 3, None, 0)
              else if Enough(t.c, zone, count) then AllocRes(Take(t.c, zone, count), Allocated, 4, t.victim, t.pages)
              else AllocRes(t.c.(halted := true), Panicked, 4, t.victim, t.pages)
  {
    hide TriggerKiller, Take, Enough;
  }

  lemma ThirdOutcome(c: Ctrl, w: Ctrl, zone: nat, count: nat)
    requires Valid(c) && Valid(w) && !w.halted && zone < 3 && AtStage(c, w, 2) && FreeAt(c, zone, 2) < Need(c, zone, count)
    ensures AfterFailures(c, w, TriggerKiller(w).c, zone, count, ThirdAttempt(w, zone, count))
  {
    StillShort(c, w, zone, count);
    ThirdIs(w, zone, count);
    SameVictim(c, w);
    TriggerKills(w);
    var t := TriggerKiller(w);
    hide *;
    if t.victim.Some? { TakeServes(t.c, zone, count); }
    FailuresAre(c, w, t, zone, count, ThirdAttempt(w, zone, count));
  }

  lemma FailuresAre(c: Ctrl, w: Ctrl, t: KillRes, zone: nat, count: nat, r: AllocRes)
    requires Valid(c) && Valid(t.c) && |w.zones| == 3 && zone < 3 && AtStage(c, w, 2) && w.store == c.store
    requires FreeAt(c, zone, 2) < Need(c, zone, count) && t.victim == TriggerKiller(c).victim
    requires t.victim.None? ==> t.c == w.(halted := true)
    requires t.victim.Some? ==>
               t.victim.value in w.store && t.pages == w.store[t.victim.value].rss && Killed(w, t.c, t.victim.value)
               && Served(t.c, Take(t.c, zone, count), zone, count)
    requires r == if t.victim.None? then AllocRes(t.c, Panicked, 3, None, 0)
                  else if Enough(t.c, zone, count) then AllocRes(Take(t.c, zone, count), Allocated, 4, t.victim, t.pages)
                  else AllocRes(t.c.(halted := true), Panicked, 4, t.victim, t.pages)
    ensures AfterFailures(c, w, t.c, zone, count, r)
  {
    assert |c.zones| == |t.c.zones| == 3;
    hide FreeAt, TriggerKiller, Need, Take, Served, Enough, Killed, AtStage, Grow, Valid;
    if t.victim.Some? { ShortUnlessNormal(c, w, t.c, t.victim.value, zone, count); }
  }

  lemma StillShort(c: Ctrl, w: Ctrl, zone: nat, count: nat)
    requires |c.zones| == |w.zones| == 3 && zone < 3 && AtStage(c, w, 2) && FreeAt(c, zone, 2) < Need(c, zone, count)
    ensures !Enough(w, zone, count)
  {
    hide FreeAt;
  }

  lemma ShortUnlessNormal(c: Ctrl, w: Ctrl, k: Ctrl, v: nat, zone: nat, count: nat)
    requires |c.zones| == |w.zones| == |k.zones| == 3 && zone < 3 && AtStage(c, w, 2) && Killed(w, k, v) && v in c.store
    requires FreeAt(c, zone, 2) < Need(c, zone, count)
    ensures Enough(k, zone, count) <==> zone == 1 && Need(c, zone, count) <= (FreeAt(c, 1, 2) + c.store[v].rss) % 0x1_0000_0000
  {
    hide FreeAt;
  }

  lemma SameVictim(c: Ctrl, w: Ctrl)
    requires Valid(c) && Valid(w) && AtStage(c, w, 2)
    ensures TriggerKiller(w).victim == TriggerKiller(c).victim && w.store == c.store
  {
    hide FreeAt;
    WorstSame(c, w, |c.tasks|);
  }

  lemma TriggerKills(w: Ctrl)
    requires Valid(w)
    ensures var t := TriggerKiller(w);
            && Valid(t.c)
            && (t.victim.None? ==> t.c == w.(halted := true) && t.pages == 0)
            && (t.victim.Some? ==>
                  t.victim.value in w.store && t.pages == w.store[t.victim.value].rss && Killed(w, t.c, t.victim.value))
  {
    var t := TriggerKiller(w);
    if t.victim.Some? { KillKills(w, t.victim.value); }
  }

  lemma KillKills(w: Ctrl, a: nat)
    requires Valid(w) && a in w.store
    ensures Killed(w, Kill(w, a), a)
  {
  }

  // ---------- who is blamed ----------

  /** The score of a task with no niceness, adjustment or mark: its share of the memory in ten thousandths, at least 1. */
  lemma BlameValue(t: Task, total: nat)
    requires 0 < total < 0x1_0000_0000 && !Exempt(t) && t.nice == 0 && t.adj == 0 && !t.critical
    requires t.rss <= total && t.rss * 10000 < 0x1_0000_0000
    ensures var b := Badness(t, total);
            1 <= b <= 10000 && t.rss * 10000 < (b + 1) * total && (b * total <= t.rss * 10000 || b == 1)
  {
    assert RawScore(t, total) == t.rss * 10000 / total by { assert t.rss * 10000 % 0x1_0000_0000 == t.rss * 10000; }
    hide RawScore;
    ShareBound(t.rss, total);
    Quotient(t.rss * 10000, total);
  }

  lemma Quotient(x: nat, d: nat)
    requires d > 0
    ensures x / d * d <= x < (x / d + 1) * d && 2 * d == d + d
  {
    var q := x / d;
    assert x == q * d + x % d && (q + 1) * d == q * d + d;
  }

  lemma ShareBound(rss: nat, total: nat)
    requires 0 < total && rss <= total
    ensures rss * 10000 / total <= 10000
  {
    DivMonotone(rss * 10000, total * 10000, total);
    ScaleBack(total);
  }

  lemma ScaleBack(total: nat)
    requires total > 0
    ensures total * 10000 / total == 10000
  {
    var q := total * 10000 / total;
    assert total * q + total * 10000 % total == total * 10000 && total * (q + 1) == total * q + total;
    MulLe(total, q + 1, 10000);
    MulLe(total, 10001, q);
  }

  lemma MulLe(m: nat, a: nat, b: nat)
    ensures a <= b ==> m * a <= m * b
  {
    assert m * b == m * a + m * (b - a);
  }

  lemma QuotientAtLeast(x: nat, d: nat, k: nat)
    requires d > 0 && x >= d * k
    ensures x / d >= k
  {
    var q := x / d;
    assert x == d * q + x % d && d * (q + 1) == d * q + d;
    MulLe(d, q + 1, k);
  }

  lemma DivMonotone(a: nat, b: nat, d: nat)
    requires d > 0 && a <= b
    ensures a / d <= b / d
  {
    var p, q := a / d, b / d;
    assert a == d * p + a % d && b == d * q + b % d;
    assert d * (q + 1) == d * q + d;
    MulLe(d, q + 1, p);
  }

  /** The score after niceness and before the adjustment, without wrapping: a share, up to 20 parts of it more or less,
      and a quarter for a critical task. */
  lemma BlameParts(t: Task, total: nat)
    requires 0 < total < 0x1_0000_0000 && t.rss <= total && t.rss * 10000 < 0x1_0000_0000 && -20 <= t.nice <= 127
    ensures var s, r := t.rss * 10000 / total, RawScore(t, total);
            s <= 10000
            && exists n: nat :: n <= 73500
                 && (t.nice >= 0 ==> 20 * n <= s * (20 + t.nice) < 20 * n + 20)
                 && (t.nice < 0 ==> 20 * n - 20 < s * (20 + t.nice) <= 20 * n)
                 && (if t.critical then 4 * r <= n < 4 * r + 4 else r == n)
  {
    var s := t.rss * 10000 / total;
    ShareBound(t.rss, total);
    var n := NiceScore(s, t.nice);
    NiceBounds(s, t.nice);
    RawIs(t, total);
    hide RawScore, NiceScore;
    assert Share(t.rss, total) == s;
    assert 20 * n - 20 < s * (20 + t.nice) < 20 * n + 20;
  }

  ghost function Share(rss: nat, total: nat): nat
    requires total > 0
  {
    rss * 10000 / total
  }

  /** The score before the adjustment, from the share. */
  ghost function FromShare(s: nat, nice: int, critical: bool): nat {
    var s1: nat :=
      if nice > 0 then (s + s * nice % WORD / 20) % WORD
      else if nice < 0 then (s - s * -nice % WORD / 20) % WORD else s;
    if critical then s1 / 4 else s1
  }

  lemma RawFromShare(t: Task, total: nat)
    requires total > 0 && t.rss * 10000 < 0x1_0000_0000
    ensures RawScore(t, total) == FromShare(Share(t.rss, total), t.nice, t.critical)
  {
    assert t.rss * SCORE_MAX % WORD == t.rss * 10000;
  }

  lemma RawIs(t: Task, total: nat)
    requires 0 < total < 0x1_0000_0000 && t.rss <= total && t.rss * 10000 < 0x1_0000_0000 && -20 <= t.nice <= 127
    ensures var n := NiceScore(Share(t.rss, total), t.nice);
            Share(t.rss, total) <= 10000 && RawScore(t, total) == if t.critical then n / 4 else n
  {
    ShareBound(t.rss, total);
    RawFromShare(t, total);
    hide RawScore, Share;
    WithoutWrap(Share(t.rss, total), t.nice, t.critical);
  }

  lemma WithoutWrap(s: nat, nice: int, critical: bool)
    requires s <= 10000 && -20 <= nice <= 127
    ensures FromShare(s, nice, critical) == if critical then NiceScore(s, nice) / 4 else NiceScore(s, nice)
  {
    NiceBounds(s, nice);
    Wrapless(s * nice, s * -nice, s, nice);
  }

  lemma Wrapless(up: int, down: int, s: nat, nice: int)
    requires s <= 10000 && (nice > 0 ==> 0 <= up <= 1270000) && (nice < 0 ==> 0 <= down <= 20 * s)
    ensures nice > 0 ==> up % WORD == up && (s + up / 20) % WORD == s + up / 20
    ensures nice < 0 ==> down % WORD == down && (s - down / 20) % WORD == s - down / 20 >= 0
  {
  }

  ghost function NiceScore(s: nat, nice: int): int {
    if nice > 0 then s + s * nice / 20 else if nice < 0 then s - s * -nice / 20 else s
  }

  lemma NiceBounds(s: nat, nice: int)
    requires s <= 10000 && -20 <= nice <= 127
    ensures 0 <= NiceScore(s, nice) <= 73500
    ensures nice > 0 ==> 0 <= s * nice <= 1270000
    ensures nice < 0 ==> 0 <= s * -nice <= 20 * s
    ensures nice >= 0 ==> 20 * NiceScore(s, nice) <= s * (20 + nice) < 20 * NiceScore(s, nice) + 20
    ensures nice < 0 ==> 20 * NiceScore(s, nice) - 20 < s * (20 + nice) <= 20 * NiceScore(s, nice)
  {
    assert s * (20 + nice) == s * 20 + s * nice && s * -nice == -(s * nice);
    if nice > 0 { MulLe(s, 0, nice); MulLe(nice, s, 10000); }
    if nice < 0 { MulLe(s, -nice, 20); MulLe(s, 0, -nice); }
  }

  lemma NiceMonotone(s1: nat, s2: nat, n1: int, n2: int)
    requires s1 <= s2 <= 10000 && -20 <= n1 <= n2 <= 127
    ensures NiceScore(s1, n1) <= NiceScore(s2, n2)
  {
    NiceBounds(s1, n1);
    NiceBounds(s2, n2);
    Products(s1, s2, 20 + n1, 20 + n2);
    hide NiceScore;
    Rounded(s1 * (20 + n1), s2 * (20 + n2), s1, s2, n1, n2, NiceScore(s1, n1), NiceScore(s2, n2));
  }

  lemma Products(s1: nat, s2: nat, k1: nat, k2: nat)
    requires s1 <= s2 && k1 <= k2
    ensures s1 * k1 <= s2 * k2 && (k1 <= 20 ==> s1 * k1 <= 20 * s1) && (20 <= k2 ==> 20 * s2 <= s2 * k2)
  {
    MulLe(s1, k1, k2);
    MulLe(k2, s1, s2);
    MulLe(s1, k1, 20);
    MulLe(s2, 20, k2);
  }

  lemma Rounded(x: int, y: int, s1: nat, s2: nat, n1: int, n2: int, p: int, q: int)
    requires n1 <= n2 && s1 <= s2 && x <= y && (n1 < 0 <= n2 ==> x <= 20 * s1 && 20 * s2 <= y)
    requires if n1 >= 0 then 20 * p <= x < 20 * p + 20 else 20 * p - 20 < x <= 20 * p
    requires if n2 >= 0 then 20 * q <= y < 20 * q + 20 else 20 * q - 20 < y <= 20 * q
    ensures p <= q
  {
  }

  /** As long as the share does not wrap, more pages, more niceness, a higher adjustment and the lack of the critical mark
      never lower the score. */
  lemma BlameMonotone(a: Task, b: Task, total: nat)
    requires 0 < total < 0x1_0000_0000 && !Exempt(a) && !Exempt(b)
    requires a.rss <= b.rss <= total && b.rss * 10000 < 0x1_0000_0000
    requires -20 <= a.nice <= b.nice <= 127 && a.adj <= b.adj && (b.critical ==> a.critical)
    ensures Badness(a, total) <= Badness(b, total)
  {
    RawMonotone(a, b, total);
    hide RawScore;
  }

  lemma RawMonotone(a: Task, b: Task, total: nat)
    requires 0 < total < 0x1_0000_0000 && a.rss <= b.rss <= total && b.rss * 10000 < 0x1_0000_0000
    requires -20 <= a.nice <= b.nice <= 127 && (b.critical ==> a.critical)
    ensures RawScore(a, total) <= RawScore(b, total) <= 73500
  {
    RawIs(a, total);
    RawIs(b, total);
    DivMonotone(a.rss * 10000, b.rss * 10000, total);
    assert Share(a.rss, total) <= Share(b.rss, total);
    hide RawScore, NiceScore, Share;
    NiceLe(a, b, Share(a.rss, total), Share(b.rss, total));
  }

  lemma NiceLe(a: Task, b: Task, s1: nat, s2: nat)
    requires s1 <= s2 <= 10000 && -20 <= a.nice <= b.nice <= 127 && (b.critical ==> a.critical)
    ensures var n1, n2 := NiceScore(s1, a.nice), NiceScore(s2, b.nice);
            0 <= n1 <= n2 <= 73500
            && (if a.critical then n1 / 4 else n1) <= (if b.critical then n2 / 4 else n2) <= 73500
  {
    NiceMonotone(s1, s2, a.nice, b.nice);
    NiceRange(s1, a.nice);
    NiceRange(s2, b.nice);
    hide NiceScore;
  }

  lemma NiceRange(s: nat, nice: int)
    requires s <= 10000 && -20 <= nice <= 127
    ensures 0 <= NiceScore(s, nice) <= 73500
  {
    NiceBounds(s, nice);
  }

  function Plain(rss: nat): Task { Task(2, Running, false, false, 0, rss, 0) }

  /** No plain task of at most `n` pages is blamed after one with fewer. */
  ghost predicate Ordered(total: nat, n: nat)
    requires total > 0
  {
    forall x: nat, y: nat :: x <= y <= n ==> Badness(Plain(x), total) <= Badness(Plain(y), total)
  }

  /** Plain tasks are blamed in the order of their sizes exactly up to 429496 pages; a task of one page more wraps to next
      to nothing. (With a single page of memory the sign is lost at half of that.) */
  lemma BlameOrder(total: nat, n: nat)
    requires 0 < total <= 2_147_480_000
    ensures Ordered(total, n) <==> n <= if total == 1 then 214_748 else 429_496
  {
    var most := if total == 1 then 214_748 else 429_496;
    if n <= most {
      forall x: nat, y: nat | x <= y <= n
        ensures Badness(Plain(x), total) <= Badness(Plain(y), total)
      {
        DivMonotone(x * 10000, y * 10000, total);
        PlainScore(x, total);
        PlainScore(y, total);
        hide Badness, RawScore;
      }
    } else {
      Wrapped(total);
      hide Badness;
      assert most + 1 <= n && Badness(Plain(most + 1), total) < Badness(Plain(most), total);
    }
  }

  ghost function Clip(x: int): int { if x <= 0 then 1 else if x > 10000 then 10000 else x }

  lemma PlainRaw(x: nat, total: nat)
    requires total > 0
    ensures Badness(Plain(x), total) == Clip(Signed(x * 10000 % 0x1_0000_0000 / total))
  {
  }

  lemma PlainScore(x: nat, total: nat)
    requires 0 < total && x <= if total == 1 then 214_748 else 429_496
    ensures Badness(Plain(x), total) == Clip(x * 10000 / total)
  {
    PlainRaw(x, total);
    hide Badness;
    assert x * 10000 % 0x1_0000_0000 == x * 10000;
    if total > 1 { QuotientAtMost(x * 10000, total, 2, 2_147_480_000); }
  }

  lemma QuotientAtMost(x: nat, d: nat, least: nat, most: nat)
    requires d >= least > 0 && x <= most * least
    ensures x / d <= most
  {
    var q := x / d;
    assert x == d * q + x % d && least * (most + 1) == most * least + least;
    MulLe(q, least, d);
    MulLe(least, most + 1, q);
  }

  lemma BelowOne(x: nat, d: nat)
    requires x < d
    ensures x / d == 0
  {
  }

  lemma Wrapped(total: nat)
    requires 0 < total <= 2_147_480_000
    ensures var most := if total == 1 then 214_748 else 429_496;
            Badness(Plain(most + 1), total) < Badness(Plain(most), total)
  {
    PlainRaw(214_749, total);
    PlainRaw(429_497, total);
    PlainScore(if total == 1 then 214_748 else 429_496, total);
    hide Badness;
    assert 429_497 * 10000 % 0x1_0000_0000 == 2704;
    var a, b := 4_294_960_000 / total, 2704 / total;
    if total > 2704 {
      assert b == 0 by { BelowOne(2704, total); }
      QuotientAtLeast(4_294_960_000, total, 2);
    } else {
      DivLe(2704, total);
      QuotientAtLeast(4_294_960_000, total, 20_000);
    }
  }

  // ---------- watermarks and the monitor ----------

  lemma InitWatermarks(dma: nat, normal: nat, highmem: nat)
    requires dma < WORD && normal < WORD && highmem < WORD && (dma + normal + highmem) % WORD > 0
    ensures var zs := Init(dma, normal, highmem).zones;
            && (forall z :: 0 <= z < 3 ==> zs[z].free == zs[z].managed)
            && zs[0].managed == dma && zs[1].managed == normal && zs[2].managed == highmem
            && 64 * zs[0].min <= dma < 64 * zs[0].min + 64 && 128 * zs[1].min <= normal < 128 * zs[1].min + 128
            && 256 * zs[2].min <= highmem < 256 * zs[2].min + 256
            && (forall z :: 0 <= z < 3 ==> 2 * zs[z].min <= zs[z].low <= 2 * zs[z].min + 1)
            && (forall z :: 0 <= z < 3 ==> 2 * zs[z].low <= zs[z].high <= 2 * zs[z].low + 1)
  {
  }

  /** A zone the monitor finds below its minimum. */
  ghost predicate Short(c: Ctrl, z: nat)
    requires |c.zones| == 3
  {
    z < 3 && c.zones[z].free < c.zones[z].min
  }

  /** The monitor kills at most once for every zone below its minimum, halts only if one is, and without one does nothing. */
  lemma {:induction false} MonitorDoes(c: Ctrl, i: nat)
    requires Valid(c) && !c.halted && i <= 3
    ensures var r := Monitor(c, i).c;
            && ((forall z :: i <= z < 3 ==> !Short(c, z)) ==> r == c)
            && ((exists z :: i <= z < 3 && Short(c, z)) ==> r.halted || r.kills > c.kills)
            && c.kills <= r.kills <= c.kills + 3 - i
            && |r.zones| == 3 && r.zones[0] == c.zones[0] && r.zones[2] == c.zones[2] && r.tasks == c.tasks && r.reclaimed == c.reclaimed
    decreases 3 - i
  {
    TriggerKills(c);
    var t := TriggerKiller(c);
    if i < 3 {
      if !Short(c, i) { MonitorDoes(c, i + 1); }
      else if t.victim.Some? {
        hide TriggerKiller;
        if !t.c.halted { MonitorDoes(t.c, i + 1); }
      }
    }
  }

  /** A single zone below its minimum, looked at, costs the task that `sys_trigger_oom_killer` chooses, or the kernel. */
  lemma MonitorKills(c: Ctrl)
    requires Valid(c) && !c.halted && exists z :: Short(c, z)
    ensures var t := TriggerKiller(c);
            if t.victim.None? then Monitor(c, 0).c == c.(halted := true)
            else t.victim.value in Monitor(c, 0).c.store && Monitor(c, 0).c.store[t.victim.value].state == Dead
  {
    TriggerKills(c);
    hide TriggerKiller;
    MonitorFirst(c, 0);
  }

  lemma {:induction false} MonitorFirst(c: Ctrl, i: nat)
    requires Valid(c) && i <= 3 && exists z :: i <= z && Short(c, z)
    ensures var t := TriggerKiller(c);
            if t.victim.None? then Monitor(c, i).c == c.(halted := true)
            else t.victim.value in Monitor(c, i).c.store && Monitor(c, i).c.store[t.victim.value].state == Dead
    decreases 3 - i
  {
    TriggerKills(c);
    var t := TriggerKiller(c);
    hide TriggerKiller;
    if i < 3 {
      if !Short(c, i) { MonitorFirst(c, i + 1); }
      else if t.victim.Some? { DeadStays(t.c, i + 1, t.victim.value); }
    }
  }

  lemma {:induction false} DeadStays(c: Ctrl, i: nat, a: nat)
    requires Valid(c) && i <= 3 && a in c.store && c.store[a].state == Dead
    ensures a in Monitor(c, i).c.store && Monitor(c, i).c.store[a].state == Dead
    decreases 3 - i
  {
    TriggerKills(c);
    var t := TriggerKiller(c);
    hide TriggerKiller;
    if i < 3 {
      if !Short(c, i) { DeadStays(c, i + 1, a); }
      else if t.victim.Some? { DeadStays(t.c, i + 1, a); }
    }
  }
}
