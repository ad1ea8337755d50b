/** How far reclaim without the lock can lift a zone (i386/whitex/oomk.h:117-150, 202-303). */
module OomReclaim {
  import opened Common
  import opened OomModel
  import opened OomThreads

  /** The share that stands for pages of killed tasks; the others stand for the zones. */
  const KILLS := NR_ZONES

  /** Pages a thread has decided to add: reclaim to zone `k`, or those of a killed task. */
  function Share(pc: Pc, k: nat): nat {
    match pc
    case SlabAdd(_, _, i, amount, _) => if k == i then amount else 0
    case CacheAdd(_, _, amount) => if k == NORMAL then amount else 0
    case KillLock(amount, _) => if k == KILLS then amount else 0
    case KillAdd(amount, _) => if k == KILLS then amount else 0
    case _ => 0
  }

  ghost function Total(pcs: seq<Pc>, k: nat): nat {
    if pcs == [] then 0 else Total(pcs[..|pcs| - 1], k) + Share(pcs[|pcs| - 1], k)
  }

  lemma {:induction false} TotalUpdate(pcs: seq<Pc>, t: nat, pc: Pc, k: nat)
    requires t < |pcs|
    ensures Total(pcs[t := pc], k) == Total(pcs, k) - Share(pcs[t], k) + Share(pc, k)
    ensures Total(pcs, k) >= Share(pcs[t], k)
    decreases |pcs|
  {
    var n := |pcs| - 1;
    if t < n {
      assert pcs[t := pc][..n] == pcs[..n][t := pc];
      TotalUpdate(pcs[..n], t, pc, k);
    } else {
      assert pcs[t := pc][..n] == pcs[..n];
    }
  }

  lemma {:induction false} TotalBound(pcs: seq<Pc>, k: nat, most: nat)
    requires forall t :: 0 <= t < |pcs| ==> Share(pcs[t], k) <= most
    ensures Total(pcs, k) <= |pcs| * most
  {
    if pcs != [] {
      TotalBound(pcs[..|pcs| - 1], k, most);
      assert |pcs| * most == (|pcs| - 1) * most + most;
    }
  }

  /** The most one thread adds to a zone at a time. */
  function StepMax(z: Zone): nat { if z.high / 2 > SLAB_STEP then z.high / 2 else SLAB_STEP }

  /** What a zone can hold: what it started with, or its high watermark and a step more for each other thread. */
  function Limit(z: Zone, threads: nat): nat
    requires threads > 0
  {
    var raced := z.high + (threads - 1) * StepMax(z);
    if raced > z.managed then raced else z.managed
  }

  /** Pages of killed tasks go to the normal zone. */
  function Given(z: nat, pages: nat): nat { if z == NORMAL then pages else 0 }

  /** Free pages and those about to be added stay within the limit, but for those of killed tasks. */
  ghost predicate Within(s: System, given: nat) {
    && Inv(s) && |s.pcs| > 0 && Total(s.pcs, KILLS) <= given
    && (forall z :: 0 <= z < NR_ZONES ==> s.zones[z].low <= s.zones[z].high)
    && (forall z :: 0 <= z < NR_ZONES ==>
          s.zones[z].free + Total(s.pcs, z) + Given(z, Total(s.pcs, KILLS)) <= Limit(s.zones[z], |s.pcs|) + Given(z, given))
    && forall t, z :: 0 <= t < |s.pcs| && 0 <= z < NR_ZONES ==> Share(s.pcs[t], z) <= StepMax(s.zones[z])
  }

  /** The pages of the task that a step decides to kill. */
  function Gift(pc: Pc, ch: Choice): nat { if pc.KillPick? && ch.Victim? then ch.rss else 0 }

  predicate RequestOk(s: System, t: nat, ch: Choice)
    requires Shape(s) && t < |s.pcs|
  {
    s.pcs[t].Idle? && ch.Request? && ch.zone < NR_ZONES ==> ch.count + s.zones[ch.zone].min < WORD
  }

  ghost predicate Room(s: System, given: nat) {
    Shape(s) && |s.pcs| > 0 && forall z :: 0 <= z < NR_ZONES ==> Limit(s.zones[z], |s.pcs|) + given < WORD
  }

  /** Sums that reclaim and the killer make need not be assumed to fit. */
  lemma SumsFitWithin(s: System, t: nat, ch: Choice, given: nat)
    requires Within(s, given) && t < |s.pcs| && RequestOk(s, t, ch) && Room(s, given)
    ensures SumsFit(s, t, ch)
  {
    hide Inv, Limit, StepMax;
    forall k: nat
      ensures Total(s.pcs, k) >= Share(s.pcs[t], k)
    {
      TotalUpdate(s.pcs, t, s.pcs[t], k);
    }
  }

  /** What a step does to the shares of its thread. */
  lemma SharesStep(s: System, t: nat, ch: Choice, z: nat)
    requires Inv(s) && t < |s.pcs| && SumsFit(s, t, ch) && z < NR_ZONES && s.zones[z].low <= s.zones[z].high
    ensures var s', pc := Step(s, t, ch), s.pcs[t];
            && |s'.pcs| == |s.pcs| && s'.pcs == s.pcs[t := s'.pcs[t]] && |s'.zones| == NR_ZONES
            && Share(s'.pcs[t], KILLS) <= Share(pc, KILLS) + Gift(pc, ch)
            && (|| (Share(s'.pcs[t], z) <= Share(pc, z)
                    && s'.zones[z].free + Share(s'.pcs[t], z) + Given(z, Share(s'.pcs[t], KILLS))
                       <= s.zones[z].free + Share(pc, z) + Given(z, Share(pc, KILLS) + Gift(pc, ch)))
                || (Share(pc, z) == 0 && Share(s'.pcs[t], KILLS) == Share(pc, KILLS) == 0 && s'.zones[z].free == s.zones[z].free
                    && s.zones[z].free + Share(s'.pcs[t], z) <= s.zones[z].high && Share(s'.pcs[t], z) <= StepMax(s.zones[z])))
  {
    assert ThreadOk(s, t);
    StepIsExact(s, t, ch);
  }

  lemma ZoneStays(s: System, t: nat, ch: Choice, given: nat, z: nat)
    requires Within(s, given) && t < |s.pcs| && SumsFit(s, t, ch) && z < NR_ZONES
    ensures var s', g := Step(s, t, ch), given + Gift(s.pcs[t], ch);
            && |s'.pcs| == |s.pcs| && |s'.zones| == NR_ZONES
            && Total(s'.pcs, KILLS) <= g
            && s'.zones[z].free + Total(s'.pcs, z) + Given(z, Total(s'.pcs, KILLS)) <= Limit(s.zones[z], |s.pcs|) + Given(z, g)
            && Share(s'.pcs[t], z) <= StepMax(s.zones[z])
  {
    SharesStep(s, t, ch, z);
    hide Step, SumsFit, Share, Gift, StepMax, ThreadOk;
    var pc' := Step(s, t, ch).pcs[t];
    TotalUpdate(s.pcs, t, pc', z);
    TotalUpdate(s.pcs, t, pc', KILLS);
    OthersBound(s.pcs, t, z, StepMax(s.zones[z]));
  }

  /** The threads but `t` together. */
  lemma OthersBound(pcs: seq<Pc>, t: nat, k: nat, most: nat)
    requires t < |pcs| && forall u :: 0 <= u < |pcs| ==> Share(pcs[u], k) <= most
    ensures Total(pcs, k) - Share(pcs[t], k) <= (|pcs| - 1) * most
  {
    var rest := pcs[..t] + pcs[t + 1..];
    TotalBound(rest, k, most);
    WithoutOne(pcs, t, k);
  }

  lemma {:induction false} WithoutOne(pcs: seq<Pc>, t: nat, k: nat)
    requires t < |pcs|
    ensures Total(pcs[..t] + pcs[t + 1..], k) == Total(pcs, k) - Share(pcs[t], k)
    decreases |pcs|
  {
    var n := |pcs| - 1;
    var rest := pcs[..t] + pcs[t + 1..];
    if t < n {
      assert rest[..n - 1] == pcs[..n][..t] + pcs[..n][t + 1..] && rest[n - 1] == pcs[n];
      WithoutOne(pcs[..n], t, k);
    } else {
      assert rest == pcs[..n];
    }
  }

  lemma StepWithin(s: System, t: nat, ch: Choice, given: nat)
    requires Within(s, given) && t < |s.pcs| && SumsFit(s, t, ch)
    ensures Within(Step(s, t, ch), given + Gift(s.pcs[t], ch))
  {
    StepKeepsInv(s, t, ch);
    StepIsExact(s, t, ch);
    SharesStep(s, t, ch, 0);
    hide Inv, Step, SumsFit, Share, Gift;
    var s' := Step(s, t, ch);
    forall z | 0 <= z < NR_ZONES
      ensures s'.zones[z].free + Total(s'.pcs, z) + Given(z, Total(s'.pcs, KILLS)) <= Limit(s'.zones[z], |s'.pcs|) + Given(z, given + Gift(s.pcs[t], ch))
      ensures Share(s'.pcs[t], z) <= StepMax(s'.zones[z]) && Total(s'.pcs, KILLS) <= given + Gift(s.pcs[t], ch)
    {
      ZoneStays(s, t, ch, given, z);
    }
    ZoneStays(s, t, ch, given, 0);
  }

  // ---------- every interleaving ----------

  /** A run in which only requests are assumed to fit. */
  ghost predicate IsFreeRun(ss: seq<System>, moves: seq<Move>) {
    |ss| == |moves| + 1 && forall i :: 0 <= i < |moves| ==> Goes(ss, moves, i)
  }

  ghost predicate Goes(ss: seq<System>, moves: seq<Move>, i: nat)
    requires |ss| == |moves| + 1 && i < |moves|
  {
    var m := moves[i];
    Shape(ss[i]) && m.thread < |ss[i].pcs| && RequestOk(ss[i], m.thread, m.choice) && ss[i + 1] == Step(ss[i], m.thread, m.choice)
  }

  /** Pages of tasks killed in the first `n` moves. */
  ghost function Gifts(ss: seq<System>, moves: seq<Move>, n: nat): nat
    requires IsFreeRun(ss, moves) && n <= |moves|
  {
    if n == 0 then 0
    else
      assert Goes(ss, moves, n - 1);
      Gifts(ss, moves, n - 1) + Gift(ss[n - 1].pcs[moves[n - 1].thread], moves[n - 1].choice)
  }

  lemma {:induction false} GiftsGrow(ss: seq<System>, moves: seq<Move>, n: nat, m: nat)
    requires IsFreeRun(ss, moves) && n <= m <= |moves|
    ensures Gifts(ss, moves, n) <= Gifts(ss, moves, m)
  {
    if n < m {
      GiftsGrow(ss, moves, n, m - 1);
      assert Goes(ss, moves, m - 1);
    }
  }

  lemma {:induction false} IdleOwe(threads: nat, k: nat)
    ensures Total(seq(threads, _ => Idle), k) == 0
  {
    if threads > 0 {
      assert seq(threads, _ => Idle)[..threads - 1] == seq(threads - 1, _ => Idle);
      IdleOwe(threads - 1, k);
    }
  }

  lemma BootWithin(dma: nat, normal: nat, highmem: nat, threads: nat)
    requires dma < WORD && normal < WORD && highmem < WORD && (dma + normal + highmem) % WORD > 0 && threads > 0
    ensures Within(Boot(dma, normal, highmem, threads), 0)
  {
    forall k: nat
      ensures Total(Boot(dma, normal, highmem, threads).pcs, k) == 0
    {
      IdleOwe(threads, k);
    }
  }

  lemma SameLimits(s: System, t: nat, ch: Choice, given: nat)
    requires Inv(s) && t < |s.pcs| && SumsFit(s, t, ch) && Room(s, given)
    ensures Room(Step(s, t, ch), given)
  {
    StepIsExact(s, t, ch);
    OwnLock(s, t, ch);
    hide Step, Inv, SumsFit, Limit;
    var s' := Step(s, t, ch);
    forall z | 0 <= z < NR_ZONES
      ensures Limit(s'.zones[z], |s'.pcs|) == Limit(s.zones[z], |s.pcs|)
    {
      LimitSame(s.zones[z], s'.zones[z], |s.pcs|);
    }
  }

  lemma LimitSame(a: Zone, b: Zone, threads: nat)
    requires b == a.(free := b.free) && threads > 0
    ensures Limit(a, threads) == Limit(b, threads)
  {
  }

  /** In every interleaving of `threads` threads, if requests fit and what a zone can hold, with all pages of killed
      tasks, stays below 2^32: a zone never holds more than it started with, or than its high watermark and a step for
      each other thread, plus the pages of killed tasks; so no sum wraps, the run is one of those in which free counts
      are safe, and no assumption on reclaim is needed. */
  lemma {:induction false} ReclaimIsBounded(dma: nat, normal: nat, highmem: nat, threads: nat,
                                            ss: seq<System>, moves: seq<Move>, n: nat)
    requires dma < WORD && normal < WORD && highmem < WORD && (dma + normal + highmem) % WORD > 0 && threads > 0
    requires IsFreeRun(ss, moves) && ss[0] == Boot(dma, normal, highmem, threads) && n <= |moves|
    requires Room(ss[0], Gifts(ss, moves, |moves|))
    ensures Within(ss[n], Gifts(ss, moves, n)) && Room(ss[n], Gifts(ss, moves, |moves|))
    ensures forall z :: 0 <= z < NR_ZONES ==>
              ss[n].zones[z].min <= ss[n].zones[z].free <= Limit(ss[n].zones[z], |ss[n].pcs|) + Given(z, Gifts(ss, moves, n))
    ensures forall i :: 0 <= i < n ==> Follows(ss, moves, i)
  {
    hide Step, SumsFit, Room, RequestOk, Limit;
    if n == 0 {
      BootWithin(dma, normal, highmem, threads);
    } else {
      ReclaimIsBounded(dma, normal, highmem, threads, ss, moves, n - 1);
      assert Goes(ss, moves, n - 1);
      GiftsGrow(ss, moves, n - 1, |moves|);
      var s, m := ss[n - 1], moves[n - 1];
      LessRoom(s, Gifts(ss, moves, |moves|), Gifts(ss, moves, n - 1));
      SumsFitWithin(s, m.thread, m.choice, Gifts(ss, moves, n - 1));
      StepWithin(s, m.thread, m.choice, Gifts(ss, moves, n - 1));
      SameLimits(s, m.thread, m.choice, Gifts(ss, moves, |moves|));
    }
  }

  lemma LessRoom(s: System, given: nat, less: nat)
    requires Room(s, given) && less <= given
    ensures Room(s, less)
  {
  }

  // ---------- two threads race ----------

  /** A zone of 1600 pages, with watermarks 25, 50 and 100. */
  function Raced(free: nat, lock: Option<nat>, a: Pc, b: Pc): System {
    System([Zone(1600, free, 25, 50, 100), Zone(0, 0, 0, 0, 0), Zone(0, 0, 0, 0, 0)], [lock, None, None], 0, [a, b])
  }

  /** Thread 0 takes 1560 pages; then both threads look at the 40 left, and both refill the zone. */
  function Race(n: nat): System {
    if n == 0 then Raced(1600, None, Idle, Idle)
    else if n == 1 then Raced(1600, None, Look(0, 1560, 0), Idle)
    else if n == 2 then Raced(1600, None, Lock(0, 1560, 0), Idle)
    else if n == 3 then Raced(1600, Some(0), Recheck(0, 1560, 0), Idle)
    else if n == 4 then Raced(1600, Some(0), Subtract(0, 1560), Idle)
    else if n == 5 then Raced(40, Some(0), UnlockTaken(0), Idle)
    else if n == 6 then Raced(40, None, Idle, Idle)
    else if n == 7 then Raced(40, None, Look(0, 100, 0), Idle)
    else if n == 8 then Raced(40, None, SlabLook(0, 100, 0, 0), Idle)
    else if n == 9 then Raced(40, None, SlabAdd(0, 100, 0, 60, 0), Idle)
    else if n == 10 then Raced(40, None, SlabAdd(0, 100, 0, 60, 0), Look(0, 100, 0))
    else if n == 11 then Raced(40, None, SlabAdd(0, 100, 0, 60, 0), SlabLook(0, 100, 0, 0))
    else if n == 12 then Raced(40, None, SlabAdd(0, 100, 0, 60, 0), SlabAdd(0, 100, 0, 60, 0))
    else if n == 13 then Raced(100, None, SlabLook(0, 100, 1, 60), SlabAdd(0, 100, 0, 60, 0))
    else Raced(160, None, SlabLook(0, 100, 1, 60), SlabLook(0, 100, 1, 60))
  }

  function RaceMove(n: nat): Move {
    if n < 6 then Move(0, Request(0, 1560))
    else if n < 9 || n == 12 then Move(0, Request(0, 100))
    else Move(1, Request(0, 100))
  }

  ghost predicate RaceGoes(n: nat) {
    && Shape(Race(n)) && RaceMove(n).thread < |Race(n).pcs| && SumsFit(Race(n), RaceMove(n).thread, RaceMove(n).choice)
    && Race(n + 1) == Step(Race(n), RaceMove(n).thread, RaceMove(n).choice)
  }

  lemma TakingGoes(n: nat)
    requires n < 6
    ensures RaceGoes(n)
  {
  }

  lemma LookingGoes(n: nat)
    requires 6 <= n < 10
    ensures RaceGoes(n)
  {
  }

  lemma AddingGoes(n: nat)
    requires 10 <= n < 14
    ensures RaceGoes(n)
  {
  }

  /** A run of two threads in which reclaim lifts a zone above its high watermark, from below its low one; one thread
      alone never does. */
  lemma RaceExample() returns (ss: seq<System>, moves: seq<Move>)
    ensures IsRun(ss, moves) && |moves| == 14 && Shape(ss[12]) && Shape(ss[14]) && ss[0] == Boot(1600, 0, 0, 2)
    ensures ss[12].zones[0].free < ss[12].zones[0].low && ss[14].zones[0].free == 160 > ss[14].zones[0].high
  {
    hide Step, SumsFit, RaceMove;
    ss := seq(15, i requires 0 <= i < 15 => Race(i));
    moves := seq(14, i requires 0 <= i < 14 => RaceMove(i));
    forall i | 0 <= i < 14
      ensures Follows(ss, moves, i)
    {
      if i < 6 { TakingGoes(i); } else if i < 10 { LookingGoes(i); } else { AddingGoes(i); }
    }
    assert seq(2, _ => Idle) == [Idle, Idle];
  }
}
