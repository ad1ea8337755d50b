/** `sys_alloc_pages` and `sys_oom_monitor_check` (i386/whitex/oomk.h) run by any number of threads. */
module OomThreads {
  // One step is one access to shared memory; between two steps of a thread the others may take any
  // number of theirs. Reclaim adds pages without the zone lock, as the source does. Which task the
  // killer picks, and so how many pages it gives back, is left open.

  import opened Common
  import opened OomModel

  type ZoneId = z: nat | z < NR_ZONES

  /** A loop counter over the zones. */
  type Upto = i: nat | i <= NR_ZONES

  /** Where a thread stands; the arguments are its local variables. */
  datatype Pc =
    | Idle
    | Halted
    | Look(zone: ZoneId, count: nat, retry: nat)
    | Lock(zone: ZoneId, count: nat, retry: nat)
    | Recheck(zone: ZoneId, count: nat, retry: nat)
    | Subtract(zone: ZoneId, count: nat)
    | UnlockTaken(zone: ZoneId)
    | UnlockFailed(zone: ZoneId, count: nat, retry: nat)
    | SlabLook(zone: ZoneId, count: nat, i: Upto, sum: nat)
    | SlabAdd(zone: ZoneId, count: nat, target: ZoneId, amount: nat, sum: nat)
    | SlabSum(zone: ZoneId, count: nat, sum: nat)
    | CacheLook(zone: ZoneId, count: nat)
    | CacheAdd(zone: ZoneId, count: nat, amount: nat)
    | CacheSum(zone: ZoneId, count: nat, sum: nat)
    | KillPick(zone: ZoneId, count: nat)
    | KillLock(amount: nat, back: Pc)
    | KillAdd(amount: nat, back: Pc)
    | KillUnlock(back: Pc)
    | MonitorLook(i: Upto)
    | MonitorKill(target: ZoneId)

  datatype System = System(zones: seq<Zone>, locks: seq<Option<nat>>, reclaimed: nat, pcs: seq<Pc>)

  /** What a step needs from outside: a call to start, or the killer's choice. */
  datatype Choice = Request(zone: nat, count: nat) | Monitor | Victim(rss: nat) | NoVictim

  /** How `sys_alloc_pages` goes on after a failed attempt. */
  function AfterFailure(zone: ZoneId, count: nat, retry: nat): Pc {
    if retry == 0 then SlabLook(zone, count, 0, 0)
    else if retry == 1 then CacheLook(zone, count)
    else if retry == 2 then KillPick(zone, count)
    else Halted
  }

  ghost predicate Shape(s: System) { |s.zones| == NR_ZONES && |s.locks| == NR_ZONES }

  function Sum(z: Zone, count: nat): nat { (count + z.min) % WORD }

  function At(s: System, t: nat, pc: Pc): System
    requires t < |s.pcs|
  {
    s.(pcs := s.pcs[t := pc])
  }

  function SetFree(s: System, z: nat, free: nat): System
    requires z < |s.zones|
  {
    s.(zones := s.zones[z := s.zones[z].(free := free)])
  }

  function Acquire(s: System, t: nat, z: nat, held: Pc): System
    requires t < |s.pcs| && z < |s.locks|
  {
    if s.locks[z].None? then At(s, t, held).(locks := s.locks[z := Some(t)]) else s
  }

  function Release(s: System, t: nat, z: nat, next: Pc): System
    requires t < |s.pcs| && z < |s.locks|
  {
    At(s, t, next).(locks := s.locks[z := None])
  }

  /** One step of thread `t`. */
  function Step(s: System, t: nat, ch: Choice): System
    requires Shape(s) && t < |s.pcs|
  {
    match s.pcs[t]
    case Idle =>
      if ch.Request? && ch.zone < NR_ZONES then At(s, t, Look(ch.zone, ch.count, 0))
      else if ch.Monitor? then At(s, t, MonitorLook(0)) else s
    case Halted => s
    case Look(z, n, retry) =>
      At(s, t, if s.zones[z].free >= Sum(s.zones[z], n) then Lock(z, n, retry) else AfterFailure(z, n, retry))
    case Lock(z, n, retry) => Acquire(s, t, z, Recheck(z, n, retry))
    case Recheck(z, n, retry) =>
      At(s, t, if s.zones[z].free >= Sum(s.zones[z], n) then Subtract(z, n) else UnlockFailed(z, n, retry))
    case Subtract(z, n) => At(SetFree(s, z, (s.zones[z].free - n) % WORD), t, UnlockTaken(z))
    case UnlockTaken(z) => Release(s, t, z, Idle)
    case UnlockFailed(z, n, retry) => Release(s, t, z, AfterFailure(z, n, retry))
    case SlabLook(z, n, i, sum) =>
      At(s, t,
        if i == NR_ZONES then SlabSum(z, n, sum)
        else
          var short := (s.zones[i].high - s.zones[i].free) % WORD;
          if s.zones[i].free < s.zones[i].low
          then SlabAdd(z, n, i, if short > SLAB_STEP then SLAB_STEP else short, sum)
          else SlabLook(z, n, i + 1, sum))
    case SlabAdd(z, n, i, amount, sum) =>
      At(SetFree(s, i, (s.zones[i].free + amount) % WORD), t, SlabLook(z, n, i + 1, sum + amount))
    case SlabSum(z, n, sum) => At(s.(reclaimed := (s.reclaimed + sum) % WORD), t, Look(z, n, 1))
    case CacheLook(z, n) =>
      var free := s.zones[NORMAL].free;
      At(s, t, if free < s.zones[NORMAL].high then CacheAdd(z, n, (s.zones[NORMAL].high - free) / 2) else CacheSum(z, n, 0))
    case CacheAdd(z, n, amount) =>
      At(SetFree(s, NORMAL, (s.zones[NORMAL].free + amount) % WORD), t, CacheSum(z, n, amount))
    case CacheSum(z, n, sum) => At(s.(reclaimed := (s.reclaimed + sum) % WORD), t, Look(z, n, 2))
    case KillPick(z, n) =>
      if ch.Victim? then At(s, t, KillLock(ch.rss, Look(z, n, 3)))
      else if ch.NoVictim? then At(s, t, Halted) else s
    case KillLock(amount, back) => Acquire(s, t, NORMAL, KillAdd(amount, back))
    case KillAdd(amount, back) => At(SetFree(s, NORMAL, (s.zones[NORMAL].free + amount) % WORD), t, KillUnlock(back))
    case KillUnlock(back) => Release(s, t, NORMAL, back)
    case MonitorLook(i) =>
      At(s, t, if i == NR_ZONES then Idle
               else if s.zones[i].free < s.zones[i].min then MonitorKill(i) else MonitorLook(i + 1))
    case MonitorKill(i) =>
      if ch.Victim? then At(s, t, KillLock(ch.rss, MonitorLook(i + 1)))
      else if ch.NoVictim? then At(s, t, Halted) else s
  }

  // ---------- the invariant ----------

  /** The zone whose lock a thread at `pc` holds. */
  ghost function Holds(pc: Pc): Option<ZoneId> {
    match pc
    case Recheck(z, _, _) => Some(z)
    case Subtract(z, _) => Some(z)
    case UnlockTaken(z) => Some(z)
    case UnlockFailed(z, _, _) => Some(z)
    case KillAdd(_, _) => Some(NORMAL)
    case KillUnlock(_) => Some(NORMAL)
    case _ => None
  }

  /** The request a thread carries adds up with the minimum of its zone. */
  ghost predicate RequestFits(zones: seq<Zone>, pc: Pc)
    requires |zones| == NR_ZONES
  {
    match pc
    case Look(z, n, _) => n + zones[z].min < WORD
    case Lock(z, n, _) => n + zones[z].min < WORD
    case Recheck(z, n, _) => n + zones[z].min < WORD
    case Subtract(z, n) => n + zones[z].min <= zones[z].free
    case UnlockFailed(z, n, _) => n + zones[z].min < WORD
    case SlabLook(z, n, _, _) => n + zones[z].min < WORD
    case SlabAdd(z, n, _, _, _) => n + zones[z].min < WORD
    case SlabSum(z, n, _) => n + zones[z].min < WORD
    case CacheLook(z, n) => n + zones[z].min < WORD
    case CacheAdd(z, n, _) => n + zones[z].min < WORD
    case CacheSum(z, n, _) => n + zones[z].min < WORD
    case KillPick(z, n) => n + zones[z].min < WORD
    case KillLock(_, back) => Waiting(back) && RequestFits(zones, back)
    case KillAdd(_, back) => Waiting(back) && RequestFits(zones, back)
    case KillUnlock(back) => Waiting(back) && RequestFits(zones, back)
    case MonitorKill(_) => false
    case _ => true
  }

  /** Where the killer returns to. */
  ghost predicate Waiting(pc: Pc) { pc.Look? }

  ghost predicate ThreadOk(s: System, t: nat)
    requires Shape(s) && t < |s.pcs|
  {
    var pc := s.pcs[t];
    RequestFits(s.zones, pc) && (Holds(pc).Some? ==> s.locks[Holds(pc).value] == Some(t))
  }

  ghost predicate ZoneSafe(z: Zone) { z.min <= z.free < WORD && z.high < WORD }

  ghost predicate Inv(s: System) {
    && Shape(s) && (forall i :: 0 <= i < NR_ZONES ==> ZoneSafe(s.zones[i]))
    && forall t :: 0 <= t < |s.pcs| ==> ThreadOk(s, t)
  }

  /** The sums of the next step of thread `t` stay below 2^32. */
  ghost predicate SumsFit(s: System, t: nat, ch: Choice)
    requires Shape(s) && t < |s.pcs|
  {
    match s.pcs[t]
    case Idle => ch.Request? && ch.zone < NR_ZONES ==> ch.count + s.zones[ch.zone].min < WORD
    case SlabAdd(_, _, i, amount, _) => s.zones[i].free + amount < WORD
    case CacheAdd(_, _, amount) => s.zones[NORMAL].free + amount < WORD
    case KillAdd(amount, _) => s.zones[NORMAL].free + amount < WORD
    case _ => true
  }

  function Minus(n: nat): int { 0 - n }

  /** The pages a step adds to zone `z`, as integers. */
  ghost function Delta(s: System, t: nat, z: nat): int
    requires Shape(s) && t < |s.pcs|
  {
    match s.pcs[t]
    case Subtract(zone, n) => if z == zone then Minus(n) else 0
    case SlabAdd(_, _, i, amount, _) => if z == i then amount else 0
    case CacheAdd(_, _, amount) => if z == NORMAL then amount else 0
    case KillAdd(amount, _) => if z == NORMAL then amount else 0
    case _ => 0
  }

  /** No counter ever wraps: every step changes the free counts by exactly what it means to. */
  lemma StepIsExact(s: System, t: nat, ch: Choice)
    requires Inv(s) && t < |s.pcs| && SumsFit(s, t, ch)
    ensures |Step(s, t, ch).zones| == NR_ZONES
    ensures forall z :: 0 <= z < NR_ZONES ==>
              && Step(s, t, ch).zones[z].free == s.zones[z].free + Delta(s, t, z)
              && Step(s, t, ch).zones[z] == s.zones[z].(free := Step(s, t, ch).zones[z].free)
  {
    assert ThreadOk(s, t);
  }

  /** Only the holder of a zone's lock takes pages from it, so no step takes back what another thread
      has checked. */
  lemma OthersKeep(s: System, t: nat, ch: Choice, u: nat)
    requires Inv(s) && t < |s.pcs| && SumsFit(s, t, ch) && u < |s.pcs| && u != t
    ensures Shape(Step(s, t, ch)) && |Step(s, t, ch).pcs| == |s.pcs| && ThreadOk(Step(s, t, ch), u)
  {
    StepIsExact(s, t, ch);
    assert ThreadOk(s, t) && ThreadOk(s, u);
    var s' := Step(s, t, ch);
    assert s'.pcs[u] == s.pcs[u];
    LocksKept(s, t, ch, u);
    FitsKept(s.zones, s'.zones, s.pcs[u]);
  }

  lemma LocksKept(s: System, t: nat, ch: Choice, u: nat)
    requires Inv(s) && t < |s.pcs| && u < |s.pcs| && u != t
    ensures var s' := Step(s, t, ch);
            && |s'.locks| == NR_ZONES && |s'.pcs| == |s.pcs|
            && forall z :: 0 <= z < NR_ZONES && s.locks[z] == Some(u) ==> s'.locks[z] == Some(u)
  {
    assert ThreadOk(s, t);
  }

  lemma {:induction false} FitsKept(a: seq<Zone>, b: seq<Zone>, pc: Pc)
    requires |a| == |b| == NR_ZONES && RequestFits(a, pc)
    requires forall z :: 0 <= z < NR_ZONES ==> a[z].min == b[z].min
    requires pc.Subtract? ==> a[pc.zone].free <= b[pc.zone].free
    ensures RequestFits(b, pc)
  {
    if pc.KillLock? || pc.KillAdd? || pc.KillUnlock? { FitsKept(a, b, pc.back); }
  }

  lemma OwnLock(s: System, t: nat, ch: Choice)
    requires Inv(s) && t < |s.pcs|
    ensures var s' := Step(s, t, ch);
            && |s'.locks| == NR_ZONES && |s'.pcs| == |s.pcs|
            && (Holds(s'.pcs[t]).Some? ==> s'.locks[Holds(s'.pcs[t]).value] == Some(t))
  {
    assert ThreadOk(s, t);
  }

  lemma OwnRequest(s: System, t: nat, ch: Choice)
    requires Inv(s) && t < |s.pcs| && SumsFit(s, t, ch)
    ensures var s' := Step(s, t, ch); Shape(s') && |s'.pcs| == |s.pcs| && RequestFits(s'.zones, s'.pcs[t])
  {
    assert ThreadOk(s, t);
    StepIsExact(s, t, ch);
    var s' := Step(s, t, ch);
    var pc := s.pcs[t];
    if pc.KillLock? || pc.KillAdd? || pc.KillUnlock? { FitsKept(s.zones, s'.zones, pc.back); }
  }

  lemma StepKeepsInv(s: System, t: nat, ch: Choice)
    requires Inv(s) && t < |s.pcs| && SumsFit(s, t, ch)
    ensures Inv(Step(s, t, ch))
  {
    var s' := Step(s, t, ch);
    assert ThreadOk(s, t);
    StepIsExact(s, t, ch);
    OwnLock(s, t, ch);
    OwnRequest(s, t, ch);
    forall u | 0 <= u < |s'.pcs|
      ensures ThreadOk(s', u)
    {
      if u != t { OthersKeep(s, t, ch, u); }
    }
  }

  // ---------- every interleaving ----------

  function Boot(dma: nat, normal: nat, highmem: nat, threads: nat): System
    requires dma < WORD && normal < WORD && highmem < WORD && (dma + normal + highmem) % WORD > 0
  {
    System(Init(dma, normal, highmem).zones, [None, None, None], 0, seq(threads, _ => Idle))
  }

  datatype Move = Move(thread: nat, choice: Choice)

  /** A run in which every thread index exists and no sum reaches 2^32. */
  ghost predicate IsRun(ss: seq<System>, moves: seq<Move>) {
    && |ss| == |moves| + 1
    && forall i :: 0 <= i < |moves| ==> Follows(ss, moves, i)
  }

  ghost predicate Follows(ss: seq<System>, moves: seq<Move>, i: nat)
    requires |ss| == |moves| + 1 && i < |moves|
  {
    var m := moves[i];
    && Shape(ss[i]) && m.thread < |ss[i].pcs|
    && SumsFit(ss[i], m.thread, m.choice) && ss[i + 1] == Step(ss[i], m.thread, m.choice)
  }

  /** In every interleaving of any number of threads, at every moment: each zone has at least its minimum
      and its counter has not wrapped, no two threads hold the same lock, and no monitor is about to
      kill. */
  lemma {:induction false} AccountingIsSafe(dma: nat, normal: nat, highmem: nat, threads: nat,
                                            ss: seq<System>, moves: seq<Move>, n: nat)
    requires dma < WORD && normal < WORD && highmem < WORD && (dma + normal + highmem) % WORD > 0
    requires IsRun(ss, moves) && ss[0] == Boot(dma, normal, highmem, threads) && n < |ss|
    ensures Inv(ss[n])
    ensures forall z :: 0 <= z < NR_ZONES ==> ss[n].zones[z].min <= ss[n].zones[z].free < WORD
    ensures forall t: nat, u: nat :: t < u < |ss[n].pcs| && Holds(ss[n].pcs[t]).Some? ==>
              Holds(ss[n].pcs[t]) != Holds(ss[n].pcs[u])
    ensures forall t: nat :: t < |ss[n].pcs| ==> !ss[n].pcs[t].MonitorKill?
  {
    if n > 0 {
      assert Follows(ss, moves, n - 1);
      AccountingIsSafe(dma, normal, highmem, threads, ss, moves, n - 1);
      StepKeepsInv(ss[n - 1], moves[n - 1].thread, moves[n - 1].choice);
    }
    MutualExclusion(ss[n]);
  }

  lemma MutualExclusion(s: System)
    requires Inv(s)
    ensures forall t: nat, u: nat :: t < u < |s.pcs| && Holds(s.pcs[t]).Some? ==> Holds(s.pcs[t]) != Holds(s.pcs[u])
    ensures forall t: nat :: t < |s.pcs| ==> !s.pcs[t].MonitorKill?
  {
    forall t: nat | t < |s.pcs|
      ensures !s.pcs[t].MonitorKill?
      ensures Holds(s.pcs[t]).Some? ==> s.locks[Holds(s.pcs[t]).value] == Some(t)
    {
      assert ThreadOk(s, t);
    }
  }

  /** The condition on requests is exact: once the check under the lock has passed, the subtraction is
      free of wrap-around and leaves the zone its minimum if and only if request and minimum add up
      below 2^32. */
  lemma RequestMustFit(s: System, t: nat, z: nat, count: nat, retry: nat, ch: Choice)
    requires Shape(s) && t < |s.pcs| && z < NR_ZONES && ZoneSafe(s.zones[z]) && count < WORD
    requires s.pcs[t] == Recheck(z, count, retry) && Step(s, t, ch).pcs[t] == Subtract(z, count)
    ensures var s1 := Step(s, t, ch);
            var left := Step(s1, t, ch).zones[z].free;
            left == s.zones[z].free - count && left >= s.zones[z].min <==> count + s.zones[z].min < WORD
  {
  }

  /** The state after the first `n` steps of one thread that asks for 2^32 - 1 pages of a zone of 64. */
  function Asking(n: nat): System {
    var s := Boot(64, 0, 0, 1);
    if n == 0 then s
    else if n == 1 then At(s, 0, Look(0, WORD - 1, 0))
    else if n == 2 then At(s, 0, Lock(0, WORD - 1, 0))
    else
      var held := s.(locks := s.locks[0 := Some(0)]);
      if n == 3 then At(held, 0, Recheck(0, WORD - 1, 0))
      else if n == 4 then At(held, 0, Subtract(0, WORD - 1))
      else SetFree(At(held, 0, UnlockTaken(0)), 0, 65)
  }

  /** A concrete request whose sum wraps: both checks pass, and the zone ends up with more pages than it has. */
  lemma WrappingRequest()
    ensures Asking(0) == Boot(64, 0, 0, 1)
    ensures forall n: nat :: n < 5 ==>
              Shape(Asking(n)) && 0 < |Asking(n).pcs| && Asking(n + 1) == Step(Asking(n), 0, Request(0, WORD - 1))
    ensures Asking(5).zones[0].free == 65 > Asking(5).zones[0].managed == 64
  {
    forall n: nat | n < 5
      ensures Shape(Asking(n)) && 0 < |Asking(n).pcs| && Asking(n + 1) == Step(Asking(n), 0, Request(0, WORD - 1))
    {
      assert Asking(n).zones[0] == Zone(64, 64, 1, 2, 4);
    }
  }
}
