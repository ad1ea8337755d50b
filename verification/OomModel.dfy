/** Zone accounting and the out-of-memory cascade of i386/whitex/oomk.h, run by one thread, as functions
    on values: the specification that `OomControl` computes in place and `OomCascade` reasons about.
    Counters are 32-bit and wrap. Tasks live at addresses, so that two entries of the task array may be
    one object. */
module OomModel {
  import opened Common

  const WORD := 0x1_0000_0000
  const MAX_TASKS := 1024
  const NR_ZONES := 3
  const NORMAL := 1
  const SCORE_MAX := 10000
  const ADJ_MIN := -1000
  const SLAB_STEP := 100

  datatype Zone = Zone(managed: nat, free: nat, min: nat, low: nat, high: nat)

  datatype TaskState = Running | Sleeping | Zombie | Dead

  datatype Task = Task(
    pid: nat,
    state: TaskState,
    critical: bool,
    unkillable: bool,
    adj: int,
    rss: nat,
    nice: int)

  /** `halted` is the state after `sys_oom_panic`. */
  datatype Ctrl = Ctrl(
    zones: seq<Zone>,
    reclaimed: nat,
    kills: nat,
    tasks: seq<nat>,
    store: map<nat, Task>,
    halted: bool)

  ghost predicate ZoneOk(z: Zone) {
    z.min <= z.low <= z.high <= z.managed < WORD && z.free < WORD
  }

  function TotalManaged(c: Ctrl): nat
    requires |c.zones| == NR_ZONES
  {
    (c.zones[0].managed + c.zones[1].managed + c.zones[2].managed) % WORD
  }

  ghost predicate Valid(c: Ctrl) {
    && |c.zones| == NR_ZONES && (forall i :: 0 <= i < NR_ZONES ==> ZoneOk(c.zones[i]))
    && TotalManaged(c) > 0 && c.reclaimed < WORD
    && |c.tasks| <= MAX_TASKS && (forall a :: a in c.tasks ==> a in c.store)
    && forall a :: a in c.store ==> c.store[a].rss < WORD
  }

  /** `sys_oom_init`: each zone with its own watermark divisors. */
  function Init(dma: nat, normal: nat, highmem: nat): (c: Ctrl)
    requires dma < WORD && normal < WORD && highmem < WORD && (dma + normal + highmem) % WORD > 0
    ensures Valid(c)
  {
    Ctrl([Zone(dma, dma, dma / 64, dma / 32, dma / 16),
          Zone(normal, normal, normal / 128, normal / 64, normal / 32),
          Zone(highmem, highmem, highmem / 256, highmem / 128, highmem / 64)],
         0, 0, [], map[], false)
  }

  // ---------- reclaim ----------

  /** What one pass of `sys_shrink_slab_caches` gives a zone. */
  function SlabGain(z: Zone): (g: nat)
    requires ZoneOk(z)
    ensures g <= SLAB_STEP && (g > 0 ==> z.free < z.low && z.free + g <= z.high)
  {
    if z.free < z.low then (if z.high - z.free > SLAB_STEP then SLAB_STEP else z.high - z.free) else 0
  }

  function Grow(z: Zone, n: nat): Zone { z.(free := (z.free + n) % WORD) }

  function ShrinkSlab(c: Ctrl): Ctrl
    requires Valid(c)
  {
    var g0, g1, g2 := SlabGain(c.zones[0]), SlabGain(c.zones[1]), SlabGain(c.zones[2]);
    c.(zones := [Grow(c.zones[0], g0), Grow(c.zones[1], g1), Grow(c.zones[2], g2)],
       reclaimed := (c.reclaimed + g0 + g1 + g2) % WORD)
  }

  /** What `sys_shrink_page_cache` gives the normal zone. */
  function CacheGain(z: Zone): nat {
    if z.free < z.high then (z.high - z.free) / 2 else 0
  }

  function ShrinkCache(c: Ctrl): Ctrl
    requires Valid(c)
  {
    var g := CacheGain(c.zones[NORMAL]);
    c.(zones := c.zones[NORMAL := Grow(c.zones[NORMAL], g)], reclaimed := (c.reclaimed + g) % WORD)
  }

  // ---------- the killer ----------

  function Exempt(t: Task): bool {
    t.unkillable || t.state == Dead || t.state == Zombie || t.adj == ADJ_MIN
  }

  function Signed(x: int): int { if x >= 0x8000_0000 then x - WORD else x }

  lemma DivLe(x: nat, d: nat)
    requires d > 0
    ensures x / d <= x
  {
    var q := x / d;
    assert x == q * d + x % d;
    MulGrows(q, d);
  }

  lemma {:induction false} MulGrows(q: nat, d: nat)
    requires d > 0
    ensures q * d >= q
  {
    if q > 0 {
      MulGrows(q - 1, d);
      assert q * d == (q - 1) * d + d;
    }
  }

  /** The score before the adjustment, in wrapping 32-bit arithmetic. */
  function RawScore(t: Task, total: nat): (s: nat)
    requires total > 0
    ensures s < WORD
  {
    var s0: nat := t.rss * SCORE_MAX % WORD / total;
    var s1: nat :=
      if t.nice > 0 then (s0 + s0 * t.nice % WORD / 20) % WORD
      else if t.nice < 0 then (s0 - s0 * -t.nice % WORD / 20) % WORD
      else s0;
    DivLe(t.rss * SCORE_MAX % WORD, total);
    if t.critical then s1 / 4 else s1
  }

  /** `sys_calculate_badness`. */
  function Badness(t: Task, total: nat): (s: nat)
    requires total > 0
    ensures s <= SCORE_MAX
    ensures s == 0 <==> Exempt(t)
  {
    if Exempt(t) then 0
    else
      var adjusted := Signed(RawScore(t, total)) + t.adj * 10;
      if adjusted <= 0 then 1 else if adjusted > SCORE_MAX then SCORE_MAX else adjusted
  }

  /** The index `sys_select_bad_process` holds after `n` entries. */
  function Worst(c: Ctrl, n: nat): (w: Option<nat>)
    requires Valid(c) && n <= |c.tasks|
    ensures w.Some? ==> w.value < n && Score(c, w.value) > 0
  {
    if n == 0 then None
    else
      var w := Worst(c, n - 1);
      var s := Score(c, n - 1);
      if s > (if w.Some? then Score(c, w.value) else 0) then Some(n - 1) else w
  }

  function Score(c: Ctrl, i: nat): nat
    requires Valid(c) && i < |c.tasks|
  {
    assert c.tasks[i] in c.tasks;
    Badness(c.store[c.tasks[i]], TotalManaged(c))
  }

  /** `sys_send_sigkill`. */
  function Kill(c: Ctrl, a: nat): (c': Ctrl)
    requires Valid(c) && a in c.store
    ensures Valid(c')
  {
    c.(store := c.store[a := c.store[a].(state := Dead, rss := 0)],
       zones := c.zones[NORMAL := Grow(c.zones[NORMAL], c.store[a].rss)],
       kills := c.kills + 1)
  }

  /** The outcome of `sys_trigger_oom_killer`: the address killed and its pages; without a victim
      the kernel halts. */
  datatype KillRes = KillRes(c: Ctrl, victim: Option<nat>, pages: nat)

  function TriggerKiller(c: Ctrl): (r: KillRes)
    requires Valid(c)
    ensures Valid(r.c) && (r.victim.Some? ==> r.victim.value in c.store && r.c == Kill(c, r.victim.value))
    ensures r.victim.None? ==> r.c == c.(halted := true) && r.pages == 0
    ensures r.victim.Some? ==> r.pages == c.store[r.victim.value].rss
  {
    var w := Worst(c, |c.tasks|);
    if w.None? then KillRes(c.(halted := true), None, 0)
    else
      var a := c.tasks[w.value];
      assert a in c.tasks;
      if c.store[a].pid == 1 || c.store[a].critical then KillRes(c.(halted := true), None, 0)
      else KillRes(Kill(c, a), Some(a), c.store[a].rss)
  }

  // ---------- allocation ----------

  /** Both tests of `sys_alloc_pages`; run by one thread they agree. */
  predicate Enough(c: Ctrl, z: nat, count: nat)
    requires |c.zones| == NR_ZONES && z < NR_ZONES
  {
    c.zones[z].free >= (count + c.zones[z].min) % WORD
  }

  function Take(c: Ctrl, z: nat, count: nat): (c': Ctrl)
    requires Valid(c) && z < NR_ZONES
    ensures Valid(c')
  {
    c.(zones := c.zones[z := c.zones[z].(free := (c.zones[z].free - count) % WORD)])
  }

  datatype Outcome = Allocated | BadZone | Panicked

  datatype AllocRes = AllocRes(c: Ctrl, outcome: Outcome, attempts: nat, victim: Option<nat>, pages: nat)

  /** A zone after some reclaim: it has grown, and if so not beyond its high watermark. */
  ghost predicate Refilled(a: Zone, b: Zone) {
    b == a.(free := b.free) && a.free <= b.free && (b.free != a.free ==> b.free <= a.high)
  }

  lemma SlabRefills(z: Zone)
    requires ZoneOk(z)
    ensures Refilled(z, Grow(z, SlabGain(z)))
  {
  }

  lemma CacheRefills(z: Zone)
    requires ZoneOk(z)
    ensures Refilled(z, Grow(z, CacheGain(z)))
  {
  }

  /** Reclaim never lifts a zone above its high watermark. */
  lemma SlabValid(c: Ctrl)
    requires Valid(c)
    ensures Valid(ShrinkSlab(c))
    ensures forall i :: 0 <= i < NR_ZONES ==> Refilled(c.zones[i], ShrinkSlab(c).zones[i])
  {
    SlabRefills(c.zones[0]);
    SlabRefills(c.zones[1]);
    SlabRefills(c.zones[2]);
  }

  lemma CacheValid(c: Ctrl)
    requires Valid(c)
    ensures Valid(ShrinkCache(c))
    ensures forall i :: 0 <= i < NR_ZONES ==> Refilled(c.zones[i], ShrinkCache(c).zones[i])
  {
    CacheRefills(c.zones[NORMAL]);
  }

  /** `sys_alloc_pages`: four attempts with a reclaim, a second reclaim and a kill between them. */
  function Alloc(c: Ctrl, zone: int, count: nat): (r: AllocRes)
    requires Valid(c)
    ensures Valid(r.c)
  {
    if zone < 0 || zone >= NR_ZONES then AllocRes(c, BadZone, 0, None, 0)
    else if Enough(c, zone, count) then AllocRes(Take(c, zone, count), Allocated, 1, None, 0)
    else
      SlabValid(c);
      SecondAttempt(ShrinkSlab(c), zone, count)
  }

  function SecondAttempt(c: Ctrl, zone: nat, count: nat): (r: AllocRes)
    requires Valid(c) && zone < NR_ZONES
    ensures Valid(r.c)
  {
    if Enough(c, zone, count) then AllocRes(Take(c, zone, count), Allocated, 2, None, 0)
    else
      CacheValid(c);
      ThirdAttempt(ShrinkCache(c), zone, count)
  }

  function ThirdAttempt(c: Ctrl, zone: nat, count: nat): (r: AllocRes)
    requires Valid(c) && zone < NR_ZONES
    ensures Valid(r.c)
  {
    if Enough(c, zone, count) then AllocRes(Take(c, zone, count), Allocated, 3, None, 0)
    else
      var k := TriggerKiller(c);
      if k.victim.None? then AllocRes(k.c, Panicked, 3, None, 0)
      else if Enough(k.c, zone, count) then AllocRes(Take(k.c, zone, count), Allocated, 4, k.victim, k.pages)
      else AllocRes(k.c.(halted := true), Panicked, 4, k.victim, k.pages)
  }

  /** `sys_register_task`, after the caller has filled in the task at address `a`. */
  function RegisterTask(c: Ctrl, a: nat, t: Task): Ctrl {
    var c' := c.(store := c.store[a := t]);
    if |c.tasks| < MAX_TASKS then c'.(tasks := c.tasks + [a]) else c'.(halted := true)
  }

  /** `sys_oom_monitor_check` from zone `i` on, and the pages its kills give back. */
  datatype MonitorRes = MonitorRes(c: Ctrl, pages: nat)

  function Monitor(c: Ctrl, i: nat): (r: MonitorRes)
    requires Valid(c) && i <= NR_ZONES
    ensures Valid(r.c)
    decreases NR_ZONES - i
  {
    if i == NR_ZONES then MonitorRes(c, 0)
    else if c.zones[i].free < c.zones[i].min then
      var k := TriggerKiller(c);
      if k.victim.None? then MonitorRes(k.c, 0)
      else
        var r := Monitor(k.c, i + 1);
        MonitorRes(r.c, k.pages + r.pages)
    else Monitor(c, i + 1)
  }
}
