/** What the out-of-memory cascade guarantees (i386/whitex/oomk.h:117-303), over every run of one thread. */
module OomCascade {
  import opened Common
  import opened OomModel

  // ---------- the victim ----------

  lemma {:induction false} WorstIsFirstMaximum(c: Ctrl, n: nat)
    requires Valid(c) && n <= |c.tasks|
    ensures var w := Worst(c, n);
            && (w.None? <==> forall i :: 0 <= i < n ==> Score(c, i) == 0)
            && (w.Some? ==> forall i :: 0 <= i < n ==>
                  Score(c, i) <= Score(c, w.value) && (i < w.value ==> Score(c, i) < Score(c, w.value)))
  {
    if n > 0 { WorstIsFirstMaximum(c, n - 1); }
  }

  /** `i` is the entry that would be blamed: the first of greatest badness, and not exempt. */
  ghost predicate Blamed(c: Ctrl, i: nat)
    requires Valid(c)
  {
    && i < |c.tasks| && c.tasks[i] in c.store && !Exempt(c.store[c.tasks[i]])
    && forall j :: 0 <= j < |c.tasks| ==> Score(c, j) <= Score(c, i) && (j < i ==> Score(c, j) < Score(c, i))
  }

  /** The killer kills the first entry of greatest badness, never init, a critical or unkillable task,
      a dead one or a zombie; if that entry is init or critical, or every entry is exempt, the
      kernel halts instead. */
  lemma VictimIsWorst(c: Ctrl)
    requires Valid(c)
    ensures var r := TriggerKiller(c);
            r.victim.Some? ==>
              && (exists i: nat :: Blamed(c, i) && c.tasks[i] == r.victim.value)
              && var t := c.store[r.victim.value];
                 t.pid != 1 && !t.critical && !t.unkillable && t.state != Dead && t.state != Zombie && t.adj != ADJ_MIN
    ensures TriggerKiller(c).victim.None? <==>
              || (forall i :: 0 <= i < |c.tasks| ==> c.tasks[i] in c.store && Exempt(c.store[c.tasks[i]]))
              || (exists i: nat :: Blamed(c, i) && (c.store[c.tasks[i]].pid == 1 || c.store[c.tasks[i]].critical))
  {
    WorstIsFirstMaximum(c, |c.tasks|);
    var w := Worst(c, |c.tasks|);
    assert forall i :: 0 <= i < |c.tasks| ==>
        c.tasks[i] in c.store && (Score(c, i) == 0 <==> Exempt(c.store[c.tasks[i]])) by {
      forall i | 0 <= i < |c.tasks|
        ensures c.tasks[i] in c.store && (Score(c, i) == 0 <==> Exempt(c.store[c.tasks[i]]))
      {
        assert c.tasks[i] in c.tasks;
      }
    }
    if w.Some? {
      assert Blamed(c, w.value);
      assert forall i: nat :: Blamed(c, i) ==> i == w.value;
    } else {
      assert forall i: nat :: !Blamed(c, i);
    }
  }

  // ---------- one allocation ----------

  /** What every outcome of an allocation that started from `c` satisfies. */
  ghost predicate Ends(c: Ctrl, zone: nat, count: nat, r: AllocRes)
    requires zone < NR_ZONES && |c.zones| == NR_ZONES && |r.c.zones| == NR_ZONES
  {
    && r.attempts <= 4
    && r.c.kills == c.kills + (if r.victim.Some? then 1 else 0)
    && (r.victim.Some? ==> r.attempts == 4)
    && r.outcome != BadZone && (r.c.halted <==> r.outcome == Panicked)
    && (r.outcome == Allocated && count + c.zones[zone].min < WORD ==> r.c.zones[zone].free >= c.zones[zone].min)
    && (r.outcome == Allocated ==> exists w :: TakenFrom(c, w, zone, count, r.c))
  }

  /** The successful attempt found memory `w`. It takes exactly the pages asked for and leaves the minimum if and only if request and minimum add up below 2^32. */
  ghost predicate TakenFrom(c: Ctrl, w: Ctrl, zone: nat, count: nat, r: Ctrl)
    requires zone < NR_ZONES && |c.zones| == NR_ZONES && |r.zones| == NR_ZONES
  {
    && Valid(w) && Enough(w, zone, count) && r == Take(w, zone, count) && w.zones[zone].min == c.zones[zone].min
    && var f := r.zones[zone].free;
       f == w.zones[zone].free - count && f >= c.zones[zone].min <==> count + c.zones[zone].min < WORD
  }

  lemma TakeIsExact(c: Ctrl, w: Ctrl, zone: nat, count: nat)
    requires Valid(c) && Valid(w) && zone < NR_ZONES && Enough(w, zone, count) && w.zones[zone].min == c.zones[zone].min
    ensures TakenFrom(c, w, zone, count, Take(w, zone, count))
    ensures count + c.zones[zone].min < WORD ==> Take(w, zone, count).zones[zone].free >= c.zones[zone].min
  {
  }

  lemma ThirdEnds(c: Ctrl, zone: nat, count: nat)
    requires Valid(c) && zone < NR_ZONES && !c.halted
    ensures Ends(c, zone, count, ThirdAttempt(c, zone, count))
  {
    if Enough(c, zone, count) {
      TakeIsExact(c, c, zone, count);
    } else {
      var k := TriggerKiller(c);
      if k.victim.Some? && Enough(k.c, zone, count) { TakeIsExact(c, k.c, zone, count); }
    }
  }

  /** An allocation ends within four attempts and at most one kill, which comes after three of them
      have failed; it halts the kernel exactly when it does not allocate; and it takes exactly the pages asked
      for and leaves the zone its minimum if and only if request and minimum add up below 2^32. A zone out of
      range is refused without any effect. */
  lemma AllocEnds(c: Ctrl, zone: int, count: nat)
    requires Valid(c) && !c.halted
    ensures 0 <= zone < NR_ZONES ==> Ends(c, zone, count, Alloc(c, zone, count))
    ensures !(0 <= zone < NR_ZONES) ==> Alloc(c, zone, count) == AllocRes(c, BadZone, 0, None, 0)
  {
    if 0 <= zone < NR_ZONES {
      if Enough(c, zone, count) {
        TakeIsExact(c, c, zone, count);
      } else {
        SlabValid(c);
        var c1 := ShrinkSlab(c);
        assert Refilled(c.zones[zone], c1.zones[zone]);
        if Enough(c1, zone, count) {
          TakeIsExact(c, c1, zone, count);
        } else {
          CacheValid(c1);
          var c2 := ShrinkCache(c1);
          assert Refilled(c1.zones[zone], c2.zones[zone]);
          ThirdEnds(c2, zone, count);
          var r := ThirdAttempt(c2, zone, count);
          if w :| TakenFrom(c2, w, zone, count, r.c) { assert TakenFrom(c, w, zone, count, r.c); }
        }
      }
    }
  }

  // ---------- conservation ----------

  ghost function Free(c: Ctrl): nat
    requires |c.zones| == NR_ZONES
  {
    c.zones[0].free + c.zones[1].free + c.zones[2].free
  }

  /** Free pages less the pages reclaim has conjured up. */
  ghost function Surplus(c: Ctrl): int
    requires |c.zones| == NR_ZONES
  {
    Free(c) - c.reclaimed
  }

  lemma GrowCarries(z: Zone, n: nat) returns (k: int)
    ensures Grow(z, n).free == z.free + n + k * WORD
  {
    k := -((z.free + n) / WORD);
  }

  lemma SumCarries(x: int) returns (k: int)
    ensures x % WORD == x + k * WORD
  {
    k := -(x / WORD);
  }

  lemma SlabBalances(c: Ctrl) returns (k: int)
    requires Valid(c)
    ensures Surplus(ShrinkSlab(c)) == Surplus(c) + k * WORD
  {
    var g0, g1, g2 := SlabGain(c.zones[0]), SlabGain(c.zones[1]), SlabGain(c.zones[2]);
    var k0 := GrowCarries(c.zones[0], g0);
    var k1 := GrowCarries(c.zones[1], g1);
    var k2 := GrowCarries(c.zones[2], g2);
    var k3 := SumCarries(c.reclaimed + g0 + g1 + g2);
    k := k0 + k1 + k2 - k3;
  }

  lemma CacheBalances(c: Ctrl) returns (k: int)
    requires Valid(c)
    ensures Surplus(ShrinkCache(c)) == Surplus(c) + k * WORD
  {
    var g := CacheGain(c.zones[NORMAL]);
    var k0 := GrowCarries(c.zones[NORMAL], g);
    var k1 := SumCarries(c.reclaimed + g);
    k := k0 - k1;
  }

  lemma TakeBalances(c: Ctrl, z: nat, count: nat) returns (k: int)
    requires Valid(c) && z < NR_ZONES
    ensures Surplus(Take(c, z, count)) == Surplus(c) - count + k * WORD
  {
    k := SumCarries(c.zones[z].free - count);
  }

  lemma KillBalances(c: Ctrl) returns (k: int)
    requires Valid(c)
    ensures var r := TriggerKiller(c); Surplus(r.c) == Surplus(c) + r.pages + k * WORD
  {
    var r := TriggerKiller(c);
    if r.victim.Some? {
      k := GrowCarries(c.zones[NORMAL], r.pages);
    } else {
      k := 0;
    }
  }

  ghost function Handed(r: AllocRes, count: nat): nat { if r.outcome == Allocated then count else 0 }

  lemma ThirdBalances(c: Ctrl, zone: nat, count: nat) returns (k: int)
    requires Valid(c) && zone < NR_ZONES
    ensures var r := ThirdAttempt(c, zone, count);
            Surplus(r.c) == Surplus(c) - Handed(r, count) + r.pages + k * WORD
  {
    if Enough(c, zone, count) {
      k := TakeBalances(c, zone, count);
    } else {
      var r := TriggerKiller(c);
      k := KillBalances(c);
      if r.victim.Some? && Enough(r.c, zone, count) {
        var k1 := TakeBalances(r.c, zone, count);
        k := k + k1;
      }
    }
  }

  lemma SecondBalances(c: Ctrl, zone: nat, count: nat) returns (k: int)
    requires Valid(c) && zone < NR_ZONES
    ensures var r := SecondAttempt(c, zone, count);
            Surplus(r.c) == Surplus(c) - Handed(r, count) + r.pages + k * WORD
  {
    if Enough(c, zone, count) {
      k := TakeBalances(c, zone, count);
    } else {
      CacheValid(c);
      var k1 := CacheBalances(c);
      var k2 := ThirdBalances(ShrinkCache(c), zone, count);
      k := k1 + k2;
    }
  }

  lemma AllocBalances(c: Ctrl, zone: int, count: nat) returns (k: int)
    requires Valid(c)
    ensures var r := Alloc(c, zone, count);
            Surplus(r.c) == Surplus(c) - Handed(r, count) + r.pages + k * WORD
  {
    k := 0;
    if 0 <= zone < NR_ZONES {
      if Enough(c, zone, count) {
        k := TakeBalances(c, zone, count);
      } else {
        SlabValid(c);
        var k1 := SlabBalances(c);
        var k2 := SecondBalances(ShrinkSlab(c), zone, count);
        k := k1 + k2;
      }
    }
  }

  lemma {:induction false} MonitorBalances(c: Ctrl, i: nat) returns (k: int)
    requires Valid(c) && i <= NR_ZONES
    ensures var r := Monitor(c, i); Surplus(r.c) == Surplus(c) + r.pages + k * WORD
    decreases NR_ZONES - i
  {
    if i == NR_ZONES {
      k := 0;
    } else if c.zones[i].free < c.zones[i].min {
      k := KillBalances(c);
      var r := TriggerKiller(c);
      if r.victim.Some? {
        var k1 := MonitorBalances(r.c, i + 1);
        k := k + k1;
      }
    } else {
      k := MonitorBalances(c, i + 1);
    }
  }

  // ---------- runs ----------

  datatype Op = Request(zone: int, count: nat) | Enlist(address: nat, task: Task) | Check

  /** A halted kernel does nothing more. */
  ghost function Next(c: Ctrl, op: Op): Ctrl
    requires Valid(c)
  {
    if c.halted then c
    else
      match op
      case Request(zone, count) => Alloc(c, zone, count).c
      case Enlist(a, t) => RegisterTask(c, a, t)
      case Check => Monitor(c, 0).c
  }

  /** Pages handed out by a call. */
  ghost function Out(c: Ctrl, op: Op): nat
    requires Valid(c)
  {
    if !c.halted && op.Request? then Handed(Alloc(c, op.zone, op.count), op.count) else 0
  }

  /** Pages of killed tasks given back by a call. */
  ghost function Back(c: Ctrl, op: Op): nat
    requires Valid(c)
  {
    if c.halted then 0
    else if op.Request? then Alloc(c, op.zone, op.count).pages
    else if op.Check? then Monitor(c, 0).pages else 0
  }

  ghost predicate OpOk(op: Op) { op.Enlist? ==> op.task.rss < WORD }

  lemma NextValid(c: Ctrl, op: Op)
    requires Valid(c) && OpOk(op)
    ensures Valid(Next(c, op))
  {
  }

  lemma NextBalances(c: Ctrl, op: Op) returns (k: int)
    requires Valid(c) && OpOk(op)
    ensures Valid(Next(c, op)) && Surplus(Next(c, op)) == Surplus(c) - Out(c, op) + Back(c, op) + k * WORD
  {
    NextValid(c, op);
    k := 0;
    if !c.halted {
      match op
      case Request(zone, count) => k := AllocBalances(c, zone, count);
      case Enlist(_, _) =>
      case Check => k := MonitorBalances(c, 0);
    }
  }

  ghost function After(c: Ctrl, ops: seq<Op>): (c': Ctrl)
    requires Valid(c) && forall op :: op in ops ==> OpOk(op)
    ensures Valid(c')
  {
    if ops == [] then c
    else
      var c1 := After(c, ops[..|ops| - 1]);
      NextValid(c1, ops[|ops| - 1]);
      Next(c1, ops[|ops| - 1])
  }

  ghost function TotalOut(c: Ctrl, ops: seq<Op>): nat
    requires Valid(c) && forall op :: op in ops ==> OpOk(op)
  {
    if ops == [] then 0
    else TotalOut(c, ops[..|ops| - 1]) + Out(After(c, ops[..|ops| - 1]), ops[|ops| - 1])
  }

  ghost function TotalBack(c: Ctrl, ops: seq<Op>): nat
    requires Valid(c) && forall op :: op in ops ==> OpOk(op)
  {
    if ops == [] then 0
    else TotalBack(c, ops[..|ops| - 1]) + Back(After(c, ops[..|ops| - 1]), ops[|ops| - 1])
  }

  lemma {:induction false} RunBalances(c: Ctrl, ops: seq<Op>) returns (k: int)
    requires Valid(c) && forall op :: op in ops ==> OpOk(op)
    ensures Surplus(After(c, ops)) == Surplus(c) - TotalOut(c, ops) + TotalBack(c, ops) + k * WORD
    decreases |ops|
  {
    if ops == [] {
      k := 0;
    } else {
      var front, op := ops[..|ops| - 1], ops[|ops| - 1];
      var k1 := RunBalances(c, front);
      var k2 := NextBalances(After(c, front), op);
      k := k1 + k2;
    }
  }

  /** Conservation, over every run after `sys_oom_init`: free pages and pages handed out are the managed
      pages, the reclaimed ones and those of killed tasks, modulo 2^32; exactly so when neither sum
      reaches 2^32. */
  lemma PagesAreConserved(dma: nat, normal: nat, highmem: nat, ops: seq<Op>)
    requires dma < WORD && normal < WORD && highmem < WORD && (dma + normal + highmem) % WORD > 0
    requires forall op :: op in ops ==> OpOk(op)
    ensures var c := Init(dma, normal, highmem);
            var has := Free(After(c, ops)) + TotalOut(c, ops);
            var owed := dma + normal + highmem + After(c, ops).reclaimed + TotalBack(c, ops);
            has % WORD == owed % WORD && (has < WORD && owed < WORD ==> has == owed)
  {
    hide After, TotalOut, TotalBack;
    var c := Init(dma, normal, highmem);
    var k := RunBalances(c, ops);
    SameRemainder(Free(After(c, ops)) + TotalOut(c, ops),
      dma + normal + highmem + After(c, ops).reclaimed + TotalBack(c, ops), k);
  }

  lemma SameRemainder(has: int, owed: int, k: int)
    requires has == owed + k * WORD && 0 <= has && 0 <= owed
    ensures has % WORD == owed % WORD && (has < WORD && owed < WORD ==> has == owed)
  {
  }

  // ---------- kills ----------

  ghost function Living(c: Ctrl): set<nat> { set a | a in c.store && c.store[a].state != Dead }

  /** Every kill uses up a task that was registered alive. */
  ghost predicate KillsPaidFor(c: Ctrl) {
    c.kills <= |c.tasks| && (!c.halted ==> c.kills + |Living(c)| <= |c.tasks|)
  }

  lemma KillPays(c: Ctrl)
    requires Valid(c) && KillsPaidFor(c) && !c.halted
    ensures KillsPaidFor(TriggerKiller(c).c)
  {
    var k := TriggerKiller(c);
    VictimIsWorst(c);
    if k.victim.Some? {
      assert Living(k.c) == Living(c) - {k.victim.value};
      assert k.victim.value in Living(c);
    }
  }

  lemma {:induction false} MonitorPays(c: Ctrl, i: nat)
    requires Valid(c) && KillsPaidFor(c) && !c.halted && i <= NR_ZONES
    ensures KillsPaidFor(Monitor(c, i).c)
    decreases NR_ZONES - i
  {
    if i < NR_ZONES {
      if c.zones[i].free < c.zones[i].min {
        KillPays(c);
        var k := TriggerKiller(c);
        if k.victim.Some? { MonitorPays(k.c, i + 1); }
      } else {
        MonitorPays(c, i + 1);
      }
    }
  }

  lemma AllocPays(c: Ctrl, zone: int, count: nat)
    requires Valid(c) && KillsPaidFor(c) && !c.halted
    ensures KillsPaidFor(Alloc(c, zone, count).c)
  {
    if 0 <= zone < NR_ZONES && !Enough(c, zone, count) {
      SlabValid(c);
      var c1 := ShrinkSlab(c);
      CacheValid(c1);
      var c2 := ShrinkCache(c1);
      assert Living(c2) == Living(c);
      ThirdPays(c2, zone, count);
      if Enough(c1, zone, count) { assert Living(Take(c1, zone, count)) == Living(c); }
    } else if 0 <= zone < NR_ZONES {
      assert Living(Take(c, zone, count)) == Living(c);
    }
  }

  lemma ThirdPays(c: Ctrl, zone: nat, count: nat)
    requires Valid(c) && KillsPaidFor(c) && !c.halted && zone < NR_ZONES
    ensures KillsPaidFor(ThirdAttempt(c, zone, count).c)
  {
    KillPays(c);
    var k := TriggerKiller(c);
    assert Living(Take(c, zone, count)) == Living(c);
    assert Living(Take(k.c, zone, count)) == Living(k.c);
  }

  lemma EnlistPays(c: Ctrl, a: nat, t: Task)
    requires KillsPaidFor(c) && !c.halted
    ensures KillsPaidFor(RegisterTask(c, a, t))
  {
    var c' := RegisterTask(c, a, t);
    assert Living(c') <= Living(c) + {a};
    CardSubset(Living(c'), Living(c) + {a});
  }

  /** In every run kills never exceed the tasks registered, even when registrations reuse an address. */
  lemma {:induction false} KillsNeverExceedTasks(dma: nat, normal: nat, highmem: nat, ops: seq<Op>)
    requires dma < WORD && normal < WORD && highmem < WORD && (dma + normal + highmem) % WORD > 0
    requires forall op :: op in ops ==> OpOk(op)
    ensures KillsPaidFor(After(Init(dma, normal, highmem), ops))
    decreases |ops|
  {
    var c := Init(dma, normal, highmem);
    if ops == [] {
      assert Living(c) == {};
    } else {
      var front, op := ops[..|ops| - 1], ops[|ops| - 1];
      KillsNeverExceedTasks(dma, normal, highmem, front);
      var c1 := After(c, front);
      if !c1.halted {
        match op
        case Request(zone, count) => AllocPays(c1, zone, count);
        case Enlist(a, t) => EnlistPays(c1, a, t);
        case Check => MonitorPays(c1, 0);
      }
    }
  }
}
