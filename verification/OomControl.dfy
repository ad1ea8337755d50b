/** The global controller of i386/whitex/oomk.h in its own form: zones and the task array updated in
    place. Locks and atomics have no effect for a single thread; OomThreads models them. */
module OomControl {
  import opened Common
  import opened OomModel

  /** `goal` is what an allocation comes to that stands at `c` after some failed attempts. */
  ghost predicate Leads(c: Ctrl, zone: nat, count: nat, attempts: nat, victim: Option<nat>, goal: AllocRes)
    requires Valid(c) && zone < NR_ZONES
  {
    if attempts == 0 then victim.None? && goal == Alloc(c, zone, count)
    else if attempts == 1 then victim.None? && goal == SecondAttempt(c, zone, count)
    else if attempts == 2 then victim.None? && goal == ThirdAttempt(c, zone, count)
    else goal == LastAttempt(c, zone, count, victim, goal.pages)
  }

  ghost function LastAttempt(c: Ctrl, zone: nat, count: nat, victim: Option<nat>, pages: nat): AllocRes
    requires Valid(c) && zone < NR_ZONES
  {
    if Enough(c, zone, count) then AllocRes(Take(c, zone, count), Allocated, 4, victim, pages)
    else AllocRes(c.(halted := true), Panicked, 4, victim, pages)
  }

  /** One pass of the retry loop. */
  lemma Attempt(c: Ctrl, zone: nat, count: nat, attempts: nat, victim: Option<nat>, goal: AllocRes)
    requires Valid(c) && zone < NR_ZONES && attempts <= 3 && Leads(c, zone, count, attempts, victim, goal)
    ensures Enough(c, zone, count) ==>
              goal.c == Take(c, zone, count) && goal.outcome == Allocated && goal.attempts == attempts + 1 && goal.victim == victim
    ensures !Enough(c, zone, count) ==>
              && (attempts == 0 ==> Valid(ShrinkSlab(c)) && Leads(ShrinkSlab(c), zone, count, 1, None, goal))
              && (attempts == 1 ==> Valid(ShrinkCache(c)) && Leads(ShrinkCache(c), zone, count, 2, None, goal))
              && (attempts == 2 ==>
                    var k := TriggerKiller(c);
                    if k.victim.None? then goal == AllocRes(k.c, Panicked, 3, None, 0)
                    else Leads(k.c, zone, count, 3, k.victim, goal))
              && (attempts == 3 ==>
                    goal.c == c.(halted := true) && goal.outcome == Panicked && goal.attempts == 4 && goal.victim == victim)
  {
    SlabValid(c);
    CacheValid(c);
  }

  class Controller {
    const zones: array<Zone>
    const taskArray: array<nat>
    var active: nat
    var store: map<nat, Task>
    var reclaimed: nat
    var kills: nat
    var halted: bool

    ghost predicate Shape()
      reads this
    {
      zones.Length == NR_ZONES && taskArray.Length == MAX_TASKS && active <= MAX_TASKS
    }

    ghost function View(): Ctrl
      requires Shape()
      reads this, zones, taskArray
    {
      Ctrl(zones[..], reclaimed, kills, taskArray[..active], store, halted)
    }

    ghost predicate Ok()
      reads this, zones, taskArray
    {
      Shape() && Valid(View())
    }

    /** `sys_oom_init`. */
    constructor (dma: nat, normal: nat, highmem: nat)
      requires dma < WORD && normal < WORD && highmem < WORD && (dma + normal + highmem) % WORD > 0
      ensures Ok() && View() == Init(dma, normal, highmem) && fresh(zones) && fresh(taskArray)
    {
      zones := new Zone[NR_ZONES](_ => Zone(0, 0, 0, 0, 0));
      taskArray := new nat[MAX_TASKS](_ => 0);
      active, store, reclaimed, kills, halted := 0, map[], 0, 0, false;
      new;
      zones[0] := Zone(dma, dma, dma / 64, dma / 32, dma / 16);
      zones[1] := Zone(normal, normal, normal / 128, normal / 64, normal / 32);
      zones[2] := Zone(highmem, highmem, highmem / 256, highmem / 128, highmem / 64);
      assert View() == Init(dma, normal, highmem);
    }

    method AddFree(i: nat, n: nat)
      requires Shape() && i < NR_ZONES
      modifies zones
      ensures zones[..] == old(zones[..])[i := Grow(old(zones[i]), n)]
    {
      zones[i] := zones[i].(free := (zones[i].free + n) % WORD);
    }

    /** One pass of the loop of `sys_shrink_slab_caches`. */
    method RefillZone(i: nat) returns (actual: nat)
      requires Shape() && i < NR_ZONES && ZoneOk(zones[i])
      modifies zones
      ensures actual == SlabGain(old(zones[i]))
      ensures zones[..] == old(zones[..])[i := Grow(old(zones[i]), SlabGain(old(zones[i])))]
    {
      var free := zones[i].free;
      actual := 0;
      if free < zones[i].low {
        var target := zones[i].high - free;
        actual := if target > SLAB_STEP then SLAB_STEP else target;
        AddFree(i, actual);
      }
    }

    method RefillZones() returns (total: nat)
      requires Ok()
      modifies zones
      ensures forall k :: 0 <= k < NR_ZONES ==> zones[k] == Grow(old(zones[k]), SlabGain(old(zones[k])))
      ensures total == SlabGain(old(zones[0])) + SlabGain(old(zones[1])) + SlabGain(old(zones[2]))
    {
      ghost var was := zones[..];
      total := 0;
      for i := 0 to NR_ZONES
        invariant zones.Length == NR_ZONES && forall k :: 0 <= k < NR_ZONES ==> ZoneOk(was[k])
        invariant forall k :: 0 <= k < i ==> zones[..][k] == Grow(was[k], SlabGain(was[k]))
        invariant forall k :: i <= k < NR_ZONES ==> zones[..][k] == was[k]
        invariant total == (if i > 0 then SlabGain(was[0]) else 0) + (if i > 1 then SlabGain(was[1]) else 0)
                           + (if i > 2 then SlabGain(was[2]) else 0)
      {
        assert zones[i] == zones[..][i];
        var actual := RefillZone(i);
        total := total + actual;
      }
      assert forall k :: 0 <= k < NR_ZONES ==> zones[k] == zones[..][k];
    }

    /** `sys_shrink_slab_caches`. */
    method ShrinkSlabCaches() returns (total: nat)
      requires Ok()
      modifies this`reclaimed, zones
      ensures Ok() && View() == ShrinkSlab(old(View()))
      ensures total == SlabGain(old(zones[0])) + SlabGain(old(zones[1])) + SlabGain(old(zones[2]))
      ensures total <= 3 * SLAB_STEP
    {
      SlabValid(View());
      ghost var goal := ShrinkSlab(View());
      total := RefillZones();
      reclaimed := (reclaimed + total) % WORD;
      assert zones[..] == goal.zones;
    }

    /** `sys_shrink_page_cache`. */
    method ShrinkPageCache() returns (gain: nat)
      requires Ok()
      modifies this`reclaimed, zones
      ensures Ok() && View() == ShrinkCache(old(View())) && gain == CacheGain(old(zones[NORMAL]))
    {
      CacheValid(View());
      var target, current := zones[NORMAL].high, zones[NORMAL].free;
      gain := 0;
      if current < target { gain := (target - current) / 2; }
      ghost var was := zones[..];
      AddFree(NORMAL, gain);
      reclaimed := (reclaimed + gain) % WORD;
    }

    /** `sys_select_bad_process`: the index of the victim. */
    method SelectBadProcess() returns (victim: Option<nat>)
      requires Ok()
      ensures victim == Worst(View(), active)
    {
      victim := None;
      var highest := 0;
      var total := (zones[0].managed + zones[1].managed + zones[2].managed) % WORD;
      for i := 0 to active
        invariant victim == Worst(View(), i)
        invariant highest == if victim.Some? then Score(View(), victim.value) else 0
      {
        assert taskArray[i] == View().tasks[i] && taskArray[i] in View().tasks;
        var score := Badness(store[taskArray[i]], total);
        if score > highest { highest, victim := score, Some(i); }
      }
    }

    /** `sys_send_sigkill`. */
    method SendSigkill(a: nat)
      requires Ok() && a in store
      modifies this`store, this`kills, zones
      ensures Ok() && View() == Kill(old(View()), a)
    {
      var rss := store[a].rss;
      store := store[a := store[a].(state := Dead)];
      AddFree(NORMAL, rss);
      store := store[a := store[a].(rss := 0)];
      kills := kills + 1;
      assert View() == Kill(old(View()), a);
    }

    /** `sys_trigger_oom_killer`; without a permitted victim the kernel panics and halts. */
    method TriggerOomKiller() returns (victim: Option<nat>)
      requires Ok()
      modifies this`store, this`kills, this`halted, zones
      ensures Ok() && View() == TriggerKiller(old(View())).c && victim == TriggerKiller(old(View())).victim
    {
      var w := SelectBadProcess();
      if w.None? { halted := true; return None; }
      var a := taskArray[w.value];
      assert a == View().tasks[w.value] && a in View().tasks;
      if store[a].pid == 1 || store[a].critical { halted := true; return None; }
      SendSigkill(a);
      return Some(a);
    }

    /** The two tests of one attempt and the subtraction under the lock. */
    method TryTake(zone: nat, count: nat) returns (taken: bool)
      requires Ok() && zone < NR_ZONES
      modifies zones
      ensures Ok() && taken == Enough(old(View()), zone, count)
      ensures View() == if taken then Take(old(View()), zone, count) else old(View())
    {
      taken := false;
      if zones[zone].free >= (count + zones[zone].min) % WORD {
        if zones[zone].free >= (count + zones[zone].min) % WORD {
          zones[zone] := zones[zone].(free := (zones[zone].free - count) % WORD);
          assert View() == Take(old(View()), zone, count);
          return true;
        }
      }
    }

    /** One pass of the retry loop: an attempt and, if it fails, the next measure. */
    method Pass(zone: nat, count: nat, retry: nat, victim: Option<nat>, ghost goal: AllocRes)
        returns (done: bool, outcome: Outcome, victim': Option<nat>)
      requires Ok() && zone < NR_ZONES && retry <= 3 && Leads(View(), zone, count, retry, victim, goal)
      modifies this`store, this`kills, this`halted, this`reclaimed, zones
      ensures Ok()
      ensures done ==> View() == goal.c && outcome == goal.outcome && retry + 1 == goal.attempts && victim' == goal.victim
      ensures !done ==> retry < 3 && Leads(View(), zone, count, retry + 1, victim', goal)
    {
      ghost var before := View();
      Attempt(before, zone, count, retry, victim, goal);
      victim' := victim;
      var taken := TryTake(zone, count);
      if taken { return true, Allocated, victim'; }
      outcome, done := Panicked, false;
      if retry == 0 {
        var _ := ShrinkSlabCaches();
      } else if retry == 1 {
        var _ := ShrinkPageCache();
      } else if retry == 2 {
        victim' := TriggerOomKiller();
        done := victim'.None?;
      } else {
        halted := true;
        done := true;
      }
    }

    /** `sys_alloc_pages`; the jumps back to `retry_allocation` are the passes of a loop. */
    method AllocPages(zone: int, count: nat) returns (outcome: Outcome, attempts: nat, victim: Option<nat>)
      requires Ok()
      modifies this`store, this`kills, this`halted, this`reclaimed, zones
      ensures Ok()
      ensures var r := Alloc(old(View()), zone, count);
              View() == r.c && outcome == r.outcome && attempts == r.attempts && victim == r.victim
    {
      outcome, attempts, victim := BadZone, 0, None;
      if zone < 0 || zone >= NR_ZONES { return; }
      ghost var goal := Alloc(View(), zone, count);
      var done := false;
      while !done
        invariant Ok() && attempts <= 4
        invariant !done ==> attempts <= 3 && Leads(View(), zone, count, attempts, victim, goal)
        invariant done ==> View() == goal.c && outcome == goal.outcome && attempts == goal.attempts && victim == goal.victim
        decreases 4 - attempts, !done
      {
        done, outcome, victim := Pass(zone, count, attempts, victim, goal);
        attempts := attempts + 1;
      }
    }

    /** `sys_register_task`, with the task the caller has stored at `a`. */
    method Register(a: nat, t: Task)
      requires Ok() && t.rss < WORD
      modifies this`active, this`store, this`halted, taskArray
      ensures Ok() && View() == RegisterTask(old(View()), a, t)
    {
      store := store[a := t];
      if active < MAX_TASKS {
        taskArray[active] := a;
        active := active + 1;
        assert taskArray[..active] == old(taskArray[..active]) + [a];
      } else {
        halted := true;
      }
    }

    /** `sys_oom_monitor_check`. */
    method MonitorCheck()
      requires Ok()
      modifies this`store, this`kills, this`halted, zones
      ensures Ok() && View() == Monitor(old(View()), 0).c
    {
      ghost var goal := Monitor(View(), 0).c;
      for i := 0 to NR_ZONES
        invariant Ok() && goal == Monitor(View(), i).c
      {
        if zones[i].free < zones[i].min {
          var v := TriggerOomKiller();
          if v.None? { return; }
        }
      }
    }
  }
}
