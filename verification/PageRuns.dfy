/** Who owns which frame over whole runs of region calls and clones (i386/whitex/paging.h:146-332), and
    what an allocation followed by a free leaves behind. */
module PageRuns {
  import opened FrameBits
  import opened PageModel
  import opened PageClone

  // ---------- every run ----------

  datatype Op =
    | Allocate(d: nat, start: nat, size: nat, user: bool, rw: bool)
    | Release(d: nat, start: nat, size: nat)
    | Clone(src: nat)

  /** Calls on existing directories, for addresses from 4 MiB on. */
  ghost predicate Legal(m: Mem, op: Op) {
    match op
    case Allocate(d, start, size, _, _) => d in m.dirs && 0x40_0000 <= start < WORD && size < WORD
    case Release(d, start, size) => d in m.dirs && 0x40_0000 <= start < WORD && size < WORD
    case Clone(src) => src in m.dirs
  }

  /** The memory after a call that returns; a panic never returns. */
  ghost function Next(m: Mem, op: Op): Res
    requires Owned(m) && Legal(m, op)
  {
    match op
    case Allocate(d, start, size, user, rw) => AllocPages(m, d, FirstPage(start), EndPage(start, size), user, rw)
    case Release(d, start, size) => Done(FreePages(m, d, FirstPage(start), EndPage(start, size)))
    case Clone(src) =>
      match CloneDir(m, src)
      case Cloned(m', _) => Done(m')
      case NoFrame => Done(m)
      case Halted => Panic
  }

  lemma NextOwned(m: Mem, op: Op)
    requires Owned(m) && Legal(m, op)
    ensures Next(m, op).Done? ==> Owned(Next(m, op).m)
  {
    hide Linked, PresentIffFrame, Data, Separate, LowInPlace, AllocPages, FreePages, CloneDir;
    match op
    case Allocate(d, start, size, user, rw) => AllocPagesOwned(m, d, FirstPage(start), EndPage(start, size), user, rw);
    case Release(d, start, size) => FreePagesOwned(m, d, FirstPage(start), EndPage(start, size));
    case Clone(src) => CloneDirOwned(m, src);
  }

  ghost predicate IsRun(ms: seq<Mem>, ops: seq<Op>) {
    && |ms| == |ops| + 1
    && forall i :: 0 <= i < |ops| ==> Follows(ms, ops, i)
  }

  ghost predicate Follows(ms: seq<Mem>, ops: seq<Op>, i: nat)
    requires |ms| == |ops| + 1 && i < |ops|
  {
    Owned(ms[i]) ==> Legal(ms[i], ops[i]) && Next(ms[i], ops[i]) == Done(ms[i + 1])
  }

  lemma {:induction false} RunOwned(ms: seq<Mem>, ops: seq<Op>, n: nat)
    requires IsRun(ms, ops) && ms[0] == Boot() && n < |ms|
    ensures Owned(ms[n])
  {
    hide Owned, Legal, Next;
    if n == 0 {
      BootOwned();
    } else {
      assert Follows(ms, ops, n - 1);
      RunOwned(ms, ops, n - 1);
      NextOwned(ms[n - 1], ops[n - 1]);
    }
  }

  /** In every run from boot: low memory, directories, page tables and data frames are pairwise distinct
      and together exactly the marked frames; every data frame is held by exactly one entry; and the
      counter of allocated frames is their number. */
  lemma FramesAreOwned(ms: seq<Mem>, ops: seq<Op>, n: nat)
    requires IsRun(ms, ops) && ms[0] == Boot() && n < |ms|
    ensures var m := ms[n];
            && Owned(m)
            && m.used == LowFrames() + m.dirs.Keys + m.tables.Keys + Data(m)
            && m.dirs.Keys !! m.tables.Keys && Data(m) !! (LowFrames() + m.dirs.Keys + m.tables.Keys)
            && (forall f :: f in Data(m) ==> Held(m, f))
            && (forall t, i, t', i', f: nat :: Holds(m, t, i, f) && Holds(m, t', i', f) ==> t == t' && i == i')
            && m.total == |Data(m)|
  {
    hide IsRun, Boot;
    RunOwned(ms, ops, n);
    assert ms[n].used == LowFrames() + ms[n].dirs.Keys + ms[n].tables.Keys + Data(ms[n]) by { hide Linked; }
  }

  // ---------- allocate, then free ----------

  /** Entry `i` of table `t` maps a page of the range [p, q) of directory `d`. */
  ghost predicate InRange(m: Mem, d: nat, p: nat, q: nat, t: nat, i: nat) {
    d in m.dirs && |m.dirs[d]| == ENTRIES && i < ENTRIES &&
    exists idx :: 0 <= idx < ENTRIES && m.dirs[d][idx] == t && p <= idx * ENTRIES + i < q
  }

  lemma InRangeOne(m: Mem, d: nat, p: nat)
    requires Shaped(m) && d in m.dirs && p < PAGES
    ensures InRange(m, d, p, p + 1, m.dirs[d][p / ENTRIES], p % ENTRIES)
  {
    assert p / ENTRIES * ENTRIES + p % ENTRIES == p;
  }

  lemma InRangeGrows(m: Mem, m': Mem, d: nat, p: nat, q: nat, q': nat, t: nat, i: nat)
    requires Shaped(m) && Shaped(m') && q <= q' && InRange(m, d, p, q, t, i) && d in m'.dirs
    requires forall idx :: 0 <= idx < ENTRIES && m.dirs[d][idx] == t ==> m'.dirs[d][idx] == t
    ensures InRange(m', d, p, q', t, i)
  {
    var idx :| 0 <= idx < ENTRIES && m.dirs[d][idx] == t && p <= idx * ENTRIES + i < q;
    assert m'.dirs[d][idx] == t && p <= idx * ENTRIES + i < q';
  }

  /** How far an allocation of [p, q) has changed `m`: tables were only added, to null slots of `d`, and
      frames only inside the range. */
  ghost predicate Allocating(m: Mem, m': Mem, d: nat, p: nat, q: nat)
    requires Shaped(m) && d in m.dirs
  {
    && Owned(m') && m'.dirs.Keys == m.dirs.Keys && m.tables.Keys <= m'.tables.Keys
    && (forall d' :: d' in m.dirs && d' != d ==> m'.dirs[d'] == m.dirs[d'])
    && (forall idx :: 0 <= idx < ENTRIES ==>
          if m.dirs[d][idx] != 0 then m'.dirs[d][idx] == m.dirs[d][idx]
          else m'.dirs[d][idx] == 0 || m'.dirs[d][idx] !in m.tables)
    && (forall t, i: nat :: t in m'.tables && i < ENTRIES && !InRange(m', d, p, q, t, i) ==>
          if t in m.tables then m'.tables[t][i].frame == m.tables[t][i].frame else m'.tables[t][i].frame == 0)
  }

  /** What making a table changes. */
  lemma MakeTableEffect(m: Mem, d: nat, idx: nat)
    requires Owned(m) && d in m.dirs && 0 < idx < ENTRIES
    ensures var r := MakeTable(m, d, idx);
            r.Done? ==>
              && d in r.m.dirs && r.m.dirs.Keys == m.dirs.Keys && m.tables.Keys <= r.m.tables.Keys
              && (forall d' :: d' in m.dirs && d' != d ==> r.m.dirs[d'] == m.dirs[d'])
              && |r.m.dirs[d]| == ENTRIES
              && (forall k :: 0 <= k < ENTRIES && k != idx ==> r.m.dirs[d][k] == m.dirs[d][k])
              && (if m.dirs[d][idx] != 0 then r.m.dirs[d][idx] == m.dirs[d][idx] else r.m.dirs[d][idx] !in m.tables)
              && (forall t :: t in m.tables ==> r.m.tables[t] == m.tables[t])
              && (forall t :: t in r.m.tables && t !in m.tables ==> forall i :: 0 <= i < ENTRIES ==> r.m.tables[t][i] == EMPTY)
  {
    hide Linked, PresentIffFrame, Data;
    if NextFrame(m) < FRAMES { FreeFrame(m); }
  }

  lemma AllocPageEffect(m: Mem, d: nat, p: nat, user: bool, rw: bool)
    requires Owned(m) && d in m.dirs && BASE <= p < PAGES
    ensures var r := AllocPage(m, d, p, user, rw);
            r.Done? ==> Allocating(m, r.m, d, p, p + 1)
  {
    hide Linked, PresentIffFrame, Data, Separate;
    AllocPageOwned(m, d, p, user, rw);
    MakeTableOwned(m, d, p / ENTRIES);
    MakeTableEffect(m, d, p / ENTRIES);
    var r := AllocPage(m, d, p, user, rw);
    if r.Done? { InRangeOne(r.m, d, p); }
  }

  lemma AllocatingTrans(m: Mem, m1: Mem, m2: Mem, d: nat, p: nat, q: nat)
    requires Shaped(m) && d in m.dirs && p <= q && Allocating(m, m1, d, p, q) && Allocating(m1, m2, d, q, q + 1)
    ensures Allocating(m, m2, d, p, q + 1)
  {
    hide Linked, PresentIffFrame, Data, LowInPlace;
    forall t, i: nat | t in m2.tables && i < ENTRIES && !InRange(m2, d, p, q + 1, t, i)
      ensures if t in m.tables then m2.tables[t][i].frame == m.tables[t][i].frame else m2.tables[t][i].frame == 0
    {
      if InRange(m2, d, q, q + 1, t, i) { InRangeWiden(m2, d, p, q, t, i); }
      if t in m1.tables {
        if InRange(m1, d, p, q, t, i) {
          assert t != 0;
          InRangeGrows(m1, m2, d, p, q, q + 1, t, i);
        }
      }
    }
  }

  lemma InRangeWiden(m: Mem, d: nat, p: nat, q: nat, t: nat, i: nat)
    requires p <= q && InRange(m, d, q, q + 1, t, i)
    ensures InRange(m, d, p, q + 1, t, i)
  {
    var idx :| 0 <= idx < ENTRIES && m.dirs[d][idx] == t && q <= idx * ENTRIES + i < q + 1;
    assert p <= idx * ENTRIES + i < q + 1;
  }

  lemma {:induction false} AllocPagesEffect(m: Mem, m1: Mem, d: nat, p: nat, q: nat, end: nat, user: bool, rw: bool)
    requires Owned(m) && d in m.dirs && BASE <= p <= q <= end <= PAGES && Allocating(m, m1, d, p, q)
    ensures var r := AllocPages(m1, d, q, end, user, rw);
            r.Done? ==> Allocating(m, r.m, d, p, end)
    decreases end - q
  {
    hide Linked, PresentIffFrame, Data, Separate, LowInPlace, AllocPage, InRange;
    if q < end {
      AllocPageEffect(m1, d, q, user, rw);
      var r := AllocPage(m1, d, q, user, rw);
      if r.Done? {
        AllocatingTrans(m, m1, r.m, d, p, q);
        AllocPagesEffect(m, r.m, d, p, q + 1, end, user, rw);
      }
    }
  }

  /** How far freeing [p, q) has changed `m`: the range holds no frames, all else is as it was. */
  ghost predicate Freeing(m: Mem, m': Mem, d: nat, p: nat, q: nat)
    requires Shaped(m) && d in m.dirs
  {
    && Owned(m') && m'.dirs == m.dirs && m'.tables.Keys == m.tables.Keys
    && forall t, i: nat :: t in m.tables && t != LOW && i < ENTRIES ==>
         m'.tables[t][i].frame == if InRange(m, d, p, q, t, i) then 0 else m.tables[t][i].frame
  }

  lemma FreePageEffect(m: Mem, m1: Mem, d: nat, p: nat, q: nat)
    requires Owned(m) && d in m.dirs && BASE <= p <= q < PAGES && Freeing(m, m1, d, p, q)
    ensures Freeing(m, FreePage(m1, d, q), d, p, q + 1)
  {
    hide Linked, Data;
    assert 0 !in m.tables;
    hide Separate;
    FreePageOwned(m1, d, q);
    var m2 := FreePage(m1, d, q);
    var s, k := m.dirs[d][q / ENTRIES], q % ENTRIES;
    InRangeOne(m, d, q);
    InRangeWiden(m, d, p, q, s, k);
    forall t, i: nat | t in m.tables && t != LOW && i < ENTRIES
      ensures m2.tables[t][i].frame == if InRange(m, d, p, q + 1, t, i) then 0 else m.tables[t][i].frame
    {
      if InRange(m, d, p, q, t, i) { InRangeGrows(m, m, d, p, q, q + 1, t, i); }
      else if InRange(m, d, p, q + 1, t, i) { LastPage(m, d, p, q, t, i); }
    }
  }

  /** An entry that comes into the range with its last page is the entry of that page. */
  lemma LastPage(m: Mem, d: nat, p: nat, q: nat, t: nat, i: nat)
    requires InRange(m, d, p, q + 1, t, i) && !InRange(m, d, p, q, t, i)
    ensures t == m.dirs[d][q / ENTRIES] && i == q % ENTRIES
  {
    var idx :| 0 <= idx < ENTRIES && m.dirs[d][idx] == t && p <= idx * ENTRIES + i < q + 1;
    assert idx * ENTRIES + i == q;
  }

  lemma {:induction false} FreePagesEffect(m: Mem, m1: Mem, d: nat, p: nat, q: nat, end: nat)
    requires Owned(m) && d in m.dirs && BASE <= p <= q <= end <= PAGES && Freeing(m, m1, d, p, q)
    ensures Freeing(m, FreePages(m1, d, q, end), d, p, end)
    decreases end - q
  {
    hide Linked, PresentIffFrame, Data, Separate, LowInPlace, FreePage, InRange;
    if q < end {
      FreePageEffect(m, m1, d, p, q);
      FreePagesEffect(m, FreePage(m1, d, q), d, p, q + 1, end);
    }
  }

  /** An entry of an available region held no frame before. */
  lemma WasFree(m: Mem, m1: Mem, d: nat, p: nat, end: nat, t: nat, i: nat)
    requires Owned(m) && d in m.dirs && BASE <= p <= end <= PAGES && Available(m, d, p, end)
    requires Allocating(m, m1, d, p, end) && InRange(m1, d, p, end, t, i) && t in m.tables && t != LOW
    ensures m.tables[t][i].frame == 0
  {
    hide Linked, Data, LowInPlace;
    assert 0 !in m.tables;
    hide Separate;
    var idx :| 0 <= idx < ENTRIES && m1.dirs[d][idx] == t && p <= idx * ENTRIES + i < end;
    var q := idx * ENTRIES + i;
    assert q / ENTRIES == idx && q % ENTRIES == i;
    assert !Present(m, d, q);
  }

  /** Freeing what was just allocated gives every entry the frame it had. */
  lemma EntriesRestored(m: Mem, m1: Mem, m2: Mem, d: nat, p: nat, end: nat)
    requires Owned(m) && d in m.dirs && BASE <= p <= end <= PAGES && Available(m, d, p, end)
    requires Allocating(m, m1, d, p, end) && Freeing(m1, m2, d, p, end)
    ensures forall t, i, f: nat :: Holds(m2, t, i, f) <==> Holds(m, t, i, f)
  {
    hide Linked, Data, Separate, LowInPlace, PresentIffFrame;
    forall t: nat, i: nat, f: nat
      ensures Holds(m2, t, i, f) <==> Holds(m, t, i, f)
    {
      if t in m1.tables && t != LOW && i < ENTRIES {
        if InRange(m1, d, p, end, t, i) && t in m.tables { WasFree(m, m1, d, p, end, t, i); }
      }
    }
  }

  lemma SameHoldingsSameData(m: Mem, m2: Mem)
    requires Linked(m) && Linked(m2) && forall t, i, f: nat :: Holds(m2, t, i, f) <==> Holds(m, t, i, f)
    ensures Data(m2) == Data(m)
  {
    forall f
      ensures f in Data(m) <==> f in Data(m2)
    {
      if f in Data(m) {
        assert Held(m, f);
        var t, i :| Holds(m, t, i, f);
        assert Holds(m2, t, i, f);
      }
      if f in Data(m2) {
        assert Held(m2, f);
        var t, i :| Holds(m2, t, i, f);
        assert Holds(m, t, i, f);
      }
    }
  }

  lemma AllocateThenFreePages(m: Mem, d: nat, p: nat, end: nat, user: bool, rw: bool)
    requires Owned(m) && d in m.dirs && BASE <= p <= end <= PAGES && Available(m, d, p, end)
    requires AllocPages(m, d, p, end, user, rw).Done?
    ensures var m1 := AllocPages(m, d, p, end, user, rw).m;
            && Owned(m1) && d in m1.dirs
            && var m2 := FreePages(m1, d, p, end);
               && Owned(m2) && m2.total == m.total && m2.tables.Keys == m1.tables.Keys
               && m2.used == m.used + (m1.tables.Keys - m.tables.Keys)
  {
    hide AllocPages, FreePages, Available;
    assert Allocating(m, m, d, p, p);
    hide InRange;
    AllocPagesEffect(m, m, d, p, p, end, user, rw);
    AllocPagesOwned(m, d, p, end, user, rw);
    var m1 := AllocPages(m, d, p, end, user, rw).m;
    NothingFreedYet(m1, d, p);
    FreePagesEffect(m1, m1, d, p, p, end);
    var m2 := FreePages(m1, d, p, end);
    EntriesRestored(m, m1, m2, d, p, end);
    SameHoldingsSameData(m, m2);
    UsedFromData(m, m1, m2);
  }

  lemma NothingFreedYet(m: Mem, d: nat, p: nat)
    requires Owned(m) && d in m.dirs
    ensures Freeing(m, m, d, p, p)
  {
    hide Linked, Data, Separate, LowInPlace, PresentIffFrame;
  }

  lemma UsedFromData(m: Mem, m1: Mem, m2: Mem)
    requires Separate(m) && Separate(m2) && Data(m2) == Data(m) && m2.dirs.Keys == m.dirs.Keys
    requires m2.tables.Keys == m1.tables.Keys && m.tables.Keys <= m1.tables.Keys
    ensures m2.used == m.used + (m1.tables.Keys - m.tables.Keys)
  {
    assert m.used == LowFrames() + m.dirs.Keys + m.tables.Keys + Data(m);
    assert m2.used == LowFrames() + m2.dirs.Keys + m2.tables.Keys + Data(m2);
  }

  /** `allocate_memory_region` on a region above 4 MiB that `check_region_availability` reports
      available, followed by `free_memory_region` on the same region, restores the counter and the
      bitmap, except for the page tables made on the way. */
  lemma AllocateThenFree(m: Mem, d: nat, start: nat, size: nat, user: bool, rw: bool)
    requires Owned(m) && d in m.dirs && 0x40_0000 <= start < WORD && size < WORD
    requires Available(m, d, FirstPage(start), EndPage(start, size))
    requires AllocPages(m, d, FirstPage(start), EndPage(start, size), user, rw).Done?
    ensures var m1 := AllocPages(m, d, FirstPage(start), EndPage(start, size), user, rw).m;
            && Owned(m1) && d in m1.dirs
            && var m2 := FreePages(m1, d, FirstPage(start), EndPage(start, size));
               && Owned(m2) && m2.total == m.total && m2.tables.Keys == m1.tables.Keys
               && m2.used == m.used + (m1.tables.Keys - m.tables.Keys)
  {
    hide Linked, Data, LowInPlace, PresentIffFrame;
    var p, end := FirstPage(start), EndPage(start, size);
    if p <= end {
      AllocateThenFreePages(m, d, p, end, user, rw);
    } else {
      assert AllocPages(m, d, p, end, user, rw) == Done(m) && FreePages(m, d, p, end) == m;
      assert m.used == m.used + (m.tables.Keys - m.tables.Keys);
    }
  }
}
