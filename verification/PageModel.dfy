/** Two-level paging of i386/whitex/paging.h over the frame bitmap: who owns which frame, and that every call
    keeps it so. A table or directory is named by the frame it lives in, as in the source, where both are
    physical addresses; 0 is the null pointer. */
module PageModel {
  import opened Common
  import opened FrameBits

  const ENTRIES := 1024
  const PAGES := 1048576
  const WORD := 0x1_0000_0000
  /** Frames below 4 MiB, marked by `initialize_paging_system`. */
  const BASE := 1024
  /** The kernel directory takes frame 0, and the table of its identity mapping frame 1. */
  const KERNEL := 0
  const LOW := 1

  type Content = seq<bv8>

  datatype Pte = Pte(present: bool, rw: bool, user: bool, accessed: bool, dirty: bool, frame: nat)

  type Table = seq<Pte>
  type Dir = seq<nat>

  datatype Mem = Mem(
    used: set<nat>,
    total: int,
    tables: map<nat, Table>,
    dirs: map<nat, Dir>,
    content: map<nat, Content>)

  /** `sys_panic` does not return. */
  datatype Res = Done(m: Mem) | Panic

  const EMPTY := Pte(false, false, false, false, false, 0)

  function ContentOf(m: Mem, f: nat): Content { if f in m.content then m.content[f] else [] }

  // ---------- shape and ownership ----------

  ghost predicate Shaped(m: Mem) {
    && KERNEL in m.dirs && LOW in m.tables
    && (forall t :: t in m.tables ==> |m.tables[t]| == ENTRIES)
    && (forall d :: d in m.dirs ==> |m.dirs[d]| == ENTRIES)
    && forall d, i :: d in m.dirs && 0 <= i < ENTRIES ==> m.dirs[d][i] == 0 || m.dirs[d][i] in m.tables
  }

  predicate IsBelow(f: nat, n: nat) { f < n }

  ghost function FramesBelow(n: nat): (s: set<nat>)
    ensures forall f: nat :: f in s <==> f < n
  {
    set f: nat | f < n && IsBelow(f, n)
  }

  /** The frames of low memory. */
  ghost function LowFrames(): (b: set<nat>)
    ensures forall f: nat :: f in b <==> f < BASE
  {
    FramesBelow(BASE)
  }

  /** Entry `i` of table `t`, which is not the identity table, holds frame `f`. */
  ghost predicate Holds(m: Mem, t: nat, i: nat, f: nat) {
    t in m.tables && t != LOW && i < |m.tables[t]| && m.tables[t][i].frame == f && f != 0
  }

  /** The marked frames that are neither low memory nor a directory nor a table. */
  ghost function Data(m: Mem): set<nat> { m.used - LowFrames() - m.dirs.Keys - m.tables.Keys }

  /** Low memory, directories, tables and data share no frame, and all are marked. */
  ghost predicate Separate(m: Mem) {
    && (forall f :: f in m.used ==> f < FRAMES)
    && LowFrames() <= m.used && m.dirs.Keys <= m.used && m.tables.Keys <= m.used
    && m.dirs.Keys !! m.tables.Keys
    && (forall d :: d in m.dirs ==> d == KERNEL || d >= BASE)
    && (forall t :: t in m.tables ==> t == LOW || t >= BASE)
  }

  /** The identity table is the first table of the kernel directory and appears nowhere above 4 MiB. */
  ghost predicate LowInPlace(m: Mem)
    requires Shaped(m)
  {
    m.dirs[KERNEL][0] == LOW && forall d, i :: d in m.dirs && 0 < i < ENTRIES ==> m.dirs[d][i] != LOW
  }

  /** Every entry holds a data frame or none, and every data frame is held by exactly one entry. */
  ghost predicate Linked(m: Mem) {
    && (forall t, i, f: nat :: Holds(m, t, i, f) ==> f in Data(m))
    && (forall f :: f in Data(m) ==> Held(m, f))
    && (forall t, i, t', i', f: nat :: Holds(m, t, i, f) && Holds(m, t', i', f) ==> t == t' && i == i')
  }

  ghost predicate Held(m: Mem, f: nat) { exists t: nat, i: nat :: Holds(m, t, i, f) }

  ghost predicate PresentIffFrame(m: Mem)
    requires Shaped(m)
  {
    forall t, i :: t in m.tables && t != LOW && 0 <= i < ENTRIES ==>
      (m.tables[t][i].present <==> m.tables[t][i].frame != 0)
  }

  /** The counter of allocated frames counts the data frames. */
  ghost predicate Owned(m: Mem) {
    Shaped(m) && Separate(m) && LowInPlace(m) && Linked(m) && PresentIffFrame(m) && m.total == |Data(m)|
  }

  /** What `initialize_paging_system` is meant to leave. */
  ghost function Boot(): Mem {
    Mem(LowFrames(), 0, map[LOW := IdentityTable()], map[KERNEL := [LOW] + Copies(ENTRIES - 1, 0)], map[])
  }

  function IdentityTable(): (t: Table)
    ensures |t| == ENTRIES
  {
    seq(ENTRIES, i requires 0 <= i => Pte(true, true, false, false, false, i))
  }

  lemma BootOwned()
    ensures Owned(Boot())
  {
    assert Data(Boot()) == {};
  }

  // ---------- frames and entries ----------

  ghost function NextFrame(m: Mem): nat { FirstFree(m.used) }

  ghost function SetEntry(m: Mem, t: nat, i: nat, e: Pte): Mem
    requires t in m.tables && i < |m.tables[t]|
  {
    m.(tables := m.tables[t := m.tables[t][i := e]])
  }

  /** `allocate_frame`: an entry that has a frame is left as it is. */
  ghost function AllocEntry(m: Mem, t: nat, i: nat, user: bool, rw: bool): Res
    requires t in m.tables && i < |m.tables[t]|
  {
    var e := m.tables[t][i];
    if e.frame != 0 then Done(m)
    else
      var f := NextFrame(m);
      if f == FRAMES then Panic
      else
        Done(SetEntry(m, t, i, e.(present := true, rw := rw, user := user, frame := f))
             .(used := m.used + {f}, total := m.total + 1))
  }

  /** `unmap_virtual_page` on a present entry, with `free_frame`. */
  ghost function FreeEntry(m: Mem, t: nat, i: nat): Mem
    requires t in m.tables && i < |m.tables[t]|
  {
    var e := m.tables[t][i];
    if !e.present then m
    else if e.frame == 0 then SetEntry(m, t, i, e.(present := false))
    else
      SetEntry(m, t, i, e.(present := false, frame := 0))
      .(used := m.used - {e.frame}, total := m.total - 1)
  }

  /** The part of `get_page_entry` that makes a missing table. */
  ghost function MakeTable(m: Mem, d: nat, idx: nat): Res
    requires d in m.dirs && idx < |m.dirs[d]|
  {
    if m.dirs[d][idx] != 0 then Done(m)
    else
      var f := NextFrame(m);
      if f == FRAMES then Panic
      else
        var dir: Dir := m.dirs[d][idx := f];
        Done(m.(used := m.used + {f}, tables := m.tables[f := Copies(ENTRIES, EMPTY)], dirs := m.dirs[d := dir]))
  }

  lemma FreeFrame(m: Mem)
    requires Separate(m) && NextFrame(m) < FRAMES
    ensures var f := NextFrame(m);
            f !in m.used && f >= BASE && f !in m.tables && f !in m.dirs && f !in Data(m)
  {
  }

  /** `m'` holds frame `f` in entry (t, i) on top of what `m` holds. */
  ghost predicate OneMore(m: Mem, m': Mem, t: nat, i: nat, f: nat) {
    forall t', i', g: nat :: Holds(m', t', i', g) <==> Holds(m, t', i', g) || (t' == t && i' == i && g == f)
  }

  lemma LinkOne(m: Mem, m': Mem, t: nat, i: nat, f: nat)
    requires Linked(m) && OneMore(m, m', t, i, f) && f !in Data(m) && Data(m') == Data(m) + {f}
    requires forall g: nat :: !Holds(m, t, i, g)
    ensures Linked(m')
  {
    assert Holds(m', t, i, f);
    forall g | g in Data(m')
      ensures Held(m', g)
    {
      if g != f {
        assert Held(m, g);
        var t', i' :| Holds(m, t', i', g);
        assert Holds(m', t', i', g);
      }
    }
  }

  lemma UnlinkOne(m: Mem, m': Mem, t: nat, i: nat, f: nat)
    requires Linked(m) && OneMore(m', m, t, i, f) && Data(m') == Data(m) - {f}
    requires forall g: nat :: !Holds(m', t, i, g)
    ensures Linked(m')
  {
    assert Holds(m, t, i, f);
    forall t', i', g: nat | Holds(m', t', i', g)
      ensures g in Data(m')
    {
      assert Holds(m, t', i', g);
    }
    forall g | g in Data(m')
      ensures Held(m', g)
    {
      assert Held(m, g);
      var t', i' :| Holds(m, t', i', g);
      assert Holds(m', t', i', g);
    }
  }

  lemma LinkSame(m: Mem, m': Mem)
    requires Linked(m) && Data(m') == Data(m)
    requires forall t, i, f: nat :: Holds(m', t, i, f) <==> Holds(m, t, i, f)
    ensures Linked(m')
  {
    forall g | g in Data(m')
      ensures Held(m', g)
    {
      assert Held(m, g);
      var t', i' :| Holds(m, t', i', g);
      assert Holds(m', t', i', g);
    }
  }

  /** Rewriting one entry keeps the shape of memory. */
  lemma EntryShaped(m: Mem, t: nat, i: nat, e: Pte)
    requires Shaped(m) && t in m.tables && i < ENTRIES
    ensures Shaped(SetEntry(m, t, i, e)) && SetEntry(m, t, i, e).tables.Keys == m.tables.Keys
  {
  }

  /** A fresh frame joins the data frames. */
  lemma AllocEntrySeparate(m: Mem, t: nat, i: nat, user: bool, rw: bool)
    requires Shaped(m) && Separate(m) && LowInPlace(m) && t in m.tables && i < ENTRIES
    requires m.tables[t][i].frame == 0 && NextFrame(m) < FRAMES
    ensures var m' := AllocEntry(m, t, i, user, rw).m;
            && Shaped(m') && Separate(m') && LowInPlace(m')
            && NextFrame(m) !in Data(m) && Data(m') == Data(m) + {NextFrame(m)}
  {
    FreeFrame(m);
    var m' := AllocEntry(m, t, i, user, rw).m;
    EntryShaped(m, t, i, m'.tables[t][i]);
  }

  /** Giving an empty entry a frame adds exactly that holding. */
  lemma EntryAdds(m: Mem, m': Mem, t: nat, i: nat, e: Pte)
    requires Shaped(m) && Shaped(m') && t in m.tables && t != LOW && i < ENTRIES
    requires m'.tables == m.tables[t := m.tables[t][i := e]]
    requires m.tables[t][i].frame == 0 && e.frame != 0
    ensures OneMore(m, m', t, i, e.frame) && forall g: nat :: !Holds(m, t, i, g)
    ensures PresentIffFrame(m) && e.present ==> PresentIffFrame(m')
  {
  }

  lemma AllocEntryOwned(m: Mem, t: nat, i: nat, user: bool, rw: bool)
    requires Owned(m) && t in m.tables && t != LOW && i < ENTRIES
    ensures AllocEntry(m, t, i, user, rw).Done? ==> Owned(AllocEntry(m, t, i, user, rw).m)
  {
    var r := AllocEntry(m, t, i, user, rw);
    if r.Done? && m.tables[t][i].frame == 0 {
      AllocEntrySeparate(m, t, i, user, rw);
      EntryAdds(m, r.m, t, i, r.m.tables[t][i]);
      LinkOne(m, r.m, t, i, NextFrame(m));
    }
  }

  lemma EntryDrops(m: Mem, m': Mem, t: nat, i: nat, e: Pte)
    requires Shaped(m) && Shaped(m') && t in m.tables && t != LOW && i < ENTRIES
    requires m'.tables == m.tables[t := m.tables[t][i := e]]
    requires m.tables[t][i].frame != 0 && e.frame == 0
    ensures OneMore(m', m, t, i, m.tables[t][i].frame) && forall g: nat :: !Holds(m', t, i, g)
    ensures PresentIffFrame(m) && !e.present ==> PresentIffFrame(m')
  {
  }

  lemma FreeEntryOwned(m: Mem, t: nat, i: nat)
    requires Owned(m) && t in m.tables && t != LOW && i < ENTRIES
    ensures Owned(FreeEntry(m, t, i))
  {
    var m' := FreeEntry(m, t, i);
    var e := m.tables[t][i];
    if e.present {
      var f := e.frame;
      EntryShaped(m, t, i, m'.tables[t][i]);
      assert Holds(m, t, i, f);
      assert Data(m') == Data(m) - {f};
      EntryDrops(m, m', t, i, m'.tables[t][i]);
      UnlinkOne(m, m', t, i, f);
    }
  }

  lemma MakeTableShaped(m: Mem, d: nat, idx: nat)
    requires Shaped(m) && d in m.dirs && idx < ENTRIES
    ensures MakeTable(m, d, idx).Done? ==>
              var m' := MakeTable(m, d, idx).m;
              Shaped(m') && m'.dirs.Keys == m.dirs.Keys && (m'.dirs[d][idx] != 0 ==> m'.dirs[d][idx] in m'.tables)
  {
  }

  lemma MakeTableSeparate(m: Mem, d: nat, idx: nat)
    requires Shaped(m) && Separate(m) && LowInPlace(m) && d in m.dirs && 0 < idx < ENTRIES
    requires m.dirs[d][idx] == 0 && NextFrame(m) < FRAMES
    ensures var m' := MakeTable(m, d, idx).m;
            Shaped(m') && Separate(m') && LowInPlace(m') && Data(m') == Data(m)
  {
    FreeFrame(m);
    MakeTableShaped(m, d, idx);
    var m' := MakeTable(m, d, idx).m;
    assert m'.tables.Keys == m.tables.Keys + {NextFrame(m)} && m'.dirs.Keys == m.dirs.Keys;
  }

  lemma MakeTableOwned(m: Mem, d: nat, idx: nat)
    requires Owned(m) && d in m.dirs && 0 < idx < ENTRIES
    ensures MakeTable(m, d, idx).Done? ==>
              var m' := MakeTable(m, d, idx).m;
              Owned(m') && d in m'.dirs && m'.dirs[d][idx] in m'.tables && m'.dirs[d][idx] != LOW
  {
    var r := MakeTable(m, d, idx);
    if r.Done? && m.dirs[d][idx] == 0 {
      FreeFrame(m);
      MakeTableSeparate(m, d, idx);
      LinkSame(m, r.m);
    }
  }

  // ---------- regions ----------

  /** The pages a region call walks: from the page of its start up to its rounded end, both in 32-bit
      arithmetic. */
  function FirstPage(start: nat): nat { start / PAGE_SIZE }

  function EndPage(start: nat, size: nat): (p: nat)
    ensures p < PAGES
  {
    (start + size + PAGE_SIZE - 1) % WORD / PAGE_SIZE
  }

  /** The table and the entry of a page. */
  ghost function AllocPage(m: Mem, d: nat, p: nat, user: bool, rw: bool): Res
    requires Shaped(m) && d in m.dirs && p < PAGES
  {
    var r := MakeTable(m, d, p / ENTRIES);
    if r.Panic? then Panic
    else AllocEntry(r.m, r.m.dirs[d][p / ENTRIES], p % ENTRIES, user, rw)
  }

  ghost function FreePage(m: Mem, d: nat, p: nat): Mem
    requires Shaped(m) && d in m.dirs && p < PAGES
  {
    var t := m.dirs[d][p / ENTRIES];
    if t == 0 then m else FreeEntry(m, t, p % ENTRIES)
  }

  lemma PageShaped(m: Mem, d: nat, p: nat, user: bool, rw: bool)
    requires Shaped(m) && d in m.dirs && p < PAGES
    ensures AllocPage(m, d, p, user, rw).Done? ==>
              Shaped(AllocPage(m, d, p, user, rw).m) && AllocPage(m, d, p, user, rw).m.dirs.Keys == m.dirs.Keys
    ensures Shaped(FreePage(m, d, p)) && FreePage(m, d, p).dirs == m.dirs
  {
  }

  /** The loop of `allocate_memory_region` from page `p` on. */
  ghost function AllocPages(m: Mem, d: nat, p: nat, end: nat, user: bool, rw: bool): Res
    requires Shaped(m) && d in m.dirs && end <= PAGES
    decreases end - p
  {
    if p >= end then Done(m)
    else
      var r := AllocPage(m, d, p, user, rw);
      if r.Panic? then Panic
      else
        PageShaped(m, d, p, user, rw);
        AllocPages(r.m, d, p + 1, end, user, rw)
  }

  /** The loop of `free_memory_region`. */
  ghost function FreePages(m: Mem, d: nat, p: nat, end: nat): Mem
    requires Shaped(m) && d in m.dirs && end <= PAGES
    decreases end - p
  {
    if p >= end then m
    else
      PageShaped(m, d, p, false, false);
      FreePages(FreePage(m, d, p), d, p + 1, end)
  }

  /** `check_region_availability`. */
  ghost predicate Available(m: Mem, d: nat, p: nat, end: nat)
    requires Shaped(m) && d in m.dirs && end <= PAGES
  {
    forall q :: p <= q < end ==> !Present(m, d, q)
  }

  ghost predicate Present(m: Mem, d: nat, p: nat)
    requires Shaped(m) && d in m.dirs && p < PAGES
  {
    var t := m.dirs[d][p / ENTRIES];
    t != 0 && m.tables[t][p % ENTRIES].present
  }

  lemma AllocPageOwned(m: Mem, d: nat, p: nat, user: bool, rw: bool)
    requires Owned(m) && d in m.dirs && BASE <= p < PAGES
    ensures var r := AllocPage(m, d, p, user, rw); r.Done? ==> Owned(r.m) && d in r.m.dirs
  {
    MakeTableOwned(m, d, p / ENTRIES);
    var r := MakeTable(m, d, p / ENTRIES);
    if r.Done? { AllocEntryOwned(r.m, r.m.dirs[d][p / ENTRIES], p % ENTRIES, user, rw); }
  }

  lemma FreePageOwned(m: Mem, d: nat, p: nat)
    requires Owned(m) && d in m.dirs && BASE <= p < PAGES
    ensures Owned(FreePage(m, d, p)) && d in FreePage(m, d, p).dirs
  {
    var t := m.dirs[d][p / ENTRIES];
    if t != 0 { FreeEntryOwned(m, t, p % ENTRIES); }
  }

  lemma {:induction false} AllocPagesOwned(m: Mem, d: nat, p: nat, end: nat, user: bool, rw: bool)
    requires Owned(m) && d in m.dirs && BASE <= p && end <= PAGES
    ensures var r := AllocPages(m, d, p, end, user, rw); r.Done? ==> Owned(r.m) && d in r.m.dirs
    decreases end - p
  {
    hide AllocPage, Separate, LowInPlace, Linked, PresentIffFrame, Data;
    if p < end {
      AllocPageOwned(m, d, p, user, rw);
      var r := AllocPage(m, d, p, user, rw);
      if r.Done? { AllocPagesOwned(r.m, d, p + 1, end, user, rw); }
    }
  }

  lemma {:induction false} FreePagesOwned(m: Mem, d: nat, p: nat, end: nat)
    requires Owned(m) && d in m.dirs && BASE <= p && end <= PAGES
    ensures Owned(FreePages(m, d, p, end)) && d in FreePages(m, d, p, end).dirs
    decreases end - p
  {
    if p < end {
      FreePageOwned(m, d, p);
      FreePagesOwned(FreePage(m, d, p), d, p + 1, end);
    }
  }
}
