/** Isolation over every run (i386/whitex/paging.h:173-332). */
module PageIsolation {
  // Two directories share a table only where the kernel has it, so region calls on one never reach another.

  import opened Common
  import opened FrameBits
  import opened PageModel
  import opened PageClone
  import opened PageRuns

  /** Slot `i` of directory `d` has table `t`. */
  ghost predicate Has(m: Mem, d: nat, i: nat, t: nat) {
    d in m.dirs && i < |m.dirs[d]| && m.dirs[d][i] == t && t != 0
  }

  /** A table in two places is the kernel's, at the same slot. */
  ghost predicate Apart(m: Mem) {
    forall d, i, d', i', t: nat :: Has(m, d, i, t) && Has(m, d', i', t) && (d != d' || i != i') ==>
      i == i' && Has(m, KERNEL, i, t)
  }

  /** Slots of `m'` are those of `m`, but for slot (d, i), which is null, the kernel's or a table `m` has nowhere. */
  ghost predicate OneSlot(m: Mem, m': Mem, d: nat, i: nat) {
    && (forall d', i', t: nat :: d' != d || i' != i ==> (Has(m', d', i', t) <==> Has(m, d', i', t)))
    && (forall t: nat :: Has(m', d, i, t) ==>
          Has(m, d, i, t) || (d != KERNEL && Has(m, KERNEL, i, t)) || forall d', i': nat :: !Has(m, d', i', t))
    && (forall t: nat :: d == KERNEL && Has(m, d, i, t) ==> Has(m', d, i, t))
  }

  lemma OneSlotApart(m: Mem, m': Mem, d: nat, i: nat)
    requires Apart(m) && OneSlot(m, m', d, i)
    ensures Apart(m')
  {
    hide Has;
    forall a, j, b, k, t: nat | Has(m', a, j, t) && Has(m', b, k, t) && (a != b || j != k)
      ensures j == k && Has(m', KERNEL, j, t)
    {
      assert (a != d || j != i) ==> Has(m, a, j, t);
      assert (b != d || k != i) ==> Has(m, b, k, t);
    }
  }

  lemma BootApart()
    ensures Apart(Boot())
  {
    forall d: nat, i: nat, t: nat | Has(Boot(), d, i, t)
      ensures d == KERNEL && i == 0
    {
    }
  }

  lemma SameDirsApart(m: Mem, m': Mem)
    requires Apart(m) && m'.dirs == m.dirs
    ensures Apart(m')
  {
    assert forall d: nat, i: nat, t: nat :: Has(m', d, i, t) <==> Has(m, d, i, t);
  }

  /** A free frame is no table's yet. */
  lemma FreshNowhere(m: Mem, f: nat)
    requires Shaped(m) && Separate(m) && f !in m.used
    ensures forall d, i: nat :: !Has(m, d, i, f)
  {
  }

  lemma MakeTableApart(m: Mem, d: nat, idx: nat)
    requires Owned(m) && Apart(m) && d in m.dirs && idx < ENTRIES
    ensures MakeTable(m, d, idx).Done? ==> Apart(MakeTable(m, d, idx).m)
  {
    hide Linked, PresentIffFrame, Data;
    var r := MakeTable(m, d, idx);
    if r.Done? && m.dirs[d][idx] == 0 {
      FreeFrame(m);
      FreshNowhere(m, NextFrame(m));
      hide Apart;
      assert OneSlot(m, r.m, d, idx);
      OneSlotApart(m, r.m, d, idx);
    }
  }

  lemma AllocPageApart(m: Mem, d: nat, p: nat, user: bool, rw: bool)
    requires Owned(m) && Apart(m) && d in m.dirs && BASE <= p < PAGES
    ensures var r := AllocPage(m, d, p, user, rw); r.Done? ==> Apart(r.m)
  {
    hide Linked, PresentIffFrame, Data, Separate, LowInPlace, Apart;
    MakeTableApart(m, d, p / ENTRIES);
    var r := AllocPage(m, d, p, user, rw);
    if r.Done? { SameDirsApart(MakeTable(m, d, p / ENTRIES).m, r.m); }
  }

  lemma {:induction false} AllocPagesApart(m: Mem, d: nat, p: nat, end: nat, user: bool, rw: bool)
    requires Owned(m) && Apart(m) && d in m.dirs && BASE <= p && end <= PAGES
    ensures var r := AllocPages(m, d, p, end, user, rw); r.Done? ==> Apart(r.m)
    decreases end - p
  {
    hide AllocPage, Separate, LowInPlace, Linked, PresentIffFrame, Data, Apart;
    if p < end {
      AllocPageOwned(m, d, p, user, rw);
      AllocPageApart(m, d, p, user, rw);
      var r := AllocPage(m, d, p, user, rw);
      if r.Done? { AllocPagesApart(r.m, d, p + 1, end, user, rw); }
    }
  }

  lemma {:induction false} FreePagesDirs(m: Mem, d: nat, p: nat, end: nat)
    requires Shaped(m) && d in m.dirs && end <= PAGES
    ensures FreePages(m, d, p, end).dirs == m.dirs
    decreases end - p
  {
    hide FreePage;
    if p < end {
      PageShaped(m, d, p, false, false);
      FreePagesDirs(FreePage(m, d, p), d, p + 1, end);
    }
  }

  lemma NewDirApart(m: Mem)
    requires Owned(m) && Apart(m) && NextFrame(m) < FRAMES
    ensures Apart(NewDir(m))
  {
    hide Linked, PresentIffFrame, Data;
    FreeFrame(m);
    assert forall d, i, t: nat :: Has(NewDir(m), d, i, t) <==> Has(m, d, i, t);
  }

  lemma CloneSlotApart(m: Mem, src: nat, d: nat, i: nat)
    requires Owned(m) && Apart(m) && src in m.dirs && d in m.dirs && d != KERNEL && i < ENTRIES
    ensures var r := CloneSlot(m, src, d, i); r.Done? ==> Apart(r.m)
  {
    SourceStays(m, m, src, i);
    hide Apart, Separate, LowInPlace, Linked, PresentIffFrame, Data, CloneTable, SetSlot, Grew, TableTwin;
    var s := m.dirs[src][i];
    if s != 0 {
      if Shared(m, src, i) {
        SetSlotApart(m, d, i, s);
      } else {
        CloneTableTwin(m, s);
        var c := CloneTable(m, s);
        if c.NoFrame? { SetSlotApart(m, d, i, 0); }
        if c.Cloned? {
          FreshTable(m, c.at);
          SameDirsApart(m, c.m);
          SetSlotApart(c.m, d, i, c.at);
        }
      }
    }
  }

  lemma FreshTable(m: Mem, t: nat)
    requires Owned(m) && t !in m.used
    ensures Nowhere(m, t)
  {
    FreshNowhere(m, t);
  }

  ghost predicate Nowhere(m: Mem, t: nat) { forall d, i: nat :: !Has(m, d, i, t) }

  lemma SetSlotApart(m: Mem, d: nat, i: nat, t: nat)
    requires Apart(m) && d in m.dirs && d != KERNEL && i < |m.dirs[d]|
    requires t == 0 || Has(m, KERNEL, i, t) || Nowhere(m, t)
    ensures Apart(SetSlot(m, d, i, t))
  {
    hide Apart;
    assert OneSlot(m, SetSlot(m, d, i, t), d, i);
    OneSlotApart(m, SetSlot(m, d, i, t), d, i);
  }

  lemma {:induction false} CloneSlotsApart(m: Mem, src: nat, d: nat, i: nat)
    requires Owned(m) && Apart(m) && src in m.dirs && d in m.dirs && d != KERNEL && i <= ENTRIES
    ensures var r := CloneSlots(m, src, d, i); r.Done? ==> Apart(r.m)
    decreases ENTRIES - i
  {
    hide Apart, Separate, LowInPlace, Linked, PresentIffFrame, Data, CloneSlot;
    if i < ENTRIES {
      CloneSlotOwned(m, src, d, i);
      CloneSlotApart(m, src, d, i);
      var r := CloneSlot(m, src, d, i);
      if r.Done? { CloneSlotsApart(r.m, src, d, i + 1); }
    }
  }

  lemma CloneDirApart(m: Mem, src: nat)
    requires Owned(m) && Apart(m) && src in m.dirs
    ensures var r := CloneDir(m, src); r.Cloned? ==> Apart(r.m)
  {
    hide Apart, Linked, PresentIffFrame, Data, CloneSlots;
    if NextFrame(m) < FRAMES {
      FreeFrame(m);
      NewDirOwned(m);
      NewDirApart(m);
      NotKernel(m, NextFrame(m));
      CloneSlotsApart(NewDir(m), src, NextFrame(m), 0);
    }
  }

  lemma NextApart(m: Mem, op: Op)
    requires Owned(m) && Apart(m) && Legal(m, op)
    ensures Next(m, op).Done? ==> Apart(Next(m, op).m)
  {
    hide Apart, Linked, PresentIffFrame, Data, Separate, LowInPlace, AllocPages, FreePages, CloneDir;
    match op
    case Allocate(d, start, size, user, rw) => AllocPagesApart(m, d, FirstPage(start), EndPage(start, size), user, rw);
    case Release(d, start, size) =>
      FreePagesDirs(m, d, FirstPage(start), EndPage(start, size));
      SameDirsApart(m, Next(m, op).m);
    case Clone(src) => CloneDirApart(m, src);
  }

  /** In every run from boot a table is in two directories, or twice in one, only if it is the kernel's table at
      that slot. */
  lemma {:induction false} TablesStayApart(ms: seq<Mem>, ops: seq<Op>, n: nat)
    requires IsRun(ms, ops) && ms[0] == Boot() && n < |ms|
    ensures Owned(ms[n]) && Apart(ms[n])
  {
    hide Owned, Apart, Legal, Next;
    RunOwned(ms, ops, n);
    if n == 0 {
      BootApart();
    } else {
      assert Follows(ms, ops, n - 1);
      TablesStayApart(ms, ops, n - 1);
      RunOwned(ms, ops, n - 1);
      NextApart(ms[n - 1], ops[n - 1]);
    }
  }

  // ---------- what a region call leaves alone ----------

  /** A page of directory `o` whose table, if any, directory `d` does not have at that slot. */
  ghost predicate Elsewhere(m: Mem, d: nat, o: nat, p: nat)
    requires Shaped(m) && d in m.dirs && o in m.dirs && p < PAGES
  {
    m.dirs[o][p / ENTRIES] == 0 || m.dirs[o][p / ENTRIES] != m.dirs[d][p / ENTRIES]
  }

  /** From `m` to `m'` nothing has happened to directory `o` outside the tables it shares with `d`. */
  ghost predicate Untouched(m: Mem, m': Mem, d: nat, o: nat)
    requires Shaped(m) && Shaped(m') && d in m.dirs && o in m.dirs && d in m'.dirs && o in m'.dirs
  {
    && m'.dirs[o] == m.dirs[o] && m'.content == m.content
    && forall p :: 0 <= p < PAGES && Elsewhere(m, d, o, p) ==> Elsewhere(m', d, o, p) && Entry(m', o, p) == Entry(m, o, p)
  }

  lemma UntouchedTrans(a: Mem, b: Mem, c: Mem, d: nat, o: nat)
    requires Shaped(a) && Shaped(b) && Shaped(c) && d in a.dirs && o in a.dirs && d in b.dirs && o in b.dirs && d in c.dirs && o in c.dirs
    requires Untouched(a, b, d, o) && Untouched(b, c, d, o)
    ensures Untouched(a, c, d, o)
  {
    hide Elsewhere, Entry;
  }

  /** Changing one entry of a table of `d` is not seen elsewhere. */
  lemma EntryUntouched(m: Mem, m': Mem, d: nat, o: nat, q: nat)
    requires Shaped(m) && Shaped(m') && Apart(m) && d in m.dirs && o in m.dirs && o != d && q < PAGES
    requires m'.dirs == m.dirs && m'.content == m.content && m'.tables.Keys == m.tables.Keys
    requires forall t :: t in m.tables && t != m.dirs[d][q / ENTRIES] ==> m'.tables[t] == m.tables[t]
    ensures Untouched(m, m', d, o)
  {
    forall p | 0 <= p < PAGES && Elsewhere(m, d, o, p)
      ensures Entry(m', o, p) == Entry(m, o, p)
    {
      var t := m.dirs[o][p / ENTRIES];
      if t != 0 && t == m.dirs[d][q / ENTRIES] {
        assert Has(m, o, p / ENTRIES, t) && Has(m, d, q / ENTRIES, t);
      }
    }
  }

  lemma MakeTableUntouched(m: Mem, d: nat, idx: nat, o: nat)
    requires Owned(m) && d in m.dirs && o in m.dirs && o != d && idx < ENTRIES && MakeTable(m, d, idx).Done?
    ensures Shaped(MakeTable(m, d, idx).m) && Untouched(m, MakeTable(m, d, idx).m, d, o)
  {
    hide Linked, PresentIffFrame, Data, LowInPlace;
    MakeTableShaped(m, d, idx);
    if NextFrame(m) < FRAMES {
      FreeFrame(m);
      FreshNowhere(m, NextFrame(m));
    }
    var m' := MakeTable(m, d, idx).m;
    forall p | 0 <= p < PAGES && Elsewhere(m, d, o, p)
      ensures Elsewhere(m', d, o, p) && Entry(m', o, p) == Entry(m, o, p)
    {
      var t := m.dirs[o][p / ENTRIES];
      assert t == 0 || Has(m, o, p / ENTRIES, t);
    }
  }

  lemma AllocPageUntouched(m: Mem, d: nat, p: nat, user: bool, rw: bool, o: nat)
    requires Owned(m) && Apart(m) && d in m.dirs && o in m.dirs && o != d && BASE <= p < PAGES
    requires AllocPage(m, d, p, user, rw).Done?
    ensures var m' := AllocPage(m, d, p, user, rw).m; Shaped(m') && d in m'.dirs && o in m'.dirs && Untouched(m, m', d, o)
  {
    hide Linked, PresentIffFrame, Data, LowInPlace, Separate, Apart, Untouched;
    var m1, m' := MakeTable(m, d, p / ENTRIES).m, AllocPage(m, d, p, user, rw).m;
    MakeTableUntouched(m, d, p / ENTRIES, o);
    MakeTableApart(m, d, p / ENTRIES);
    PageShaped(m, d, p, user, rw);
    EntryUntouched(m1, m', d, o, p);
    UntouchedTrans(m, m1, m', d, o);
  }

  lemma {:induction false} AllocPagesUntouched(m: Mem, d: nat, p: nat, end: nat, user: bool, rw: bool, o: nat)
    requires Owned(m) && Apart(m) && d in m.dirs && o in m.dirs && o != d && BASE <= p && end <= PAGES
    requires AllocPages(m, d, p, end, user, rw).Done?
    ensures var m' := AllocPages(m, d, p, end, user, rw).m; Shaped(m') && d in m'.dirs && o in m'.dirs && Untouched(m, m', d, o)
    decreases end - p
  {
    hide AllocPage, Linked, PresentIffFrame, Data, LowInPlace, Separate, Apart;
    if p < end {
      var m1 := AllocPage(m, d, p, user, rw).m;
      AllocPageOwned(m, d, p, user, rw);
      AllocPageApart(m, d, p, user, rw);
      AllocPageUntouched(m, d, p, user, rw, o);
      AllocPagesUntouched(m1, d, p + 1, end, user, rw, o);
      hide Untouched;
      UntouchedTrans(m, m1, AllocPages(m, d, p, end, user, rw).m, d, o);
    }
  }

  lemma FreePageUntouched(m: Mem, d: nat, p: nat, o: nat)
    requires Owned(m) && Apart(m) && d in m.dirs && o in m.dirs && o != d && BASE <= p < PAGES
    ensures var m' := FreePage(m, d, p); Shaped(m') && m'.dirs == m.dirs && Untouched(m, m', d, o)
  {
    hide Linked, PresentIffFrame, Data, LowInPlace, Separate, Apart, Untouched;
    PageShaped(m, d, p, false, false);
    EntryUntouched(m, FreePage(m, d, p), d, o, p);
  }

  lemma {:induction false} FreePagesUntouched(m: Mem, d: nat, p: nat, end: nat, o: nat)
    requires Owned(m) && Apart(m) && d in m.dirs && o in m.dirs && o != d && BASE <= p && end <= PAGES
    ensures var m' := FreePages(m, d, p, end); Shaped(m') && m'.dirs == m.dirs && Untouched(m, m', d, o)
    decreases end - p
  {
    hide FreePage, Linked, PresentIffFrame, Data, LowInPlace, Separate, Apart;
    if p < end {
      var m1 := FreePage(m, d, p);
      FreePageOwned(m, d, p);
      FreePageUntouched(m, d, p, o);
      SameDirsApart(m, m1);
      FreePagesUntouched(m1, d, p + 1, end, o);
      hide Untouched;
      UntouchedTrans(m, m1, FreePages(m, d, p, end), d, o);
    }
  }

  /** In every state of every run: a region call on one directory changes no page of another, neither its entry
      nor the contents of any frame, unless the kernel has the page's table at that slot. */
  lemma RegionCallsStayPrivate(ms: seq<Mem>, ops: seq<Op>, n: nat, o: nat, p: nat)
    requires IsRun(ms, ops) && ms[0] == Boot() && n < |ops|
    requires ops[n].Allocate? || ops[n].Release?
    requires o in ms[n].dirs && o != ops[n].d && p < PAGES
    ensures Owned(ms[n]) && Owned(ms[n + 1]) && o in ms[n + 1].dirs && ms[n + 1].content == ms[n].content
    ensures !Has(ms[n], KERNEL, p / ENTRIES, ms[n].dirs[o][p / ENTRIES]) ==> Entry(ms[n + 1], o, p) == Entry(ms[n], o, p)
  {
    hide Linked, PresentIffFrame, Data, LowInPlace, Separate, AllocPages, FreePages;
    TablesStayApart(ms, ops, n);
    RunOwned(ms, ops, n + 1);
    assert Follows(ms, ops, n);
    var m, op := ms[n], ops[n];
    match op {
      case Allocate(d, start, size, user, rw) =>
        AllocPagesUntouched(m, d, FirstPage(start), EndPage(start, size), user, rw, o);
      case Release(d, start, size) =>
        FreePagesUntouched(m, d, FirstPage(start), EndPage(start, size), o);
    }
    var t := m.dirs[o][p / ENTRIES];
    if !Has(m, KERNEL, p / ENTRIES, t) {
      assert t != 0 ==> Has(m, o, p / ENTRIES, t);
      assert Has(m, op.d, p / ENTRIES, t) ==> t == 0;
      assert Elsewhere(m, op.d, o, p);
    }
  }
}
