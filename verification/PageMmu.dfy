/** The paging routines of i386/whitex/paging.h in their own form: bitmap, counter, tables and
    directories changed in place by loops. */
module PageMmu {
  // A method that returns `panicked` has called `sys_panic`, which does not return.

  import opened Common
  import opened FrameBits
  import opened PageModel
  import opened PageClone

  class Paging {
    const bits: Bitmap
    var total: int
    var tables: map<nat, Table>
    var dirs: map<nat, Dir>
    var content: map<nat, Content>

    ghost function View(): Mem
      requires bits.Ok()
      reads this, bits, bits.words
    {
      Mem(bits.Frames(), total, tables, dirs, content)
    }

    ghost predicate Ok()
      reads this, bits, bits.words
    {
      bits.Ok() && Shaped(View()) && FramesFit(tables)
    }

    /** `initialize_paging_system`: the kernel directory in the first free frame, then the identity mapping of
        low memory, one page at a time. */
    constructor ()
      ensures fresh(bits) && fresh(bits.words)
      ensures Ok() && Owned(View()) && View() == Boot()
    {
      bits := new Bitmap();
      total, tables, dirs, content := 0, map[], map[], map[];
      new;
      FirstFreeIs({}, 0);
      var found := bits.FindFirstFreeFrame();
      bits.SetBit(found);
      dirs := map[found / PAGE_SIZE := Copies(ENTRIES, 0)];
      assert View() == BootUpTo(0);
      MapLowMemory();
      BootDone();
      BootOwned();
    }

    /** The loop of `initialize_paging_system`. */
    method MapLowMemory()
      requires bits.Ok() && View() == BootUpTo(0)
      modifies this`tables, this`dirs, bits.words
      ensures View() == BootUpTo(BASE)
    {
      hide BootUpTo, MapPage, Walkable;
      for i := 0 to BASE
        invariant View() == BootUpTo(i)
      {
        BootStep(i);
        var panicked := MapVirtualToPhysical(i * PAGE_SIZE, i * PAGE_SIZE, true, true, KERNEL);
      }
    }

    /** The directory and, if there is one, the table of a page are there. */
    ghost predicate Reachable(address: nat, d: nat)
      reads this
    {
      Walkable(dirs, tables, d, address / PAGE_SIZE / ENTRIES)
    }

    /** `map_virtual_to_physical`. */
    method MapVirtualToPhysical(address: nat, physical: nat, isKernel: bool, isWritable: bool, d: nat)
        returns (panicked: bool)
      requires bits.Ok() && address < WORD && physical < WORD && Reachable(address, d)
      modifies this`tables, this`dirs, bits.words
      ensures old(MapPage(View(), d, address / PAGE_SIZE, physical / PAGE_SIZE, !isKernel, isWritable)) ==
              if panicked then Panic else Done(View())
    {
      var t;
      panicked, t := MakePageEntry(address, d);
      if panicked { return; }
      var i := address / PAGE_SIZE % ENTRIES;
      var e := tables[t][i].(present := true, rw := isWritable, user := !isKernel, frame := physical / PAGE_SIZE);
      tables := tables[t := tables[t][i := e]];
      bits.SetBit(physical);
    }

    /** `allocate_frame`. */
    method AllocateFrame(t: nat, i: nat, isKernel: bool, isWritable: bool) returns (panicked: bool)
      requires Ok() && t in tables && i < ENTRIES
      modifies this`total, this`tables, bits.words
      ensures !panicked ==> Ok()
      ensures old(AllocEntry(View(), t, i, !isKernel, isWritable)) == if panicked then Panic else Done(View())
    {
      if tables[t][i].frame != 0 { return false; }
      var address := bits.FindFirstFreeFrame();
      if address == NONE { return true; }
      bits.SetBit(address);
      var e := tables[t][i].(present := true, rw := isWritable, user := !isKernel, frame := address / PAGE_SIZE);
      tables := tables[t := tables[t][i := e]];
      total := total + 1;
      EntryShaped(old(View()), t, i, e);
      return false;
    }

    /** The part of `unmap_virtual_page` after the entry is found, with `free_frame`. */
    method FreeFrameOf(t: nat, i: nat)
      requires Ok() && t in tables && i < ENTRIES
      modifies this`total, this`tables, bits.words
      ensures Ok() && View() == FreeEntry(old(View()), t, i)
    {
      var e := tables[t][i];
      if !e.present { return; }
      if e.frame != 0 {
        bits.ClearBit(e.frame * PAGE_SIZE);
        e := e.(frame := 0);
        total := total - 1;
      }
      e := e.(present := false);
      tables := tables[t := tables[t][i := e]];
      EntryShaped(old(View()), t, i, e);
    }

    /** `get_page_entry` with `make` set: the table of the entry, made if it was missing. */
    method MakePageEntry(address: nat, d: nat) returns (panicked: bool, t: nat)
      requires bits.Ok() && address < WORD && Reachable(address, d)
      modifies this`tables, this`dirs, bits.words
      ensures old(MakeTable(View(), d, address / PAGE_SIZE / ENTRIES)) == if panicked then Panic else Done(View())
      ensures !panicked ==> Reachable(address, d) && t == dirs[d][address / PAGE_SIZE / ENTRIES] && t in tables
      ensures !panicked && old(Ok()) ==> Ok()
    {
      var idx := address / PAGE_SIZE / ENTRIES;
      t := dirs[d][idx];
      if t != 0 { return false, t; }
      if Shaped(View()) { MakeTableShaped(View(), d, idx); }
      var found := bits.FindFirstFreeFrame();
      if found == NONE { return true, 0; }
      bits.SetBit(found);
      t := found / PAGE_SIZE;
      var dir: Dir := dirs[d][idx := t];
      tables, dirs := tables[t := Copies(ENTRIES, EMPTY)], dirs[d := dir];
      return false, t;
    }

    /** `unmap_virtual_page`. */
    method UnmapVirtualPage(address: nat, d: nat)
      requires Ok() && d in dirs && address < WORD
      modifies this`total, this`tables, bits.words
      ensures Ok() && View() == FreePage(old(View()), d, address / PAGE_SIZE)
    {
      var page := address / PAGE_SIZE;
      var t := dirs[d][page / ENTRIES];
      if t != 0 { FreeFrameOf(t, page % ENTRIES); }
    }

    /** `get_physical_address`. */
    method GetPhysicalAddress(address: nat, d: nat) returns (physical: nat)
      requires Ok() && d in dirs && address < WORD
      ensures var e := Entry(View(), d, address / PAGE_SIZE);
              physical == if e.present then e.frame * PAGE_SIZE + address % PAGE_SIZE else NONE
    {
      var page := address / PAGE_SIZE;
      var t := dirs[d][page / ENTRIES];
      if t != 0 && tables[t][page % ENTRIES].present {
        return tables[t][page % ENTRIES].frame * PAGE_SIZE + address % PAGE_SIZE;
      }
      return NONE;
    }

    /** `allocate_memory_region`. */
    method AllocateMemoryRegion(start: nat, size: nat, isKernel: bool, isWritable: bool, d: nat) returns (panicked: bool)
      requires Ok() && d in dirs && start < WORD && size < WORD
      modifies this`total, this`tables, this`dirs, bits.words
      ensures !panicked ==> Ok()
      ensures old(AllocPages(View(), d, FirstPage(start), EndPage(start, size), !isKernel, isWritable)) ==
              if panicked then Panic else Done(View())
    {
      hide AllocPage, MakeTable, AllocEntry, Shaped, FramesFit;
      var current := start / PAGE_SIZE * PAGE_SIZE;
      var end := (start + size + PAGE_SIZE - 1) % WORD / PAGE_SIZE * PAGE_SIZE;
      ghost var goal := AllocPages(View(), d, FirstPage(start), EndPage(start, size), !isKernel, isWritable);
      ghost var p, q := FirstPage(start), EndPage(start, size);
      hide EndPage, FirstPage;
      while current < end
        invariant Ok() && d in dirs && current == p * PAGE_SIZE
        invariant goal == AllocPages(View(), d, p, q, !isKernel, isWritable)
        decreases end - current
      {
        PageShaped(View(), d, p, !isKernel, isWritable);
        panicked := AllocateOne(current, isKernel, isWritable, d);
        if panicked { return true; }
        current, p := current + PAGE_SIZE, p + 1;
      }
      return false;
    }

    /** One pass of the loop of `allocate_memory_region`. */
    method AllocateOne(current: nat, isKernel: bool, isWritable: bool, d: nat) returns (panicked: bool)
      requires Ok() && d in dirs && current < WORD
      modifies this`total, this`tables, this`dirs, bits.words
      ensures !panicked ==> Ok() && d in dirs
      ensures old(AllocPage(View(), d, current / PAGE_SIZE, !isKernel, isWritable)) ==
              if panicked then Panic else Done(View())
    {
      var t;
      panicked, t := MakePageEntry(current, d);
      if panicked { return; }
      panicked := AllocateFrame(t, current / PAGE_SIZE % ENTRIES, isKernel, isWritable);
    }

    /** `free_memory_region`. */
    method FreeMemoryRegion(start: nat, size: nat, d: nat)
      requires Ok() && d in dirs && start < WORD && size < WORD
      modifies this`total, this`tables, bits.words
      ensures Ok() && View() == FreePages(old(View()), d, FirstPage(start), EndPage(start, size))
    {
      hide FreePage, Shaped, FramesFit;
      var current := start / PAGE_SIZE * PAGE_SIZE;
      var end := (start + size + PAGE_SIZE - 1) % WORD / PAGE_SIZE * PAGE_SIZE;
      ghost var goal := FreePages(View(), d, FirstPage(start), EndPage(start, size));
      ghost var p, q := FirstPage(start), EndPage(start, size);
      hide EndPage, FirstPage;
      while current < end
        invariant Ok() && d in dirs && current == p * PAGE_SIZE
        invariant goal == FreePages(View(), d, p, q)
        decreases end - current
      {
        PageShaped(View(), d, p, false, false);
        UnmapVirtualPage(current, d);
        current, p := current + PAGE_SIZE, p + 1;
      }
    }

    /** `check_region_availability`. */
    method CheckRegionAvailability(start: nat, size: nat, d: nat) returns (available: bool)
      requires Ok() && d in dirs && start < WORD && size < WORD
      ensures available <==> Available(View(), d, FirstPage(start), EndPage(start, size))
    {
      var current := start / PAGE_SIZE * PAGE_SIZE;
      var end := (start + size + PAGE_SIZE - 1) % WORD / PAGE_SIZE * PAGE_SIZE;
      while current < end
        invariant current % PAGE_SIZE == 0 && current < WORD && FirstPage(start) <= current / PAGE_SIZE
        invariant forall q :: FirstPage(start) <= q < current / PAGE_SIZE && q < PAGES ==> !Present(View(), d, q)
        decreases end - current
      {
        var page := current / PAGE_SIZE;
        var t := dirs[d][page / ENTRIES];
        if t != 0 && tables[t][page % ENTRIES].present {
          assert Present(View(), d, page);
          return false;
        }
        assert !Present(View(), d, page);
        current := current + PAGE_SIZE;
      }
      return true;
    }

    /** One pass of the loop of `clone_page_table`. */
    method CopyOne(s: nat, t: nat, i: nat) returns (panicked: bool)
      requires Ok() && s in tables && t in tables && s != t && i < ENTRIES
      modifies this`total, this`tables, this`content, bits.words
      ensures !panicked ==> Ok()
      ensures old(CopyEntry(View(), s, t, i)) == if panicked then Panic else Done(View())
    {
      CopyEntryShaped(View(), s, t, i);
      var e := tables[s][i];
      if !e.present { return false; }
      panicked := AllocateFrame(t, i, false, false);
      if panicked { return; }
      var f := tables[t][i].frame;
      tables := tables[t := tables[t][i := e.(frame := f)]];
      content := content[f := ContentOfFrame(e.frame)];
    }

    function ContentOfFrame(f: nat): Content
      reads this
    {
      if f in content then content[f] else []
    }

    /** `clone_page_table`; a null result, 0, is not a panic. */
    method ClonePageTable(s: nat) returns (panicked: bool, t: nat)
      requires Ok() && s in tables && s in bits.Frames() && 0 in bits.Frames()
      modifies this`total, this`tables, this`content, bits.words
      ensures !panicked ==> Ok() && dirs == old(dirs)
      ensures old(CloneTable(View(), s)) == ResultOf(panicked, t, View())
      ensures t == 0 && !panicked ==> View() == old(View())
    {
      var found := bits.FindFirstFreeFrame();
      if found == NONE { return false, 0; }
      ghost var m := View();
      bits.SetBit(found);
      t := found / PAGE_SIZE;
      tables := tables[t := Copies(ENTRIES, EMPTY)];
      assert View() == NewTable(m);
      ghost var goal := CopyEntries(View(), s, t, 0);
      for i := 0 to ENTRIES
        invariant Ok() && s in tables && t in tables && dirs == old(dirs)
        invariant goal == CopyEntries(View(), s, t, i)
      {
        CopyEntryShaped(View(), s, t, i);
        panicked := CopyOne(s, t, i);
        if panicked { return true, 0; }
      }
      return false, t;
    }

    /** One pass of the loop of `clone_page_directory`. */
    method CloneOne(src: nat, d: nat, i: nat) returns (panicked: bool)
      requires Ok() && src in dirs && d in dirs && i < ENTRIES && 0 in bits.Frames() && tables.Keys <= bits.Frames()
      modifies this`total, this`tables, this`dirs, this`content, bits.words
      ensures !panicked ==> Ok() && dirs.Keys == old(dirs.Keys)
      ensures old(CloneSlot(View(), src, d, i)) == if panicked then Panic else Done(View())
    {
      CloneSlotShaped(View(), src, d, i);
      var s := dirs[src][i];
      if s == 0 { return false; }
      var t := s;
      if dirs[KERNEL][i] != s {
        panicked, t := ClonePageTable(s);
        if panicked { return; }
      }
      var dir: Dir := dirs[d][i := t];
      dirs := dirs[d := dir];
      return false;
    }

    /** An empty directory in the lowest free frame; null if there is none. */
    method NewDirectory() returns (d: nat)
      requires Ok() && Owned(View())
      modifies this`dirs, bits.words
      ensures d == 0 <==> NextFrame(old(View())) == FRAMES
      ensures d == 0 ==> View() == old(View())
      ensures d != 0 ==> d == NextFrame(old(View())) && View() == NewDir(old(View())) && d in dirs
      ensures Ok() && Owned(View())
    {
      hide Linked, PresentIffFrame, Data;
      var found := bits.FindFirstFreeFrame();
      if found == NONE { return 0; }
      ghost var m := View();
      FreeFrame(m);
      NewDirOwned(m);
      bits.SetBit(found);
      d := found / PAGE_SIZE;
      dirs := dirs[d := Copies(ENTRIES, 0)];
    }

    /** The loop of `clone_page_directory`. */
    method CloneInto(src: nat, d: nat) returns (panicked: bool)
      requires Ok() && Owned(View()) && src in dirs && d in dirs && d != KERNEL
      modifies this`total, this`tables, this`dirs, this`content, bits.words
      ensures !panicked ==> Ok() && Owned(View())
      ensures old(CloneSlots(View(), src, d, 0)) == if panicked then Panic else Done(View())
    {
      hide Owned, Shaped, FramesFit, CloneSlot;
      ghost var goal := CloneSlots(View(), src, d, 0);
      for i := 0 to ENTRIES
        invariant Ok() && Owned(View()) && src in dirs && d in dirs
        invariant goal == CloneSlots(View(), src, d, i)
      {
        MarkedTables(View());
        CloneSlotShaped(View(), src, d, i);
        CloneSlotOwned(View(), src, d, i);
        panicked := CloneOne(src, d, i);
        if panicked { return true; }
      }
      return false;
    }

    /** `clone_page_directory`; 0 is the null result. */
    method ClonePageDirectory(src: nat) returns (panicked: bool, d: nat)
      requires Ok() && Owned(View()) && src in dirs
      modifies this`total, this`tables, this`dirs, this`content, bits.words
      ensures !panicked ==> Ok() && Owned(View())
      ensures old(CloneDir(View(), src)) == ResultOf(panicked, d, View())
      ensures d == 0 && !panicked ==> View() == old(View())
    {
      hide Linked, PresentIffFrame, Data, CloneSlots, LowInPlace, Separate;
      d := NewDirectory();
      if d == 0 { return false, 0; }
      panicked := CloneInto(src, d);
      if panicked { d := 0; }
    }
  }

  /** What a clone returned: null is frame 0, which is never free. */
  ghost function ResultOf(panicked: bool, at: nat, m: Mem): CloneRes {
    if panicked then Halted else if at == 0 then NoFrame else Cloned(m, at)
  }

  /** The walk to a page finds its table, or none. */
  predicate Walkable(dirs: map<nat, Dir>, tables: map<nat, Table>, d: nat, idx: nat) {
    && d in dirs && |dirs[d]| == ENTRIES && idx < ENTRIES
    && (dirs[d][idx] == 0 || (dirs[d][idx] in tables && |tables[dirs[d][idx]]| == ENTRIES))
  }

  // ---------- the start ----------

  /** `map_virtual_to_physical` on page `p` and frame `f`. */
  ghost function MapPage(m: Mem, d: nat, p: nat, f: nat, user: bool, rw: bool): Res
    requires Walkable(m.dirs, m.tables, d, p / ENTRIES)
  {
    var r := MakeTable(m, d, p / ENTRIES);
    if r.Panic? then Panic
    else
      var t, i := r.m.dirs[d][p / ENTRIES], p % ENTRIES;
      var e := r.m.tables[t][i].(present := true, rw := rw, user := user, frame := f);
      Done(SetEntry(r.m, t, i, e).(used := r.m.used + {f}))
  }

  /** Memory after the kernel directory and the first `n` pages of the identity mapping; the first page takes a
      frame for the table. */
  ghost function BootUpTo(n: nat): (m: Mem)
    requires n <= ENTRIES
  {
    if n == 0 then Mem({KERNEL}, 0, map[], map[KERNEL := Copies(ENTRIES, 0)], map[])
    else
      Mem(FramesBelow(n) + {LOW}, 0, map[LOW := IdentityUpTo(n)], map[KERNEL := [LOW] + Copies(ENTRIES - 1, 0)], map[])
  }

  ghost function IdentityUpTo(n: nat): (t: Table)
    ensures |t| == ENTRIES
  {
    seq(ENTRIES, i requires 0 <= i < ENTRIES => if i < n then Pte(true, true, false, false, false, i) else EMPTY)
  }

  lemma BootStep(n: nat)
    requires n < BASE
    ensures var m := BootUpTo(n);
            && Walkable(m.dirs, m.tables, KERNEL, n / ENTRIES)
            && MapPage(m, KERNEL, n, n, false, true) == Done(BootUpTo(n + 1))
  {
    var m, m' := BootUpTo(n), BootUpTo(n + 1);
    if n == 0 {
      FirstFreeIs({KERNEL}, LOW);
      assert m.dirs[KERNEL][0 := LOW] == m'.dirs[KERNEL];
      assert Copies(ENTRIES, EMPTY)[0 := Pte(true, true, false, false, false, 0)] == IdentityUpTo(1);
      assert {KERNEL} + {LOW} + {0} == m'.used;
    } else {
      assert m.tables[LOW][n := Pte(true, true, false, false, false, n)] == m'.tables[LOW];
      assert m.used + {n} == m'.used;
    }
  }

  lemma BootDone()
    ensures BootUpTo(BASE) == Boot() && Shaped(Boot()) && FramesFit(Boot().tables)
  {
    assert IdentityUpTo(BASE) == IdentityTable();
    assert FramesBelow(BASE) + {LOW} == LowFrames();
  }

  lemma MarkedTables(m: Mem)
    requires Owned(m)
    ensures m.tables.Keys <= m.used && 0 in m.used
  {
  }

  /** Frame numbers have 20 bits. */
  ghost predicate FramesFit(tables: map<nat, Table>) {
    forall t, i :: t in tables && 0 <= i < |tables[t]| ==> tables[t][i].frame < FRAMES
  }
}
