/** What a region call maps, what it costs, and when it panics (i386/whitex/paging.h:146-171, 302-332). */
module PageRegions {
  import opened Common
  import opened FrameBits
  import opened PageModel
  import opened PageClone
  import opened PageRuns
  import opened PageIsolation
  import opened PageMmu

  /** The pages of [p, end) without a frame. */
  ghost function Unmapped(m: Mem, d: nat, p: nat, end: nat): set<nat>
    requires Shaped(m) && d in m.dirs && end <= PAGES
  {
    set q: nat | p <= q < end && Entry(m, d, q).frame == 0
  }

  /** The table slots of [p, end) that are null. */
  ghost function Tableless(m: Mem, d: nat, p: nat, end: nat): set<nat>
    requires Shaped(m) && d in m.dirs
  {
    set i: nat | i < 1024 && p < end && p / 1024 <= i && i * 1024 < end && m.dirs[d][i] == 0
  }

  /** Page `q` is present after an allocation: as it was if it had a frame, else in a frame nobody had, with the rights
      asked for. */
  ghost predicate Mapped(m: Mem, m': Mem, d: nat, q: nat, user: bool, rw: bool)
    requires Shaped(m) && Shaped(m') && d in m.dirs && d in m'.dirs && q < PAGES
  {
    var e, e' := Entry(m, d, q), Entry(m', d, q);
    && e'.present && e'.frame != 0
    && if e.frame != 0 then e' == e
       else e'.frame !in m.used && e'.frame in m'.used && e' == Pte(true, rw, user, e.accessed, e.dirty, e'.frame)
  }

  ghost predicate SamePage(m: Mem, m': Mem, d: nat, q: nat)
    requires Shaped(m) && Shaped(m') && d in m.dirs && d in m'.dirs && q < PAGES
  {
    Entry(m', d, q) == Entry(m, d, q)
  }

  /** What an allocation of [p, end) makes of `m`. */
  ghost predicate Allocated(m: Mem, m': Mem, d: nat, p: nat, end: nat, user: bool, rw: bool)
    requires Shaped(m) && d in m.dirs && p <= end <= PAGES
  {
    && Shaped(m') && d in m'.dirs
    && (forall q: nat :: p <= q < end ==> Mapped(m, m', d, q, user, rw))
    && (forall q: nat :: q < PAGES && !(p <= q < end) ==> SamePage(m, m', d, q))
    && m.used <= m'.used && m'.content == m.content
    && |m'.used| == |m.used| + |Unmapped(m, d, p, end)| + |Tableless(m, d, p, end)|
    && m'.total == m.total + |Unmapped(m, d, p, end)|
  }

  // ---------- one page ----------

  lemma MakeTableKeeps(m: Mem, d: nat, idx: nat)
    requires Owned(m) && Apart(m) && d in m.dirs && 0 < idx < ENTRIES && MakeTable(m, d, idx).Done?
    ensures var m1 := MakeTable(m, d, idx).m;
            && Shaped(m1) && d in m1.dirs && m1.dirs[d][idx] in m1.tables && m1.dirs[d][idx] != 0
            && (forall q: nat :: q < PAGES ==> SamePage(m, m1, d, q))
            && (forall i :: 0 <= i < ENTRIES && i != idx ==> m1.dirs[d][i] == m.dirs[d][i])
            && m1.total == m.total && m1.content == m.content && m.used <= m1.used
            && |m1.used| == |m.used| + (if m.dirs[d][idx] == 0 then 1 else 0)
  {
    hide Linked, PresentIffFrame, Data, LowInPlace;
    MakeTableShaped(m, d, idx);
    if m.dirs[d][idx] == 0 {
      FreeFrame(m);
      FreshNowhere(m, NextFrame(m));
      var m1 := MakeTable(m, d, idx).m;
      forall q: nat | q < PAGES
        ensures SamePage(m, m1, d, q)
      {
        assert m.dirs[d][q / ENTRIES] != 0 ==> Has(m, d, q / ENTRIES, m.dirs[d][q / ENTRIES]);
      }
    }
  }

  /** The entry of page `p` gets a frame; no other page of the directory sees it. */
  lemma EntryKeeps(m: Mem, d: nat, p: nat, user: bool, rw: bool)
    requires Owned(m) && Apart(m) && d in m.dirs && BASE <= p < PAGES && m.dirs[d][p / ENTRIES] != 0
    ensures var r := AllocEntry(m, m.dirs[d][p / ENTRIES], p % ENTRIES, user, rw);
            && (r.Done? <==> FreeCount(m) > 0 || Entry(m, d, p).frame != 0)
            && (r.Done? ==>
                  && Shaped(r.m) && r.m.dirs == m.dirs && Mapped(m, r.m, d, p, user, rw)
                  && (forall q: nat :: q < PAGES && q != p ==> SamePage(m, r.m, d, q))
                  && m.used <= r.m.used && r.m.content == m.content
                  && |r.m.used| == |m.used| + (if Entry(m, d, p).frame == 0 then 1 else 0)
                  && r.m.total == m.total + (if Entry(m, d, p).frame == 0 then 1 else 0))
  {
    var t, i := m.dirs[d][p / ENTRIES], p % ENTRIES;
    var r := AllocEntry(m, t, i, user, rw);
    FrameIffFree(m);
    assert Has(m, d, p / ENTRIES, t) && t in m.tables;
    assert t != LOW;
    hide Linked, Data, LowInPlace;
    if r.Done? && m.tables[t][i].frame == 0 {
      FreeFrame(m);
      EntryShaped(m, t, i, r.m.tables[t][i]);
      forall q: nat | q < PAGES && q != p
        ensures SamePage(m, r.m, d, q)
      {
        if m.dirs[d][q / ENTRIES] == t { assert Has(m, d, q / ENTRIES, t); }
      }
    }
  }

  lemma OnePage(m: Mem, d: nat, p: nat)
    requires Shaped(m) && d in m.dirs && p < PAGES
    ensures Unmapped(m, d, p, p + 1) == if Entry(m, d, p).frame == 0 then {p} else {}
    ensures Tableless(m, d, p, p + 1) == if m.dirs[d][p / 1024] == 0 then {p / 1024} else {}
  {
  }

  ghost function Cost(m: Mem, d: nat, p: nat, end: nat): nat
    requires Shaped(m) && d in m.dirs && end <= PAGES
  {
    |Unmapped(m, d, p, end)| + |Tableless(m, d, p, end)|
  }

  /** `m1` has the same slots as `m` but for that of page `p`, which is not null. */
  ghost predicate SlotMade(m: Mem, m1: Mem, d: nat, p: nat)
    requires Shaped(m) && Shaped(m1) && d in m.dirs && d in m1.dirs && p < PAGES
  {
    m1.dirs[d][p / ENTRIES] != 0 && forall i :: 0 <= i < ENTRIES && i != p / ENTRIES ==> m1.dirs[d][i] == m.dirs[d][i]
  }

  lemma MappedAfter(m: Mem, m1: Mem, m2: Mem, d: nat, q: nat, user: bool, rw: bool)
    requires Shaped(m) && Shaped(m1) && Shaped(m2) && d in m.dirs && d in m1.dirs && d in m2.dirs && q < PAGES
    requires m.used <= m1.used && SamePage(m, m1, d, q) && Mapped(m1, m2, d, q, user, rw)
    ensures Mapped(m, m2, d, q, user, rw)
  {
    hide Entry, Shaped;
  }

  lemma PageChain(m: Mem, m1: Mem, m2: Mem, d: nat, p: nat, user: bool, rw: bool)
    requires Shaped(m) && Shaped(m1) && Shaped(m2) && d in m.dirs && d in m1.dirs && d in m2.dirs && p < PAGES
    requires forall q: nat :: q < PAGES ==> SamePage(m, m1, d, q)
    requires Mapped(m1, m2, d, p, user, rw) && forall q: nat :: q < PAGES && q != p ==> SamePage(m1, m2, d, q)
    requires m.used <= m1.used <= m2.used && m.content == m1.content == m2.content
    requires |m2.used| == |m.used| + Cost(m, d, p, p + 1) && m2.total == m.total + |Unmapped(m, d, p, p + 1)|
    ensures Allocated(m, m2, d, p, p + 1, user, rw)
  {
    MappedAfter(m, m1, m2, d, p, user, rw);
    hide Entry, Shaped, Unmapped, Tableless, Mapped;
    forall q: nat | q < PAGES && q != p
      ensures SamePage(m, m2, d, q)
    {
      assert SamePage(m, m1, d, q) && SamePage(m1, m2, d, q);
    }
  }

  lemma PageAllocates(m: Mem, d: nat, p: nat, user: bool, rw: bool)
    requires Owned(m) && Apart(m) && d in m.dirs && BASE <= p < PAGES
    ensures var r := AllocPage(m, d, p, user, rw);
            && (r.Done? <==> FreeCount(m) >= Cost(m, d, p, p + 1))
            && (r.Done? ==> Allocated(m, r.m, d, p, p + 1, user, rw) && SlotMade(m, r.m, d, p))
  {
    FrameIffFree(m);
    OnePage(m, d, p);
    var r1 := MakeTable(m, d, p / ENTRIES);
    assert r1.Done? <==> m.dirs[d][p / ENTRIES] != 0 || FreeCount(m) > 0;
    assert m.dirs[d][p / ENTRIES] == 0 ==> Entry(m, d, p).frame == 0;
    hide AllocEntry, MakeTable, Linked, Data, LowInPlace, Separate, PresentIffFrame, Apart, Unmapped, Tableless, Entry;
    MakeTableOwned(m, d, p / ENTRIES);
    MakeTableApart(m, d, p / ENTRIES);
    if r1.Done? {
      MakeTableKeeps(m, d, p / ENTRIES);
      EntryKeeps(r1.m, d, p, user, rw);
      assert SamePage(m, r1.m, d, p);
      var r := AllocPage(m, d, p, user, rw);
      hide Owned;
      if r.Done? { PageChain(m, r1.m, r.m, d, p, user, rw); }
    }
  }

  // ---------- a region ----------

  /** The cost of a region is the cost of its first page and of the rest once that is mapped. */
  lemma CostSplits(m: Mem, m1: Mem, d: nat, p: nat, end: nat, user: bool, rw: bool)
    requires Shaped(m) && d in m.dirs && p < end <= PAGES
    requires Allocated(m, m1, d, p, p + 1, user, rw) && SlotMade(m, m1, d, p)
    ensures |Unmapped(m, d, p, end)| == |Unmapped(m, d, p, p + 1)| + |Unmapped(m1, d, p + 1, end)|
    ensures |Tableless(m, d, p, end)| == |Tableless(m, d, p, p + 1)| + |Tableless(m1, d, p + 1, end)|
  {
    OnePage(m, d, p);
    UnmappedSplits(m, m1, d, p, end, user, rw);
    TablelessSplits(m, m1, d, p, end);
  }

  lemma UnmappedSplits(m: Mem, m1: Mem, d: nat, p: nat, end: nat, user: bool, rw: bool)
    requires Shaped(m) && d in m.dirs && p < end <= PAGES && Allocated(m, m1, d, p, p + 1, user, rw)
    ensures |Unmapped(m, d, p, end)| == |Unmapped(m, d, p, p + 1)| + |Unmapped(m1, d, p + 1, end)|
  {
    var one, rest := Unmapped(m, d, p, p + 1), Unmapped(m1, d, p + 1, end);
    forall q: nat
      ensures q in Unmapped(m, d, p, end) <==> q in one || q in rest
    {
      if p < q < end { LaterUnmapped(m, m1, d, p, end, q); }
    }
    SplitCard(Unmapped(m, d, p, end), one, rest);
  }

  lemma LaterUnmapped(m: Mem, m1: Mem, d: nat, p: nat, end: nat, q: nat)
    requires Shaped(m) && Shaped(m1) && d in m.dirs && d in m1.dirs && p < q < end <= PAGES
    requires forall k: nat :: k < PAGES && !(p <= k < p + 1) ==> SamePage(m, m1, d, k)
    ensures q in Unmapped(m, d, p, end) <==> q in Unmapped(m1, d, p + 1, end)
  {
    assert SamePage(m, m1, d, q);
  }

  lemma SplitCard(all: set<nat>, first: set<nat>, rest: set<nat>)
    requires (forall q: nat :: q in all <==> q in first || q in rest) && first !! rest
    ensures |all| == |first| + |rest|
  {
    assert all == first + rest;
  }

  lemma TablelessSplits(m: Mem, m1: Mem, d: nat, p: nat, end: nat)
    requires Shaped(m) && Shaped(m1) && d in m.dirs && d in m1.dirs && p < end <= PAGES && SlotMade(m, m1, d, p)
    ensures |Tableless(m, d, p, end)| == |Tableless(m, d, p, p + 1)| + |Tableless(m1, d, p + 1, end)|
  {
    OnePage(m, d, p);
    SplitCard(Tableless(m, d, p, end), Tableless(m, d, p, p + 1), Tableless(m1, d, p + 1, end));
  }

  lemma AllocatedThen(m: Mem, m1: Mem, m2: Mem, d: nat, p: nat, end: nat, user: bool, rw: bool)
    requires Shaped(m) && d in m.dirs && p < end <= PAGES
    requires Allocated(m, m1, d, p, p + 1, user, rw) && SlotMade(m, m1, d, p) && Allocated(m1, m2, d, p + 1, end, user, rw)
    ensures Allocated(m, m2, d, p, end, user, rw)
  {
    CostSplits(m, m1, d, p, end, user, rw);
    hide Unmapped, Tableless, SlotMade, Entry;
    forall q: nat | p <= q < end
      ensures Mapped(m, m2, d, q, user, rw)
    {
      if q == p {
        assert Mapped(m, m1, d, p, user, rw) && SamePage(m1, m2, d, p);
      } else {
        assert SamePage(m, m1, d, q);
        MappedAfter(m, m1, m2, d, q, user, rw);
      }
    }
    forall q: nat | q < PAGES && !(p <= q < end)
      ensures SamePage(m, m2, d, q)
    {
      assert SamePage(m, m1, d, q) && SamePage(m1, m2, d, q);
    }
  }

  lemma CostFirst(m: Mem, d: nat, p: nat, end: nat)
    requires Shaped(m) && d in m.dirs && p < end <= PAGES
    ensures Cost(m, d, p, p + 1) <= Cost(m, d, p, end)
  {
    CardSubset(Unmapped(m, d, p, p + 1), Unmapped(m, d, p, end));
    CardSubset(Tableless(m, d, p, p + 1), Tableless(m, d, p, end));
  }

  /** The first page of a region, and what it leaves to pay for the rest. */
  lemma RegionStep(m: Mem, d: nat, p: nat, end: nat, user: bool, rw: bool)
    requires Owned(m) && Apart(m) && d in m.dirs && BASE <= p < end <= PAGES
    ensures var r := AllocPage(m, d, p, user, rw);
            && (!r.Done? ==> FreeCount(m) < Cost(m, d, p, end))
            && (r.Done? ==>
                  && Owned(r.m) && Apart(r.m) && d in r.m.dirs
                  && Allocated(m, r.m, d, p, p + 1, user, rw) && SlotMade(m, r.m, d, p)
                  && FreeCount(m) - FreeCount(r.m) == Cost(m, d, p, end) - Cost(r.m, d, p + 1, end))
  {
    var r := AllocPage(m, d, p, user, rw);
    hide AllocPage, Linked, Data, LowInPlace, Separate, PresentIffFrame, Apart, Unmapped, Tableless, Entry, SlotMade;
    PageAllocates(m, d, p, user, rw);
    CostFirst(m, d, p, end);
    AllocPageOwned(m, d, p, user, rw);
    AllocPageApart(m, d, p, user, rw);
    if r.Done? { CostSplits(m, r.m, d, p, end, user, rw); }
  }

  /** An allocation panics exactly if the free frames do not cover the pages without one and the missing tables; otherwise
      it maps every page of the region and changes no other page of the directory. */
  lemma {:induction false} RegionAllocates(m: Mem, d: nat, p: nat, end: nat, user: bool, rw: bool)
    requires Owned(m) && Apart(m) && d in m.dirs && BASE <= p <= end <= PAGES
    ensures var r := AllocPages(m, d, p, end, user, rw);
            && (r.Done? <==> FreeCount(m) >= Cost(m, d, p, end))
            && (r.Done? ==> Allocated(m, r.m, d, p, end, user, rw))
    decreases end - p
  {
    hide AllocPage, Separate, LowInPlace, Linked, PresentIffFrame, Data, Apart, Allocated, SlotMade, Cost, Has, Holds;
    RegionNothing(m, d, p, user, rw);
    if p < end {
      RegionStep(m, d, p, end, user, rw);
      var r1 := AllocPage(m, d, p, user, rw);
      if r1.Done? {
        RegionAllocates(r1.m, d, p + 1, end, user, rw);
        var r := AllocPages(r1.m, d, p + 1, end, user, rw);
        if r.Done? { AllocatedThen(m, r1.m, r.m, d, p, end, user, rw); }
      }
    }
  }

  lemma RegionNothing(m: Mem, d: nat, p: nat, user: bool, rw: bool)
    requires Owned(m) && d in m.dirs && p <= PAGES
    ensures Allocated(m, m, d, p, p, user, rw) && Cost(m, d, p, p) == 0 <= FreeCount(m)
  {
    FrameIffFree(m);
    assert Unmapped(m, d, p, p) == {} && Tableless(m, d, p, p) == {};
  }

  // ---------- freeing ----------

  /** The frames of the pages of [p, end). */
  ghost function Frames(m: Mem, d: nat, p: nat, end: nat): set<nat>
    requires Shaped(m) && d in m.dirs && end <= PAGES
  {
    set q: nat | p <= q < end && Entry(m, d, q).frame != 0 :: Entry(m, d, q).frame
  }

  /** Page `q` has lost its frame and nothing else. */
  ghost predicate Cleared(m: Mem, m': Mem, d: nat, q: nat)
    requires Shaped(m) && Shaped(m') && d in m.dirs && d in m'.dirs && q < PAGES
  {
    Entry(m', d, q) == Entry(m, d, q).(present := false, frame := 0)
  }

  ghost predicate Freed(m: Mem, m': Mem, d: nat, p: nat, end: nat)
    requires Shaped(m) && d in m.dirs && p <= end <= PAGES
  {
    && Shaped(m') && m'.dirs == m.dirs && m'.tables.Keys == m.tables.Keys && m'.content == m.content
    && (forall q: nat :: p <= q < end ==> Cleared(m, m', d, q))
    && (forall q: nat :: q < PAGES && !(p <= q < end) ==> SamePage(m, m', d, q))
    && m'.used == m.used - Frames(m, d, p, end)
    && m'.total == m.total - (end - p - |Unmapped(m, d, p, end)|)
  }

  lemma OneFrame(m: Mem, d: nat, p: nat)
    requires Shaped(m) && d in m.dirs && p < PAGES
    ensures Frames(m, d, p, p + 1) == if Entry(m, d, p).frame == 0 then {} else {Entry(m, d, p).frame}
  {
  }

  /** The entry of page `p` loses its frame; no other page of the directory sees it. */
  lemma EntryFrees(m: Mem, d: nat, p: nat)
    requires Owned(m) && Apart(m) && d in m.dirs && BASE <= p < PAGES && Entry(m, d, p).frame != 0
    ensures var m' := FreePage(m, d, p);
            && Shaped(m') && m'.dirs == m.dirs && m'.tables.Keys == m.tables.Keys && m'.content == m.content
            && Cleared(m, m', d, p) && m'.used == m.used - {Entry(m, d, p).frame} && m'.total == m.total - 1
            && forall q: nat :: q < PAGES && q != p ==> SamePage(m, m', d, q)
  {
    var t, i := m.dirs[d][p / ENTRIES], p % ENTRIES;
    var m' := FreePage(m, d, p);
    assert Has(m, d, p / ENTRIES, t) && t in m.tables && t != LOW;
    hide Linked, Data, LowInPlace, Separate;
    EntryShaped(m, t, i, m'.tables[t][i]);
    forall q: nat | q < PAGES && q != p
      ensures SamePage(m, m', d, q)
    {
      if m.dirs[d][q / ENTRIES] == t { assert Has(m, d, q / ENTRIES, t); }
    }
  }

  /** A page without a frame is left as it is. */
  lemma EntryStays(m: Mem, d: nat, p: nat)
    requires Owned(m) && d in m.dirs && BASE <= p < PAGES && Entry(m, d, p).frame == 0
    ensures FreePage(m, d, p) == m && Cleared(m, m, d, p)
  {
    assert m.dirs[d][p / ENTRIES] != LOW;
    hide Linked, Data, LowInPlace, Separate;
  }

  lemma FreedOne(m: Mem, m': Mem, d: nat, p: nat)
    requires Shaped(m) && Shaped(m') && d in m.dirs && p < PAGES && m'.dirs == m.dirs
    requires m'.tables.Keys == m.tables.Keys && m'.content == m.content && Cleared(m, m', d, p)
    requires forall q: nat :: q < PAGES && q != p ==> SamePage(m, m', d, q)
    requires m'.used == m.used - (if Entry(m, d, p).frame == 0 then {} else {Entry(m, d, p).frame})
    requires m'.total == m.total - (if Entry(m, d, p).frame == 0 then 0 else 1)
    ensures Freed(m, m', d, p, p + 1)
  {
    OnePage(m, d, p);
    OneFrame(m, d, p);
    hide Shaped, Unmapped, Frames, Tableless, Entry, Cleared, SamePage;
  }

  lemma PageFrees(m: Mem, d: nat, p: nat)
    requires Owned(m) && Apart(m) && d in m.dirs && BASE <= p < PAGES
    ensures Freed(m, FreePage(m, d, p), d, p, p + 1)
  {
    if Entry(m, d, p).frame == 0 {
      EntryStays(m, d, p);
      hide *;
      SameAll(m, d);
      FreedOne(m, m, d, p);
    } else {
      var m' := FreePage(m, d, p);
      hide *;
      EntryFrees(m, d, p);
      FreedOne(m, m', d, p);
    }
  }

  lemma SameAll(m: Mem, d: nat)
    requires Shaped(m) && d in m.dirs
    ensures forall q: nat :: q < PAGES ==> SamePage(m, m, d, q)
  {
  }

  lemma FramesSplit(m: Mem, m1: Mem, d: nat, p: nat, end: nat)
    requires Shaped(m) && d in m.dirs && p < end <= PAGES && Freed(m, m1, d, p, p + 1)
    ensures Frames(m, d, p, end) == Frames(m, d, p, p + 1) + Frames(m1, d, p + 1, end)
    ensures |Unmapped(m, d, p, end)| == |Unmapped(m, d, p, p + 1)| + |Unmapped(m1, d, p + 1, end)|
  {
    var one, rest := Unmapped(m, d, p, p + 1), Unmapped(m1, d, p + 1, end);
    forall q: nat
      ensures q in Unmapped(m, d, p, end) <==> q in one || q in rest
    {
      if p < q < end { LaterUnmapped(m, m1, d, p, end, q); }
    }
    SplitCard(Unmapped(m, d, p, end), one, rest);
    var all, first, frames := Frames(m, d, p, end), Frames(m, d, p, p + 1), Frames(m1, d, p + 1, end);
    forall f
      ensures f in all <==> f in first || f in frames
    {
      LaterFrame(m, m1, d, p, end, f);
    }
  }

  lemma LaterFrame(m: Mem, m1: Mem, d: nat, p: nat, end: nat, f: nat)
    requires Shaped(m) && Shaped(m1) && d in m.dirs && d in m1.dirs && p < end <= PAGES
    requires forall k: nat :: k < PAGES && !(p <= k < p + 1) ==> SamePage(m, m1, d, k)
    ensures f in Frames(m, d, p, end) <==> f in Frames(m, d, p, p + 1) || f in Frames(m1, d, p + 1, end)
  {
    if f in Frames(m, d, p, end) {
      var q: nat :| p <= q < end && Entry(m, d, q).frame != 0 && Entry(m, d, q).frame == f;
      if q > p { assert SamePage(m, m1, d, q); }
    }
    if f in Frames(m1, d, p + 1, end) {
      var q: nat :| p + 1 <= q < end && Entry(m1, d, q).frame != 0 && Entry(m1, d, q).frame == f;
      assert SamePage(m, m1, d, q);
    }
  }

  lemma FreedThen(m: Mem, m1: Mem, m2: Mem, d: nat, p: nat, end: nat)
    requires Shaped(m) && d in m.dirs && p < end <= PAGES && Freed(m, m1, d, p, p + 1) && Freed(m1, m2, d, p + 1, end)
    ensures Freed(m, m2, d, p, end)
  {
    FramesSplit(m, m1, d, p, end);
    OnePage(m, d, p);
    hide Unmapped, Frames, Entry, Tableless;
    forall q: nat | p <= q < end
      ensures Cleared(m, m2, d, q)
    {
      if q == p { assert Cleared(m, m1, d, p) && SamePage(m1, m2, d, p); }
      else { assert SamePage(m, m1, d, q) && Cleared(m1, m2, d, q); }
    }
    forall q: nat | q < PAGES && !(p <= q < end)
      ensures SamePage(m, m2, d, q)
    {
      assert SamePage(m, m1, d, q) && SamePage(m1, m2, d, q);
    }
  }

  /** Freeing takes the frame from every page of the region, and exactly those frames are free again; no other page of the
      directory changes. */
  lemma {:induction false} RegionFrees(m: Mem, d: nat, p: nat, end: nat)
    requires Owned(m) && Apart(m) && d in m.dirs && BASE <= p <= end <= PAGES
    ensures Freed(m, FreePages(m, d, p, end), d, p, end)
    decreases end - p
  {
    hide FreePage, Separate, LowInPlace, Linked, PresentIffFrame, Data, Apart, Freed, Has, Holds;
    if p == end {
      NothingFrees(m, d, p);
    } else {
      var m1 := FreePage(m, d, p);
      PageFrees(m, d, p);
      FreePageOwned(m, d, p);
      PageShaped(m, d, p, false, false);
      SameDirsApart(m, m1);
      RegionFrees(m1, d, p + 1, end);
      FreedThen(m, m1, FreePages(m1, d, p + 1, end), d, p, end);
    }
  }

  lemma NothingFrees(m: Mem, d: nat, p: nat)
    requires Shaped(m) && d in m.dirs && p <= PAGES
    ensures Freed(m, m, d, p, p)
  {
    assert Unmapped(m, d, p, p) == {} && Frames(m, d, p, p) == {};
  }

  // ---------- calls in a run ----------

  /** The pages a call walks hold every address of its region exactly if the end, rounded up, is an address; an empty
      region has none. */
  lemma RegionCovered(start: nat, size: nat)
    requires start < WORD && size < WORD
    ensures (forall a: nat :: start <= a < start + size ==> FirstPage(start) <= PageOf(a) < EndPage(start, size))
            <==> size == 0 || start + size + 4095 < 0x1_0000_0000
  {
    if size > 0 && start + size + 4095 >= WORD {
      var last := start + size - 1;
      assert PageOf(start) == FirstPage(start);
      assert !(PageOf(start) < EndPage(start, size) && PageOf(last) < EndPage(start, size));
      assert start <= last < start + size;
    }
  }

  function PageOf(a: nat): nat { a / 4096 }

  /** Where the walk of a region ends: at once, if its end has wrapped below its start. */
  function WalkEnd(start: nat, size: nat): (end: nat)
    requires start < WORD
    ensures FirstPage(start) <= end <= PAGES
  {
    if EndPage(start, size) < FirstPage(start) then FirstPage(start) else EndPage(start, size)
  }

  /** In every state of every run: an allocation returns exactly if frames suffice for the pages of its region without one
      and for the missing tables. Then every address of a region that ends below 4 GiB is present, so the region is
      available no more; what had no frame has one that was free, with the rights asked for; and nothing else in the
      directory changes. */
  lemma AllocationMaps(ms: seq<Mem>, ops: seq<Op>, n: nat, d: nat, start: nat, size: nat, user: bool, rw: bool)
    requires IsRun(ms, ops) && ms[0] == Boot() && n < |ms|
    requires d in ms[n].dirs && 0x40_0000 <= start < WORD && size < WORD
    ensures var m, p, end := ms[n], FirstPage(start), WalkEnd(start, size);
            && Owned(m)
            && var r := Next(m, Allocate(d, start, size, user, rw));
               && (r.Done? <==> FreeCount(m) >= |Unmapped(m, d, p, end)| + |Tableless(m, d, p, end)|)
               && (r.Done? ==> Allocated(m, r.m, d, p, end, user, rw))
               && (r.Done? && start + size + 4095 < 0x1_0000_0000 ==>
                     forall a: nat :: start <= a < start + size ==> PageOf(a) < PAGES && Present(r.m, d, PageOf(a)))
  {
    var m, p, end := ms[n], FirstPage(start), WalkEnd(start, size);
    TablesStayApart(ms, ops, n);
    hide Owned, Apart, IsRun, Allocated;
    RegionAllocates(m, d, p, end, user, rw);
    assert Next(m, Allocate(d, start, size, user, rw)) == AllocPages(m, d, p, end, user, rw);
    RegionCovered(start, size);
    var r := AllocPages(m, d, p, end, user, rw);
    if r.Done? {
      forall q: nat | p <= q < end
        ensures Present(r.m, d, q)
      {
        MappedPresent(m, r.m, d, p, end, user, rw, q);
      }
    }
  }

  lemma MappedPresent(m: Mem, m': Mem, d: nat, p: nat, end: nat, user: bool, rw: bool, q: nat)
    requires Shaped(m) && d in m.dirs && p <= q < end <= PAGES && Allocated(m, m', d, p, end, user, rw)
    ensures Shaped(m') && d in m'.dirs && Present(m', d, q)
  {
    assert Mapped(m, m', d, q, user, rw);
  }

  /** In every state of every run: freeing a region leaves none of its pages present and frees exactly their frames. */
  lemma ReleaseUnmaps(ms: seq<Mem>, ops: seq<Op>, n: nat, d: nat, start: nat, size: nat)
    requires IsRun(ms, ops) && ms[0] == Boot() && n < |ms|
    requires d in ms[n].dirs && 0x40_0000 <= start < WORD && size < WORD
    ensures var m, p, end := ms[n], FirstPage(start), WalkEnd(start, size);
            && Owned(m)
            && var r := Next(m, Release(d, start, size));
               r.Done? && Freed(m, r.m, d, p, end) && d in r.m.dirs && Available(r.m, d, p, end)
  {
    TablesStayApart(ms, ops, n);
    var m, p, end := ms[n], FirstPage(start), WalkEnd(start, size);
    hide Apart, IsRun, Linked, Data, Separate, LowInPlace, Frames, Unmapped;
    RegionFrees(m, d, p, end);
    var m' := FreePages(m, d, p, end);
    assert Next(m, Release(d, start, size)) == Done(m');
    hide PresentIffFrame;
    forall q | p <= q < end
      ensures !Present(m', d, q)
    {
      assert Cleared(m, m', d, q);
    }
  }

  /** `map_virtual_to_physical` puts the page into that frame with those rights, marks the frame, and changes no other page of
      the directory; it panics exactly if a table is missing and no frame is free. */
  lemma MappingDoes(m: Mem, d: nat, p: nat, f: nat, user: bool, rw: bool)
    requires Owned(m) && Apart(m) && d in m.dirs && BASE <= p < PAGES
    ensures Walkable(m.dirs, m.tables, d, p / ENTRIES)
    ensures var r := MapPage(m, d, p, f, user, rw);
            && (r.Done? <==> FreeCount(m) > 0 || m.dirs[d][p / ENTRIES] != 0)
            && (r.Done? ==>
                  && Shaped(r.m) && d in r.m.dirs && f in r.m.used && m.used <= r.m.used && r.m.total == m.total
                  && Entry(r.m, d, p) == Pte(true, rw, user, Entry(m, d, p).accessed, Entry(m, d, p).dirty, f)
                  && forall q: nat :: q < PAGES && q != p ==> SamePage(m, r.m, d, q))
  {
    FrameIffFree(m);
    var r1 := MakeTable(m, d, p / ENTRIES);
    MakeTableApart(m, d, p / ENTRIES);
    hide Linked, Data, Separate, LowInPlace, PresentIffFrame;
    if r1.Done? {
      MakeTableKeeps(m, d, p / ENTRIES);
      assert SamePage(m, r1.m, d, p);
      var t := r1.m.dirs[d][p / ENTRIES];
      var e := r1.m.tables[t][p % ENTRIES].(present := true, rw := rw, user := user, frame := f);
      hide MakeTable;
      EntryWritten(r1.m, d, p, e);
      var m' := MapPage(m, d, p, f, user, rw).m;
      forall q: nat | q < PAGES && q != p
        ensures SamePage(m, m', d, q)
      {
        assert SamePage(m, r1.m, d, q);
      }
    }
  }

  lemma EntryWritten(m: Mem, d: nat, p: nat, e: Pte)
    requires Shaped(m) && Apart(m) && d in m.dirs && p < PAGES && m.dirs[d][p / ENTRIES] != 0
    ensures var m' := SetEntry(m, m.dirs[d][p / ENTRIES], p % ENTRIES, e);
            && Shaped(m') && m'.dirs == m.dirs && Entry(m', d, p) == e
            && forall q: nat :: q < PAGES && q != p ==> Entry(m', d, q) == Entry(m, d, q)
  {
    var t := m.dirs[d][p / ENTRIES];
    EntryShaped(m, t, p % ENTRIES, e);
    assert Has(m, d, p / ENTRIES, t);
    forall q: nat | q < PAGES && q != p
      ensures Entry(SetEntry(m, t, p % ENTRIES, e), d, q) == Entry(m, d, q)
    {
      if m.dirs[d][q / ENTRIES] == t { assert Has(m, d, q / ENTRIES, t); }
    }
  }
}
