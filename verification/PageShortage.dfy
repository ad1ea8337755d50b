/** What cloning does when frames run out, and a run in which it silently leaves a table out (i386/whitex/paging.h:252-300):
    memory is filled with clones of the kernel directory until one frame is free. */
module PageShortage {
  import opened Common
  import opened FrameBits
  import opened PageModel
  import opened PageClone
  import opened PageRuns

  /** The kernel directory has no table of its own to copy. */
  lemma {:induction false} KernelNeeds(m: Mem, i: nat)
    requires Shaped(m) && i <= ENTRIES
    ensures NeedFrom(m, KERNEL, i) == 0
    decreases ENTRIES - i
  {
    if i < ENTRIES { KernelNeeds(m, i + 1); }
  }

  lemma {:induction false} NeedsSlot(m: Mem, src: nat, i: nat, k: nat)
    requires Shaped(m) && src in m.dirs && i <= k < ENTRIES
    ensures NeedFrom(m, src, i) >= SlotNeed(m, src, k)
    decreases k - i
  {
    hide SlotNeed;
    if i < k { NeedsSlot(m, src, i + 1, k); }
  }

  /** Cloning the kernel directory takes one frame. */
  lemma CloneKernel(m: Mem)
    requires Owned(m) && FreeCount(m) > 0
    ensures var r := CloneDir(m, KERNEL);
            && r.Cloned? && Owned(r.m) && Grew(m, r.m) && FreeCount(r.m) == FreeCount(m) - 1
            && r.at in r.m.dirs && forall i :: 0 <= i < ENTRIES ==> r.m.dirs[r.at][i] == m.dirs[KERNEL][i]
  {
    hide Linked, PresentIffFrame, Data, Separate, LowInPlace, PageCopied, NeedFrom;
    KernelNeeds(m, 0);
    CloneIsIsolated(m, KERNEL);
    var r := CloneDir(m, KERNEL);
    forall i | 0 <= i < ENTRIES
      ensures r.m.dirs[r.at][i] == m.dirs[KERNEL][i]
    {
      KernelSlot(m, r.m, r.at, i);
    }
  }

  lemma KernelSlot(m: Mem, m': Mem, d: nat, i: nat)
    requires Shaped(m) && Shaped(m') && d in m'.dirs && i < ENTRIES && IsolatedCopy(m, m', KERNEL, d)
    ensures m'.dirs[d][i] == m.dirs[KERNEL][i]
  {
    var p := i * ENTRIES;
    assert PageCopied(m, m', KERNEL, d, p);
  }

  /** The first `n` frames left go to clones of the kernel directory; nothing in use changes. */
  lemma {:induction false} FillUp(m: Mem, n: nat) returns (ms: seq<Mem>, ops: seq<Op>)
    requires Owned(m) && FreeCount(m) >= n
    ensures IsRun(ms, ops) && |ops| == n && ms[0] == m
    ensures Owned(ms[n]) && Grew(m, ms[n]) && FreeCount(ms[n]) == FreeCount(m) - n
    decreases n
  {
    hide Owned, CloneDir;
    if n == 0 {
      ms, ops := [m], [];
    } else {
      ShapedWhenOwned(m);
      CloneKernel(m);
      var m1 := CloneDir(m, KERNEL).m;
      var ms1, ops1 := FillUp(m1, n - 1);
      GrewTrans(m, m1, ms1[n - 1]);
      ms, ops := [m] + ms1, [Clone(KERNEL)] + ops1;
      forall i | 0 <= i < n
        ensures Follows(ms, ops, i)
      {
        if i > 0 { assert Follows(ms1, ops1, i - 1); }
      }
    }
  }

  lemma ShapedWhenOwned(m: Mem)
    requires Owned(m)
    ensures Shaped(m)
  {
  }

  /** With no frame left the loop of `clone_page_directory` still runs to its end. */
  lemma {:induction false} SlotsStarved(m: Mem, src: nat, d: nat, i: nat)
    requires Owned(m) && src in m.dirs && d in m.dirs && d != KERNEL && i <= ENTRIES && FreeCount(m) == 0
    ensures CloneSlots(m, src, d, i).Done?
    decreases ENTRIES - i
  {
    hide Separate, LowInPlace, Linked, PresentIffFrame, Data, CopyEntries;
    if i < ENTRIES {
      FullMemory(m);
      CloneSlotOwned(m, src, d, i);
      var r := CloneSlot(m, src, d, i);
      SlotsStarved(r.m, src, d, i + 1);
    }
  }

  lemma FullMemory(m: Mem)
    requires Owned(m) && FreeCount(m) == 0
    ensures NextFrame(m) == FRAMES
  {
    FrameIffFree(m);
  }

  // ---------- what happens when frames run out ----------

  /** `f` frames are used up exactly between two slots, from slot `i` on. */
  ghost predicate EndsBetween(m: Mem, src: nat, i: nat, f: int)
    requires Shaped(m) && src in m.dirs && i <= ENTRIES
  {
    exists k: nat :: EndsAt(m, src, i, f, k)
  }

  ghost predicate EndsAt(m: Mem, src: nat, i: nat, f: int, k: nat)
    requires Shaped(m) && src in m.dirs && i <= ENTRIES
  {
    i <= k <= ENTRIES && NeedFrom(m, src, k) + f == NeedFrom(m, src, i)
  }

  lemma {:induction false} NeedFalls(m: Mem, src: nat, i: nat, k: nat)
    requires Shaped(m) && src in m.dirs && i <= k <= ENTRIES
    ensures NeedFrom(m, src, k) <= NeedFrom(m, src, i)
    decreases k - i
  {
    hide SlotNeed;
    if i < k { NeedFalls(m, src, i + 1, k); }
  }

  lemma EndsStep(m: Mem, src: nat, i: nat, f: nat)
    requires Shaped(m) && src in m.dirs && i < ENTRIES
    ensures var need := SlotNeed(m, src, i);
            EndsBetween(m, src, i, f) <==> f == 0 || (f >= need && EndsBetween(m, src, i + 1, f - need))
  {
    hide SlotNeed;
    var need := SlotNeed(m, src, i);
    if f == 0 { assert EndsAt(m, src, i, f, i); }
    if k: nat :| EndsAt(m, src, i, f, k) && i < k {
      NeedFalls(m, src, i + 1, k);
      assert EndsAt(m, src, i + 1, f - need, k);
    }
    if f >= need && EndsBetween(m, src, i + 1, f - need) {
      var k: nat :| EndsAt(m, src, i + 1, f - need, k);
      assert EndsAt(m, src, i, f, k);
    }
  }

  /** The rest of a copy runs to its end if and only if the free frames suffice or end exactly between two slots. */
  lemma {:induction false} SlotsEnd(m: Mem, m1: Mem, src: nat, d: nat, i: nat)
    requires Owned(m) && src in m.dirs && LowOnly(m, src) && CloningDir(m, m1, src, d, i)
    ensures src in m1.dirs && FreeCount(m1) >= 0
    ensures CloneSlots(m1, src, d, i).Done? <==>
              FreeCount(m1) >= NeedFrom(m, src, i) || EndsBetween(m, src, i, FreeCount(m1))
    decreases ENTRIES - i
  {
    hide Separate, LowInPlace, Linked, PresentIffFrame, Data, SlotTwin, CloneSlot, Grew, SlotNeed, EndsBetween;
    SourceIn(m, m1, src, d, i);
    FrameIffFree(m1);
    if i < ENTRIES {
      SlotStep(m, m1, src, d, i);
      CloneSlotShaped(m1, src, d, i);
      var r, f := CloneSlot(m1, src, d, i), FreeCount(m1);
      EndsStep(m, src, i, f);
      if f >= SlotNeed(m, src, i) {
        SlotsEnd(m, r.m, src, d, i + 1);
        if f == 0 { EndsAtOnce(m, src, i + 1, FreeCount(r.m)); }
      } else if f == 0 {
        NotKernel(m, d);
        SlotsStarved(m1, src, d, i);
      }
    } else {
      if FreeCount(m1) == 0 { EndsAtOnce(m, src, i, 0); }
    }
  }

  lemma EndsAtOnce(m: Mem, src: nat, i: nat, f: int)
    requires Shaped(m) && src in m.dirs && i <= ENTRIES && f == 0
    ensures EndsBetween(m, src, i, f)
  {
    assert EndsAt(m, src, i, f, i);
  }

  lemma SourceIn(m: Mem, m1: Mem, src: nat, d: nat, i: nat)
    requires Shaped(m) && src in m.dirs && CloningDir(m, m1, src, d, i)
    ensures src in m1.dirs && d in m1.dirs && Owned(m1) && Separate(m1) && Shaped(m1)
  {
  }

  /** What `clone_page_directory` does with the free frames there are: null exactly when there is none; a copy that
      silently lacks tables exactly when they do not suffice but end between two tables; a panic exactly when they
      end within one; a whole copy exactly when they suffice. */
  lemma CloneOutcome(m: Mem, src: nat)
    requires Owned(m) && src in m.dirs
    ensures var r, f := CloneDir(m, src), FreeCount(m);
            && (r.NoFrame? <==> f == 0)
            && (r.Halted? <==> 0 < f < Need(m, src) && !EndsBetween(m, src, 0, f - 1))
            && (r.Cloned? && (exists k: nat :: Missing(m, r.m, src, r.at, k)) <==>
                  0 < f < Need(m, src) && EndsBetween(m, src, 0, f - 1))
            && (r.Cloned? && (forall k: nat :: !Missing(m, r.m, src, r.at, k)) <==> f >= Need(m, src))
  {
    hide Linked, PresentIffFrame, Data, Twin, CloneSlot, SlotNeed, EndsBetween, NeedFrom, CloneSlots;
    CloneIsCompleteExactly(m, src);
    FrameIffFree(m);
    if NextFrame(m) < FRAMES {
      NewDirOwned(m);
      FreeFrame(m);
      assert LowOnly(m, src);
      hide Separate, LowInPlace, SlotTwin;
      assert CloningDir(m, NewDir(m), src, NextFrame(m), 0);
      SlotsEnd(m, NewDir(m), src, NextFrame(m), 0);
    }
  }

  /** With one frame left, the copy of a directory with a table of its own is returned without a table. */
  lemma TableLeftOut(m: Mem, src: nat, k: nat)
    requires Owned(m) && src in m.dirs && FreeCount(m) == 1 && k < ENTRIES
    requires m.dirs[src][k] != 0 && !Shared(m, src, k)
    ensures var r := CloneDir(m, src); r.Cloned? && exists j: nat :: Missing(m, r.m, src, r.at, j)
  {
    hide Linked, PresentIffFrame, Data, LowInPlace, CloneSlots, NeedFrom;
    NeedsSlot(m, src, 0, k);
    CloneIsCompleteExactly(m, src);
    FrameIffFree(m);
    FreeFrame(m);
    NewDirOwned(m);
    NotKernel(m, NextFrame(m));
    SlotsStarved(NewDir(m), src, NextFrame(m), 0);
  }

  /** One page of a clone of the kernel directory, in a table of its own. */
  lemma PrivatePage(m: Mem, d: nat)
    requires Owned(m) && d in m.dirs && d != KERNEL && FreeCount(m) >= 2 && m.dirs[d][1] == 0 && m.dirs[KERNEL][1] == 0
    ensures var r := AllocPages(m, d, BASE, BASE + 1, true, true);
            && r.Done? && Owned(r.m) && d in r.m.dirs && FreeCount(r.m) >= FreeCount(m) - 2
            && r.m.dirs[d][1] != 0 && !Shared(r.m, d, 1)
  {
    hide Linked, PresentIffFrame, Data, LowInPlace;
    AllocPagesOwned(m, d, BASE, BASE + 1, true, true);
    FrameIffFree(m);
    FreeFrame(m);
    MakeTableOwned(m, d, 1);
    var m1 := MakeTable(m, d, 1).m;
    FrameIffFree(m1);
    PageShaped(m, d, BASE, true, true);
    var r := AllocPage(m, d, BASE, true, true);
    assert r.m == AllocPages(r.m, d, BASE + 1, BASE + 1, true, true).m;
  }

  lemma CountBelow(n: nat)
    ensures |FramesBelow(n)| == n
  {
    CardBelow(FramesBelow(n), n);
  }

  /** A run from boot after which a clone is returned, without a panic, that lacks a table of its source. */
  lemma SilentLossExample() returns (ms: seq<Mem>, ops: seq<Op>, src: nat)
    ensures IsRun(ms, ops) && ms[0] == Boot()
    ensures var m := ms[|ops|];
            && Owned(m) && src in m.dirs
            && var r := CloneDir(m, src); r.Cloned? && exists k: nat :: Missing(m, r.m, src, r.at, k)
  {
    hide Linked, PresentIffFrame, Data, LowInPlace, Separate, CloneDir, AllocPages;
    BootOwned();
    CountBelow(BASE);
    CloneKernel(Boot());
    var r := CloneDir(Boot(), KERNEL);
    src := r.at;
    SourceIsNew(Boot());
    PrivatePage(r.m, src);
    var m2 := AllocPages(r.m, src, BASE, BASE + 1, true, true).m;
    var ms1, ops1 := FillUp(m2, FreeCount(m2) - 1);
    ms, ops := [Boot(), r.m] + ms1, [Clone(KERNEL), Allocate(src, 0x40_0000, PAGE_SIZE, true, true)] + ops1;
    forall i | 0 <= i < |ops|
      ensures Follows(ms, ops, i)
    {
      if i >= 2 { assert Follows(ms1, ops1, i - 2); }
    }
    TableLeftOut(ms[|ops|], src, 1);
  }

  lemma SourceIsNew(m: Mem)
    requires Owned(m) && CloneDir(m, KERNEL).Cloned?
    ensures CloneDir(m, KERNEL).at != KERNEL
  {
    FreeFrame(m);
    NotKernel(m, NextFrame(m));
  }
}
