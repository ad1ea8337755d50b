/** Copying an address space (i386/whitex/paging.h:252-300): what `clone_page_table` and
    `clone_page_directory` build, and that the copy is complete and isolated exactly when enough
    frames are free. */
module PageClone {
  import opened Common
  import opened FrameBits
  import opened PageModel

  /** A null result, `NoFrame`, is not a panic: the caller goes on. */
  datatype CloneRes = Cloned(m: Mem, at: nat) | NoFrame | Halted

  /** One pass of the loop of `clone_page_table`: a present entry gets a frame of its own, the flags of
      the source and a copy of its page. */
  ghost function CopyEntry(m: Mem, s: nat, t: nat, i: nat): Res
    requires s in m.tables && t in m.tables && i < |m.tables[s]| && i < |m.tables[t]|
  {
    var e := m.tables[s][i];
    if !e.present then Done(m)
    else
      var r := AllocEntry(m, t, i, true, false);
      if r.Panic? then Panic
      else
        var f := r.m.tables[t][i].frame;
        Done(SetEntry(r.m, t, i, e.(frame := f)).(content := r.m.content[f := ContentOf(r.m, e.frame)]))
  }

  lemma CopyEntryShaped(m: Mem, s: nat, t: nat, i: nat)
    requires Shaped(m) && s in m.tables && t in m.tables && i < ENTRIES
    ensures var r := CopyEntry(m, s, t, i);
            r.Done? ==> Shaped(r.m) && r.m.tables.Keys == m.tables.Keys && r.m.dirs == m.dirs
  {
  }

  ghost function CopyEntries(m: Mem, s: nat, t: nat, i: nat): Res
    requires Shaped(m) && s in m.tables && t in m.tables && i <= ENTRIES
    decreases ENTRIES - i
  {
    if i == ENTRIES then Done(m)
    else
      var r := CopyEntry(m, s, t, i);
      if r.Panic? then Panic
      else
        CopyEntryShaped(m, s, t, i);
        CopyEntries(r.m, s, t, i + 1)
  }

  /** A fresh table of empty entries. */
  ghost function NewTable(m: Mem): Mem {
    m.(used := m.used + {NextFrame(m)}, tables := m.tables[NextFrame(m) := Copies(ENTRIES, EMPTY)])
  }

  /** `clone_page_table`. */
  ghost function CloneTable(m: Mem, s: nat): CloneRes
    requires Shaped(m) && s in m.tables
  {
    var t := NextFrame(m);
    if t == FRAMES then NoFrame
    else
      var r := CopyEntries(NewTable(m), s, t, 0);
      if r.Panic? then Halted else Cloned(r.m, t)
  }

  ghost predicate Shared(m: Mem, src: nat, i: nat)
    requires Shaped(m) && src in m.dirs && i < ENTRIES
  {
    m.dirs[src][i] != 0 && m.dirs[KERNEL][i] == m.dirs[src][i]
  }

  ghost function SetSlot(m: Mem, d: nat, i: nat, t: nat): Mem
    requires d in m.dirs && i < |m.dirs[d]|
  {
    var dir: Dir := m.dirs[d][i := t];
    m.(dirs := m.dirs[d := dir])
  }

  /** One pass of the loop of `clone_page_directory`. */
  ghost function CloneSlot(m: Mem, src: nat, d: nat, i: nat): Res
    requires Shaped(m) && src in m.dirs && d in m.dirs && i < ENTRIES
  {
    var s := m.dirs[src][i];
    if s == 0 then Done(m)
    else if Shared(m, src, i) then Done(SetSlot(m, d, i, s))
    else
      match CloneTable(m, s)
      case Halted => Panic
      case NoFrame => Done(SetSlot(m, d, i, 0))
      case Cloned(m', t) => if d in m'.dirs && i < |m'.dirs[d]| then Done(SetSlot(m', d, i, t)) else Panic
  }

  lemma {:induction false} CopyEntriesShaped(m: Mem, s: nat, t: nat, i: nat)
    requires Shaped(m) && s in m.tables && t in m.tables && i <= ENTRIES
    ensures var r := CopyEntries(m, s, t, i);
            r.Done? ==> Shaped(r.m) && r.m.tables.Keys == m.tables.Keys && r.m.dirs == m.dirs
    decreases ENTRIES - i
  {
    hide CopyEntry;
    if i < ENTRIES {
      CopyEntryShaped(m, s, t, i);
      var r := CopyEntry(m, s, t, i);
      if r.Done? { CopyEntriesShaped(r.m, s, t, i + 1); }
    }
  }

  lemma CloneTableShaped(m: Mem, s: nat)
    requires Shaped(m) && s in m.tables
    ensures var r := CloneTable(m, s);
            r.Cloned? ==> Shaped(r.m) && r.at in r.m.tables && r.m.dirs == m.dirs
  {
    var t := NextFrame(m);
    if t < FRAMES { CopyEntriesShaped(NewTable(m), s, t, 0); }
  }

  lemma CloneSlotShaped(m: Mem, src: nat, d: nat, i: nat)
    requires Shaped(m) && src in m.dirs && d in m.dirs && i < ENTRIES
    ensures var r := CloneSlot(m, src, d, i);
            r.Done? ==> Shaped(r.m) && r.m.dirs.Keys == m.dirs.Keys
  {
    hide CloneTable;
    var s := m.dirs[src][i];
    if s != 0 { CloneTableShaped(m, s); }
  }

  ghost function CloneSlots(m: Mem, src: nat, d: nat, i: nat): Res
    requires Shaped(m) && src in m.dirs && d in m.dirs && i <= ENTRIES
    decreases ENTRIES - i
  {
    if i == ENTRIES then Done(m)
    else
      var r := CloneSlot(m, src, d, i);
      if r.Panic? then Panic
      else
        CloneSlotShaped(m, src, d, i);
        CloneSlots(r.m, src, d, i + 1)
  }

  ghost function NewDir(m: Mem): Mem {
    m.(used := m.used + {NextFrame(m)}, dirs := m.dirs[NextFrame(m) := Copies(ENTRIES, 0)])
  }

  lemma NewDirShaped(m: Mem)
    requires Owned(m) && NextFrame(m) < FRAMES
    ensures Shaped(NewDir(m))
  {
  }

  /** `clone_page_directory`. */
  ghost function CloneDir(m: Mem, src: nat): CloneRes
    requires Owned(m) && src in m.dirs
  {
    var d := NextFrame(m);
    if d == FRAMES then NoFrame
    else
      NewDirShaped(m);
      var r := CloneSlots(NewDir(m), src, d, 0);
      if r.Panic? then Halted else Cloned(r.m, d)
  }

  // ---------- what a copy is ----------

  /** Nothing that was in use has changed. */
  ghost predicate Grew(m: Mem, m': Mem) {
    && m.used <= m'.used
    && (forall d :: d in m.dirs ==> d in m'.dirs && m'.dirs[d] == m.dirs[d])
    && (forall t :: t in m.tables ==> t in m'.tables && m'.tables[t] == m.tables[t])
    && forall f :: f in m.used ==> ContentOf(m', f) == ContentOf(m, f)
  }

  /** `e'` is a private copy of `e`: the same flags, another frame unused before, the same page. */
  ghost predicate Twin(m: Mem, m': Mem, e: Pte, e': Pte) {
    if e.present then
      && e' == e.(frame := e'.frame) && e'.frame != 0
      && e'.frame !in m.used && e'.frame in m'.used
      && ContentOf(m', e'.frame) == ContentOf(m, e.frame)
    else e' == EMPTY
  }

  ghost predicate TableTwin(m: Mem, m': Mem, s: nat, t: nat, n: nat) {
    && s in m.tables && t in m'.tables && n <= |m.tables[s]| && n <= |m'.tables[t]|
    && forall i :: 0 <= i < n ==> Twin(m, m', m.tables[s][i], m'.tables[t][i])
  }

  lemma TwinStays(m: Mem, m1: Mem, m2: Mem, s: nat, t: nat, n: nat)
    requires TableTwin(m, m1, s, t, n) && m1.used <= m2.used
    requires forall f :: f in m1.used ==> ContentOf(m2, f) == ContentOf(m1, f)
    requires t in m2.tables && n <= |m2.tables[t]| && forall i :: 0 <= i < n ==> m2.tables[t][i] == m1.tables[t][i]
    ensures TableTwin(m, m2, s, t, n)
  {
  }

  // ---------- the table copy ----------

  ghost function Count(t: Table, n: nat): nat
    requires n <= |t|
  {
    if n == 0 then 0 else Count(t, n - 1) + if t[n - 1].present then 1 else 0
  }

  /** State of a table copy after `i` entries: `m` is the memory before it began. */
  ghost predicate Copying(m: Mem, m': Mem, s: nat, t: nat, i: nat) {
    && Owned(m') && Grew(m, m') && s in m.tables && s != t && t != LOW && t !in m.tables && i <= ENTRIES
    && TableTwin(m, m', s, t, i)
    && (forall k :: i <= k < ENTRIES ==> k < |m'.tables[t]| && m'.tables[t][k] == EMPTY)
    && forall k :: 0 <= k < |m.tables[s]| && m.tables[s][k].present ==> m.tables[s][k].frame in m.used
  }

  /** Flags do not matter to ownership. */
  lemma FlagsOwned(m: Mem, t: nat, i: nat, e: Pte)
    requires Owned(m) && t in m.tables && t != LOW && i < ENTRIES
    requires e.frame == m.tables[t][i].frame && e.present == m.tables[t][i].present
    ensures Owned(SetEntry(m, t, i, e))
  {
    var m' := SetEntry(m, t, i, e);
    EntryShaped(m, t, i, e);
    assert Data(m') == Data(m);
    FlagsLinked(m, m', t, i, e);
  }

  lemma FlagsLinked(m: Mem, m': Mem, t: nat, i: nat, e: Pte)
    requires Shaped(m) && Linked(m) && PresentIffFrame(m) && Shaped(m') && Data(m') == Data(m)
    requires t in m.tables && i < ENTRIES && m'.tables == m.tables[t := m.tables[t][i := e]]
    requires e.frame == m.tables[t][i].frame && e.present == m.tables[t][i].present
    ensures Linked(m') && PresentIffFrame(m')
  {
    assert forall t', i', f: nat :: Holds(m', t', i', f) <==> Holds(m, t', i', f);
    LinkSame(m, m');
  }

  lemma ContentOwned(m: Mem, content: map<nat, Content>)
    requires Owned(m)
    ensures Owned(m.(content := content))
  {
    var m' := m.(content := content);
    assert Data(m') == Data(m);
    assert forall t, i, f: nat :: Holds(m', t, i, f) <==> Holds(m, t, i, f);
    LinkSame(m, m');
  }

  lemma CopyEntryOwned(m: Mem, s: nat, t: nat, i: nat)
    requires Owned(m) && s in m.tables && t in m.tables && t != LOW && i < ENTRIES && m.tables[t][i] == EMPTY
    ensures var r := CopyEntry(m, s, t, i); r.Done? ==> Owned(r.m)
  {
    var e := m.tables[s][i];
    if e.present {
      AllocEntryOwned(m, t, i, true, false);
      var r := AllocEntry(m, t, i, true, false);
      if r.Done? {
        hide Separate, LowInPlace, Linked, PresentIffFrame, Data;
        var f := r.m.tables[t][i].frame;
        FlagsOwned(r.m, t, i, e.(frame := f));
        ContentOwned(SetEntry(r.m, t, i, e.(frame := f)), r.m.content[f := ContentOf(r.m, e.frame)]);
      }
    }
  }

  /** What one copied entry looks like. */
  lemma CopyEntryTwin(m: Mem, m1: Mem, s: nat, t: nat, i: nat)
    requires Grew(m, m1) && s in m.tables && t in m1.tables && s != t && t !in m.tables
    requires i < |m1.tables[t]| && i < |m.tables[s]| && m1.tables[t][i] == EMPTY
    requires m.tables[s][i].present ==> m.tables[s][i].frame in m.used
    requires Separate(m1) && CopyEntry(m1, s, t, i).Done?
    ensures var m2 := CopyEntry(m1, s, t, i).m;
            && Grew(m, m2) && m1.used <= m2.used
            && (forall f :: f in m1.used ==> ContentOf(m2, f) == ContentOf(m1, f))
            && t in m2.tables && |m2.tables[t]| == |m1.tables[t]|
            && (forall k :: 0 <= k < |m1.tables[t]| && k != i ==> m2.tables[t][k] == m1.tables[t][k])
            && Twin(m, m2, m.tables[s][i], m2.tables[t][i])
            && |m2.used| == |m1.used| + if m.tables[s][i].present then 1 else 0
  {
    if m.tables[s][i].present { FreeFrame(m1); }
  }

  lemma CopyStep(m: Mem, m1: Mem, s: nat, t: nat, i: nat)
    requires Shaped(m) && Copying(m, m1, s, t, i) && i < ENTRIES
    ensures var r := CopyEntry(m1, s, t, i);
            && (r.Done? ==>
                  && Copying(m, r.m, s, t, i + 1)
                  && |r.m.used| == |m1.used| + (if m.tables[s][i].present then 1 else 0))
            && (r.Panic? <==> m.tables[s][i].present && NextFrame(m1) == FRAMES)
  {
    hide LowInPlace, Linked, PresentIffFrame, Data;
    CopyEntryOwned(m1, s, t, i);
    var r := CopyEntry(m1, s, t, i);
    if r.Done? {
      CopyEntryTwin(m, m1, s, t, i);
      CopyEntryShaped(m1, s, t, i);
      TwinStays(m, m1, r.m, s, t, i);
    }
  }

  ghost function FreeCount(m: Mem): int { FRAMES - |m.used| }

  lemma FrameIffFree(m: Mem)
    requires Separate(m)
    ensures 0 <= FreeCount(m) && (NextFrame(m) < FRAMES <==> FreeCount(m) > 0)
  {
    CardBelow(m.used, FRAMES);
  }

  lemma {:induction false} CountSplit(t: Table, i: nat)
    requires i < |t|
    ensures Count(t, i) <= Count(t, i + 1) <= Count(t, |t|)
    decreases |t| - i
  {
    if i + 1 < |t| { CountSplit(t, i + 1); }
  }

  /** The rest of a table copy succeeds exactly when a frame is free for each present entry left. */
  lemma {:induction false} CopyRest(m: Mem, m1: Mem, s: nat, t: nat, i: nat)
    requires Shaped(m) && Copying(m, m1, s, t, i)
    ensures var r := CopyEntries(m1, s, t, i);
            var left := Count(m.tables[s], ENTRIES) - Count(m.tables[s], i);
            && (r.Done? <==> FreeCount(m1) >= left)
            && (r.Done? ==> Copying(m, r.m, s, t, ENTRIES) && |r.m.used| == |m1.used| + left)
    decreases ENTRIES - i
  {
    hide LowInPlace, Linked, PresentIffFrame, Data, Twin, CopyEntry;
    FrameIffFree(m1);
    if i < ENTRIES {
      CopyStep(m, m1, s, t, i);
      CountSplit(m.tables[s], i);
      var r := CopyEntry(m1, s, t, i);
      if r.Done? { CopyRest(m, r.m, s, t, i + 1); }
    }
  }

  lemma NewTableSeparate(m: Mem)
    requires Shaped(m) && Separate(m) && LowInPlace(m) && NextFrame(m) < FRAMES
    ensures var m' := NewTable(m); Shaped(m') && Separate(m') && LowInPlace(m') && Data(m') == Data(m)
  {
    FreeFrame(m);
    var m' := NewTable(m);
    assert m'.tables.Keys == m.tables.Keys + {NextFrame(m)};
  }

  lemma NewTableLinked(m: Mem)
    requires Shaped(m) && Linked(m) && PresentIffFrame(m) && NextFrame(m) !in m.tables && Data(NewTable(m)) == Data(m)
    ensures Shaped(NewTable(m)) && Linked(NewTable(m)) && PresentIffFrame(NewTable(m))
  {
    var m' := NewTable(m);
    assert forall t, i, f: nat :: Holds(m', t, i, f) <==> Holds(m, t, i, f);
    LinkSame(m, m');
  }

  /** A fresh table belongs to nobody yet. */
  lemma NewTableOwned(m: Mem)
    requires Owned(m) && NextFrame(m) < FRAMES
    ensures Owned(NewTable(m)) && Grew(m, NewTable(m)) && |NewTable(m).used| == |m.used| + 1
  {
    FreeFrame(m);
    NewTableSeparate(m);
    NewTableLinked(m);
  }

  /** Every present entry of a table above 4 MiB names a marked frame. */
  lemma SourceMarked(m: Mem, s: nat)
    requires Owned(m) && s in m.tables && s != LOW
    ensures forall k :: 0 <= k < ENTRIES && m.tables[s][k].present ==> m.tables[s][k].frame in m.used
  {
    forall k | 0 <= k < ENTRIES && m.tables[s][k].present
      ensures m.tables[s][k].frame in m.used
    {
      assert Holds(m, s, k, m.tables[s][k].frame);
    }
  }

  /** `clone_page_table` gives a private copy exactly when a frame is free for the table and for each
      of its present entries. */
  lemma CloneTableTwin(m: Mem, s: nat)
    requires Owned(m) && s in m.tables && s != LOW
    ensures var r := CloneTable(m, s);
            var need := 1 + Count(m.tables[s], ENTRIES);
            && (r.NoFrame? <==> FreeCount(m) == 0)
            && (r.Cloned? <==> FreeCount(m) >= need)
            && (r.Cloned? ==>
                  && Owned(r.m) && Grew(m, r.m) && r.m.dirs == m.dirs && r.at !in m.used && r.at != LOW && r.at != 0
                  && TableTwin(m, r.m, s, r.at, ENTRIES) && |r.m.used| == |m.used| + need)
  {
    hide LowInPlace, Linked, PresentIffFrame, Data, CopyEntries;
    FrameIffFree(m);
    var t := NextFrame(m);
    if t < FRAMES {
      NewTableOwned(m);
      FreeFrame(m);
      SourceMarked(m, s);
      var m1 := NewTable(m);
      assert Copying(m, m1, s, t, 0);
      CopyRest(m, m1, s, t, 0);
      CopyEntriesShaped(m1, s, t, 0);
    }
  }

  // ---------- the directory copy ----------

  /** Frames the copy of slot `i` takes. */
  ghost function SlotNeed(m: Mem, src: nat, i: nat): nat
    requires Shaped(m) && src in m.dirs && i < ENTRIES
  {
    var s := m.dirs[src][i];
    if s == 0 || Shared(m, src, i) then 0 else 1 + Count(m.tables[s], ENTRIES)
  }

  ghost function NeedFrom(m: Mem, src: nat, i: nat): nat
    requires Shaped(m) && src in m.dirs && i <= ENTRIES
    decreases ENTRIES - i
  {
    if i == ENTRIES then 0 else SlotNeed(m, src, i) + NeedFrom(m, src, i + 1)
  }

  /** Frames a whole copy takes: the directory, and each private table with its pages. */
  ghost function Need(m: Mem, src: nat): nat
    requires Shaped(m) && src in m.dirs
  {
    1 + NeedFrom(m, src, 0)
  }

  /** Slot `i` of the copy: null for null, the kernel's table for the kernel's table, and a private
      copy for any other. */
  ghost predicate SlotTwin(m: Mem, m': Mem, src: nat, i: nat, t: nat)
    requires Shaped(m) && src in m.dirs && i < ENTRIES
  {
    var s := m.dirs[src][i];
    if s == 0 || Shared(m, src, i) then t == s
    else t !in m.used && t != 0 && t != LOW && t in m'.tables && |m'.tables[t]| == ENTRIES && TableTwin(m, m', s, t, ENTRIES)
  }

  /** State of a directory copy after `i` slots. */
  ghost predicate CloningDir(m: Mem, m': Mem, src: nat, d: nat, i: nat)
    requires Shaped(m) && src in m.dirs
  {
    && Owned(m') && Grew(m, m') && d !in m.dirs && d !in m.used && d in m'.dirs && i <= ENTRIES
    && (forall k :: 0 <= k < i ==> SlotTwin(m, m', src, k, m'.dirs[d][k]))
    && forall k :: i <= k < ENTRIES ==> m'.dirs[d][k] == 0
  }

  lemma SlotStays(m: Mem, m1: Mem, m2: Mem, src: nat, i: nat, t: nat)
    requires Shaped(m) && src in m.dirs && i < ENTRIES && SlotTwin(m, m1, src, i, t) && Grew(m1, m2)
    ensures SlotTwin(m, m2, src, i, t)
  {
    var s := m.dirs[src][i];
    if s != 0 && !Shared(m, src, i) { TwinStays(m, m1, m2, s, t, ENTRIES); }
  }

  lemma GrewTrans(a: Mem, b: Mem, c: Mem)
    requires Grew(a, b) && Grew(b, c)
    ensures Grew(a, c)
  {
  }

  /** Filling a slot of a directory keeps ownership; the identity table stays out of the slots above 0. */
  lemma SetSlotOwned(m: Mem, d: nat, i: nat, t: nat)
    requires Owned(m) && d in m.dirs && d != KERNEL && i < ENTRIES && (t == 0 || t in m.tables) && (i > 0 ==> t != LOW)
    ensures Owned(SetSlot(m, d, i, t)) && Data(SetSlot(m, d, i, t)) == Data(m)
  {
    var m' := SetSlot(m, d, i, t);
    assert m'.dirs.Keys == m.dirs.Keys;
    SetSlotShaped(m, d, i, t);
    assert forall t', i', f: nat :: Holds(m', t', i', f) <==> Holds(m, t', i', f);
    LinkSame(m, m');
  }

  lemma SetSlotShaped(m: Mem, d: nat, i: nat, t: nat)
    requires Shaped(m) && d in m.dirs && i < ENTRIES && (t == 0 || t in m.tables)
    ensures Shaped(SetSlot(m, d, i, t))
  {
  }

  /** The memory a slot's table was copied into, with the slot filled. */
  lemma FillSlot(m: Mem, m1: Mem, m2: Mem, src: nat, d: nat, i: nat, t: nat)
    requires Shaped(m) && src in m.dirs && CloningDir(m, m1, src, d, i) && i < ENTRIES && d != KERNEL
    requires Owned(m2) && Grew(m1, m2) && m2.dirs == m1.dirs && (t == 0 || t in m2.tables) && (i > 0 ==> t != LOW)
    requires SlotTwin(m, m2, src, i, t)
    ensures CloningDir(m, SetSlot(m2, d, i, t), src, d, i + 1) && SetSlot(m2, d, i, t).used == m2.used
  {
    hide Linked, Data, PresentIffFrame, Separate, LowInPlace, SlotTwin;
    var m3 := SetSlot(m2, d, i, t);
    SetSlotOwned(m2, d, i, t);
    GrewTrans(m, m1, m2);
    assert Grew(m, m3);
    forall k | 0 <= k <= i
      ensures SlotTwin(m, m3, src, k, m3.dirs[d][k])
    {
      if k < i { SlotStays(m, m1, m2, src, k, m1.dirs[d][k]); }
      SameTables(m, m2, m3, src, k, m3.dirs[d][k]);
    }
  }

  lemma SameTables(m: Mem, m2: Mem, m3: Mem, src: nat, k: nat, t: nat)
    requires Shaped(m) && src in m.dirs && k < ENTRIES && SlotTwin(m, m2, src, k, t)
    requires m3.tables == m2.tables && m3.used == m2.used && m3.content == m2.content
    ensures SlotTwin(m, m3, src, k, t)
  {
  }

  /** Slot `i` of the source is as it was when the copy began, and so is its sharing. */
  lemma SourceStays(m: Mem, m1: Mem, src: nat, i: nat)
    requires Owned(m) && Owned(m1) && src in m.dirs && Grew(m, m1) && i < ENTRIES
    ensures src in m1.dirs && m1.dirs[src][i] == m.dirs[src][i] && (Shared(m1, src, i) <==> Shared(m, src, i))
    ensures m.dirs[src][i] != 0 && !Shared(m, src, i) ==> m.dirs[src][i] != LOW
    ensures i > 0 ==> m.dirs[src][i] != LOW
    ensures m.dirs[src][i] != 0 ==> m.dirs[src][i] in m.tables && m1.tables[m.dirs[src][i]] == m.tables[m.dirs[src][i]]
  {
    hide Linked, Data, PresentIffFrame;
  }

  /** One slot of the copy: complete exactly when its frames are free; if not even the table's own frame
      is free the slot is silently left null. */
  lemma SlotStep(m: Mem, m1: Mem, src: nat, d: nat, i: nat)
    requires Owned(m) && src in m.dirs && CloningDir(m, m1, src, d, i) && i < ENTRIES && LowOnly(m, src)
    ensures src in m1.dirs
    ensures var r := CloneSlot(m1, src, d, i);
            var need := SlotNeed(m, src, i);
            && (FreeCount(m1) >= need ==> r.Done? && CloningDir(m, r.m, src, d, i + 1) && |r.m.used| == |m1.used| + need)
            && (FreeCount(m1) < need && r.Done? ==> FreeCount(m1) == 0 && r.m == SetSlot(m1, d, i, 0))
  {
    SourceStays(m, m1, src, i);
    FrameIffFree(m1);
    NotKernel(m, d);
    hide Linked, Data, PresentIffFrame, Separate, LowInPlace, SlotTwin, TableTwin, CloneTable, SetSlot;
    var s := m.dirs[src][i];
    if s == 0 {
      FillNull(m, m1, src, d, i);
    } else if Shared(m, src, i) {
      FillSlot(m, m1, m1, src, d, i, s);
    } else {
      CloneTableTwin(m1, s);
      var r := CloneTable(m1, s);
      if r.Cloned? {
        PrivateSlot(m, m1, r.m, src, i, r.at);
        FillSlot(m, m1, r.m, src, d, i, r.at);
      }
    }
  }

  lemma NotKernel(m: Mem, d: nat)
    requires Owned(m) && d !in m.used
    ensures d != KERNEL
  {
  }

  lemma FillNull(m: Mem, m1: Mem, src: nat, d: nat, i: nat)
    requires Shaped(m) && src in m.dirs && CloningDir(m, m1, src, d, i) && i < ENTRIES && m.dirs[src][i] == 0
    ensures CloningDir(m, m1, src, d, i + 1)
  {
  }

  /** A table copied from memory `m1` is a copy as seen from the earlier memory `m`. */
  lemma PrivateSlot(m: Mem, m1: Mem, m2: Mem, src: nat, i: nat, t: nat)
    requires Owned(m) && src in m.dirs && i < ENTRIES && m.dirs[src][i] != 0 && !Shared(m, src, i)
    requires Owned(m1) && Owned(m2) && Grew(m, m1) && Grew(m1, m2) && m.dirs[src][i] != LOW
    requires t !in m1.used && t != 0 && t != LOW && TableTwin(m1, m2, m.dirs[src][i], t, ENTRIES)
    ensures SlotTwin(m, m2, src, i, t)
  {
    hide Linked, Data, PresentIffFrame, Separate, LowInPlace;
    var s := m.dirs[src][i];
    SourceMarked(m, s);
    forall k | 0 <= k < ENTRIES
      ensures Twin(m, m2, m.tables[s][k], m2.tables[t][k])
    {
      assert Twin(m1, m2, m1.tables[s][k], m2.tables[t][k]);
    }
  }

  /** A directory has the identity table only where the kernel has it. */
  ghost predicate LowOnly(m: Mem, src: nat) {
    src in m.dirs && |m.dirs[src]| == ENTRIES && forall i :: 0 < i < ENTRIES ==> m.dirs[src][i] != LOW
  }

  lemma {:induction false} SlotsRest(m: Mem, m1: Mem, src: nat, d: nat, i: nat)
    requires Owned(m) && src in m.dirs && LowOnly(m, src) && CloningDir(m, m1, src, d, i)
    requires FreeCount(m1) >= NeedFrom(m, src, i)
    ensures src in m1.dirs
    ensures var r := CloneSlots(m1, src, d, i);
            && r.Done? && CloningDir(m, r.m, src, d, ENTRIES)
            && |r.m.used| == |m1.used| + NeedFrom(m, src, i)
    decreases ENTRIES - i
  {
    hide Separate, LowInPlace, Linked, PresentIffFrame, Data, SlotTwin, CloneSlot, SlotNeed;
    if i < ENTRIES {
      SlotStep(m, m1, src, d, i);
      SlotsRest(m, CloneSlot(m1, src, d, i).m, src, d, i + 1);
    }
  }

  lemma NewDirSeparate(m: Mem)
    requires Shaped(m) && Separate(m) && LowInPlace(m) && NextFrame(m) < FRAMES
    ensures var m' := NewDir(m); Shaped(m') && Separate(m') && LowInPlace(m') && Data(m') == Data(m)
  {
    FreeFrame(m);
    var m' := NewDir(m);
    assert m'.dirs.Keys == m.dirs.Keys + {NextFrame(m)};
  }

  lemma NewDirOwned(m: Mem)
    requires Owned(m) && NextFrame(m) < FRAMES
    ensures Owned(NewDir(m)) && Grew(m, NewDir(m)) && |NewDir(m).used| == |m.used| + 1
  {
    var m' := NewDir(m);
    FreeFrame(m);
    NewDirSeparate(m);
    assert forall t, i, f: nat :: Holds(m', t, i, f) <==> Holds(m, t, i, f);
    LinkSame(m, m');
  }

  // ---------- isolation ----------

  /** The entry a page is mapped by, as the hardware would find it. */
  ghost function Entry(m: Mem, d: nat, p: nat): Pte
    requires Shaped(m) && d in m.dirs && p < PAGES
  {
    var t := m.dirs[d][p / ENTRIES];
    if t == 0 then EMPTY else m.tables[t][p % ENTRIES]
  }

  /** `d` is an isolated copy of `src`: tables shared with the kernel are shared with the copy too, and no
      others are, with or without present pages: any other table has a copy in a frame that was not in
      use before. Every other page is mapped by the copy exactly when it is mapped by the source, with the same
      flags and the same contents, in a frame that was not in use before; and nothing that was in use
      before has changed. */
  ghost predicate IsolatedCopy(m: Mem, m': Mem, src: nat, d: nat)
    requires Shaped(m) && Shaped(m') && src in m.dirs && d in m'.dirs
  {
    && Grew(m, m')
    && forall p :: 0 <= p < PAGES ==> PageCopied(m, m', src, d, p)
  }

  ghost predicate PageCopied(m: Mem, m': Mem, src: nat, d: nat, p: nat)
    requires Shaped(m) && Shaped(m') && src in m.dirs && d in m'.dirs && p < PAGES
  {
    if m.dirs[src][p / ENTRIES] == m.dirs[KERNEL][p / ENTRIES] then m'.dirs[d][p / ENTRIES] == m.dirs[src][p / ENTRIES]
    else
      var t, t' := m.dirs[src][p / ENTRIES], m'.dirs[d][p / ENTRIES];
      var e, e' := Entry(m, src, p), Entry(m', d, p);
      && (t' == 0 <==> t == 0) && (t != 0 ==> t' !in m.used)
      && (e'.present <==> e.present)
      && (e.present ==>
            && e'.rw == e.rw && e'.user == e.user && e'.accessed == e.accessed && e'.dirty == e.dirty
            && e'.frame !in m.used && e'.frame in m'.used && ContentOf(m', e'.frame) == ContentOf(m, e.frame))
  }

  lemma SlotsGivePages(m: Mem, m': Mem, src: nat, d: nat, p: nat)
    requires Shaped(m) && Shaped(m') && src in m.dirs && CloningDir(m, m', src, d, ENTRIES) && p < PAGES
    ensures PageCopied(m, m', src, d, p)
  {
    hide Owned;
    assert SlotTwin(m, m', src, p / ENTRIES, m'.dirs[d][p / ENTRIES]);
    var s := m.dirs[src][p / ENTRIES];
    if s != 0 && !Shared(m, src, p / ENTRIES) {
      assert Twin(m, m', m.tables[s][p % ENTRIES], m'.tables[m'.dirs[d][p / ENTRIES]][p % ENTRIES]);
    }
  }

  /** Cloning an address space: with enough free frames `clone_page_directory` returns an isolated copy,
      takes exactly the frames it needs, and keeps every frame owned by one entry. */
  lemma CloneIsIsolated(m: Mem, src: nat)
    requires Owned(m) && src in m.dirs && FreeCount(m) >= Need(m, src)
    ensures var r := CloneDir(m, src);
            && r.Cloned? && Owned(r.m) && r.at in r.m.dirs && r.at !in m.used
            && IsolatedCopy(m, r.m, src, r.at)
            && |r.m.used| == |m.used| + Need(m, src)
  {
    hide Linked, PresentIffFrame, Data, SlotTwin, Twin, CloneSlot, SlotNeed, PageCopied;
    FrameIffFree(m);
    NewDirOwned(m);
    FreeFrame(m);
    var d := NextFrame(m);
    var m1 := NewDir(m);
    assert LowOnly(m, src);
    hide Separate, LowInPlace;
    assert CloningDir(m, m1, src, d, 0);
    SlotsRest(m, m1, src, d, 0);
    var r := CloneSlots(m1, src, d, 0);
    forall p | 0 <= p < PAGES
      ensures PageCopied(m, r.m, src, d, p)
    {
      SlotsGivePages(m, r.m, src, d, p);
    }
  }

  // ---------- when frames run out ----------

  lemma CloneSlotTouchesOne(m: Mem, src: nat, d: nat, i: nat, k: nat)
    requires Shaped(m) && src in m.dirs && d in m.dirs && i < ENTRIES && k < ENTRIES && k != i
    ensures var r := CloneSlot(m, src, d, i);
            r.Done? ==> Shaped(r.m) && r.m.dirs.Keys == m.dirs.Keys && r.m.dirs[d][k] == m.dirs[d][k]
  {
    hide CloneTable;
    CloneSlotShaped(m, src, d, i);
    var s := m.dirs[src][i];
    if s != 0 { CloneTableShaped(m, s); }
  }

  lemma {:induction false} EarlierSlotsStay(m: Mem, src: nat, d: nat, i: nat, k: nat)
    requires Shaped(m) && src in m.dirs && d in m.dirs && k < i <= ENTRIES
    ensures var r := CloneSlots(m, src, d, i);
            r.Done? ==> Shaped(r.m) && d in r.m.dirs && r.m.dirs[d][k] == m.dirs[d][k]
    decreases ENTRIES - i
  {
    hide CloneSlot;
    if i < ENTRIES {
      CloneSlotTouchesOne(m, src, d, i, k);
      var r := CloneSlot(m, src, d, i);
      if r.Done? { EarlierSlotsStay(r.m, src, d, i + 1, k); }
    }
  }

  /** Slot `k` of the source has a table but the copy has none. */
  ghost predicate Missing(m: Mem, m': Mem, src: nat, d: nat, k: nat) {
    && src in m.dirs && d in m'.dirs && k < |m.dirs[src]| && k < |m'.dirs[d]|
    && m.dirs[src][k] != 0 && m'.dirs[d][k] == 0
  }

  lemma {:induction false} SlotsFallShort(m: Mem, m1: Mem, src: nat, d: nat, i: nat)
    requires Owned(m) && src in m.dirs && LowOnly(m, src) && CloningDir(m, m1, src, d, i)
    requires FreeCount(m1) < NeedFrom(m, src, i)
    ensures src in m1.dirs
    ensures var r := CloneSlots(m1, src, d, i);
            r.Done? ==> exists k: nat :: Missing(m, r.m, src, d, k)
    decreases ENTRIES - i
  {
    hide Separate, LowInPlace, Linked, PresentIffFrame, Data, SlotTwin, CloneSlot, Grew;
    FrameIffFree(m1);
    assert i < ENTRIES;
    SlotStep(m, m1, src, d, i);
    CloneSlotShaped(m1, src, d, i);
    var r := CloneSlot(m1, src, d, i);
    if FreeCount(m1) >= SlotNeed(m, src, i) {
      SlotsFallShort(m, r.m, src, d, i + 1);
    } else if r.Done? {
      EarlierSlotsStay(r.m, src, d, i + 1, i);
      var r' := CloneSlots(r.m, src, d, i + 1);
      if r'.Done? { assert Missing(m, r'.m, src, d, i); }
    }
  }

  /** A copy with every table of the source is returned if and only if the free frames suffice. When
      they do not, the source either panics, returns null, or silently leaves a table out. */
  lemma CloneIsCompleteExactly(m: Mem, src: nat)
    requires Owned(m) && src in m.dirs
    ensures var r := CloneDir(m, src);
            FreeCount(m) >= Need(m, src) <==> r.Cloned? && forall k: nat :: !Missing(m, r.m, src, r.at, k)
  {
    hide Linked, PresentIffFrame, Data, Twin, CloneSlot, SlotNeed, PageCopied;
    if FreeCount(m) >= Need(m, src) {
      CloneIsIsolated(m, src);
      CloneHasAll(m, src);
    } else {
      FrameIffFree(m);
      if NextFrame(m) < FRAMES {
        NewDirOwned(m);
        FreeFrame(m);
        assert LowOnly(m, src);
        hide Separate, LowInPlace, SlotTwin;
        assert CloningDir(m, NewDir(m), src, NextFrame(m), 0);
        SlotsFallShort(m, NewDir(m), src, NextFrame(m), 0);
      }
    }
  }

  lemma CloneHasAll(m: Mem, src: nat)
    requires Owned(m) && src in m.dirs && FreeCount(m) >= Need(m, src)
    ensures var r := CloneDir(m, src); r.Cloned? ==> forall k: nat :: !Missing(m, r.m, src, r.at, k)
  {
    hide Linked, PresentIffFrame, Data, Twin, CloneSlot, SlotNeed, PageCopied, TableTwin;
    FrameIffFree(m);
    NewDirOwned(m);
    FreeFrame(m);
    assert LowOnly(m, src);
    hide Separate, LowInPlace;
    var d := NextFrame(m);
    assert CloningDir(m, NewDir(m), src, d, 0);
    SlotsRest(m, NewDir(m), src, d, 0);
    var r := CloneSlots(NewDir(m), src, d, 0);
    forall k: nat
      ensures !Missing(m, r.m, src, d, k)
    {
      if k < ENTRIES { assert SlotTwin(m, r.m, src, k, r.m.dirs[d][k]); }
    }
  }

  // ---------- ownership, whatever the outcome ----------

  lemma CloneSlotOwned(m: Mem, src: nat, d: nat, i: nat)
    requires Owned(m) && src in m.dirs && d in m.dirs && d != KERNEL && i < ENTRIES
    ensures var r := CloneSlot(m, src, d, i); r.Done? ==> Owned(r.m) && src in r.m.dirs && d in r.m.dirs
  {
    SourceStays(m, m, src, i);
    hide Separate, LowInPlace, Linked, PresentIffFrame, Data, CloneTable, Grew, TableTwin;
    var s := m.dirs[src][i];
    if s == 0 {
    } else if Shared(m, src, i) {
      SetSlotOwned(m, d, i, s);
    } else {
      CloneTableTwin(m, s);
      CloneTableShaped(m, s);
      var r := CloneTable(m, s);
      if r.NoFrame? { SetSlotOwned(m, d, i, 0); }
      if r.Cloned? { SetSlotOwned(r.m, d, i, r.at); }
    }
  }

  lemma {:induction false} CloneSlotsOwned(m: Mem, src: nat, d: nat, i: nat)
    requires Owned(m) && src in m.dirs && d in m.dirs && d != KERNEL && i <= ENTRIES
    ensures var r := CloneSlots(m, src, d, i); r.Done? ==> Owned(r.m) && src in r.m.dirs && d in r.m.dirs
    decreases ENTRIES - i
  {
    hide Separate, LowInPlace, Linked, PresentIffFrame, Data, CloneSlot;
    if i < ENTRIES {
      CloneSlotOwned(m, src, d, i);
      var r := CloneSlot(m, src, d, i);
      if r.Done? { CloneSlotsOwned(r.m, src, d, i + 1); }
    }
  }

  lemma CloneDirOwned(m: Mem, src: nat)
    requires Owned(m) && src in m.dirs
    ensures var r := CloneDir(m, src); r.Cloned? ==> Owned(r.m)
  {
    hide Linked, PresentIffFrame, Data, CloneSlots;
    if NextFrame(m) < FRAMES {
      FreeFrame(m);
      NewDirOwned(m);
      NotKernel(m, NextFrame(m));
      CloneSlotsOwned(NewDir(m), src, NextFrame(m), 0);
    }
  }
}
