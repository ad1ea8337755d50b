/** The frame bitmap of i386/whitex/paging.h:68-144: 32768 words of 32 bits, one bit a frame, and the
    two searches over it. A word is modelled as its 32 bits, least significant first, so that `1 << off`
    selects bit `off`. */
module FrameBits {

  const WORDS := 32768
  const FRAMES := 1048576
  const PAGE_SIZE := 4096
  const NONE := 0xFFFF_FFFF

  type Word = w: seq<bool> | |w| == 32 witness seq(32, _ => false)

  /** The word 0xFFFFFFFF. */
  predicate AllOnes(w: Word) { forall j :: 0 <= j < 32 ==> w[j] }

  /** Whether a frame is marked. */
  predicate Marked(words: seq<Word>, f: nat)
    requires |words| == WORDS && f < FRAMES
  {
    words[f / 32][f % 32]
  }

  /** The marked frames. */
  ghost function Used(words: seq<Word>): (u: set<nat>)
    requires |words| == WORDS
    ensures forall f: nat :: f in u <==> f < FRAMES && Marked(words, f)
  {
    set f: nat | f < FRAMES && Marked(words, f)
  }

  ghost predicate IsFirstFree(used: set<nat>, r: nat) {
    r <= FRAMES && (r < FRAMES ==> r !in used) && forall k: nat :: k < r ==> k in used
  }

  lemma {:induction false} FirstFreeExists(used: set<nat>, n: nat) returns (r: nat)
    requires n <= FRAMES && forall k: nat :: k < n ==> k in used
    ensures IsFirstFree(used, r)
    decreases FRAMES - n
  {
    if n == FRAMES || n !in used { r := n; } else { r := FirstFreeExists(used, n + 1); }
  }

  /** The lowest unmarked frame; FRAMES if there is none. */
  ghost function FirstFree(used: set<nat>): (r: nat)
    ensures IsFirstFree(used, r)
  {
    assert exists r :: IsFirstFree(used, r) by { var r := FirstFreeExists(used, 0); }
    var r :| IsFirstFree(used, r); r
  }

  lemma FirstFreeIs(used: set<nat>, r: nat)
    requires IsFirstFree(used, r)
    ensures FirstFree(used) == r
  {
  }

  /** The address of a search result. */
  function AddressOf(f: nat): nat { if f == FRAMES then NONE else f * PAGE_SIZE }

  /** `count` unmarked frames from `start` on. */
  ghost predicate FreeRun(used: set<nat>, start: nat, count: nat) {
    start + count <= FRAMES && forall f :: start <= f < start + count ==> f !in used
  }

  /** A run of one frame is a clear bit. */
  lemma RunOfOne(used: set<nat>)
    ensures forall s: nat :: FreeRun(used, s, 1) <==> s < FRAMES && s !in used
    ensures var r := FirstFree(used);
            (r == FRAMES <==> forall s: nat :: !FreeRun(used, s, 1)) && forall s: nat :: s < r ==> !FreeRun(used, s, 1)
  {
    forall s: nat
      ensures FreeRun(used, s, 1) <==> s < FRAMES && s !in used
    {
      assert FreeRun(used, s, 1) ==> s <= s < s + 1;
    }
  }

  class Bitmap {
    const words: array<Word>

    constructor ()
      ensures Ok() && fresh(words) && Frames() == {}
    {
      words := new Word[WORDS](_ => seq(32, _ => false));
      new;
    }

    ghost predicate Ok()
      reads this
    {
      words.Length == WORDS
    }

    ghost function Frames(): set<nat>
      requires Ok()
      reads this, words
    {
      Used(words[..])
    }

    /** `bitmap_set_bit`. */
    method SetBit(address: nat)
      requires Ok() && address / PAGE_SIZE < FRAMES
      modifies words
      ensures Frames() == old(Frames()) + {address / PAGE_SIZE}
    {
      var frame := address / PAGE_SIZE;
      var idx, off := frame / 32, frame % 32;
      words[idx] := words[idx][off := true];
      forall f: nat | f < FRAMES
        ensures Marked(words[..], f) <==> f == frame || old(Marked(words[..], f))
      {
        OneBit(f, frame);
      }
    }

    /** `bitmap_clear_bit`. */
    method ClearBit(address: nat)
      requires Ok() && address / PAGE_SIZE < FRAMES
      modifies words
      ensures Frames() == old(Frames()) - {address / PAGE_SIZE}
    {
      var frame := address / PAGE_SIZE;
      var idx, off := frame / 32, frame % 32;
      words[idx] := words[idx][off := false];
      forall f: nat | f < FRAMES
        ensures Marked(words[..], f) <==> f != frame && old(Marked(words[..], f))
      {
        OneBit(f, frame);
      }
    }

    /** `bitmap_test_bit`. */
    method TestBit(address: nat) returns (set1: bool)
      requires Ok() && address / PAGE_SIZE < FRAMES
      ensures set1 <==> address / PAGE_SIZE in Frames()
    {
      var frame := address / PAGE_SIZE;
      set1 := words[frame / 32][frame % 32];
      assert Marked(words[..], frame) == set1;
    }

    /** `find_first_free_frame`: skips full words, yet returns the lowest clear bit of the whole
        bitmap, and 0xFFFFFFFF exactly when every frame is marked. */
    method FindFirstFreeFrame() returns (address: nat)
      requires Ok()
      ensures address == AddressOf(FirstFree(Frames()))
    {
      ghost var used := Frames();
      for i := 0 to WORDS
        invariant forall f: nat :: f < i * 32 ==> f in used
      {
        if !AllOnes(words[i]) {
          for j := 0 to 32
            invariant forall k :: 0 <= k < j ==> words[i][k]
            invariant forall f: nat :: f < i * 32 + j ==> f in used
          {
            WordAndBit(i, j);
            assert words[i][j] == Marked(words[..], i * 32 + j);
            if !words[i][j] {
              FirstFreeIs(used, i * 32 + j);
              return (i * 32 + j) * PAGE_SIZE;
            }
          }
        }
        forall f: nat | f < (i + 1) * 32
          ensures f in used
        {
          if f >= i * 32 {
            WordAndBit(i, f - i * 32);
            assert Marked(words[..], f) == words[i][f - i * 32];
          }
        }
      }
      FirstFreeIs(used, FRAMES);
      return NONE;
    }

    /** `find_contiguous_free_frames`: the lowest start of `count` clear frames, and 0xFFFFFFFF exactly
        when there is no such run or `count` is 0. */
    method FindContiguousFreeFrames(count: nat) returns (address: nat)
      requires Ok()
      ensures address == NONE <==> count == 0 || forall s: nat :: !FreeRun(Frames(), s, count)
      ensures address != NONE ==>
                && address % PAGE_SIZE == 0 && FreeRun(Frames(), address / PAGE_SIZE, count)
                && forall s: nat :: s < address / PAGE_SIZE ==> !FreeRun(Frames(), s, count)
    {
      if count == 0 { return NONE; }
      ghost var used := Frames();
      if count == 1 {
        address := FindFirstFreeFrame();
        RunOfOne(used);
        return;
      }
      var start, free := 0, 0;
      for i := 0 to FRAMES
        invariant free <= i && free < count && (free > 0 ==> start == i - free)
        invariant forall f :: i - free <= f < i ==> f !in used
        invariant free < i ==> i - free - 1 in used
        invariant forall s: nat :: s + count <= i ==> !FreeRun(used, s, count)
      {
        var set1 := TestBit(i * PAGE_SIZE);
        if !set1 {
          if free == 0 { start := i; }
          free := free + 1;
          if free == count {
            assert FreeRun(used, start, count);
            return start * PAGE_SIZE;
          }
          forall s: nat | s + count <= i + 1
            ensures !FreeRun(used, s, count)
          {
            if s + count == i + 1 { assert s <= i - free < s + count; }
          }
        } else {
          free := 0;
          forall s: nat | s + count <= i + 1
            ensures !FreeRun(used, s, count)
          {
            if s + count == i + 1 { assert s <= i < s + count; }
          }
        }
      }
      return NONE;
    }
  }

  /** Different frames have different bits. */
  lemma OneBit(f: nat, g: nat)
    ensures f == g <==> f / 32 == g / 32 && f % 32 == g % 32
  {
  }

  lemma WordAndBit(i: nat, j: nat)
    requires i < WORDS && j < 32
    ensures i * 32 + j < FRAMES && (i * 32 + j) / 32 == i && (i * 32 + j) % 32 == j
  {
  }
}
