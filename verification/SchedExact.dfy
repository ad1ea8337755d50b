/** Waiting is bounded exactly when the rivals cannot take turns forever; what that means for given base
    priorities (i386/whitex/multitasking.h:141-335). */
module SchedExact {
  import opened Common
  import opened SchedModel
  import opened SchedFairness
  import opened SchedBound
  import opened SchedCover

  lemma CoverShrinks(bases: seq<nat>, p: nat, n: nat, m: nat)
    requires p < |bases| && Coverable(bases, p, n) && m <= n
    ensures Coverable(bases, p, m)
  {
    var turns :| |turns| == n && IsCover(bases, p, turns);
    assert |turns[..m]| == m && IsCover(bases, p, turns[..m]);
  }

  /** A base that shuts `p` out can take all turns. */
  lemma ShutOutCovers(bases: seq<nat>, p: nat, q: nat, n: nat)
    requires p < |bases| && q < |bases| && q != p && !Lets(bases[q], q < p, Cap(bases[p]))
    ensures Coverable(bases, p, n)
  {
    assert Rest(bases[q]) == 0;
    assert |Copies(n, q)| == n && IsCover(bases, p, Copies(n, q));
  }

  /** From a cover of `n + 1` turns a wait of `n` selections. */
  lemma CoverableWaits(bases: seq<nat>, p: nat, n: nat)
    requires p < |bases| <= MAX_TASKS && bases[0] == DEFAULT_PRIORITY && Coverable(bases, p, n + 1)
    ensures CanWait(bases, p, n)
  {
    if FairBases(bases, p) {
      var turns :| |turns| == n + 1 && IsCover(bases, p, turns);
      CoverWaits(Plan(bases, p, turns));
    } else {
      var q :| 0 <= q < |bases| && q != p && !Lets(bases[q], q < p, Cap(bases[p]));
      UnfairBasesStarve(bases, p, q, n);
    }
  }

  lemma CanWaitCovers(bases: seq<nat>, p: nat, n: nat)
    requires p < |bases| && CanWait(bases, p, LONGEST + n)
    ensures Coverable(bases, p, n)
  {
    var ss, ops :| Waits(ss, ops, bases, p, LONGEST + n);
    WaitsCover(ss, ops, bases, p, n);
  }

  /** For every list of base priorities and every process: waiting is bounded in every run if and only if the rivals
      cannot take any number of turns in a row, each resting 500 times (100 - base) selections in between. What
      they can take beyond 50000 turns and what the process may have to wait differ by 50000 selections at most. */
  lemma BoundedExactly(bases: seq<nat>, p: nat)
    requires p < |bases| <= MAX_TASKS && bases[0] == DEFAULT_PRIORITY
    ensures (exists bound: nat :: !CanWait(bases, p, bound)) <==> exists n: nat :: !Coverable(bases, p, n)
    ensures forall n: nat :: !Coverable(bases, p, n) ==> !CanWait(bases, p, LONGEST + n)
    ensures forall n: nat :: Coverable(bases, p, n + 1) ==> CanWait(bases, p, n)
  {
    forall n: nat
      ensures !Coverable(bases, p, n) ==> !CanWait(bases, p, LONGEST + n)
      ensures Coverable(bases, p, n + 1) ==> CanWait(bases, p, n)
    {
      if CanWait(bases, p, LONGEST + n) { CanWaitCovers(bases, p, n); }
      if Coverable(bases, p, n + 1) { CoverableWaits(bases, p, n); }
    }
    if bound: nat :| !CanWait(bases, p, bound) {
      assert !Coverable(bases, p, bound + 1);
    }
    if n: nat :| !Coverable(bases, p, n) {
      assert !CanWait(bases, p, LONGEST + n);
    }
  }

  // ---------- what a list of bases tells at once ----------

  /** Nobody above the maximum has rivals, if no base shuts it out. */
  predicate Above(bases: seq<nat>, p: nat)
    requires p < |bases|
  {
    bases[p] > MAX_PRIORITY
  }

  /** Every lower slot rests longer than there are lower slots. */
  ghost predicate Slow(bases: seq<nat>, p: nat)
    requires p < |bases|
  {
    forall q :: 0 <= q < p && bases[q] < MAX_PRIORITY ==> p <= Rest(bases[q])
  }

  lemma SlowRivalsRunOut(bases: seq<nat>, p: nat)
    requires p < |bases| && FairBases(bases, p) && (Above(bases, p) || Slow(bases, p))
    ensures !Coverable(bases, p, p + 1)
  {
    if Coverable(bases, p, p + 1) {
      var turns :| |turns| == p + 1 && IsCover(bases, p, turns);
      forall i | 0 <= i <= p
        ensures turns[i] < p && p <= Rest(bases[turns[i]])
      {
        assert Rival(bases[turns[i]], turns[i] < p, Cap(bases[p])) && Lets(bases[turns[i]], turns[i] < p, Cap(bases[p]));
      }
      DifferentBelow(turns, p);
    }
  }

  /** With bases low enough for its slot, or a base above the maximum, a process waits a bounded time in every run if
      and only if bases of lower slots are below its cap and those of higher slots at most its cap. Lower bases up to 99
      are low enough for slots up to 500, up to 98 for slots up to 1000, and up to 97 for all. */
  lemma FairnessDecides(bases: seq<nat>, p: nat)
    requires p < |bases| <= MAX_TASKS && bases[0] == DEFAULT_PRIORITY && (Above(bases, p) || Slow(bases, p))
    ensures FairBases(bases, p) <==> exists bound :: !CanWait(bases, p, bound)
    ensures FairBases(bases, p) ==> !CanWait(bases, p, LONGEST + p + 1)
  {
    BoundedExactly(bases, p);
    if FairBases(bases, p) {
      SlowRivalsRunOut(bases, p);
    } else {
      var q :| 0 <= q < |bases| && q != p && !Lets(bases[q], q < p, Cap(bases[p]));
      forall n: nat
        ensures Coverable(bases, p, n)
      {
        ShutOutCovers(bases, p, q, n);
      }
    }
  }

  lemma LowBasesAreSlow(bases: seq<nat>, p: nat, top: nat)
    requires p < |bases| <= MAX_TASKS && top < MAX_PRIORITY && p <= AGING_LIMIT * (MAX_PRIORITY - top)
    requires forall q :: 0 <= q < p && bases[q] < MAX_PRIORITY ==> bases[q] <= top
    ensures Slow(bases, p)
  {
  }

  /** Lower bases up to 97 never make a process in any slot wait without bound, whatever its own. */
  lemma Upto97(bases: seq<nat>, p: nat)
    requires p < |bases| <= MAX_TASKS && bases[0] == DEFAULT_PRIORITY
    requires forall q :: 0 <= q < p ==> bases[q] <= 97 || bases[q] >= MAX_PRIORITY
    ensures FairBases(bases, p) <==> exists bound :: !CanWait(bases, p, bound)
  {
    LowBasesAreSlow(bases, p, 97);
    FairnessDecides(bases, p);
  }

  /** The members of a set, one after another. */
  lemma {:induction false} Listed(group: set<nat>) returns (list: seq<nat>)
    ensures |list| == |group| && (forall q :: q in list <==> q in group)
    ensures forall i, j :: 0 <= i < j < |list| ==> list[i] != list[j]
  {
    if g :| g in group {
      var rest := Listed(group - {g});
      list := [g] + rest;
    } else {
      list := [];
    }
  }

  /** More lower slots than the longest rest among them take turns forever, one after another. */
  lemma CrowdCovers(bases: seq<nat>, p: nat, group: set<nat>, low: nat, n: nat)
    requires p < |bases| && bases[p] <= MAX_PRIORITY && |group| > Rest(low)
    requires forall g :: g in group ==> g < p && bases[g] >= low
    ensures Coverable(bases, p, n)
  {
    var list := Listed(group);
    var m := |list|;
    var turns := seq(n, i requires 0 <= i < n => list[i % m]);
    forall i | 0 <= i < n
      ensures turns[i] in group && Rival(bases[turns[i]], true, Cap(bases[p])) && Rest(bases[turns[i]]) <= Rest(low)
    {
      assert list[i % m] in group;
    }
    forall i, j | 0 <= i < j < n && turns[i] == turns[j]
      ensures j - i >= m
    {
      SameTurn(i, j, m);
    }
    assert |turns| == n && IsCover(bases, p, turns);
  }

  lemma SameTurn(i: nat, j: nat, m: nat)
    requires i < j && m > 0 && i % m == j % m
    ensures j - i >= m
  {
    var d := j / m - i / m;
    assert j - i == m * d;
    if d <= 0 { Product(m, -d); } else { Product(m, d - 1); }
  }

  lemma Product(m: nat, d: nat)
    ensures m * d >= 0 && m * (d + 1) == m * d + m && m * (0 - d) == 0 - m * d
  {
  }

  /** The slots are few enough exactly up to the rest: more than 500 times (100 - b) lower slots of base b or more starve
      a process with a base up to 100, though none of them shuts it out: 501 of base 99, or 1001 of base 98. */
  lemma CrowdStarves(bases: seq<nat>, p: nat, group: set<nat>, low: nat, bound: nat)
    requires p < |bases| <= MAX_TASKS && bases[0] == DEFAULT_PRIORITY && bases[p] <= MAX_PRIORITY && |group| > Rest(low)
    requires forall g :: g in group ==> g < p && bases[g] >= low
    ensures CanWait(bases, p, bound)
  {
    CrowdCovers(bases, p, group, low, bound + 1);
    CoverableWaits(bases, p, bound);
  }
}
