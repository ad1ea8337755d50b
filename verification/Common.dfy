/** What several components share: options, constant sequences, and the size of sets of small numbers. */
module Common {

  datatype Option<T> = None | Some(value: T)

  function Copies<T>(n: nat, x: T): (s: seq<T>)
    ensures |s| == n && forall i :: 0 <= i < n ==> s[i] == x
  {
    seq(n, _ => x)
  }

  /** A set of numbers below `n` has at most `n` elements, and `n` only if it has them all. */
  lemma {:induction false} CardBelow(u: set<nat>, n: nat)
    requires forall f :: f in u ==> f < n
    ensures |u| <= n
    ensures |u| == n <==> forall f: nat :: f < n ==> f in u
  {
    if n == 0 {
      assert u == {};
    } else {
      var rest := u - {n - 1};
      CardBelow(rest, n - 1);
      if n - 1 in u { assert u == rest + {n - 1}; } else { assert u == rest; }
    }
  }

  lemma {:induction false} CardSubset(x: set<nat>, y: set<nat>)
    requires x <= y
    ensures |x| <= |y|
  {
    if e :| e in x { CardSubset(x - {e}, y - {e}); }
  }

  /** There are at most `n` different numbers below `n`. */
  lemma {:induction false} DifferentBelow(p: seq<nat>, n: nat)
    requires (forall k :: 0 <= k < |p| ==> p[k] < n) && forall j, k :: 0 <= j < k < |p| ==> p[j] != p[k]
    ensures |p| <= n
    decreases n
  {
    if |p| > 0 {
      assert p[0] < n;
      if k :| 0 <= k < |p| && p[k] == n - 1 {
        DifferentBelow(p[..k] + p[k + 1..], n - 1);
      } else {
        DifferentBelow(p, n - 1);
      }
    }
  }
}
