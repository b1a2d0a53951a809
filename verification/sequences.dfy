/** Generic facts about sequences used by the cycle analysis. */
module Sequences {

  /** The rotation of `s` that starts at position `k` and wraps around. */
  function Rotate<T>(s: seq<T>, k: nat): (r: seq<T>)
    requires k <= |s|
    ensures |r| == |s|
    ensures forall i :: 0 <= i < |s| - k ==> r[i] == s[i + k]
    ensures forall i :: |s| - k <= i < |s| ==> r[i] == s[i + k - |s|]
    ensures multiset(r) == multiset(s)
  {
    assert s[..k] + s[k..] == s;
    s[k..] + s[..k]
  }

  /** `a` is obtained from `b` by deleting elements, keeping the order of the rest. */
  predicate IsSubsequence<T(==)>(a: seq<T>, b: seq<T>)
    decreases |b|
  {
    |a| == 0 ||
    (|b| > 0 &&
     ((a[0] == b[0] && IsSubsequence(a[1..], b[1..])) || IsSubsequence(a, b[1..])))
  }

  /** No element occurs twice. */
  predicate Distinct<T(==)>(s: seq<T>)
  {
    forall i, j :: 0 <= i < j < |s| ==> s[i] != s[j]
  }

  /** An element occurs at most once in a sequence without repetitions. */
  lemma {:induction false} DistinctOccursAtMostOnce<T>(s: seq<T>, x: T)
    requires Distinct(s)
    ensures multiset(s)[x] <= 1
    decreases |s|
  {
    if |s| > 0 {
      var front := s[..|s| - 1];
      assert s == front + [s[|s| - 1]];
      assert Distinct(front);
      DistinctOccursAtMostOnce(front, x);
      if s[|s| - 1] == x {
        assert x !in front by {
          forall i | 0 <= i < |front| ensures front[i] != x {
            assert s[i] != s[|s| - 1];
          }
        }
      }
    }
  }
}
