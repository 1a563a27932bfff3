/** Facts about powers, sets and sequences that several components use. */
module Basics {
  /** `1 << n` */
  function Pow2(n: nat): (r: nat)
    ensures r > 0
  {
    if n == 0 then 1 else 2 * Pow2(n - 1)
  }

  /** Integer division as in Go: rounds toward zero. */
  function Truncate(x: int, d: int): int
    requires d > 0
  {
    if x >= 0 then x / d else -((-x) / d)
  }

  ghost predicate Distinct<T>(s: seq<T>) {
    forall i, j :: 0 <= i < j < |s| ==> s[i] != s[j]
  }

  lemma SubsetSize<T>(a: set<T>, b: set<T>)
    requires a <= b
    ensures |a| <= |b| && (|a| >= |b| <==> a == b)
  {
    assert a + (b - a) == b;
    assert |a| + |b - a| == |b|;
  }

  /** A sequence has at most as many different elements as it is long, and exactly as many if they are distinct. */
  lemma {:induction false} ElementCount<T>(s: seq<T>)
    ensures |set x | x in s| <= |s|
    ensures Distinct(s) ==> |set x | x in s| == |s|
  {
    if s == [] {
      assert (set x | x in s) == {};
    } else {
      ElementCount(s[1..]);
      assert (set x | x in s) == {s[0]} + (set x | x in s[1..]);
      if Distinct(s) {
        assert forall k :: 0 <= k < |s| - 1 ==> s[1..][k] == s[k + 1];
        assert s[0] !in s[1..];
      }
    }
  }
}
