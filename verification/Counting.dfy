/** Sizes of finite sets of integers. */
module Counting {

  /** The integers above lo, up to and including hi. */
  ghost function Above(lo: int, hi: int): (s: set<int>)
    ensures forall x :: x in s <==> lo < x <= hi
    ensures |s| == if lo < hi then hi - lo else 0
    decreases hi - lo
  {
    if hi <= lo then {} else Above(lo, hi - 1) + {hi}
  }

  lemma {:induction false} SubsetSize<T>(a: set<T>, b: set<T>)
    requires a <= b
    ensures |a| <= |b|
  {
    assert b == a + (b - a);
  }
}
