/** Sizes of finite sets of numbers. */
module FiniteSets {

  lemma {:induction false} SubsetSize(a: set<int>, b: set<int>)
    requires a <= b
    ensures |a| <= |b|
    ensures a != b ==> |a| < |b|
  {
    assert b == a + (b - a);
    assert a != b ==> b - a != {};
  }

  /** A set of indices below n has at most n elements. */
  lemma {:induction false} IndicesBelow(a: set<int>, n: nat)
    requires forall i | i in a :: 0 <= i < n
    ensures |a| <= n
  {
    if n == 0 {
      assert forall i :: i !in a;
      assert a == {};
    } else {
      IndicesBelow(a - {n - 1}, n - 1);
      assert |a - {n - 1}| >= |a| - 1;
    }
  }
}
