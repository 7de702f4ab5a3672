/** Sizes of finite sets. */
module Sets {

  /** A set of numbers below n has at most n elements. */
  lemma {:induction false} BoundedCard(s: set<int>, n: nat)
    requires forall x :: x in s ==> 0 <= x < n
    ensures |s| <= n
    decreases n
  {
    if n == 0 {
      assert forall x :: x !in s;
      assert |s| == 0;
    } else if n - 1 in s {
      BoundedCard(s - {n - 1}, n - 1);
    } else {
      BoundedCard(s, n - 1);
    }
  }

  lemma {:induction false} SubsetCard(a: set<string>, b: set<string>)
    requires a <= b
    ensures |a| <= |b|
    decreases a
  {
    if a == {} {
    } else {
      var x :| x in a;
      SubsetCard(a - {x}, b - {x});
    }
  }
}
