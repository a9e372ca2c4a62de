// Small facts about finite sets and maps used by the counting code.
module Sets {

  /** A subset is no larger than its superset. */
  lemma {:induction false} SubsetCard<T>(a: set<T>, b: set<T>)
    requires a <= b
    ensures |a| <= |b|
    decreases |b|
  {
    if a != {} {
      var x :| x in a;
      SubsetCard(a - {x}, b - {x});
    }
  }

  /** Scaling by a factor in [0, 1] keeps a non-negative number between 0 and itself. */
  lemma ScaleBounds(a: real, d: real)
    ensures 0.0 <= a && 0.0 <= d <= 1.0 ==> 0.0 <= a * d <= a
    ensures d == 0.0 ==> a * d == 0.0
    ensures d == 1.0 ==> a * d == a
  {
    if 0.0 <= a && 0.0 <= d <= 1.0 {
      assert a * (1.0 - d) >= 0.0;
    }
  }

  /** A non-empty set of numbers has an element. */
  lemma IntHasElement(s: set<int>)
    requires s != {}
    ensures exists x :: x in s
  {
    if forall y :: y !in s {
      assert false;
    }
  }
}
