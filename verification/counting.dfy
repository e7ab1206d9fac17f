/** Counting the elements of a sequence that satisfy a predicate (Rust's `filter(..).count()`). */
module Counting {

  /** The number of elements of `xs` satisfying `p`. */
  function CountIf<T>(xs: seq<T>, p: T -> bool): (n: nat)
    ensures n <= |xs|
    decreases |xs|
  {
    if |xs| == 0 then 0 else CountIf(xs[..|xs| - 1], p) + (if p(xs[|xs| - 1]) then 1 else 0)
  }

  /** The positions of the elements satisfying `p`. */
  ghost function Matching<T>(xs: seq<T>, p: T -> bool): set<nat> {
    set i: nat | i < |xs| && p(xs[i])
  }

  /** The count is the number of positions whose element satisfies `p`. */
  lemma {:induction false} CountIfMatching<T>(xs: seq<T>, p: T -> bool)
    ensures CountIf(xs, p) == |Matching(xs, p)|
    decreases |xs|
  {
    if |xs| > 0 {
      var n := |xs| - 1;
      var init := xs[..n];
      CountIfMatching(init, p);
      assert forall i :: 0 <= i < n ==> init[i] == xs[i];
      if p(xs[n]) {
        assert Matching(xs, p) == Matching(init, p) + {n};
      } else {
        assert Matching(xs, p) == Matching(init, p);
      }
    } else {
      assert Matching(xs, p) == {};
    }
  }

  /** A stronger filter counts no more elements than a weaker one. */
  lemma {:induction false} CountIfMonotone<T>(xs: seq<T>, p: T -> bool, q: T -> bool)
    requires forall x :: x in xs && p(x) ==> q(x)
    ensures CountIf(xs, p) <= CountIf(xs, q)
    decreases |xs|
  {
    if |xs| > 0 {
      var init := xs[..|xs| - 1];
      assert forall x :: x in init ==> x in xs;
      CountIfMonotone(init, p, q);
    }
  }

  /** One more element adds one to the count exactly when it satisfies `p`. */
  lemma CountIfAppend<T>(xs: seq<T>, x: T, p: T -> bool)
    ensures CountIf(xs + [x], p) == CountIf(xs, p) + (if p(x) then 1 else 0)
  {
    assert (xs + [x])[..|xs|] == xs;
  }

  /** The count over three elements, element by element. */
  lemma CountIfOfThree<T>(a: T, b: T, c: T, p: T -> bool)
    ensures CountIf([a, b, c], p) == (if p(a) then 1 else 0) + (if p(b) then 1 else 0) + (if p(c) then 1 else 0)
  {
    CountIfAppend([], a, p);
    CountIfAppend([a], b, p);
    CountIfAppend([a, b], c, p);
    assert [] + [a] == [a] && [a] + [b] == [a, b] && [a, b] + [c] == [a, b, c];
  }
}
