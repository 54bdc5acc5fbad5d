/** The reals that stand in for floating-point numbers: sorting, rounding, and two laws of order. */
module Reals {
  import opened Sorting

  predicate RealLeq(a: real, b: real) {
    a <= b
  }

  lemma RealOrder()
    ensures TotalPreorder(RealLeq) && Antisymmetric(RealLeq)
  {
  }

  lemma SortedReals(xs: seq<real>)
    ensures Sorted(RealLeq, SortBy(RealLeq, xs))
    ensures multiset(SortBy(RealLeq, xs)) == multiset(xs)
  {
    RealOrder();
    SortBySorts(RealLeq, xs);
  }

  function Times(d: real, w: real): real {
    d * w
  }

  lemma Scale(d: real, v: real, w: real)
    requires 0.0 <= d && v <= w
    ensures Times(d, v) <= Times(d, w)
    ensures Times(d, 0.0) == 0.0 && Times(d, 1.0) == d
  {
  }

  lemma Divide(a: real, b: real, s: real)
    requires a <= b && s > 0.0
    ensures a / s <= b / s
  {
  }

  /** Python's `round` of a real to an integer: to nearest, ties to even. */
  function RoundHalfEven(x: real): int {
    var f := x.Floor;
    var d := x - f as real;
    if d < 0.5 then f
    else if d > 0.5 then f + 1
    else if f % 2 == 0 then f else f + 1
  }

  lemma RoundMonotone(x: real, y: real)
    requires x <= y
    ensures RoundHalfEven(x) <= RoundHalfEven(y)
  {
  }

  /** The nearest integer; of two that are equally near, the even one. */
  lemma RoundIsNearest(x: real)
    ensures var n := RoundHalfEven(x);
            && -0.5 <= n as real - x <= 0.5
            && (n as real - x == 0.5 || n as real - x == -0.5 ==> n % 2 == 0)
  {
  }
}
