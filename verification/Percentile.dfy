/**
 Percentiles by linear interpolation between neighbouring samples, scripts/benchmarks/stats.py,
 with the reals in place of floating point.
 */
module Percentile {
  import opened Wrappers
  import opened Sorting
  import opened Reals

  datatype StatsError = NoSamples | QuantileOutOfRange

  function Ceiling(x: real): int {
    -((-x).Floor)
  }

  function Interpolate(a: real, b: real, weight: real): real {
    a + Times(b - a, weight)
  }

  /** The interpolated value of a sorted list at a fractional position. */
  function ValueAt(ordered: seq<real>, position: real): real
    requires 0.0 <= position <= (|ordered| - 1) as real
  {
    var lower, upper := position.Floor, Ceiling(position);
    if lower == upper then ordered[lower]
    else Interpolate(ordered[lower], ordered[upper], position - lower as real)
  }

  function Position(n: nat, quantile: real): (r: real)
    requires 0.0 <= quantile <= 1.0
    ensures 0.0 <= r <= n as real
  {
    Scale(n as real, 0.0, quantile);
    Scale(n as real, quantile, 1.0);
    Times(n as real, quantile)
  }

  function Percentile(samples: seq<real>, quantile: real): Result<real, StatsError> {
    if samples == [] then Err(NoSamples)
    else if !(0.0 <= quantile <= 1.0) then Err(QuantileOutOfRange)
    else Ok(OfSorted(SortBy(RealLeq, samples), quantile))
  }

  function OfSorted(ordered: seq<real>, quantile: real): real
    requires ordered != [] && 0.0 <= quantile <= 1.0
  {
    if |ordered| == 1 then ordered[0] else ValueAt(ordered, Position(|ordered| - 1, quantile))
  }

  // ---------------------------------------------------------------- interpolation

  lemma PositionMonotone(n: nat, p: real, q: real)
    requires 0.0 <= p <= q <= 1.0
    ensures Position(n, p) <= Position(n, q)
  {
    Scale(n as real, p, q);
  }

  lemma InterpolateBetween(a: real, b: real, w: real)
    requires a <= b && 0.0 <= w <= 1.0
    ensures a <= Interpolate(a, b, w) <= b
  {
    Scale(b - a, 0.0, w);
    Scale(b - a, w, 1.0);
  }

  lemma InterpolateMonotone(a: real, b: real, v: real, w: real)
    requires a <= b && v <= w
    ensures Interpolate(a, b, v) <= Interpolate(a, b, w)
  {
    Scale(b - a, v, w);
  }

  /** Inside a segment the value stays between the segment's ends. */
  lemma ValueBetween(ordered: seq<real>, position: real)
    requires Sorted(RealLeq, ordered) && 0.0 <= position <= (|ordered| - 1) as real
    ensures var lower, upper := position.Floor, Ceiling(position);
            && 0 <= lower <= upper < |ordered| && upper <= lower + 1
            && ordered[lower] <= ValueAt(ordered, position) <= ordered[upper]
  {
    var lower, upper := position.Floor, Ceiling(position);
    if lower < upper {
      assert RealLeq(ordered[lower], ordered[upper]);
      InterpolateBetween(ordered[lower], ordered[upper], position - lower as real);
    }
  }

  /** The interpolated value does not fall as the position grows, within a segment or across segments. */
  lemma ValueMonotone(ordered: seq<real>, p: real, q: real)
    requires Sorted(RealLeq, ordered) && 0.0 <= p <= q <= (|ordered| - 1) as real
    ensures ValueAt(ordered, p) <= ValueAt(ordered, q)
  {
    ValueBetween(ordered, p);
    ValueBetween(ordered, q);
    if p.Floor == q.Floor {
      var lower := p.Floor;
      if lower < Ceiling(p) {
        assert Ceiling(q) == lower + 1;
        assert RealLeq(ordered[lower], ordered[lower + 1]);
        InterpolateMonotone(ordered[lower], ordered[lower + 1], p - lower as real, q - lower as real);
      }
    } else {
      assert Ceiling(p) <= q.Floor;
      assert Ceiling(p) < q.Floor ==> RealLeq(ordered[Ceiling(p)], ordered[q.Floor]);
    }
  }

  // ---------------------------------------------------------------- the percentile

  /** The order in which samples were taken does not matter. */
  lemma PermutationInvariant(a: seq<real>, b: seq<real>, quantile: real)
    requires multiset(a) == multiset(b)
    ensures Percentile(a, quantile) == Percentile(b, quantile)
  {
    SameSorted(a, b);
    assert |a| == |multiset(a)| == |multiset(b)| == |b|;
  }

  lemma SameSorted(a: seq<real>, b: seq<real>)
    requires multiset(a) == multiset(b)
    ensures SortBy(RealLeq, a) == SortBy(RealLeq, b)
  {
    RealOrder();
    SortedReals(a);
    SortedReals(b);
    SortedUnique(RealLeq, SortBy(RealLeq, a), SortBy(RealLeq, b));
  }

  function Minimum(samples: seq<real>): real
    requires samples != []
  {
    if |samples| == 1 then samples[0]
    else
      var rest := Minimum(samples[1..]);
      if samples[0] <= rest then samples[0] else rest
  }

  function Maximum(samples: seq<real>): real
    requires samples != []
  {
    if |samples| == 1 then samples[0]
    else
      var rest := Maximum(samples[1..]);
      if samples[0] >= rest then samples[0] else rest
  }

  lemma {:induction false} Extremes(samples: seq<real>)
    requires samples != []
    ensures Minimum(samples) in samples && Maximum(samples) in samples
    ensures forall x :: x in samples ==> Minimum(samples) <= x <= Maximum(samples)
  {
    if |samples| > 1 {
      Extremes(samples[1..]);
      assert samples == [samples[0]] + samples[1..];
    }
  }

  lemma SortedEnds(samples: seq<real>)
    requires samples != []
    ensures SortBy(RealLeq, samples)[0] == Minimum(samples)
    ensures SortBy(RealLeq, samples)[|samples| - 1] == Maximum(samples)
  {
    SortedReals(samples);
    EndsOfSorted(SortBy(RealLeq, samples), samples);
  }

  lemma EndsOfSorted(ordered: seq<real>, samples: seq<real>)
    requires samples != [] && |ordered| == |samples|
    requires Sorted(RealLeq, ordered) && multiset(ordered) == multiset(samples)
    ensures ordered[0] == Minimum(samples) && ordered[|samples| - 1] == Maximum(samples)
  {
    Extremes(samples);
    SortedEnd(ordered, samples, Minimum(samples));
    SortedEnd(ordered, samples, Maximum(samples));
  }

  lemma SortedEnd(ordered: seq<real>, samples: seq<real>, x: real)
    requires samples != [] && |ordered| == |samples|
    requires Sorted(RealLeq, ordered) && multiset(ordered) == multiset(samples)
    requires x in samples
    ensures (forall y :: y in samples ==> x <= y) ==> ordered[0] == x
    ensures (forall y :: y in samples ==> y <= x) ==> ordered[|ordered| - 1] == x
  {
    var n := |ordered| - 1;
    assert x in multiset(samples) && ordered[0] in multiset(ordered) && ordered[n] in multiset(ordered);
    var i :| 0 <= i < |ordered| && ordered[i] == x;
    if i > 0 { assert RealLeq(ordered[0], ordered[i]); }
    if i < n { assert RealLeq(ordered[i], ordered[n]); }
    assert ordered[0] in samples && ordered[n] in samples;
  }

  lemma OfSortedBounds(ordered: seq<real>, quantile: real)
    requires Sorted(RealLeq, ordered) && ordered != [] && 0.0 <= quantile <= 1.0
    ensures ordered[0] <= OfSorted(ordered, quantile) <= ordered[|ordered| - 1]
    ensures OfSorted(ordered, 0.0) == ordered[0] && OfSorted(ordered, 1.0) == ordered[|ordered| - 1]
  {
    if |ordered| > 1 {
      var n := |ordered| - 1;
      var position := Position(n, quantile);
      ValueBetween(ordered, position);
      var lower, upper := position.Floor, Ceiling(position);
      if lower > 0 { assert RealLeq(ordered[0], ordered[lower]); }
      if upper < n { assert RealLeq(ordered[upper], ordered[n]); }
    }
  }

  /** A percentile lies between the smallest and the largest sample, which quantiles 0 and 1 return. */
  lemma PercentileBounds(samples: seq<real>, quantile: real)
    requires samples != [] && 0.0 <= quantile <= 1.0
    ensures Percentile(samples, quantile).Ok?
    ensures Minimum(samples) <= Percentile(samples, quantile).value <= Maximum(samples)
    ensures Percentile(samples, 0.0) == Ok(Minimum(samples)) && Percentile(samples, 1.0) == Ok(Maximum(samples))
  {
    SortedReals(samples);
    SortedEnds(samples);
    OfSortedBounds(SortBy(RealLeq, samples), quantile);
  }

  /** Percentiles never fall as the quantile grows. */
  lemma PercentileMonotone(samples: seq<real>, p: real, q: real)
    requires samples != [] && 0.0 <= p <= q <= 1.0
    ensures Percentile(samples, p).Ok? && Percentile(samples, q).Ok?
    ensures Percentile(samples, p).value <= Percentile(samples, q).value
  {
    var ordered := SortBy(RealLeq, samples);
    SortedReals(samples);
    if |ordered| > 1 {
      var n := |ordered| - 1;
      PositionMonotone(n, p, q);
      ValueMonotone(ordered, Position(n, p), Position(n, q));
    }
  }

  /** The two refusals: no samples, and a quantile outside 0 to 1. */
  lemma PercentileRefusedIff(samples: seq<real>, quantile: real)
    ensures Percentile(samples, quantile) == Err(NoSamples) <==> samples == []
    ensures Percentile(samples, quantile) == Err(QuantileOutOfRange) <==>
            samples != [] && (quantile < 0.0 || quantile > 1.0)
  {
  }

  /**
   The value in between: where (n - 1) * quantile is i + w, the percentile lies the fraction w
   of the way from sample i to sample i + 1, however the samples are put in order.
   */
  lemma PercentileInterpolates(samples: seq<real>, ordered: seq<real>, quantile: real, i: nat, w: real)
    requires multiset(ordered) == multiset(samples) && i + 1 < |ordered|
    requires forall k, m :: 0 <= k < m < |ordered| ==> ordered[k] <= ordered[m]
    requires 0.0 <= quantile <= 1.0 && 0.0 <= w <= 1.0
    requires (|samples| - 1) as real * quantile == i as real + w
    ensures Percentile(samples, quantile) == Ok(ordered[i] + w * (ordered[i + 1] - ordered[i]))
  {
    SortedIs(samples, ordered);
    var n := |ordered| - 1;
    PositionIs(n, quantile);
    ValueInside(ordered, Position(n, quantile), i, w);
  }

  lemma SortedIs(samples: seq<real>, ordered: seq<real>)
    requires multiset(ordered) == multiset(samples)
    requires forall k, m :: 0 <= k < m < |ordered| ==> ordered[k] <= ordered[m]
    ensures |samples| == |ordered| && SortBy(RealLeq, samples) == ordered
  {
    assert |samples| == |multiset(samples)| == |multiset(ordered)| == |ordered|;
    RealOrder();
    SortedReals(samples);
    SortedUnique(RealLeq, SortBy(RealLeq, samples), ordered);
  }

  lemma PositionIs(n: nat, quantile: real)
    requires 0.0 <= quantile <= 1.0
    ensures Position(n, quantile) == n as real * quantile
  {
  }

  lemma ValueInside(ordered: seq<real>, position: real, i: nat, w: real)
    requires i + 1 < |ordered| && 0.0 <= w <= 1.0 && position == i as real + w
    ensures ValueAt(ordered, position) == ordered[i] + w * (ordered[i + 1] - ordered[i])
  {
    if w == 1.0 {
      assert position.Floor == Ceiling(position) == i + 1;
    } else {
      assert position.Floor == i;
      assert Ceiling(position) == if w == 0.0 then i else i + 1;
    }
  }

  // ---------------------------------------------------------------- the summary

  function Power10(digits: nat): int {
    if digits == 0 then 1 else 10 * Power10(digits - 1)
  }

  lemma Power10Positive(digits: nat)
    ensures Power10(digits) > 0
  {
  }

  /** `round(x, digits)` */
  function Round(x: real, digits: nat): real {
    Power10Positive(digits);
    RoundAt(x, Power10(digits) as real)
  }

  function RoundAt(x: real, scale: real): real
    requires scale > 0.0
  {
    RoundHalfEven(scale * x) as real / scale
  }

  lemma RoundDigitsMonotone(x: real, y: real, digits: nat)
    requires x <= y
    ensures Round(x, digits) <= Round(y, digits)
  {
    Power10Positive(digits);
    RoundAtMonotone(x, y, Power10(digits) as real);
  }

  lemma RoundAtMonotone(x: real, y: real, scale: real)
    requires x <= y && scale > 0.0
    ensures RoundAt(x, scale) <= RoundAt(y, scale)
  {
    Scale(scale, x, y);
    RoundMonotone(scale * x, scale * y);
    Divide(RoundHalfEven(scale * x) as real, RoundHalfEven(scale * y) as real, scale);
  }

  function Sum(samples: seq<real>): real {
    if samples == [] then 0.0 else samples[0] + Sum(samples[1..])
  }

  datatype Summary = Summary(
    p50: real, p95: real, p99: real, unit: string, samples: nat, min: real, max: real, mean: real)

  function Summarize(samples: seq<real>, unit: string, digits: nat): Result<Summary, StatsError> {
    if samples == [] then Err(NoSamples)
    else
      PercentileBounds(samples, 0.5);
      PercentileBounds(samples, 0.95);
      PercentileBounds(samples, 0.99);
      Ok(Summary(Round(Percentile(samples, 0.5).value, digits), Round(Percentile(samples, 0.95).value, digits),
                 Round(Percentile(samples, 0.99).value, digits), unit, |samples|,
                 Round(Minimum(samples), digits), Round(Maximum(samples), digits),
                 Round(Sum(samples) / |samples| as real, digits)))
  }

  /** The total of n samples that average between low and high. */
  predicate Between(total: real, n: real, low: real, high: real) {
    n * low <= total <= n * high
  }

  lemma {:induction false} SumBetween(samples: seq<real>, low: real, high: real)
    requires forall x :: x in samples ==> low <= x <= high
    ensures Between(Sum(samples), |samples| as real, low, high)
  {
    if samples != [] {
      assert samples[0] in samples;
      assert forall x :: x in samples[1..] ==> x in samples;
      SumBetween(samples[1..], low, high);
      OneMore(|samples[1..]| as real, |samples| as real, samples[0], Sum(samples[1..]), low, high);
    }
  }

  lemma OneMore(n: real, next: real, first: real, rest: real, low: real, high: real)
    requires Between(rest, n, low, high) && low <= first <= high && next == n + 1.0
    ensures Between(first + rest, next, low, high)
  {
    assert next * low == n * low + low;
    assert next * high == n * high + high;
  }

  /** Every summary is ordered: min <= p50 <= p95 <= p99 <= max, and the mean lies between min and max. */
  lemma SummaryOrdered(samples: seq<real>, unit: string, digits: nat)
    requires samples != []
    ensures Summarize(samples, unit, digits).Ok?
    ensures var s := Summarize(samples, unit, digits).value;
            s.min <= s.p50 <= s.p95 <= s.p99 <= s.max && s.min <= s.mean <= s.max && s.samples == |samples|
  {
    PercentileBounds(samples, 0.5);
    PercentileBounds(samples, 0.99);
    PercentileMonotone(samples, 0.5, 0.95);
    PercentileMonotone(samples, 0.95, 0.99);
    var p50, p95 := Percentile(samples, 0.5).value, Percentile(samples, 0.95).value;
    var p99 := Percentile(samples, 0.99).value;
    RoundDigitsMonotone(Minimum(samples), p50, digits);
    RoundDigitsMonotone(p50, p95, digits);
    RoundDigitsMonotone(p95, p99, digits);
    RoundDigitsMonotone(p99, Maximum(samples), digits);
    MeanBetween(samples);
    RoundDigitsMonotone(Minimum(samples), Sum(samples) / |samples| as real, digits);
    RoundDigitsMonotone(Sum(samples) / |samples| as real, Maximum(samples), digits);
  }

  /** Rounded to so many decimal digits: a whole number of units, and none is nearer. */
  predicate Rounds(reported: real, exact: real, digits: nat) {
    RoundsTo(reported, exact, Power10(digits) as real)
  }

  predicate RoundsTo(reported: real, exact: real, scale: real) {
    IsNearest(scale * reported, scale * exact)
  }

  predicate IsNearest(whole: real, x: real) {
    whole == whole.Floor as real && -0.5 <= whole - x <= 0.5
  }

  lemma RoundRounds(x: real, digits: nat)
    ensures Rounds(Round(x, digits), x, digits)
  {
    Power10Positive(digits);
    RoundAtNearest(x, Power10(digits) as real);
  }

  lemma RoundAtNearest(x: real, scale: real)
    requires scale > 0.0
    ensures RoundsTo(RoundAt(x, scale), x, scale)
  {
    var n := RoundHalfEven(scale * x);
    RoundIsNearest(scale * x);
    ScaledBack(n as real, scale);
    assert scale * RoundAt(x, scale) == n as real;
  }

  lemma ScaledBack(n: real, scale: real)
    requires scale > 0.0
    ensures scale * (n / scale) == n
  {
  }

  /** What each field of a summary is the rounding of. */
  lemma SummaryReports(samples: seq<real>, unit: string, digits: nat)
    ensures Summarize(samples, unit, digits) == Err(NoSamples) <==> samples == []
    ensures samples != [] ==>
              var s := Summarize(samples, unit, digits).value;
              && s.unit == unit && s.samples == |samples|
              && Rounds(s.min, Minimum(samples), digits) && Rounds(s.max, Maximum(samples), digits)
              && Rounds(s.mean, Sum(samples) / |samples| as real, digits)
              && IsPercentile(s.p50, samples, 0.5, digits) && IsPercentile(s.p95, samples, 0.95, digits)
              && IsPercentile(s.p99, samples, 0.99, digits)
  {
    if samples != [] {
      PercentileBounds(samples, 0.5);
      PercentileBounds(samples, 0.95);
      PercentileBounds(samples, 0.99);
      RoundRounds(Percentile(samples, 0.5).value, digits);
      RoundRounds(Percentile(samples, 0.95).value, digits);
      RoundRounds(Percentile(samples, 0.99).value, digits);
      RoundRounds(Minimum(samples), digits);
      RoundRounds(Maximum(samples), digits);
      RoundRounds(Sum(samples) / |samples| as real, digits);
    }
  }

  predicate IsPercentile(reported: real, samples: seq<real>, quantile: real, digits: nat) {
    Percentile(samples, quantile).Ok? && Rounds(reported, Percentile(samples, quantile).value, digits)
  }

  /** What the mean divides: every sample once, in any grouping. */
  lemma {:induction false} SumOfParts(a: seq<real>, b: seq<real>)
    ensures Sum(a + b) == Sum(a) + Sum(b)
    ensures |a| == 1 ==> Sum(a) == a[0]
  {
    if a == [] {
      assert a + b == b;
    } else {
      assert (a + b)[1..] == a[1..] + b;
      SumOfParts(a[1..], b);
    }
  }

  lemma MeanBetween(samples: seq<real>)
    requires samples != []
    ensures Minimum(samples) <= Sum(samples) / |samples| as real <= Maximum(samples)
  {
    Extremes(samples);
    SumBetween(samples, Minimum(samples), Maximum(samples));
    Average(Sum(samples), |samples| as real, Minimum(samples), Maximum(samples));
  }

  lemma Average(total: real, n: real, low: real, high: real)
    requires n > 0.0 && Between(total, n, low, high)
    ensures low <= total / n <= high
  {
    Divide(n * low, total, n);
    Divide(total, n * high, n);
    assert n * low / n == low && n * high / n == high;
  }
}
