/** The statistics primitives of lib/stats-helpers.ts: mean, population
    variance, linearly interpolated quantile, minimum, maximum and
    fixed-width histogram. Temperatures are exact reals. */
module StatsHelpers {
  import opened Wrappers

  // ---------------------------------------------------------------------
  // Arithmetic facts the solver does not find by itself
  // ---------------------------------------------------------------------

  lemma MulNonNeg(a: real, b: real)
    requires a >= 0.0 && b >= 0.0
    ensures a * b >= 0.0
  {}

  lemma MulPos(a: real, b: real)
    requires a > 0.0 && b > 0.0
    ensures a * b > 0.0
  {}

  // ---------------------------------------------------------------------
  // Sums and means
  // ---------------------------------------------------------------------

  /** `values.reduce((sum, val) => sum + val, 0)`, folded from the left. */
  function Sum(s: seq<real>): real
  {
    if s == [] then 0.0 else Sum(s[..|s| - 1]) + s[|s| - 1]
  }

  /** `mean`: absent on empty input, otherwise the value whose `|values|`-fold
      is the sum of the values. */
  function Mean(values: seq<real>): (r: Option<real>)
    ensures r.None? <==> |values| == 0
    ensures r.Some? ==> r.value * |values| as real == Sum(values)
  {
    if |values| == 0 then None else Some(Sum(values) / |values| as real)
  }

  /** `values.map(val => Math.pow(val - avg, 2))`. */
  function SquaredDeviations(values: seq<real>, avg: real): (r: seq<real>)
    ensures |r| == |values|
    ensures forall i :: 0 <= i < |r| ==> r[i] == (values[i] - avg) * (values[i] - avg)
  {
    seq(|values|, i requires 0 <= i < |values| => (values[i] - avg) * (values[i] - avg))
  }

  /** The population variance that `std` takes the square root of: the mean of
      the squared deviations from the mean. */
  function Variance(values: seq<real>): (r: Option<real>)
    ensures r.None? <==> |values| == 0
    ensures r.Some? ==> r.value >= 0.0
  {
    if |values| == 0 then None
    else
      var squares := SquaredDeviations(values, Mean(values).value);
      SquaresNonNegative(squares, values, Mean(values).value);
      SumNonNegative(squares);
      var r := Mean(squares);
      PositiveFactor(r.value, |values| as real);
      r
  }

  lemma SquaresNonNegative(squares: seq<real>, values: seq<real>, avg: real)
    requires squares == SquaredDeviations(values, avg)
    ensures forall i :: 0 <= i < |squares| ==> squares[i] >= 0.0
  {
    forall i | 0 <= i < |squares| ensures squares[i] >= 0.0 {
      var d := values[i] - avg;
      if d >= 0.0 { MulNonNeg(d, d); } else { MulNonNeg(-d, -d); }
    }
  }

  lemma PositiveFactor(x: real, n: real)
    requires n > 0.0 && x * n >= 0.0
    ensures x >= 0.0
  {
    if x < 0.0 { MulPos(-x, n); }
  }

  lemma {:induction false} SumNonNegative(s: seq<real>)
    requires forall i :: 0 <= i < |s| ==> s[i] >= 0.0
    ensures Sum(s) >= 0.0
  {
    if s != [] {
      SumNonNegative(s[..|s| - 1]);
    }
  }

  /** A sum of non-negative terms is zero only when every term is zero. */
  lemma {:induction false} SumZeroOnlyIfAllZero(s: seq<real>)
    requires forall i :: 0 <= i < |s| ==> s[i] >= 0.0
    ensures Sum(s) == 0.0 <==> forall i :: 0 <= i < |s| ==> s[i] == 0.0
  {
    if s != [] {
      var init := s[..|s| - 1];
      SumZeroOnlyIfAllZero(init);
      SumNonNegative(init);
      if Sum(s) == 0.0 {
        forall i | 0 <= i < |s| ensures s[i] == 0.0 {
          if i < |s| - 1 { assert s[i] == init[i]; }
        }
      }
      if forall i :: 0 <= i < |s| ==> s[i] == 0.0 {
        assert forall i :: 0 <= i < |init| ==> init[i] == 0.0;
      }
    }
  }

  lemma ZeroProduct(a: real, b: real)
    ensures a * b == 0.0 <==> a == 0.0 || b == 0.0
  {}

  /** Dividing by a positive number keeps the sign. */
  lemma QuotientSign(x: real, d: real)
    requires d > 0.0
    ensures x / d > 0.0 <==> x > 0.0
    ensures x / d < 0.0 <==> x < 0.0
  {
    var q := x / d;
    assert q * d == x;
    if q > 0.0 { MulPos(q, d); }
    if q < 0.0 { MulPos(-q, d); }
    if q == 0.0 { ZeroProduct(q, d); }
  }

  /** The variance is zero exactly when every value equals the mean. */
  lemma VarianceZeroIffConstant(values: seq<real>)
    requires |values| > 0
    ensures Variance(values) == Some(0.0) <==> forall i :: 0 <= i < |values| ==> values[i] == Mean(values).value
  {
    var avg := Mean(values).value;
    var squares := SquaredDeviations(values, avg);
    SquaresNonNegative(squares, values, avg);
    SumZeroOnlyIfAllZero(squares);
    var v := Mean(squares).value;
    assert Variance(values) == Some(v);
    assert v == 0.0 <==> Sum(squares) == 0.0 by {
      if v > 0.0 { MulPos(v, |values| as real); }
      if v < 0.0 { MulPos(-v, |values| as real); }
    }
    forall i | 0 <= i < |values|
      ensures squares[i] == 0.0 <==> values[i] == avg
    {
      ZeroProduct(values[i] - avg, values[i] - avg);
    }
  }

  /** Every value lies in `[lo, hi]`, so the sum lies in `[n * lo, n * hi]`. */
  lemma {:induction false} SumBounds(s: seq<real>, lo: real, hi: real)
    requires forall i :: 0 <= i < |s| ==> lo <= s[i] <= hi
    ensures lo * |s| as real <= Sum(s) <= hi * |s| as real
  {
    if s != [] {
      var init := s[..|s| - 1];
      SumBounds(init, lo, hi);
      assert lo * |s| as real == lo * |init| as real + lo;
      assert hi * |s| as real == hi * |init| as real + hi;
    }
  }

  // ---------------------------------------------------------------------
  // Minimum and maximum
  // ---------------------------------------------------------------------

  /** `Math.min(...values)` on a non-empty list. */
  function MinOf(s: seq<real>): (m: real)
    requires |s| > 0
    ensures m in s
    ensures forall v :: v in s ==> m <= v
  {
    if |s| == 1 then s[0]
    else
      var rest := MinOf(s[..|s| - 1]);
      assert forall v :: v in s ==> v in s[..|s| - 1] || v == s[|s| - 1];
      if s[|s| - 1] < rest then s[|s| - 1] else rest
  }

  /** `Math.max(...values)` on a non-empty list. */
  function MaxOf(s: seq<real>): (m: real)
    requires |s| > 0
    ensures m in s
    ensures forall v :: v in s ==> v <= m
  {
    if |s| == 1 then s[0]
    else
      var rest := MaxOf(s[..|s| - 1]);
      assert forall v :: v in s ==> v in s[..|s| - 1] || v == s[|s| - 1];
      if s[|s| - 1] > rest then s[|s| - 1] else rest
  }

  /** `min`: absent on empty input, otherwise an element no larger than any other. */
  function Min(values: seq<real>): (r: Option<real>)
    ensures r.None? <==> |values| == 0
    ensures r.Some? ==> r.value in values && forall v :: v in values ==> r.value <= v
  {
    if |values| == 0 then None else Some(MinOf(values))
  }

  /** `max`: absent on empty input, otherwise an element no smaller than any other. */
  function Max(values: seq<real>): (r: Option<real>)
    ensures r.None? <==> |values| == 0
    ensures r.Some? ==> r.value in values && forall v :: v in values ==> v <= r.value
  {
    if |values| == 0 then None else Some(MaxOf(values))
  }

  /** The mean of a non-empty list lies between its minimum and maximum. */
  lemma MeanWithinRange(values: seq<real>)
    requires |values| > 0
    ensures Min(values).value <= Mean(values).value <= Max(values).value
  {
    var lo, hi := MinOf(values), MaxOf(values);
    forall i | 0 <= i < |values| ensures lo <= values[i] <= hi {
      assert values[i] in values;
    }
    MeanBetween(values, lo, hi);
  }

  lemma MeanBetween(values: seq<real>, lo: real, hi: real)
    requires |values| > 0 && forall i :: 0 <= i < |values| ==> lo <= values[i] <= hi
    ensures lo <= Mean(values).value <= hi
  {
    SumBounds(values, lo, hi);
    var m, n := Mean(values).value, |values| as real;
    if m < lo { ScaleLess(m, lo, n); }
    if m > hi { ScaleLess(hi, m, n); }
  }

  // ---------------------------------------------------------------------
  // Sorting a copy and the interpolated quantile
  // ---------------------------------------------------------------------

  /** Each element is at least the one before it. */
  ghost predicate Ascending(s: seq<real>)
  {
    forall i :: 0 < i < |s| ==> s[i - 1] <= s[i]
  }

  lemma {:induction false} AscendingPairs(s: seq<real>, i: int, j: int)
    requires Ascending(s) && 0 <= i <= j < |s|
    ensures s[i] <= s[j]
  {
    if i < j { AscendingPairs(s, i, j - 1); }
  }

  /** Inserts `x` into an ascending list. */
  function Insert(x: real, s: seq<real>): (r: seq<real>)
    requires Ascending(s)
    ensures |r| == |s| + 1
    ensures r[0] == x || (s != [] && r[0] == s[0])
    ensures multiset(r) == multiset(s) + multiset{x}
    ensures Ascending(r)
  {
    if s == [] || x <= s[0] then [x] + s
    else
      var rest := Insert(x, s[1..]);
      assert s == [s[0]] + s[1..];
      [s[0]] + rest
  }

  /** `[...values].sort((a, b) => a - b)`: an ascending copy of the list. */
  function SortAscending(s: seq<real>): (r: seq<real>)
    ensures Ascending(r)
    ensures multiset(r) == multiset(s)
    ensures |r| == |s|
  {
    if s == [] then []
    else
      assert s == [s[0]] + s[1..];
      Insert(s[0], SortAscending(s[1..]))
  }

  /** Sorting a list that is already ascending gives it back unchanged. */
  lemma {:induction false} SortAscendingKeepsSorted(s: seq<real>)
    requires Ascending(s)
    ensures SortAscending(s) == s
  {
    if s != [] {
      var rest := s[1..];
      assert Ascending(rest) by {
        forall i | 0 < i < |rest| ensures rest[i - 1] <= rest[i] {
          assert rest[i - 1] == s[i] && rest[i] == s[i + 1];
        }
      }
      SortAscendingKeepsSorted(rest);
      assert rest == [] || s[0] <= rest[0];
      assert Insert(s[0], rest) == [s[0]] + rest;
      assert [s[0]] + rest == s;
    }
  }

  /** Inserting a value larger than every element appends it. */
  lemma {:induction false} InsertLargest(x: real, s: seq<real>)
    requires Ascending(s) && forall i :: 0 <= i < |s| ==> s[i] < x
    ensures Insert(x, s) == s + [x]
  {
    if s != [] {
      InsertLargest(x, s[1..]);
      assert s == [s[0]] + s[1..];
    }
  }

  /** The first element of an ascending permutation of a list is its minimum,
      the last its maximum. */
  lemma SortedEnds(values: seq<real>)
    requires |values| > 0
    ensures SortAscending(values)[0] == MinOf(values)
    ensures SortAscending(values)[|values| - 1] == MaxOf(values)
  {
    var sorted := SortAscending(values);
    var n := |values|;
    var lo, hi := MinOf(values), MaxOf(values);
    SameMembers(sorted, values);
    assert sorted[0] in sorted && sorted[n - 1] in sorted;
    var k :| 0 <= k < n && sorted[k] == lo;
    var l :| 0 <= l < n && sorted[l] == hi;
    AscendingPairs(sorted, 0, k);
    AscendingPairs(sorted, l, n - 1);
  }

  /** Lists with the same multiset have the same members. */
  lemma SameMembers(a: seq<real>, b: seq<real>)
    requires multiset(a) == multiset(b)
    ensures forall x :: x in a <==> x in b
  {
    forall x ensures x in a <==> x in b {
      assert x in a <==> x in multiset(a);
      assert x in b <==> x in multiset(b);
    }
  }

  /** `Math.ceil`. */
  function Ceil(x: real): (r: int)
    ensures x <= r as real < x + 1.0
  {
    -((-x).Floor)
  }

  /** The fractional index `(q / 100) * (n - 1)` of the q-th percentile among `n`
      sorted values. */
  function QuantileIndex(q: real, n: nat): (index: real)
    requires q >= 0.0 && n > 0
    ensures index >= 0.0
    ensures q <= 100.0 ==> index <= (n - 1) as real
    ensures q >= 100.0 ==> index >= (n - 1) as real
  {
    var f := q / 100.0;
    var x := (n - 1) as real;
    MulNonNeg(f, x);
    MulMonotoneEither(x, f, 1.0);
    f * x
  }

  lemma MulMonotoneEither(a: real, x: real, y: real)
    requires a >= 0.0
    ensures x <= y ==> x * a <= y * a
    ensures y <= x ==> y * a <= x * a
  {
    if x <= y { MulNonNeg(a, y - x); } else { MulNonNeg(a, x - y); }
  }

  /** A larger percentage gives a larger fractional index. */
  lemma QuantileIndexMonotone(q1: real, q2: real, n: nat)
    requires 0.0 <= q1 <= q2 && n > 0
    ensures QuantileIndex(q1, n) <= QuantileIndex(q2, n)
  {
    MulMonotoneEither((n - 1) as real, q1 / 100.0, q2 / 100.0);
  }

  /** `a * (1 - w) + b * w`, the weighted reading between two order statistics. */
  function Lerp(a: real, b: real, w: real): real
  {
    a * (1.0 - w) + b * w
  }

  lemma LerpBetween(a: real, b: real, w: real)
    requires a <= b && 0.0 <= w <= 1.0
    ensures a <= Lerp(a, b, w) <= b
  {
    MulNonNeg(b - a, w);
    MulNonNeg(b - a, 1.0 - w);
  }

  lemma LerpMonotone(a: real, b: real, w1: real, w2: real)
    requires a <= b && w1 <= w2
    ensures Lerp(a, b, w1) <= Lerp(a, b, w2)
  {
    MulNonNeg(b - a, w2 - w1);
  }

  /** Reads an ascending list at a fractional index: the two order statistics
      at the floor and the ceiling of the index, weighted by its fractional
      part; an index whose ceiling is past the end reads the last element. */
  function InterpolateAt(sorted: seq<real>, index: real): real
    requires |sorted| > 0 && index >= 0.0
  {
    var n := |sorted|;
    var lower := index.Floor;
    var upper := Ceil(index);
    var weight := index - lower as real;
    if upper >= n then sorted[n - 1]
    else if lower == upper then sorted[lower]
    else Lerp(sorted[lower], sorted[upper], weight)
  }

  /** `quantile(values, q)`: the "type 7" percentile. The list is sorted
      (a copy: `values` is a value here and cannot change) and read at the
      fractional index `(q / 100) * (n - 1)`. Every caller passes a percentage
      in 0..100; a negative `q` reads outside the list in the source and is
      excluded. */
  function Quantile(values: seq<real>, q: real): (r: Option<real>)
    requires q >= 0.0
    ensures r.None? <==> |values| == 0
  {
    if |values| == 0 then None
    else Some(InterpolateAt(SortAscending(values), QuantileIndex(q, |values|)))
  }

  /** An index inside the list reads a value between the order statistics at
      its floor and its ceiling. */
  lemma InterpolateBetween(sorted: seq<real>, index: real)
    requires |sorted| > 0 && Ascending(sorted) && 0.0 <= index <= (|sorted| - 1) as real
    ensures 0 <= index.Floor <= Ceil(index) < |sorted|
    ensures sorted[index.Floor] <= InterpolateAt(sorted, index) <= sorted[Ceil(index)]
  {
    var lower, upper := index.Floor, Ceil(index);
    AscendingPairs(sorted, lower, upper);
    if lower != upper {
      LerpBetween(sorted[lower], sorted[upper], index - lower as real);
    }
  }

  /** Any index reads a value between the first and the last element. */
  lemma InterpolateWithinEnds(sorted: seq<real>, index: real)
    requires |sorted| > 0 && Ascending(sorted) && index >= 0.0
    ensures sorted[0] <= InterpolateAt(sorted, index) <= sorted[|sorted| - 1]
  {
    var n := |sorted|;
    var lower, upper := index.Floor, Ceil(index);
    AscendingPairs(sorted, 0, n - 1);
    if upper < n {
      AscendingPairs(sorted, 0, lower);
      AscendingPairs(sorted, upper, n - 1);
      InterpolateBetween(sorted, index);
    }
  }

  /** Reading at a larger index never gives a smaller value. */
  lemma InterpolateMonotone(sorted: seq<real>, t1: real, t2: real)
    requires |sorted| > 0 && Ascending(sorted) && 0.0 <= t1 <= t2
    ensures InterpolateAt(sorted, t1) <= InterpolateAt(sorted, t2)
  {
    var n := |sorted|;
    var l1, u1, l2, u2 := t1.Floor, Ceil(t1), t2.Floor, Ceil(t2);
    if u2 >= n {
      InterpolateWithinEnds(sorted, t1);
    } else if l1 < l2 {
      InterpolateBetween(sorted, t1);
      InterpolateBetween(sorted, t2);
      AscendingPairs(sorted, u1, l2);
    } else if l1 != u1 && l2 != u2 {
      AscendingPairs(sorted, l1, u1);
      LerpMonotone(sorted[l1], sorted[u1], t1 - l1 as real, t2 - l2 as real);
    } else {
      InterpolateBetween(sorted, t1);
      InterpolateBetween(sorted, t2);
      AscendingPairs(sorted, u1, u2);
    }
  }

  /** For a percentage in 0..100 the quantile lies between the two order
      statistics next to its fractional index. */
  lemma QuantileBetweenNeighbours(values: seq<real>, q: real)
    requires |values| > 0 && 0.0 <= q <= 100.0
    ensures var sorted := SortAscending(values);
            var index := QuantileIndex(q, |values|);
            && 0 <= index.Floor <= Ceil(index) < |values|
            && sorted[index.Floor] <= Quantile(values, q).value <= sorted[Ceil(index)]
  {
    InterpolateBetween(SortAscending(values), QuantileIndex(q, |values|));
  }

  /** For every `q >= 0` the quantile lies between the minimum and the maximum. */
  lemma QuantileWithinRange(values: seq<real>, q: real)
    requires |values| > 0 && q >= 0.0
    ensures Min(values).value <= Quantile(values, q).value <= Max(values).value
  {
    SortedEnds(values);
    InterpolateWithinEnds(SortAscending(values), QuantileIndex(q, |values|));
  }

  /** The 0th percentile is the smallest element. */
  lemma QuantileAtZero(values: seq<real>)
    requires |values| > 0
    ensures Quantile(values, 0.0) == Min(values)
  {
    SortedEnds(values);
    assert QuantileIndex(0.0, |values|) == 0.0;
  }

  /** Every percentage from 100 up gives the largest element: the index is
      clamped to the end of the list. */
  lemma QuantileFromHundred(values: seq<real>, q: real)
    requires |values| > 0 && q >= 100.0
    ensures Quantile(values, q) == Max(values)
  {
    SortedEnds(values);
    var n := |values|;
    var index := QuantileIndex(q, n);
    if index == (n - 1) as real {
      assert index.Floor == n - 1;
    }
  }

  /** A larger percentage never gives a smaller quantile, so p25 <= p50 <= p75. */
  lemma QuantileMonotone(values: seq<real>, q1: real, q2: real)
    requires |values| > 0 && 0.0 <= q1 <= q2
    ensures Quantile(values, q1).value <= Quantile(values, q2).value
  {
    QuantileIndexMonotone(q1, q2, |values|);
    InterpolateMonotone(SortAscending(values), QuantileIndex(q1, |values|), QuantileIndex(q2, |values|));
  }

  /** The median of an even-length list interpolates its two middle elements. */
  lemma QuantileMedianEven(s: seq<real>)
    requires s == [10.0, 20.0, 30.0, 40.0]
    ensures Quantile(s, 50.0) == Some(25.0)
  {
    assert Ascending(s);
    SortAscendingKeepsSorted(s);
    assert QuantileIndex(50.0, 4) == 1.5;
    assert (1.5).Floor == 1 && Ceil(1.5) == 2;
    assert Lerp(20.0, 30.0, 0.5) == 25.0;
  }

  /** The median of an odd-length list is its middle element after sorting. */
  lemma QuantileMedianOdd(s: seq<real>)
    requires s == [30.0, 10.0, 20.0]
    ensures Quantile(s, 50.0) == Some(20.0)
  {
    var rest := s[1..];
    assert rest == [10.0, 20.0];
    SortAscendingKeepsSorted(rest);
    InsertLargest(30.0, rest);
    assert SortAscending(s) == rest + [30.0];
    assert QuantileIndex(50.0, 3) == 1.0;
  }

  // ---------------------------------------------------------------------
  // Histogram
  // ---------------------------------------------------------------------

  datatype HistogramBin = HistogramBin(binStart: real, binEnd: real, count: nat)

  /** `values.filter(val => val >= lo && val < hi).length`. */
  function CountInRange(values: seq<real>, lo: real, hi: real): (r: nat)
    ensures r <= |values|
  {
    if values == [] then 0
    else CountInRange(values[..|values| - 1], lo, hi) + (if lo <= values[|values| - 1] < hi then 1 else 0)
  }

  /** The number of values strictly below `hi`. */
  function CountBelow(values: seq<real>, hi: real): (r: nat)
    ensures r <= |values|
  {
    if values == [] then 0
    else CountBelow(values[..|values| - 1], hi) + (if values[|values| - 1] < hi then 1 else 0)
  }

  /** `k * w`: the `k`-th multiple of the bin width. */
  function Multiple(k: int, binWidth: real): real
  {
    k as real * binWidth
  }

  lemma MultipleStep(k: int, binWidth: real)
    ensures Multiple(k, binWidth) + binWidth == Multiple(k + 1, binWidth)
  {}

  /** For a positive width, multiples are ordered as their factors are. */
  lemma MultipleOrder(j: int, k: int, binWidth: real)
    requires binWidth > 0.0
    ensures j < k <==> Multiple(j, binWidth) < Multiple(k, binWidth)
    ensures j <= k <==> Multiple(j, binWidth) <= Multiple(k, binWidth)
  {
    if j < k { ScaleLess(j as real, k as real, binWidth); }
    else { ScaleLeq(k as real, j as real, binWidth); }
  }

  lemma ScaleLess(x: real, y: real, w: real)
    requires x < y && w > 0.0
    ensures x * w < y * w
  {
    MulPos(y - x, w);
  }

  /** `Math.floor(x / w) * w <= x <= Math.ceil(x / w) * w`. */
  lemma MultiplesAround(x: real, binWidth: real)
    requires binWidth > 0.0
    ensures Multiple((x / binWidth).Floor, binWidth) <= x <= Multiple(Ceil(x / binWidth), binWidth)
  {
    var a := x / binWidth;
    ScaleLeq(a.Floor as real, a, binWidth);
    ScaleLeq(a, Ceil(a) as real, binWidth);
    assert a * binWidth == x;
  }

  lemma ScaleLeq(x: real, y: real, w: real)
    requires x <= y && w > 0.0
    ensures x * w <= y * w
  {
    MulNonNeg(y - x, w);
  }

  /** For `lo <= hi`, `Math.floor(lo / w) <= Math.ceil(hi / w)`. */
  lemma FloorBelowCeil(lo: real, hi: real, binWidth: real)
    requires lo <= hi && binWidth > 0.0
    ensures (lo / binWidth).Floor <= Ceil(hi / binWidth)
  {
    MultiplesAround(lo, binWidth);
    MultiplesAround(hi, binWidth);
    MultipleOrder((lo / binWidth).Floor, Ceil(hi / binWidth), binWidth);
  }

  /** The index `floor(min / w)` of the first bin and the index `ceil(max / w)`
      at which the bins stop. */
  function FirstBinIndex(values: seq<real>, binWidth: real): int
    requires |values| > 0 && binWidth > 0.0
  {
    (MinOf(values) / binWidth).Floor
  }

  function EndBinIndex(values: seq<real>, binWidth: real): int
    requires |values| > 0 && binWidth > 0.0
  {
    Ceil(MaxOf(values) / binWidth)
  }

  /** Where `binStart` stands after `i` steps of `binStart += binWidth` from `start`. */
  function BinStart(start: real, i: nat, binWidth: real): real
  {
    if i == 0 then start else BinStart(start, i - 1, binWidth) + binWidth
  }

  /** Stepping from a multiple of the width lands on the next multiples. */
  lemma {:induction false} BinStartIsMultiple(first: int, i: nat, binWidth: real)
    ensures BinStart(Multiple(first, binWidth), i, binWidth) == Multiple(first + i, binWidth)
  {
    if i > 0 {
      BinStartIsMultiple(first, i - 1, binWidth);
      MultipleStep(first + i - 1, binWidth);
    }
  }

  /** After `last - first` steps from the `first` multiple the loop stands on
      the `last` multiple. */
  lemma LastBinEnd(first: int, last: int, binWidth: real)
    requires first <= last
    ensures BinStart(Multiple(first, binWidth), last - first, binWidth) == Multiple(last, binWidth)
  {
    BinStartIsMultiple(first, last - first, binWidth);
  }

  /** With a positive width, later steps start no earlier. */
  lemma {:induction false} BinStartAscending(start: real, i: nat, j: nat, binWidth: real)
    requires binWidth > 0.0 && i <= j
    ensures BinStart(start, i, binWidth) <= BinStart(start, j, binWidth)
  {
    if i < j {
      BinStartAscending(start, i, j - 1, binWidth);
    }
  }

  /** The bin starting at `s`, counting the values in `[s, s + w)`. */
  function BinAt(values: seq<real>, s: real, binWidth: real): HistogramBin
  {
    HistogramBin(s, s + binWidth, CountInRange(values, s, s + binWidth))
  }

  /** The first `k` bins pushed by the loop when it starts at `start`. */
  function Bins(values: seq<real>, start: real, k: nat, binWidth: real): (r: seq<HistogramBin>)
    ensures |r| == k
  {
    if k == 0 then [] else Bins(values, start, k - 1, binWidth) + [BinAt(values, BinStart(start, k - 1, binWidth), binWidth)]
  }

  lemma {:induction false} BinsAt(values: seq<real>, start: real, k: nat, binWidth: real, i: nat)
    requires i < k
    ensures Bins(values, start, k, binWidth)[i] == BinAt(values, BinStart(start, i, binWidth), binWidth)
  {
    if i < k - 1 {
      BinsAt(values, start, k - 1, binWidth, i);
    }
  }

  /** What `histogram(values, binWidth)` returns: nothing for an empty list;
      otherwise one bin per step of the width from `floor(min / w) * w` up to
      but excluding `ceil(max / w) * w`. */
  ghost function HistogramOf(values: seq<real>, binWidth: real): seq<HistogramBin>
    requires binWidth > 0.0
  {
    if |values| == 0 then []
    else
      var first, last := FirstBinIndex(values, binWidth), EndBinIndex(values, binWidth);
      if first <= last then Bins(values, Multiple(first, binWidth), last - first, binWidth) else []
  }

  /** `floor(min / w) <= ceil(max / w)`: the number of bins is never negative. */
  lemma BinIndicesOrdered(values: seq<real>, binWidth: real)
    requires |values| > 0 && binWidth > 0.0
    ensures FirstBinIndex(values, binWidth) <= EndBinIndex(values, binWidth)
  {
    assert values[0] in values;
    FloorBelowCeil(MinOf(values), MaxOf(values), binWidth);
  }

  /** The loop goes on exactly while fewer than `last - first` bins are out. */
  lemma BinBeforeEnd(first: int, k: nat, last: int, binWidth: real)
    requires binWidth > 0.0
    ensures BinStart(Multiple(first, binWidth), k, binWidth) < Multiple(last, binWidth) <==> k < last - first
  {
    BinStartIsMultiple(first, k, binWidth);
    MultipleOrder(first + k, last, binWidth);
  }

  /** `histogram(values, binWidth)`: the loop that advances `binStart` by the
      width and pushes one bin per step. */
  method Histogram(values: seq<real>, binWidth: real) returns (bins: seq<HistogramBin>)
    requires binWidth > 0.0
    ensures bins == HistogramOf(values, binWidth)
  {
    if |values| == 0 {
      return [];
    }
    var minVal := Min(values).value;
    var maxVal := Max(values).value;
    var first := (minVal / binWidth).Floor;
    var last := Ceil(maxVal / binWidth);
    BinIndicesOrdered(values, binWidth);
    var startBin := Multiple(first, binWidth);
    var endBin := Multiple(last, binWidth);
    bins := [];
    var binStart := startBin;
    while binStart < endBin
      invariant |bins| <= last - first
      invariant binStart == BinStart(startBin, |bins|, binWidth)
      invariant bins == Bins(values, startBin, |bins|, binWidth)
      decreases last - first - |bins|
    {
      BinBeforeEnd(first, |bins|, last, binWidth);
      var binEnd := binStart + binWidth;
      var count := CountInRange(values, binStart, binEnd);
      bins := bins + [HistogramBin(binStart, binEnd, count)];
      binStart := binStart + binWidth;
    }
    BinBeforeEnd(first, |bins|, last, binWidth);
  }

  /** There are `ceil(max / w) - floor(min / w)` bins, ascending and contiguous:
      each is one width wide, the first starts at `floor(min / w) * w`, each
      starts where the previous one ends, the last ends at `ceil(max / w) * w`,
      and each counts the values inside it. */
  lemma HistogramContiguous(values: seq<real>, binWidth: real)
    requires binWidth > 0.0 && |values| > 0
    ensures var bins := HistogramOf(values, binWidth);
            && |bins| == EndBinIndex(values, binWidth) - FirstBinIndex(values, binWidth)
            && (forall i :: 0 <= i < |bins| ==> bins[i].binEnd == bins[i].binStart + binWidth)
            && (forall i :: 0 <= i < |bins| ==> bins[i].count == CountInRange(values, bins[i].binStart, bins[i].binEnd))
            && (forall i :: 0 < i < |bins| ==> bins[i].binStart == bins[i - 1].binEnd)
            && (|bins| > 0 ==> bins[0].binStart == Multiple(FirstBinIndex(values, binWidth), binWidth))
            && (|bins| > 0 ==> bins[|bins| - 1].binEnd == Multiple(EndBinIndex(values, binWidth), binWidth))
  {
    var first, last := FirstBinIndex(values, binWidth), EndBinIndex(values, binWidth);
    BinIndicesOrdered(values, binWidth);
    var start := Multiple(first, binWidth);
    var bins := HistogramOf(values, binWidth);
    forall i | 0 <= i < |bins|
      ensures bins[i] == BinAt(values, BinStart(start, i, binWidth), binWidth)
    {
      BinsAt(values, start, |bins|, binWidth, i);
    }
    if |bins| > 0 {
      BinStartIsMultiple(first, |bins|, binWidth);
    }
  }

  /** Two adjacent ranges count what their union counts. */
  lemma {:induction false} CountInRangeSplit(values: seq<real>, a: real, b: real, c: real)
    requires a <= b <= c
    ensures CountInRange(values, a, b) + CountInRange(values, b, c) == CountInRange(values, a, c)
  {
    if values != [] {
      CountInRangeSplit(values[..|values| - 1], a, b, c);
    }
  }

  /** An empty range counts nothing. */
  lemma {:induction false} CountInRangeEmpty(values: seq<real>, lo: real)
    ensures CountInRange(values, lo, lo) == 0
  {
    if values != [] {
      CountInRangeEmpty(values[..|values| - 1], lo);
    }
  }

  /** When no value is below `lo`, counting `[lo, hi)` is counting below `hi`. */
  lemma {:induction false} CountInRangeFromBelow(values: seq<real>, lo: real, hi: real)
    requires forall i :: 0 <= i < |values| ==> lo <= values[i]
    ensures CountInRange(values, lo, hi) == CountBelow(values, hi)
  {
    if values != [] {
      var init := values[..|values| - 1];
      assert forall i :: 0 <= i < |init| ==> init[i] == values[i];
      CountInRangeFromBelow(init, lo, hi);
    }
  }

  /** All values are counted below `hi` exactly when every value is below `hi`. */
  lemma {:induction false} CountBelowAll(values: seq<real>, hi: real)
    ensures CountBelow(values, hi) == |values| <==> forall i :: 0 <= i < |values| ==> values[i] < hi
  {
    if values != [] {
      var init := values[..|values| - 1];
      assert forall i :: 0 <= i < |init| ==> init[i] == values[i];
      CountBelowAll(init, hi);
    }
  }

  function SumCounts(bins: seq<HistogramBin>): nat
  {
    if bins == [] then 0 else SumCounts(bins[..|bins| - 1]) + bins[|bins| - 1].count
  }

  /** The first `k` bins together count the values from `start` up to where
      the `k`-th step of the loop stands. */
  lemma {:induction false} BinsCount(values: seq<real>, start: real, k: nat, binWidth: real)
    requires binWidth > 0.0
    ensures SumCounts(Bins(values, start, k, binWidth)) == CountInRange(values, start, BinStart(start, k, binWidth))
  {
    if k == 0 {
      CountInRangeEmpty(values, start);
    } else {
      var bins := Bins(values, start, k, binWidth);
      BinsCount(values, start, k - 1, binWidth);
      assert bins[..k - 1] == Bins(values, start, k - 1, binWidth);
      BinStartAscending(start, 0, k - 1, binWidth);
      CountInRangeSplit(values, start, BinStart(start, k - 1, binWidth), BinStart(start, k, binWidth));
    }
  }

  /** The counts add up to the number of values below `ceil(max / w) * w`:
      every value is counted except those equal to that bound. */
  lemma HistogramCountsSum(values: seq<real>, binWidth: real)
    requires binWidth > 0.0 && |values| > 0
    ensures SumCounts(HistogramOf(values, binWidth)) == CountBelow(values, Multiple(EndBinIndex(values, binWidth), binWidth))
  {
    var first, last := FirstBinIndex(values, binWidth), EndBinIndex(values, binWidth);
    BinIndicesOrdered(values, binWidth);
    ValuesFromFirstBin(values, binWidth);
    BinsCountBelow(values, Multiple(first, binWidth), last - first, binWidth);
    LastBinEnd(first, last, binWidth);
  }

  /** When no value lies below `start`, the first `n` bins count every value
      below where the `n`-th step stands. */
  lemma BinsCountBelow(values: seq<real>, start: real, n: nat, binWidth: real)
    requires binWidth > 0.0 && forall i :: 0 <= i < |values| ==> start <= values[i]
    ensures SumCounts(Bins(values, start, n, binWidth)) == CountBelow(values, BinStart(start, n, binWidth))
  {
    BinsCount(values, start, n, binWidth);
    CountInRangeFromBelow(values, start, BinStart(start, n, binWidth));
  }

  /** No value lies below the start of the first bin. */
  lemma ValuesFromFirstBin(values: seq<real>, binWidth: real)
    requires binWidth > 0.0 && |values| > 0
    ensures forall i :: 0 <= i < |values| ==> Multiple(FirstBinIndex(values, binWidth), binWidth) <= values[i]
  {
    MultiplesAround(MinOf(values), binWidth);
    assert forall i :: 0 <= i < |values| ==> values[i] in values;
  }

  /** Every value is counted exactly when the maximum is not a multiple of the
      width: a maximum that sits on `ceil(max / w) * w` falls outside the last
      half-open bin. */
  lemma HistogramCountsAllUnlessMaxOnBoundary(values: seq<real>, binWidth: real)
    requires binWidth > 0.0 && |values| > 0
    ensures SumCounts(HistogramOf(values, binWidth)) == |values| <==> MaxOf(values) < Multiple(EndBinIndex(values, binWidth), binWidth)
  {
    HistogramCountsSum(values, binWidth);
    var hi := Multiple(EndBinIndex(values, binWidth), binWidth);
    CountBelowAll(values, hi);
    var m := MaxOf(values);
    assert forall i :: 0 <= i < |values| ==> values[i] in values;
    var k :| 0 <= k < |values| && values[k] == m;
  }

  /** All readings at 70 with width 1: the range `[70, 70)` is empty, so there
      are no bins at all. */
  lemma HistogramOfConstantIntegerIsEmpty(values: seq<real>)
    requires values == [70.0, 70.0]
    ensures HistogramOf(values, 1.0) == []
  {
    assert MinOf(values) == 70.0 && MaxOf(values) == 70.0;
    assert (70.0 / 1.0).Floor == 70;
  }
}
