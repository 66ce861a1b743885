/** Percentiles by linear interpolation, and the latency report built on them (habitus/benchmark/metrics.py).
    Measured values are exact reals. */
module Percentiles {
  import opened Orders
  import opened Sequences

  datatype Fault = NoValues | FractionOutside | NegativeValue

  predicate NonNegative(values: seq<real>) { forall x :: x in values ==> x >= 0.0 }

  /** The point a share of the way from one value to another. */
  function Between(a: real, b: real, share: real): real { a + (b - a) * share }

  lemma CellOf(x: real, last: nat)
    requires 0.0 <= x <= last as real
    ensures 0 <= x.Floor <= Ceiling(x) <= last
    ensures Ceiling(x) == if x == x.Floor as real then x.Floor else x.Floor + 1
  {
  }

  /** The broken line through the sorted values, one knot at each index. */
  function Interpolated(ordered: seq<real>, position: real): real
    requires ordered != [] && 0.0 <= position <= (|ordered| - 1) as real
  {
    CellOf(position, |ordered| - 1);
    var lower, upper := position.Floor, Ceiling(position);
    if lower == upper then ordered[lower]
    else Between(ordered[lower], ordered[upper], position - lower as real)
  }

  function Position(n: nat, fraction: real): real { Between(0.0, (n - 1) as real, fraction) }

  lemma PositionInRange(n: nat, fraction: real)
    requires n >= 1 && 0.0 <= fraction <= 1.0
    ensures 0.0 <= Position(n, fraction) <= (n - 1) as real
    ensures Position(n, 0.0) == 0.0 && Position(n, 1.0) == (n - 1) as real
  {
    Mix(0.0, (n - 1) as real, fraction);
  }

  lemma Mix(a: real, b: real, t: real)
    requires a <= b && 0.0 <= t <= 1.0
    ensures a <= Between(a, b, t) <= b
  {
    Rises(a, b, 0.0, t);
    Rises(a, b, t, 1.0);
  }

  lemma Rises(a: real, b: real, s: real, t: real)
    requires a <= b && s <= t
    ensures Between(a, b, s) <= Between(a, b, t)
  {
    Positive(b - a, t - s);
    Spread(b - a, t, s);
  }

  lemma Positive(x: real, y: real)
    requires x >= 0.0 && y >= 0.0
    ensures x * y >= 0.0
  {
  }

  lemma Spread(x: real, t: real, s: real)
    ensures x * (t - s) == x * t - x * s
  {
  }

  function Percentile(values: seq<real>, fraction: real): Result<real, Fault> {
    if values == [] then Err(NoValues)
    else if !(0.0 <= fraction <= 1.0) then Err(FractionOutside)
    else if !NonNegative(values) then Err(NegativeValue)
    else
      var ordered := Sort(RealLe, values);
      SortedReals(values);
      if |ordered| == 1 then Ok(ordered[0])
      else
        PositionInRange(|ordered|, fraction);
        Ok(Interpolated(ordered, Position(|ordered|, fraction)))
  }

  lemma SortedReals(values: seq<real>)
    ensures var s := Sort(RealLe, values);
      Sorted(RealLe, s) && multiset(s) == multiset(values) && |s| == |values| && forall y :: y in s <==> y in values
  {
    NumbersAreOrdered();
    SortSorts(RealLe, values);
  }

  /** A list of one value is no special case of the line. */
  lemma PercentileIsOnTheLine(values: seq<real>, fraction: real)
    requires Percentile(values, fraction).Ok?
    ensures |Sort(RealLe, values)| == |values| > 0 && 0.0 <= Position(|values|, fraction) <= (|values| - 1) as real
    ensures Percentile(values, fraction).value == Interpolated(Sort(RealLe, values), Position(|values|, fraction))
    ensures Position(|values|, fraction) == (|values| - 1) as real * fraction
  {
    SortedReals(values);
    PositionInRange(|values|, fraction);
  }

  // ---- The order of the values does not matter ----

  lemma SortedUniqueReals(a: seq<real>, b: seq<real>)
    requires Sorted(RealLe, a) && Sorted(RealLe, b) && multiset(a) == multiset(b)
    ensures a == b
  {
    SortedUnique(RealLe, a, b);
  }

  lemma SortForgetsOrder(a: seq<real>, b: seq<real>)
    requires multiset(a) == multiset(b)
    ensures Sort(RealLe, a) == Sort(RealLe, b)
  {
    SortedReals(a);
    SortedReals(b);
    SortedUniqueReals(Sort(RealLe, a), Sort(RealLe, b));
  }

  lemma NonNegativeForgetsOrder(a: seq<real>, b: seq<real>)
    requires multiset(a) == multiset(b)
    ensures NonNegative(a) == NonNegative(b)
  {
    forall x ensures x in a <==> x in b {
      assert x in a <==> x in multiset(a);
      assert x in b <==> x in multiset(b);
    }
  }

  lemma PercentileForgetsOrder(a: seq<real>, b: seq<real>, fraction: real)
    requires multiset(a) == multiset(b)
    ensures Percentile(a, fraction) == Percentile(b, fraction)
  {
    SortForgetsOrder(a, b);
    assert |a| == |multiset(a)| && |b| == |multiset(b)|;
    NonNegativeForgetsOrder(a, b);
  }

  /** Which calls fail, and with what: no values at all, else a fraction outside [0, 1], else a negative value. */
  lemma PercentileFailsExactlyWhen(values: seq<real>, fraction: real)
    ensures Percentile(values, fraction) == Err(NoValues) <==> values == []
    ensures Percentile(values, fraction) == Err(FractionOutside) <==> values != [] && (fraction < 0.0 || fraction > 1.0)
    ensures Percentile(values, fraction) == Err(NegativeValue) <==>
            0.0 <= fraction <= 1.0 && exists i :: 0 <= i < |values| && values[i] < 0.0
  {
    if NonNegative(values) {
      forall i | 0 <= i < |values| ensures values[i] >= 0.0 { assert values[i] in values; }
    } else {
      var x :| x in values && x < 0.0;
      var i :| 0 <= i < |values| && values[i] == x;
    }
  }

  // ---- The shape of the line ----

  lemma InterpolatedInCell(ordered: seq<real>, x: real)
    requires ordered != [] && Sorted(RealLe, ordered) && 0.0 <= x <= (|ordered| - 1) as real
    ensures 0 <= x.Floor <= Ceiling(x) < |ordered|
    ensures ordered[x.Floor] <= Interpolated(ordered, x) <= ordered[Ceiling(x)]
  {
    CellOf(x, |ordered| - 1);
    var lower, upper := x.Floor, Ceiling(x);
    if lower < upper {
      AtOrBefore(ordered, lower, upper);
      Mix(ordered[lower], ordered[upper], x - lower as real);
    }
  }

  lemma AtOrBefore(ordered: seq<real>, i: nat, j: nat)
    requires Sorted(RealLe, ordered) && i <= j < |ordered|
    ensures ordered[i] <= ordered[j]
  {
    if i < j { assert RealLe(ordered[i], ordered[j]); }
  }

  lemma InterpolatedIsMonotone(ordered: seq<real>, x: real, y: real)
    requires ordered != [] && Sorted(RealLe, ordered) && 0.0 <= x <= y <= (|ordered| - 1) as real
    ensures Interpolated(ordered, x) <= Interpolated(ordered, y)
  {
    InterpolatedInCell(ordered, x);
    InterpolatedInCell(ordered, y);
    CellOf(x, |ordered| - 1);
    CellOf(y, |ordered| - 1);
    var k := x.Floor;
    if k == y.Floor {
      if x < y && x != k as real {
        AtOrBefore(ordered, k, k + 1);
        Rises(ordered[k], ordered[k + 1], x - k as real, y - k as real);
      }
    } else {
      AtOrBefore(ordered, Ceiling(x), y.Floor);
    }
  }

  /** Between two neighbouring knots, both included, the line is straight. */
  lemma InterpolatedIsStraight(ordered: seq<real>, k: nat, x: real)
    requires k + 1 < |ordered| && k as real <= x <= (k + 1) as real
    ensures Interpolated(ordered, x) == ordered[k] + (ordered[k + 1] - ordered[k]) * (x - k as real)
  {
    CellOf(x, |ordered| - 1);
    Ends(ordered[k], ordered[k + 1]);
  }

  lemma Ends(a: real, b: real)
    ensures Between(a, b, 0.0) == a && Between(a, b, 1.0) == b
  {
  }

  // ---- What a percentile is ----

  lemma PercentileRisesWithFraction(values: seq<real>, f: real, g: real)
    requires Percentile(values, f).Ok? && 0.0 <= f <= g <= 1.0
    ensures Percentile(values, g).Ok? && Percentile(values, f).value <= Percentile(values, g).value
  {
    PercentileIsOnTheLine(values, f);
    PercentileIsOnTheLine(values, g);
    SortedReals(values);
    Rises(0.0, (|values| - 1) as real, f, g);
    InterpolatedIsMonotone(Sort(RealLe, values), Position(|values|, f), Position(|values|, g));
  }

  function CountOf(p: real -> bool, values: seq<real>): nat { |Filter(p, values)| }

  lemma CountInSorted(p: real -> bool, values: seq<real>)
    ensures CountOf(p, values) == CountOf(p, Sort(RealLe, values))
  {
    NumbersAreOrdered();
    FilterSort(p, RealLe, values);
    SortSorts(RealLe, Filter(p, values));
  }

  lemma CountFirst(p: real -> bool, s: seq<real>, k: nat)
    requires k <= |s| && forall i :: 0 <= i < k ==> p(s[i])
    ensures CountOf(p, s) >= k
  {
    FilterAll(p, s[..k]);
    FilterAppend(p, s[..k], s[k..]);
    assert s == s[..k] + s[k..];
  }

  lemma CountLast(p: real -> bool, s: seq<real>, k: nat)
    requires k <= |s| && forall i :: k <= i < |s| ==> p(s[i])
    ensures CountOf(p, s) >= |s| - k
  {
    FilterAll(p, s[k..]);
    FilterAppend(p, s[..k], s[k..]);
    assert s == s[..k] + s[k..];
  }

  /** In a sorted list, a value between two of the entries has those before it at or below it and the rest at or
      above it. */
  lemma SortedSplit(s: seq<real>, lower: nat, upper: nat, v: real)
    requires Sorted(RealLe, s) && lower <= upper < |s| && s[lower] <= v <= s[upper]
    ensures CountOf(y => y <= v, s) >= lower + 1
    ensures CountOf(y => y >= v, s) >= |s| - upper
  {
    forall i | 0 <= i < lower + 1 ensures s[i] <= v { AtOrBefore(s, i, lower); }
    forall i | upper <= i < |s| ensures s[i] >= v { AtOrBefore(s, upper, i); }
    CountFirst(y => y <= v, s, lower + 1);
    CountLast(y => y >= v, s, upper);
  }

  /** A percentile by its meaning, with no sorting: at least one more than the whole part of the position are at
      or below it, and at least as many as lie from the position on are at or above it. */
  lemma PercentileSplitsTheValues(values: seq<real>, fraction: real)
    requires Percentile(values, fraction).Ok?
    ensures var v, x := Percentile(values, fraction).value, Position(|values|, fraction);
      && CountOf(y => y <= v, values) >= x.Floor + 1
      && CountOf(y => y >= v, values) >= |values| - Ceiling(x)
  {
    PercentileIsOnTheLine(values, fraction);
    SortedReals(values);
    var s, x, v := Sort(RealLe, values), Position(|values|, fraction), Percentile(values, fraction).value;
    InterpolatedInCell(s, x);
    SortedSplit(s, x.Floor, Ceiling(x), v);
    CountInSorted(y => y <= v, values);
    CountInSorted(y => y >= v, values);
  }

  lemma CountAtMost(p: real -> bool, s: seq<real>, k: nat)
    requires k <= |s| && forall i :: k <= i < |s| ==> !p(s[i])
    ensures CountOf(p, s) <= k
  {
    FilterNone(p, s[k..]);
    FilterAppend(p, s[..k], s[k..]);
    assert s == s[..k] + s[k..];
    FilterIsNoLonger(p, s[..k]);
  }

  lemma {:induction false} FilterIsNoLonger(p: real -> bool, s: seq<real>)
    ensures |Filter(p, s)| <= |s|
  {
    if s != [] {
      FilterIsNoLonger(p, s[1..]);
    }
  }

  lemma {:induction false} SmallerCountMore(v: real, a: seq<real>, b: seq<real>)
    requires |a| == |b| && forall i :: 0 <= i < |a| ==> a[i] <= b[i]
    ensures CountOf(y => y <= v, b) <= CountOf(y => y <= v, a)
  {
    if a != [] {
      var low := (y: real) => y <= v;
      SmallerCountMore(v, a[1..], b[1..]);
      FilterCons(low, a[0], a[1..]);
      FilterCons(low, b[0], b[1..]);
      assert a == [a[0]] + a[1..] && b == [b[0]] + b[1..];
    }
  }

  /** When no value grows, no value in order grows. */
  lemma SmallerRankLower(a: seq<real>, b: seq<real>, k: nat)
    requires |a| == |b| && (forall i :: 0 <= i < |a| ==> a[i] <= b[i]) && k < |a|
    ensures |Sort(RealLe, a)| == |Sort(RealLe, b)| == |a| && Sort(RealLe, a)[k] <= Sort(RealLe, b)[k]
  {
    SortedReals(a);
    SortedReals(b);
    var s, t := Sort(RealLe, a), Sort(RealLe, b);
    var v := t[k];
    forall i | 0 <= i < k + 1 ensures t[i] <= v { AtOrBefore(t, i, k); }
    CountFirst(y => y <= v, t, k + 1);
    CountInSorted(y => y <= v, b);
    SmallerCountMore(v, a, b);
    CountInSorted(y => y <= v, a);
    if s[k] > v {
      forall i | k <= i < |s| ensures !(s[i] <= v) { AtOrBefore(s, k, i); }
      CountAtMost(y => y <= v, s, k);
      assert false;
    }
  }

  /** Every percentile lies within any bounds that hold for the values; the outermost ones are values. */
  lemma PercentileIsBounded(values: seq<real>, fraction: real, low: real, high: real)
    requires Percentile(values, fraction).Ok?
    requires forall i :: 0 <= i < |values| ==> low <= values[i] <= high
    ensures low <= Percentile(values, fraction).value <= high
    ensures Percentile(values, 0.0).Ok? && Percentile(values, 0.0).value in values
    ensures Percentile(values, 1.0).Ok? && Percentile(values, 1.0).value in values
  {
    PercentileIsOnTheLine(values, fraction);
    PercentileIsOnTheLine(values, 0.0);
    PercentileIsOnTheLine(values, 1.0);
    SortedReals(values);
    var s, x := Sort(RealLe, values), Position(|values|, fraction);
    InterpolatedInCell(s, x);
    assert s[x.Floor] in values && s[Ceiling(x)] in values;
    assert s[0] in s && s[|s| - 1] in s;
  }

  // ---- The latency report ----

  function Average(values: seq<real>): real
    requires values != []
  {
    Sum(values) / |values| as real
  }

  datatype Distribution =
    | Nothing
    | Measured(count: nat, average: real, p50: real, p95: real, p99: real, maximum: real)

  function LatencyDistribution(values: seq<real>): Result<Distribution, Fault> {
    Distributed(values, 0.50, 0.95, 0.99)
  }

  function Distributed(values: seq<real>, p: real, q: real, r: real): Result<Distribution, Fault>
    requires 0.0 <= p <= 1.0 && 0.0 <= q <= 1.0 && 0.0 <= r <= 1.0
  {
    if !NonNegative(values) then Err(NegativeValue)
    else if values == [] then Ok(Nothing)
    else
      var ordered := Sort(RealLe, values);
      SortedReals(values);
      Ok(Measured(|ordered|, Average(ordered), Figure(ordered, p), Figure(ordered, q), Figure(ordered, r),
                  ordered[|ordered| - 1]))
  }

  function Figure(ordered: seq<real>, fraction: real): real
    requires ordered != [] && NonNegative(ordered) && 0.0 <= fraction <= 1.0
  {
    Percentile(ordered, fraction).value
  }

  lemma {:induction false} InsertSums(x: real, s: seq<real>)
    ensures Sum(Insert(RealLe, x, s)) == x + Sum(s)
  {
    if s == [] || RealLe(x, s[0]) {
      assert ([x] + s)[1..] == s;
    } else {
      InsertSums(x, s[1..]);
      assert ([s[0]] + Insert(RealLe, x, s[1..]))[1..] == Insert(RealLe, x, s[1..]);
    }
  }

  lemma {:induction false} SortSums(values: seq<real>)
    ensures Sum(Sort(RealLe, values)) == Sum(values)
  {
    if values != [] {
      SortSums(values[1..]);
      InsertSums(values[0], Sort(RealLe, values[1..]));
    }
  }

  lemma {:induction false} SumIsBounded(values: seq<real>, low: real, high: real)
    requires forall i :: 0 <= i < |values| ==> low <= values[i] <= high
    ensures low * |values| as real <= Sum(values) <= high * |values| as real
  {
    if values != [] {
      SumIsBounded(values[1..], low, high);
      OneMore(low, |values| - 1);
      OneMore(high, |values| - 1);
    }
  }

  lemma OneMore(x: real, n: nat)
    ensures x * (n + 1) as real == x + x * n as real
  {
  }

  lemma Quotient(low: real, q: real, high: real, n: real)
    requires n > 0.0 && low * n <= q * n <= high * n
    ensures low <= q <= high
  {
  }

  /** As often as there are values, the average makes up their sum. */
  lemma AverageMakesUpTheSum(sum: real, n: real)
    requires n > 0.0
    ensures sum / n * n == sum
  {
  }

  lemma QuotientIsBounded(low: real, sum: real, high: real, n: real)
    requires n > 0.0 && low * n <= sum <= high * n
    ensures low <= sum / n <= high
  {
    AverageMakesUpTheSum(sum, n);
    Quotient(low, sum / n, high, n);
  }

  lemma AverageIsBounded(values: seq<real>, low: real, high: real)
    requires values != []
    requires forall i :: 0 <= i < |values| ==> low <= values[i] <= high
    ensures low <= Average(values) <= high
  {
    SumIsBounded(values, low, high);
    QuotientIsBounded(low, Sum(values), high, |values| as real);
  }

  lemma NoneAboveLast(values: seq<real>, x: real)
    requires x in values
    ensures Sort(RealLe, values) != [] && x <= Sort(RealLe, values)[|Sort(RealLe, values)| - 1]
  {
    SortedReals(values);
    SortKeeps(values, x);
    LastOfSorted(Sort(RealLe, values), x);
  }

  lemma SortKeeps(values: seq<real>, x: real)
    requires x in values
    ensures x in Sort(RealLe, values)
  {
    NumbersAreOrdered();
    SortSorts(RealLe, values);
  }

  lemma LastOfSorted(ordered: seq<real>, x: real)
    requires Sorted(RealLe, ordered) && x in ordered
    ensures x <= ordered[|ordered| - 1]
  {
    var k :| 0 <= k < |ordered| && ordered[k] == x;
    AtOrBefore(ordered, k, |ordered| - 1);
  }

  lemma GreatestIsLast(values: seq<real>)
    requires NonNegative(values) && values != []
    ensures |Sort(RealLe, values)| == |values|
    ensures var greatest := Sort(RealLe, values)[|values| - 1];
      && Percentile(values, 1.0) == Ok(greatest)
      && greatest in values && forall i :: 0 <= i < |values| ==> values[i] <= greatest
  {
    SortedReals(values);
    PercentileIsOnTheLine(values, 1.0);
    PositionInRange(|values|, 1.0);
    var ordered := Sort(RealLe, values);
    assert ordered[|ordered| - 1] in ordered;
    forall i | 0 <= i < |values| ensures values[i] <= ordered[|ordered| - 1] { NoneAboveLast(values, values[i]); }
  }

  lemma SortedHasTheSame(values: seq<real>, fraction: real)
    ensures Percentile(Sort(RealLe, values), fraction) == Percentile(values, fraction)
  {
    SortedReals(values);
    PercentileForgetsOrder(values, Sort(RealLe, values), fraction);
  }

  lemma SortedValues(values: seq<real>)
    requires NonNegative(values) && values != []
    ensures Sort(RealLe, values) != [] && NonNegative(Sort(RealLe, values))
  {
    SortedReals(values);
  }

  lemma FigureIs(values: seq<real>, fraction: real)
    requires NonNegative(values) && values != [] && 0.0 <= fraction <= 1.0
    ensures Sort(RealLe, values) != [] && NonNegative(Sort(RealLe, values))
    ensures Percentile(values, fraction) == Ok(Figure(Sort(RealLe, values), fraction))
  {
    SortedValues(values);
    SortedHasTheSame(values, fraction);
  }

  lemma AverageOfSorted(values: seq<real>)
    requires values != []
    ensures Sort(RealLe, values) != [] && |Sort(RealLe, values)| == |values|
    ensures Average(Sort(RealLe, values)) == Average(values)
  {
    SortedReals(values);
    SortSums(values);
  }

  lemma ReportIs(values: seq<real>, p: real, q: real, r: real)
    requires NonNegative(values) && values != []
    requires 0.0 <= p <= 1.0 && 0.0 <= q <= 1.0 && 0.0 <= r <= 1.0
    ensures var s := Sort(RealLe, values);
      && s != [] && NonNegative(s) && |s| == |values|
      && Distributed(values, p, q, r)
         == Ok(Measured(|values|, Average(values), Figure(s, p), Figure(s, q), Figure(s, r), s[|values| - 1]))
  {
    SortedValues(values);
    AverageOfSorted(values);
  }

  /** The report is of the values as they came: its percentiles are theirs, its average is their sum over their
      number, and its maximum is their greatest. */
  lemma DistributionDescribes(values: seq<real>, p: real, q: real, r: real)
    requires NonNegative(values) && values != []
    requires 0.0 <= p <= 1.0 && 0.0 <= q <= 1.0 && 0.0 <= r <= 1.0
    ensures Distributed(values, p, q, r).Ok? && Distributed(values, p, q, r).value.Measured?
    ensures var d := Distributed(values, p, q, r).value;
      && d.count == |values| && d.average == Average(values)
      && Percentile(values, p) == Ok(d.p50) && Percentile(values, q) == Ok(d.p95)
      && Percentile(values, r) == Ok(d.p99) && Percentile(values, 1.0) == Ok(d.maximum)
  {
    ReportIs(values, p, q, r);
    FigureIs(values, p);
    FigureIs(values, q);
    FigureIs(values, r);
    GreatestIsLast(values);
  }

  lemma FiguresAreOrdered(values: seq<real>, low: real, p: real, q: real, r: real)
    requires NonNegative(values) && values != [] && 0.0 <= p <= q <= r <= 1.0
    requires forall i :: 0 <= i < |values| ==> low <= values[i]
    ensures Distributed(values, p, q, r).Ok? && Distributed(values, p, q, r).value.Measured?
    ensures var d := Distributed(values, p, q, r).value;
      && low <= d.p50 <= d.p95 <= d.p99 <= d.maximum && low <= d.average <= d.maximum
  {
    DistributionDescribes(values, p, q, r);
    GreatestIsLast(values);
    var high := Distributed(values, p, q, r).value.maximum;
    PercentileIsBounded(values, p, low, high);
    PercentileRisesWithFraction(values, p, q);
    PercentileRisesWithFraction(values, q, r);
    PercentileIsBounded(values, r, low, high);
    AverageIsBounded(values, low, high);
  }

  /** The three figures of a report are the percentiles at one half, ninety-five and ninety-nine hundredths. */
  lemma ReportedFractions(values: seq<real>)
    requires NonNegative(values) && values != []
    ensures LatencyDistribution(values).Ok? && LatencyDistribution(values).value.Measured?
    ensures Percentile(values, 0.50) == Ok(LatencyDistribution(values).value.p50)
    ensures Percentile(values, 0.95) == Ok(LatencyDistribution(values).value.p95)
    ensures Percentile(values, 0.99) == Ok(LatencyDistribution(values).value.p99)
  {
    DistributionDescribes(values, 0.50, 0.95, 0.99);
  }

  /** The figures of a report never cross. */
  lemma DistributionIsOrdered(values: seq<real>, low: real)
    requires NonNegative(values) && values != []
    requires forall i :: 0 <= i < |values| ==> low <= values[i]
    ensures LatencyDistribution(values).Ok? && LatencyDistribution(values).value.Measured?
    ensures var d := LatencyDistribution(values).value;
      && low <= d.p50 <= d.p95 <= d.p99 <= d.maximum && low <= d.average <= d.maximum
  {
    FiguresAreOrdered(values, low, 0.50, 0.95, 0.99);
  }

  /** Nor do they depend on the order the measurements came in. */
  lemma DistributionForgetsOrder(a: seq<real>, b: seq<real>)
    requires multiset(a) == multiset(b)
    ensures LatencyDistribution(a) == LatencyDistribution(b)
  {
    ReportForgetsOrder(a, b, 0.50, 0.95, 0.99);
  }

  lemma ReportForgetsOrder(a: seq<real>, b: seq<real>, p: real, q: real, r: real)
    requires multiset(a) == multiset(b)
    requires 0.0 <= p <= 1.0 && 0.0 <= q <= 1.0 && 0.0 <= r <= 1.0
    ensures Distributed(a, p, q, r) == Distributed(b, p, q, r)
  {
    SortForgetsOrder(a, b);
    assert |a| == |multiset(a)| && |b| == |multiset(b)|;
    NonNegativeForgetsOrder(a, b);
  }
}
