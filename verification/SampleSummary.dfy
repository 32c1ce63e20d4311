/**
 * The summary of one sample (scripts/board-baseline.ts): order statistics, mean and
 * the bootstrap interval of the median.
 */
module SampleSummary {
  import opened Options
  import opened StableSort
  import opened Quantiles
  import opened Bootstrap

  datatype Stats = Stats(n: nat, min: real, p25: real, median: real, p75: real, max: real,
                         mean: real, iqr: real, medianCi95: Option<Interval>)

  /** `sorted.reduce((a, b) => a + b, 0)` */
  function Total(s: seq<real>): real {
    if s == [] then 0.0 else Total(s[..|s| - 1]) + s[|s| - 1]
  }

  function StatsOf(values: seq<real>, seed: int): Stats {
    var sorted := SortNumbers(values);
    var n := |sorted|;
    if n == 0 then Stats(0, 0.0, 0.0, 0.0, 0.0, 0.0, 0.0, 0.0, None)
    else
      var p25 := Quantile(sorted, 0.25);
      var p75 := Quantile(sorted, 0.75);
      Stats(n, sorted[0], p25, MedianOf(sorted), p75, sorted[n - 1], Total(sorted) / n as real, p75 - p25,
            MedianInterval(sorted, seed))
  }

  // ----- the fields, without naming what computes them ---------------------------------------

  lemma {:induction false} TotalOfTwo(a: seq<real>, b: seq<real>)
    ensures Total(a + b) == Total(a) + Total(b)
  {
    if b == [] {
      assert a + b == a;
    } else {
      TotalOfTwo(a, b[..|b| - 1]);
      assert (a + b)[..|a + b| - 1] == a + b[..|b| - 1];
    }
  }

  lemma TotalOfOne(x: real)
    ensures Total([x]) == x
  {
    assert [x][..0] == [];
  }

  lemma TotalOfThree(before: seq<real>, x: real, after: seq<real>)
    ensures Total(before + ([x] + after)) == Total(before + after) + x
  {
    TotalOfTwo(before, after);
    TotalOfTwo([x], after);
    TotalOfTwo(before, [x] + after);
    TotalOfOne(x);
  }

  /** Taking out one value takes it off the total, wherever it stands. */
  lemma TotalWithout(s: seq<real>, k: nat)
    requires k < |s|
    ensures Total(s) == Total(s[..k] + s[k + 1..]) + s[k]
  {
    WithoutOne(s, k);
    TotalOfThree(s[..k], s[k], s[k + 1..]);
  }

  /** A total ignores the order. */
  lemma {:induction false} TotalIgnoresTheOrder(a: seq<real>, b: seq<real>)
    requires multiset(a) == multiset(b)
    ensures Total(a) == Total(b)
  {
    if a != [] {
      var x := a[|a| - 1];
      var k := AlsoIn(a, b, |a| - 1);
      TotalWithout(b, k);
      LastAndFirst(a, b, k);
      TotalIgnoresTheOrder(a[..|a| - 1], b[..k] + b[k + 1..]);
    } else {
      assert |multiset(b)| == |b|;
    }
  }

  /** `q` is where `k` quarters of the way from the first to the last of `sorted` leads, straight between neighbours. */
  predicate AtQuarters(sorted: seq<real>, k: nat, q: real)
    requires sorted != [] && k <= 4
  {
    var i, f := k * (|sorted| - 1) / 4, k * (|sorted| - 1) % 4;
    if f == 0 then q == sorted[i] else 4.0 * q == (4 - f) as real * sorted[i] + f as real * sorted[i + 1]
  }

  lemma QuantileAtQuarters(sorted: seq<real>, k: nat)
    requires sorted != [] && k <= 4
    ensures AtQuarters(sorted, k, Quantile(sorted, k as real / 4.0))
  {
    var i, f := k * (|sorted| - 1) / 4, k * (|sorted| - 1) % 4;
    var p := k as real / 4.0;
    if |sorted| > 1 {
      Position(|sorted| - 1, k, p, i, f);
      QuantileAt(sorted, p, i, f);
    }
  }

  lemma QuantileAt(sorted: seq<real>, p: real, i: nat, f: nat)
    requires |sorted| > 1 && f < 4 && i < |sorted| && (f > 0 ==> i + 1 < |sorted|)
    requires (|sorted| - 1) as real * p == i as real + f as real / 4.0
    ensures var q := Quantile(sorted, p);
            if f == 0 then q == sorted[i] else 4.0 * q == (4 - f) as real * sorted[i] + f as real * sorted[i + 1]
  {
    if f > 0 {
      QuantileInterpolatesNeighbours(sorted, p, i, f as real / 4.0);
    } else {
      BetweenIsAMix(sorted, i as real, i, 0.0);
    }
  }

  lemma Position(last: nat, k: nat, p: real, i: nat, f: nat)
    requires k <= 4 && p == k as real / 4.0 && i == k * last / 4 && f == k * last % 4
    ensures last as real * p == i as real + f as real / 4.0
    ensures i <= last && (f > 0 ==> i < last)
  {
    assert k * last == 4 * i + f;
    match k
    case 0 =>
    case 1 =>
    case 2 =>
    case 3 =>
    case 4 =>
  }

  /** `sorted` is the sample put in order. */
  ghost predicate InOrder(values: seq<real>, sorted: seq<real>) {
    Ascending(sorted) && |sorted| == |values| && multiset(sorted) == multiset(values)
  }

  /** The extremes, quartiles and median of a sample in order, and the interval of that median. */
  ghost predicate OrderStatistics(r: Stats, sorted: seq<real>, seed: int) {
    && sorted != [] && r.min == sorted[0] && r.max == sorted[|sorted| - 1]
    && AtQuarters(sorted, 1, r.p25) && AtQuarters(sorted, 2, r.median) && AtQuarters(sorted, 3, r.p75)
    && r.medianCi95 == MedianInterval(sorted, seed)
  }

  lemma SortedValues(values: seq<real>, sorted: seq<real>)
    requires sorted == SortNumbers(values)
    ensures InOrder(values, sorted) && Total(sorted) == Total(values)
  {
    SortNumbersSorts(values);
    TotalIgnoresTheOrder(values, sorted);
  }

  lemma Quartiles(sorted: seq<real>)
    requires sorted != []
    ensures AtQuarters(sorted, 1, Quantile(sorted, 0.25)) && AtQuarters(sorted, 2, MedianOf(sorted)) && AtQuarters(sorted, 3, Quantile(sorted, 0.75))
  {
    QuantileAtQuarters(sorted, 1);
    QuantileAtQuarters(sorted, 2);
    QuantileAtQuarters(sorted, 3);
  }

  /**
   * The summary, and what its fields are for the values in whatever order they came:
   * extremes, quartiles and median of the sample put in order, the mean of all values.
   */
  method ComputeStats(values: seq<real>, seed: int) returns (r: Stats)
    ensures r == StatsOf(values, seed)
    ensures values == [] ==> r == Stats(0, 0.0, 0.0, 0.0, 0.0, 0.0, 0.0, 0.0, None)
    ensures values != [] ==> r.n == |values| && r.mean == Total(values) / |values| as real && r.iqr == r.p75 - r.p25
    ensures values != [] ==> exists sorted :: InOrder(values, sorted) && OrderStatistics(r, sorted, seed)
  {
    var sorted := SortNumbers(values);
    SortedValues(values, sorted);
    var n := |sorted|;
    if n == 0 {
      return Stats(0, 0.0, 0.0, 0.0, 0.0, 0.0, 0.0, 0.0, None);
    }
    var p25 := Quantile(sorted, 0.25);
    var p75 := Quantile(sorted, 0.75);
    var total := Sum(sorted);
    var ci := BootstrapMedianCi(sorted, seed);
    r := Stats(n, sorted[0], p25, MedianOf(sorted), p75, sorted[n - 1], total / n as real, p75 - p25, ci);
    Quartiles(sorted);
    assert OrderStatistics(r, sorted, seed);
  }

  /** The contract of `ComputeStats` leaves nothing open: two summaries that meet it are one. */
  lemma ASummaryIsDetermined(values: seq<real>, seed: int, r: Stats, q: Stats, s: seq<real>, t: seq<real>)
    requires r.n == q.n && r.mean == q.mean && r.iqr == r.p75 - r.p25 && q.iqr == q.p75 - q.p25
    requires InOrder(values, s) && OrderStatistics(r, s, seed) && InOrder(values, t) && OrderStatistics(q, t, seed)
    ensures r == q
  {
    AscendingIsUnique(s, t);
    AQuarterIsDetermined(s, 1, r.p25, q.p25);
    AQuarterIsDetermined(s, 2, r.median, q.median);
    AQuarterIsDetermined(s, 3, r.p75, q.p75);
  }

  lemma AQuarterIsDetermined(sorted: seq<real>, k: nat, p: real, q: real)
    requires sorted != [] && k <= 4 && AtQuarters(sorted, k, p) && AtQuarters(sorted, k, q)
    ensures p == q
  {
  }

  method Sum(s: seq<real>) returns (total: real)
    ensures total == Total(s)
  {
    total := 0.0;
    for i := 0 to |s|
      invariant total == Total(s[..i])
    {
      assert s[..i + 1][..i] == s[..i];
      total := total + s[i];
    }
    assert s[..|s|] == s;
  }

  /** Every field, the bootstrap interval included, is a function of the multiset of values: their order is irrelevant. */
  lemma StatsIgnoreTheOrder(values: seq<real>, other: seq<real>, seed: int)
    requires multiset(values) == multiset(other)
    ensures StatsOf(values, seed) == StatsOf(other, seed)
  {
    SortNumbersDependsOnElementsOnly(values, other);
  }

  lemma {:induction false} TotalIsBounded(s: seq<real>, low: real, high: real)
    requires AllWithin(s, low, high)
    ensures |s| as real * low <= Total(s) <= |s| as real * high
  {
    if s != [] {
      var init, last := s[..|s| - 1], s[|s| - 1];
      assert forall x :: x in init ==> x in s;
      TotalIsBounded(init, low, high);
      assert last in s;
      assert |s| as real * low == (|s| - 1) as real * low + low;
      assert |s| as real * high == (|s| - 1) as real * high + high;
    }
  }

  lemma QuotientIsBounded(total: real, n: nat, low: real, high: real)
    requires n > 0 && n as real * low <= total <= n as real * high
    ensures low <= total / n as real <= high
  {
    var mean := total / n as real;
    assert n as real * mean == total;
    if mean < low {
      ScaleUp(mean, low, n as real);
    } else if high < mean {
      ScaleUp(high, mean, n as real);
    }
  }

  lemma ScaleUp(x: real, y: real, k: real)
    requires x < y && 0.0 < k
    ensures k * x < k * y
  {
    assert k * (y - x) > 0.0;
  }

  /**
   * The extremes are the least and greatest value of the sample, and everything
   * reported lies between them in the order a reader expects.
   */
  lemma StatsAreOrdered(values: seq<real>, seed: int)
    requires |values| > 0
    ensures StatsOf(values, seed).n == |values|
    ensures StatsOf(values, seed).min in values && StatsOf(values, seed).max in values
    ensures AllWithin(values, StatsOf(values, seed).min, StatsOf(values, seed).max)
    ensures var r := StatsOf(values, seed);
            && r.min <= r.p25 <= r.median <= r.p75 <= r.max
            && r.min <= r.mean <= r.max
            && 0.0 <= r.iqr <= r.max - r.min
  {
    SortedExtremes(values);
    QuartilesAreOrdered(SortNumbers(values));
    MeanIsWithin(SortNumbers(values));
  }

  lemma QuartilesAreOrdered(sorted: seq<real>)
    requires |sorted| > 0 && Ascending(sorted)
    ensures sorted[0] <= Quantile(sorted, 0.25) <= MedianOf(sorted) <= Quantile(sorted, 0.75) <= sorted[|sorted| - 1]
  {
    QuantileIsWithinTheSample(sorted, 0.25);
    QuantileIsWithinTheSample(sorted, 0.75);
    QuantileIsMonotone(sorted, 0.25, 0.5);
    QuantileIsMonotone(sorted, 0.5, 0.75);
  }

  lemma AscendingStaysWithin(sorted: seq<real>)
    requires |sorted| > 0 && Ascending(sorted)
    ensures AllWithin(sorted, sorted[0], sorted[|sorted| - 1])
  {
  }

  lemma MeanIsWithin(sorted: seq<real>)
    requires |sorted| > 0 && Ascending(sorted)
    ensures sorted[0] <= Total(sorted) / |sorted| as real <= sorted[|sorted| - 1]
  {
    AscendingStaysWithin(sorted);
    MeanStaysWithin(sorted, sorted[0], sorted[|sorted| - 1]);
  }

  lemma MeanStaysWithin(s: seq<real>, low: real, high: real)
    requires |s| > 0 && AllWithin(s, low, high)
    ensures low <= Total(s) / |s| as real <= high
  {
    TotalIsBounded(s, low, high);
    var total := Total(s);
    QuotientIsBounded(total, |s|, low, high);
  }

  /** The interval of the median is there from eight values on and lies between the extremes. */
  lemma IntervalOfTheMedian(values: seq<real>, seed: int)
    ensures StatsOf(values, seed).medianCi95.Some? <==> |values| >= 8
    ensures |values| >= 8 ==> var r := StatsOf(values, seed);
                              r.min <= r.medianCi95.value.low <= r.medianCi95.value.high <= r.max
  {
    SortNumbersSorts(values);
    if |values| > 0 {
      SortedExtremes(values);
      var sorted := SortNumbers(values);
      MedianIntervalIsWithinTheSample(sorted, seed, sorted[0], sorted[|sorted| - 1]);
    }
  }

  lemma SortedExtremes(values: seq<real>)
    requires |values| > 0
    ensures var sorted := SortNumbers(values);
            && |sorted| == |values|
            && sorted[0] in values && sorted[|sorted| - 1] in values
            && Ascending(sorted) && AllWithin(values, sorted[0], sorted[|sorted| - 1])
  {
    SortNumbersSorts(values);
    var sorted := SortNumbers(values);
    forall x | x in values ensures sorted[0] <= x <= sorted[|sorted| - 1] {
      var i :| 0 <= i < |sorted| && sorted[i] == x;
    }
  }
}
