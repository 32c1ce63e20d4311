/**
 * The type-7 quantile of scripts/board-baseline.ts, over exact reals.
 */
module Quantiles {
  import opened StableSort

  predicate AtMost(a: real, b: real) {
    a <= b
  }

  /** `[...values].sort((a, b) => a - b)`. */
  function SortNumbers(values: seq<real>): seq<real> {
    Sort(AtMost, values)
  }

  ghost predicate Ascending(s: seq<real>) {
    forall i, j :: 0 <= i <= j < |s| ==> s[i] <= s[j]
  }

  lemma SortNumbersSorts(values: seq<real>)
    ensures Ascending(SortNumbers(values)) && |SortNumbers(values)| == |values|
    ensures multiset(SortNumbers(values)) == multiset(values)
    ensures forall x :: x in SortNumbers(values) <==> x in values
  {
    SortSorts(AtMost, values);
    SortMembers(AtMost, values);
    var s := SortNumbers(values);
    forall i, j | 0 <= i <= j < |s| ensures s[i] <= s[j] {
      assert i < j ==> AtMost(s[i], s[j]);
    }
  }

  lemma SortNumbersDependsOnElementsOnly(s: seq<real>, t: seq<real>)
    requires multiset(s) == multiset(t)
    ensures SortNumbers(s) == SortNumbers(t)
  {
    SortDependsOnElementsOnly(AtMost, s, t);
  }

  /** There is one way to put numbers in order. */
  lemma AscendingIsUnique(s: seq<real>, t: seq<real>)
    requires Ascending(s) && Ascending(t) && multiset(s) == multiset(t)
    ensures s == t
  {
    SortedIsUnique(AtMost, s, t);
  }

  /** `s[i] ?? otherwise`. */
  function At(s: seq<real>, i: int, otherwise: real): real {
    if 0 <= i < |s| then s[i] else otherwise
  }

  function Ceil(h: real): int {
    if h.Floor as real == h then h.Floor else h.Floor + 1
  }

  function Mix(a: real, b: real, f: real): real {
    a + (b - a) * f
  }

  /** The sample read at the fractional position `h`. */
  function Between(s: seq<real>, h: real): real {
    var a := At(s, h.Floor, 0.0);
    var b := At(s, Ceil(h), a);
    Mix(a, b, h - h.Floor as real)
  }

  function Quantile(sorted: seq<real>, p: real): real {
    if |sorted| == 0 then 0.0
    else if |sorted| == 1 then sorted[0]
    else Between(sorted, (|sorted| - 1) as real * p)
  }

  function MedianOf(sorted: seq<real>): real {
    Quantile(sorted, 0.5)
  }

  lemma MixIsBetween(a: real, b: real, f: real)
    requires a <= b && 0.0 <= f <= 1.0
    ensures a <= Mix(a, b, f) <= b
  {
    ProductIsNonNegative(b - a, f);
    ProductIsNonNegative(b - a, 1.0 - f);
    MixIsWeighted(a, b, f);
    assert b - Mix(a, b, f) == (b - a) * (1.0 - f);
  }

  lemma ProductIsNonNegative(x: real, y: real)
    requires 0.0 <= x && 0.0 <= y
    ensures 0.0 <= x * y
  {
  }

  lemma MixRises(a: real, b: real, f: real, g: real)
    requires a <= b && f <= g
    ensures Mix(a, b, f) <= Mix(a, b, g)
  {
    var gap := b - a;
    assert gap * f <= gap * g;
  }

  lemma BetweenIsAMix(s: seq<real>, h: real, lo: nat, f: real)
    requires lo < |s| && h == lo as real + f && 0.0 <= f < 1.0
    requires f > 0.0 ==> lo + 1 < |s|
    ensures Between(s, h) == if f == 0.0 then s[lo] else Mix(s[lo], s[lo + 1], f)
  {
    assert h.Floor == lo;
  }

  /** A position lies between two samples, and so does the value there. */
  lemma BetweenNeighbours(s: seq<real>, h: real)
    requires Ascending(s) && 0.0 <= h <= (|s| - 1) as real
    ensures 0 <= h.Floor < |s| && s[h.Floor] <= Between(s, h)
    ensures h.Floor + 1 < |s| ==> Between(s, h) <= s[h.Floor + 1]
    ensures h.Floor + 1 == |s| ==> Between(s, h) == s[h.Floor]
  {
    var lo, f := h.Floor, h - h.Floor as real;
    BetweenIsAMix(s, h, lo, f);
    if f > 0.0 {
      MixIsBetween(s[lo], s[lo + 1], f);
    }
  }

  lemma BetweenRises(s: seq<real>, g: real, h: real)
    requires Ascending(s) && 0.0 <= g <= h <= (|s| - 1) as real
    ensures Between(s, g) <= Between(s, h)
  {
    BetweenNeighbours(s, g);
    BetweenNeighbours(s, h);
    if g.Floor == h.Floor && g != h {
      var lo := g.Floor;
      BetweenIsAMix(s, g, lo, g - lo as real);
      BetweenIsAMix(s, h, lo, h - lo as real);
      MixRises(s[lo], s[lo + 1], g - lo as real, h - lo as real);
    }
  }

  lemma PositionIsInside(n: nat, p: real)
    requires n >= 1 && 0.0 <= p <= 1.0
    ensures 0.0 <= (n - 1) as real * p <= (n - 1) as real
  {
  }

  /** A higher level never gives a lower quantile. */
  lemma QuantileIsMonotone(s: seq<real>, p: real, q: real)
    requires Ascending(s) && 0.0 <= p <= q <= 1.0
    ensures Quantile(s, p) <= Quantile(s, q)
  {
    if |s| >= 2 {
      PositionIsInside(|s|, p);
      PositionIsInside(|s|, q);
      assert (|s| - 1) as real * p <= (|s| - 1) as real * q;
      BetweenRises(s, (|s| - 1) as real * p, (|s| - 1) as real * q);
    }
  }

  /** The quantile at 0 is the minimum, at 1 the maximum, and all others lie between. */
  lemma QuantileIsWithinTheSample(s: seq<real>, p: real)
    requires Ascending(s) && |s| > 0 && 0.0 <= p <= 1.0
    ensures Quantile(s, 0.0) == s[0] && Quantile(s, 1.0) == s[|s| - 1]
    ensures s[0] <= Quantile(s, p) <= s[|s| - 1]
  {
    QuantileIsMonotone(s, 0.0, p);
    QuantileIsMonotone(s, p, 1.0);
  }

  /**
   * What "type 7" means: the samples sit at equal steps of the level, and between two
   * neighbours the quantile moves on a straight line. `p` is the level that is `k`
   * steps and a fraction `f` of the next.
   */
  lemma QuantileInterpolatesNeighbours(s: seq<real>, p: real, k: nat, f: real)
    requires k + 1 < |s| && 0.0 <= f <= 1.0 && (|s| - 1) as real * p == k as real + f
    ensures Quantile(s, p) == (1.0 - f) * s[k] + f * s[k + 1]
  {
    BetweenIsWeighted(s, k, f);
  }

  lemma BetweenIsWeighted(s: seq<real>, k: nat, f: real)
    requires k + 1 < |s| && 0.0 <= f <= 1.0
    ensures Between(s, k as real + f) == (1.0 - f) * s[k] + f * s[k + 1]
  {
    if f < 1.0 {
      BetweenIsAMix(s, k as real + f, k, f);
      MixIsWeighted(s[k], s[k + 1], f);
    } else {
      BetweenIsAMix(s, k as real + f, k + 1, 0.0);
    }
  }

  lemma MixIsWeighted(a: real, b: real, f: real)
    ensures Mix(a, b, f) == (1.0 - f) * a + f * b
  {
  }

  /** The median is the middle sample, or halfway between the two middle ones. */
  lemma MedianIsTheMiddle(s: seq<real>)
    ensures s == [] ==> MedianOf(s) == 0.0
    ensures |s| % 2 == 1 ==> MedianOf(s) == s[|s| / 2]
    ensures |s| > 0 && |s| % 2 == 0 ==> MedianOf(s) == (s[|s| / 2 - 1] + s[|s| / 2]) / 2.0
  {
    var m := |s| / 2;
    if |s| % 2 == 1 && m > 0 {
      BetweenIsAMix(s, (|s| - 1) as real * 0.5, m, 0.0);
    } else if |s| % 2 == 0 && m > 0 {
      BetweenIsAMix(s, (|s| - 1) as real * 0.5, m - 1, 0.5);
    }
  }
}
