/**
 * The fixed-seed generator, the bootstrap interval of the median and the summary
 * of one sample (scripts/board-baseline.ts).
 */
module Bootstrap {
  import opened Int32
  import opened Options
  import opened Quantiles

  const BOOTSTRAP_N: nat := 2000

  // ----- the generator ------------------------------------------------------------------

  /** `Math.imul`: the low 32 bits of the product, as a signed number. */
  function Imul(a: int, b: int): int {
    ToInt32(a * b)
  }

  function NextState(s: int): int {
    ToUint32(Imul(s, 1664525) + 1013904223)
  }

  lemma ShiftByAWholeTurn(x: int, c: int)
    ensures ToUint32(ToUint32(x) + c) == ToUint32(x + c)
    ensures ToUint32(ToUint32(x) - TWO_32 + c) == ToUint32(x + c)
  {
  }

  /** The detour through a signed product changes nothing: the step is the plain modular one, and stays a 32-bit number. */
  lemma NextStateIsModular(s: int)
    ensures NextState(s) == (s * 1664525 + 1013904223) % TWO_32
    ensures 0 <= NextState(s) < TWO_32
  {
    ShiftByAWholeTurn(s * 1664525, 1013904223);
  }

  function StateAfter(s: int, draws: nat): int {
    if draws == 0 then s else NextState(StateAfter(s, draws - 1))
  }

  /** `Math.floor(rng() * n)` for the generator's state after the draw. */
  function DrawIndex(state: int, n: nat): int {
    ((state as real / TWO_32 as real) * n as real).Floor
  }

  /** Every draw indexes inside the sample. */
  lemma DrawsStayInside(s: int, draws: nat, n: nat)
    requires draws > 0 && n > 0
    ensures 0 <= DrawIndex(StateAfter(s, draws), n) < n
  {
    var state := StateAfter(s, draws);
    NextStateIsModular(StateAfter(s, draws - 1));
    FractionOf(state, n);
  }

  lemma FractionOf(state: int, n: nat)
    requires 0 <= state < TWO_32 && n > 0
    ensures 0 <= DrawIndex(state, n) < n
  {
    var u := state as real / TWO_32 as real;
    assert 0.0 <= u < 1.0;
    ProductIsNonNegative(u, n as real);
    assert u * n as real < n as real;
  }

  /** The index is the whole part of the product over 2^32. */
  lemma DrawIsTheWholePart(state: int, n: nat)
    ensures DrawIndex(state, n) * 0x1_0000_0000 <= state * n < (DrawIndex(state, n) + 1) * 0x1_0000_0000
  {
    ScaledBack(state as real, n as real);
    ProductOfWholes(state, n);
    WholePart((state as real / TWO_32 as real) * n as real, state * n);
  }

  lemma ScaledBack(a: real, b: real)
    ensures ((a / 4294967296.0) * b) * 4294967296.0 == a * b
  {
    var u := a / 4294967296.0;
    assert u * 4294967296.0 == a;
    Commuted(u, b, 4294967296.0);
  }

  lemma Commuted(a: real, b: real, c: real)
    ensures (a * b) * c == (a * c) * b
  {
  }

  lemma ProductOfWholes(a: int, b: int)
    ensures (a * b) as real == a as real * b as real
  {
  }

  lemma WholePart(x: real, product: int)
    requires x * 4294967296.0 == product as real
    ensures x.Floor * 0x1_0000_0000 <= product < (x.Floor + 1) * 0x1_0000_0000
  {
    var whole := x.Floor;
    assert whole as real <= x < whole as real + 1.0;
    assert (whole * 0x1_0000_0000) as real == whole as real * 4294967296.0;
  }

  class Rng {
    var s: int

    constructor (seed: int)
      ensures s == ToUint32(seed)
    {
      s := ToUint32(seed);
    }

    /** One draw of the closure, scaled to an index. */
    method NextIndex(n: nat) returns (index: int)
      requires n > 0
      modifies this
      ensures s == NextState(old(s)) && index == DrawIndex(s, n)
      ensures s == (old(s) * 1664525 + 1013904223) % 0x1_0000_0000
      ensures 0 <= index < n && index * 0x1_0000_0000 <= s * n < (index + 1) * 0x1_0000_0000
    {
      s := ToUint32(Imul(s, 1664525) + 1013904223);
      NextStateIsModular(old(s));
      FractionOf(s, n);
      DrawIsTheWholePart(s, n);
      index := ((s as real / TWO_32 as real) * n as real).Floor;
    }
  }

  // ----- the interval -----------------------------------------------------------------------

  function DrawValue(values: seq<real>, s: int, i: nat): real {
    At(values, DrawIndex(StateAfter(s, i + 1), |values|), 0.0)
  }

  /** One resample: as many draws as there are values, starting from generator state `s`. */
  function Resample(values: seq<real>, s: int): seq<real> {
    seq(|values|, i requires 0 <= i => DrawValue(values, s, i))
  }

  /** The generator after `rounds` resamples of `n` values each. */
  function StateAtRound(s: int, n: nat, rounds: nat): int {
    if rounds == 0 then s else StateAfter(StateAtRound(s, n, rounds - 1), n)
  }

  function Medians(values: seq<real>, s: int, rounds: nat): (meds: seq<real>)
    ensures |meds| == rounds
  {
    if rounds == 0 then []
    else Medians(values, s, rounds - 1) + [MedianOf(SortNumbers(Resample(values, StateAtRound(s, |values|, rounds - 1))))]
  }

  datatype Interval = Interval(low: real, high: real)

  /** The 95% percentile interval of a list of estimates. */
  function Percentiles(estimates: seq<real>): Interval {
    var sorted := SortNumbers(estimates);
    Interval(Quantile(sorted, 0.025), Quantile(sorted, 0.975))
  }

  function MedianInterval(values: seq<real>, seed: int): Option<Interval> {
    if |values| < 8 then None
    else Some(Percentiles(Medians(values, ToUint32(seed), BOOTSTRAP_N)))
  }

  method BootstrapMedianCi(values: seq<real>, seed: int) returns (ci: Option<Interval>)
    ensures ci == MedianInterval(values, seed)
  {
    if |values| < 8 { return None; }
    var n := |values|;
    var rng := new Rng(seed);
    var meds: seq<real> := [];
    var buf := new real[n];
    var b := 0;
    while b < BOOTSTRAP_N
      invariant b <= BOOTSTRAP_N
      invariant rng.s == StateAtRound(ToUint32(seed), n, b)
      invariant meds == Medians(values, ToUint32(seed), b)
    {
      ghost var start := rng.s;
      var i := 0;
      while i < n
        invariant i <= n
        invariant rng.s == StateAfter(start, i)
        invariant forall k :: 0 <= k < i ==> buf[k] == DrawValue(values, start, k)
      {
        var index := rng.NextIndex(n);
        buf[i] := values[index];
        i := i + 1;
      }
      assert buf[..] == Resample(values, start);
      meds := meds + [MedianOf(SortNumbers(buf[..]))];
      b := b + 1;
    }
    ci := Some(Percentiles(meds));
  }

  // ----- the interval, draw by draw ---------------------------------------------------------

  /** `x` is the value that a generator in this state picks. */
  ghost predicate Picked(values: seq<real>, state: int, x: real) {
    exists d: nat :: d < |values| && x == values[d] && d * 0x1_0000_0000 <= state * |values| < (d + 1) * 0x1_0000_0000
  }

  /** `m` is the middle of `r` put in order, or halfway between the two middle ones. */
  ghost predicate IsMedian(r: seq<real>, m: real) {
    exists s :: Ascending(s) && |s| > 0 && multiset(s) == multiset(r)
                && m == if |s| % 2 == 1 then s[|s| / 2] else (s[|s| / 2 - 1] + s[|s| / 2]) / 2.0
  }

  /** `m` is the median of as many values as there are, picked by the states after `from`. */
  ghost predicate MedianOfPicks(values: seq<real>, state: nat -> int, from: nat, m: real) {
    exists r :: |r| == |values| && IsMedian(r, m) && PickedInARow(values, state, from, r)
  }

  ghost predicate PickedInARow(values: seq<real>, state: nat -> int, from: nat, r: seq<real>) {
    forall i: nat :: i < |r| ==> Picked(values, state(from + i + 1), r[i])
  }

  /** The states of the generator: the seed as a 32-bit number, then one multiplication and one addition modulo 2^32 each. */
  ghost predicate AreStates(state: nat -> int, start: int) {
    && state(0) == start % 0x1_0000_0000
    && forall k: nat :: state(k + 1) == (state(k) * 1664525 + 1013904223) % 0x1_0000_0000
  }

  lemma MedianOfIsMedian(r: seq<real>)
    requires |r| > 0
    ensures IsMedian(r, MedianOf(SortNumbers(r)))
  {
    SortNumbersSorts(r);
    MedianIsTheMiddle(SortNumbers(r));
  }

  lemma {:induction false} StatesJoin(s: int, a: nat, b: nat)
    ensures StateAfter(StateAfter(s, a), b) == StateAfter(s, a + b)
  {
    if b > 0 {
      StatesJoin(s, a, b - 1);
    }
  }

  lemma OneRoundMore(rounds: nat, n: nat)
    requires rounds > 0
    ensures (rounds - 1) * n + n == rounds * n
  {
  }

  lemma {:induction false} RoundsAreDraws(s: int, n: nat, rounds: nat)
    ensures StateAtRound(s, n, rounds) == StateAfter(s, rounds * n)
  {
    if rounds > 0 {
      var from := (rounds - 1) * n;
      RoundsAreDraws(s, n, rounds - 1);
      StatesJoin(s, from, n);
      OneRoundMore(rounds, n);
    }
  }

  ghost function StatesFrom(start: int): nat -> int {
    (k: nat) => StateAfter(ToUint32(start), k)
  }

  lemma StatesAreStates(start: int)
    ensures AreStates(StatesFrom(start), start)
  {
    forall k: nat ensures StatesFrom(start)(k + 1) == (StatesFrom(start)(k) * 1664525 + 1013904223) % 0x1_0000_0000 {
      NextStateIsModular(StateAfter(ToUint32(start), k));
    }
  }

  lemma ResampleIsPicked(values: seq<real>, start: int, from: nat)
    ensures PickedInARow(values, StatesFrom(start), from, Resample(values, StateAfter(ToUint32(start), from)))
  {
    var r := Resample(values, StateAfter(ToUint32(start), from));
    forall i: nat | i < |r| ensures Picked(values, StatesFrom(start)(from + i + 1), r[i]) {
      var s := ToUint32(start);
      StatesJoin(s, from, i + 1);
      NextStateIsModular(StateAfter(s, from + i));
      FractionOf(StateAfter(s, from + i + 1), |values|);
      DrawIsTheWholePart(StateAfter(s, from + i + 1), |values|);
    }
  }

  lemma RoundIsPicked(values: seq<real>, seed: int, from: nat)
    requires |values| > 0
    ensures MedianOfPicks(values, StatesFrom(seed), from, MedianOf(SortNumbers(Resample(values, StateAfter(ToUint32(seed), from)))))
  {
    var r := Resample(values, StateAfter(ToUint32(seed), from));
    MedianOfIsMedian(r);
    ResampleIsPicked(values, seed, from);
  }

  lemma {:induction false} MedianOfARound(values: seq<real>, s: int, rounds: nat, b: nat)
    requires b < rounds
    ensures Medians(values, s, rounds)[b] == MedianOf(SortNumbers(Resample(values, StateAtRound(s, |values|, b))))
  {
    if b < rounds - 1 {
      MedianOfARound(values, s, rounds - 1, b);
    }
  }

  /** The `b`-th estimate is of the values picked by the draws after the first `b` times the sample's size. */
  ghost predicate MediansOfPicks(values: seq<real>, state: nat -> int, meds: seq<real>) {
    forall b: nat, from: nat :: b < |meds| && from == b * |values| ==> MedianOfPicks(values, state, from, meds[b])
  }

  lemma MediansArePicked(values: seq<real>, seed: int, rounds: nat)
    requires |values| > 0
    ensures MediansOfPicks(values, StatesFrom(seed), Medians(values, ToUint32(seed), rounds))
  {
    var meds := Medians(values, ToUint32(seed), rounds);
    forall b: nat, from: nat | b < |meds| && from == b * |values|
      ensures MedianOfPicks(values, StatesFrom(seed), from, meds[b])
    {
      MedianOfARound(values, ToUint32(seed), rounds, b);
      RoundsAreDraws(ToUint32(seed), |values|, b);
      RoundIsPicked(values, seed, from);
    }
  }

  /** Of two thousand estimates the interval reads the positions 49.975 and 1949.025, counted from 0 in order. */
  lemma PercentilesOfTwoThousand(estimates: seq<real>)
    requires |estimates| == 2000
    ensures var sorted := SortNumbers(estimates);
            && |sorted| == 2000 && Ascending(sorted) && multiset(sorted) == multiset(estimates)
            && Percentiles(estimates)
               == Interval(0.025 * sorted[49] + 0.975 * sorted[50], 0.975 * sorted[1949] + 0.025 * sorted[1950])
  {
    var sorted := SortNumbers(estimates);
    SortNumbersSorts(estimates);
    QuantileInterpolatesNeighbours(sorted, 0.025, 49, 0.975);
    QuantileInterpolatesNeighbours(sorted, 0.975, 1949, 0.025);
  }

  /**
   * The interval from the generator up: two thousand medians, the b-th of as many
   * values as the sample has, picked by the draws after the first b times that many;
   * put in order, the interval reads them at 49.975 and at 1949.025 of 1999.
   */
  lemma TheIntervalIsOfTheDraws(values: seq<real>, seed: int) returns (state: nat -> int, meds: seq<real>, sorted: seq<real>)
    requires |values| >= 8
    ensures AreStates(state, seed)
    ensures |meds| == 2000 && MediansOfPicks(values, state, meds)
    ensures Ascending(sorted) && multiset(sorted) == multiset(meds) && |sorted| == 2000
    ensures MedianInterval(values, seed)
            == Some(Interval(0.025 * sorted[49] + 0.975 * sorted[50], 0.975 * sorted[1949] + 0.025 * sorted[1950]))
  {
    state := StatesFrom(seed);
    meds := Medians(values, ToUint32(seed), BOOTSTRAP_N);
    sorted := SortNumbers(meds);
    StatesAreStates(seed);
    MediansArePicked(values, seed, BOOTSTRAP_N);
    PercentilesOfTwoThousand(meds);
  }

  // ----- the draws determine it ---------------------------------------------------------------

  lemma {:induction false} StatesAreDetermined(a: nat -> int, b: nat -> int, start: int, k: nat)
    requires AreStates(a, start) && AreStates(b, start)
    ensures a(k) == b(k)
  {
    if k > 0 {
      StatesAreDetermined(a, b, start, k - 1);
      assert a(k - 1 + 1) == (a(k - 1) * 1664525 + 1013904223) % 0x1_0000_0000;
      assert b(k - 1 + 1) == (b(k - 1) * 1664525 + 1013904223) % 0x1_0000_0000;
    }
  }

  lemma OneWholePart(d: int, e: int, product: int)
    requires d * 0x1_0000_0000 <= product < (d + 1) * 0x1_0000_0000
    requires e * 0x1_0000_0000 <= product < (e + 1) * 0x1_0000_0000
    ensures d == e
  {
  }

  lemma APickIsDetermined(values: seq<real>, state: int, x: real, y: real)
    requires Picked(values, state, x) && Picked(values, state, y)
    ensures x == y
  {
    var d: nat :| d < |values| && x == values[d] && d * 0x1_0000_0000 <= state * |values| < (d + 1) * 0x1_0000_0000;
    var e: nat :| e < |values| && y == values[e] && e * 0x1_0000_0000 <= state * |values| < (e + 1) * 0x1_0000_0000;
    OneWholePart(d, e, state * |values|);
  }

  lemma PicksAreDetermined(values: seq<real>, a: nat -> int, b: nat -> int, start: int, from: nat, r: seq<real>, q: seq<real>)
    requires AreStates(a, start) && AreStates(b, start) && |r| == |q|
    requires PickedInARow(values, a, from, r) && PickedInARow(values, b, from, q)
    ensures r == q
  {
    forall i: nat | i < |r| ensures r[i] == q[i] {
      StatesAreDetermined(a, b, start, from + i + 1);
      APickIsDetermined(values, a(from + i + 1), r[i], q[i]);
    }
  }

  lemma AMedianIsDetermined(r: seq<real>, m: real, n: real)
    requires IsMedian(r, m) && IsMedian(r, n)
    ensures m == n
  {
    var s :| Ascending(s) && |s| > 0 && multiset(s) == multiset(r)
             && m == if |s| % 2 == 1 then s[|s| / 2] else (s[|s| / 2 - 1] + s[|s| / 2]) / 2.0;
    var t :| Ascending(t) && |t| > 0 && multiset(t) == multiset(r)
             && n == if |t| % 2 == 1 then t[|t| / 2] else (t[|t| / 2 - 1] + t[|t| / 2]) / 2.0;
    AscendingIsUnique(s, t);
  }

  lemma AMedianOfPicksIsDetermined(values: seq<real>, a: nat -> int, b: nat -> int, start: int, from: nat, m: real, n: real)
    requires AreStates(a, start) && AreStates(b, start)
    requires MedianOfPicks(values, a, from, m) && MedianOfPicks(values, b, from, n)
    ensures m == n
  {
    var r :| |r| == |values| && IsMedian(r, m) && PickedInARow(values, a, from, r);
    var q :| |q| == |values| && IsMedian(q, n) && PickedInARow(values, b, from, q);
    PicksAreDetermined(values, a, b, start, from, r, q);
    AMedianIsDetermined(r, m, n);
  }

  /** Whatever states, medians and order meet the description above, the interval read off them is the one computed. */
  lemma TheDrawsDetermineTheInterval(values: seq<real>, seed: int, state: nat -> int, meds: seq<real>, sorted: seq<real>)
    requires |values| >= 8 && AreStates(state, seed) && |meds| == 2000 && MediansOfPicks(values, state, meds)
    requires Ascending(sorted) && multiset(sorted) == multiset(meds) && |sorted| == 2000
    ensures MedianInterval(values, seed)
            == Some(Interval(0.025 * sorted[49] + 0.975 * sorted[50], 0.975 * sorted[1949] + 0.025 * sorted[1950]))
  {
    var state', meds', sorted' := TheIntervalIsOfTheDraws(values, seed);
    forall b: nat | b < 2000 ensures meds[b] == meds'[b] {
      AMedianOfPicksIsDetermined(values, state, state', seed, b * |values|, meds[b], meds'[b]);
    }
    assert meds == meds';
    AscendingIsUnique(sorted, sorted');
  }

  ghost predicate AllWithin(values: seq<real>, low: real, high: real) {
    forall x :: x in values ==> low <= x <= high
  }

  lemma ResampleStaysWithin(values: seq<real>, s: int, low: real, high: real)
    requires AllWithin(values, low, high)
    ensures AllWithin(Resample(values, s), low, high)
  {
    var r := Resample(values, s);
    forall i | 0 <= i < |r| ensures r[i] in values {
      DrawsStayInside(s, i + 1, |values|);
    }
  }

  /** A quantile of numbers from a range is in the range. */
  lemma QuantileStaysWithin(values: seq<real>, p: real, low: real, high: real)
    requires |values| > 0 && 0.0 <= p <= 1.0 && AllWithin(values, low, high)
    ensures low <= Quantile(SortNumbers(values), p) <= high
  {
    var sorted := SortNumbers(values);
    SortNumbersSorts(values);
    QuantileIsWithinTheSample(sorted, p);
    assert sorted[0] in values && sorted[|sorted| - 1] in values;
  }

  lemma {:induction false} MediansStayWithin(values: seq<real>, s: int, rounds: nat, low: real, high: real)
    requires |values| > 0 && AllWithin(values, low, high)
    ensures AllWithin(Medians(values, s, rounds), low, high)
  {
    if rounds > 0 {
      MediansStayWithin(values, s, rounds - 1, low, high);
      var r := Resample(values, StateAtRound(s, |values|, rounds - 1));
      ResampleStaysWithin(values, StateAtRound(s, |values|, rounds - 1), low, high);
      QuantileStaysWithin(r, 0.5, low, high);
    }
  }

  lemma PercentilesAreOrderedAndWithin(estimates: seq<real>, low: real, high: real)
    requires |estimates| > 0 && AllWithin(estimates, low, high)
    ensures low <= Percentiles(estimates).low <= Percentiles(estimates).high <= high
  {
    SortNumbersSorts(estimates);
    QuantileStaysWithin(estimates, 0.025, low, high);
    QuantileStaysWithin(estimates, 0.975, low, high);
    QuantileIsMonotone(SortNumbers(estimates), 0.025, 0.975);
  }

  /** The interval exists from eight values on; its bounds are ordered and never leave the range of the sample. */
  lemma MedianIntervalIsWithinTheSample(values: seq<real>, seed: int, low: real, high: real)
    requires AllWithin(values, low, high)
    ensures MedianInterval(values, seed).Some? <==> |values| >= 8
    ensures |values| >= 8 ==> var ci := MedianInterval(values, seed).value; low <= ci.low <= ci.high <= high
  {
    if |values| >= 8 {
      MediansStayWithin(values, ToUint32(seed), BOOTSTRAP_N, low, high);
      PercentilesAreOrderedAndWithin(Medians(values, ToUint32(seed), BOOTSTRAP_N), low, high);
    }
  }
}
