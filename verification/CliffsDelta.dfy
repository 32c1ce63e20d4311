/**
 * Cliff's delta between two unpaired samples (scripts/board-baseline.ts).
 */
module CliffsDelta {
  import opened Int32
  import opened Options
  import opened StableSort
  import opened Quantiles
  import opened Bootstrap

  /** How many of `ys` are below `x`. */
  function Below(x: real, ys: seq<real>): nat {
    if ys == [] then 0
    else Below(x, ys[..|ys| - 1]) + if x > ys[|ys| - 1] then 1 else 0
  }

  /** How many of `ys` are above `x`. */
  function Above(x: real, ys: seq<real>): nat {
    if ys == [] then 0
    else Above(x, ys[..|ys| - 1]) + if x < ys[|ys| - 1] then 1 else 0
  }

  /** Pairs in which the first sample is greater. */
  function Wins(xs: seq<real>, ys: seq<real>): nat {
    if xs == [] then 0 else Wins(xs[..|xs| - 1], ys) + Below(xs[|xs| - 1], ys)
  }

  /** Pairs in which the first sample is smaller. */
  function Losses(xs: seq<real>, ys: seq<real>): nat {
    if xs == [] then 0 else Losses(xs[..|xs| - 1], ys) + Above(xs[|xs| - 1], ys)
  }

  function Delta(xs: seq<real>, ys: seq<real>): real {
    if |xs| == 0 || |ys| == 0 then 0.0
    else (Wins(xs, ys) - Losses(xs, ys)) as real / (|xs| * |ys|) as real
  }

  lemma Appended(xs: seq<real>, k: nat)
    requires k < |xs|
    ensures xs[..k + 1][..k] == xs[..k] && xs[..k + 1][k] == xs[k]
  {
  }

  /** The two nested counting loops. */
  method Raw(xs: seq<real>, ys: seq<real>) returns (d: real)
    ensures d == Delta(xs, ys)
  {
    if |xs| == 0 || |ys| == 0 { return 0.0; }
    var gt, lt: nat := 0, 0;
    for i := 0 to |xs|
      invariant gt == Wins(xs[..i], ys) && lt == Losses(xs[..i], ys)
    {
      var x := xs[i];
      for j := 0 to |ys|
        invariant gt == Wins(xs[..i], ys) + Below(x, ys[..j])
        invariant lt == Losses(xs[..i], ys) + Above(x, ys[..j])
      {
        Appended(ys, j);
        var y := ys[j];
        if x > y {
          gt := gt + 1;
        } else if x < y {
          lt := lt + 1;
        }
      }
      Appended(xs, i);
      assert ys[..|ys|] == ys;
    }
    assert xs[..|xs|] == xs;
    PairsArePositive(|xs|, |ys|);
    d := (gt - lt) as real / (|xs| * |ys|) as real;
  }

  lemma PairsArePositive(m: nat, n: nat)
    requires m > 0 && n > 0
    ensures m * n > 0
  {
  }

  // ----- what is counted -----------------------------------------------------------------

  /** Pairs of positions with the first value above the second. */
  ghost function PairsAbove(xs: seq<real>, ys: seq<real>): set<(int, int)> {
    set i, j | 0 <= i < |xs| && 0 <= j < |ys| && xs[i] > ys[j] :: (i, j)
  }

  ghost function Row(x: real, ys: seq<real>, row: int): set<(int, int)> {
    set j | 0 <= j < |ys| && x > ys[j] :: (row, j)
  }

  lemma {:induction false} BelowCounts(x: real, ys: seq<real>, row: int)
    ensures Below(x, ys) == |Row(x, ys, row)|
  {
    if ys != [] {
      var n := |ys| - 1;
      BelowCounts(x, ys[..n], row);
      assert Row(x, ys, row) == Row(x, ys[..n], row) + if x > ys[n] then {(row, n)} else {};
      OneMoreInTheRow(Row(x, ys[..n], row), Row(x, ys, row), (row, n), x > ys[n]);
    }
  }

  lemma OneMoreInTheRow(before: set<(int, int)>, after: set<(int, int)>, last: (int, int), counts: bool)
    requires last !in before && after == if counts then before + {last} else before
    ensures |after| == |before| + if counts then 1 else 0
  {
  }

  lemma {:induction false} WinsArePairs(xs: seq<real>, ys: seq<real>)
    ensures Wins(xs, ys) == |PairsAbove(xs, ys)|
  {
    if xs != [] {
      var n := |xs| - 1;
      var init, row := xs[..n], Row(xs[n], ys, n);
      WinsArePairs(init, ys);
      BelowCounts(xs[n], ys, n);
      assert PairsAbove(xs, ys) == PairsAbove(init, ys) + row;
      assert PairsAbove(init, ys) !! row;
    } else {
      assert PairsAbove(xs, ys) == {};
    }
  }

  /** Delta is the pairs won less the pairs lost, as a share of all pairs; zero when there are none. */
  lemma DeltaCountsThePairs(xs: seq<real>, ys: seq<real>, pairs: nat)
    requires pairs == |xs| * |ys|
    ensures pairs > 0 ==> Delta(xs, ys) == (|PairsAbove(xs, ys)| - |PairsAbove(ys, xs)|) as real / pairs as real
    ensures pairs == 0 ==> Delta(xs, ys) == 0.0
  {
    WinsArePairs(xs, ys);
    WinsArePairs(ys, xs);
    WinsAreTheOthersLosses(xs, ys);
    if pairs > 0 {
      DeltaIsAQuotient(xs, ys, Wins(xs, ys) - Losses(xs, ys), pairs);
    } else {
      NothingToCompare(|xs|, |ys|);
    }
  }

  lemma NothingToCompare(m: nat, n: nat)
    requires m * n == 0
    ensures m == 0 || n == 0
  {
  }

  lemma DeltaIsAQuotient(xs: seq<real>, ys: seq<real>, won: int, pairs: int)
    requires won == Wins(xs, ys) - Losses(xs, ys) && pairs == |xs| * |ys| && pairs > 0
    ensures Delta(xs, ys) == won as real / pairs as real
  {
  }

  // ----- antisymmetry -------------------------------------------------------------------

  lemma {:induction false} WinsAgainstOneMore(xs: seq<real>, ys: seq<real>, y: real)
    ensures Wins(xs, ys + [y]) == Wins(xs, ys) + Above(y, xs)
    ensures Losses(xs, ys + [y]) == Losses(xs, ys) + Below(y, xs)
  {
    if xs != [] {
      WinsAgainstOneMore(xs[..|xs| - 1], ys, y);
      assert (ys + [y])[..|ys|] == ys;
    }
  }

  lemma {:induction false} NothingAgainstNobody(xs: seq<real>)
    ensures Wins(xs, []) == 0 && Losses(xs, []) == 0
  {
    if xs != [] {
      NothingAgainstNobody(xs[..|xs| - 1]);
    }
  }

  /** What the first sample wins the second one loses. */
  lemma {:induction false} WinsAreTheOthersLosses(xs: seq<real>, ys: seq<real>)
    ensures Wins(xs, ys) == Losses(ys, xs) && Losses(xs, ys) == Wins(ys, xs)
  {
    if ys == [] {
      NothingAgainstNobody(xs);
    } else {
      var init, y := ys[..|ys| - 1], ys[|ys| - 1];
      WinsAreTheOthersLosses(xs, init);
      WinsAgainstOneMore(xs, init, y);
      assert ys == init + [y];
    }
  }

  lemma NegatedQuotient(a: int, b: int)
    requires b != 0
    ensures (-a) as real / b as real == -(a as real / b as real)
  {
  }

  lemma DeltaIsAntisymmetric(xs: seq<real>, ys: seq<real>)
    ensures Delta(ys, xs) == -Delta(xs, ys)
    ensures Delta(xs, xs) == 0.0
  {
    WinsAreTheOthersLosses(xs, ys);
    WinsAreTheOthersLosses(xs, xs);
    if |xs| > 0 && |ys| > 0 {
      PairsArePositive(|xs|, |ys|);
      assert |ys| * |xs| == |xs| * |ys|;
      NegatedQuotient(Wins(xs, ys) - Losses(xs, ys), |xs| * |ys|);
    }
    if |xs| > 0 {
      PairsArePositive(|xs|, |xs|);
    }
  }

  // ----- the order of either sample is irrelevant ------------------------------------------

  lemma {:induction false} BelowIsACount(x: real, ys: seq<real>, k: nat)
    requires k < |ys|
    ensures Below(x, ys) == Below(x, ys[..k] + ys[k + 1..]) + if x > ys[k] then 1 else 0
    ensures Above(x, ys) == Above(x, ys[..k] + ys[k + 1..]) + if x < ys[k] then 1 else 0
  {
    var without := ys[..k] + ys[k + 1..];
    if k == |ys| - 1 {
      assert without == ys[..k];
    } else {
      var init := ys[..|ys| - 1];
      BelowIsACount(x, init, k);
      assert without[..|without| - 1] == init[..k] + init[k + 1..];
    }
  }

  lemma {:induction false} CountsIgnoreTheOrder(x: real, ys: seq<real>, zs: seq<real>)
    requires multiset(ys) == multiset(zs)
    ensures Below(x, ys) == Below(x, zs) && Above(x, ys) == Above(x, zs)
  {
    if ys != [] {
      var k := AlsoIn(ys, zs, |ys| - 1);
      LastAndFirst(ys, zs, k);
      CountsIgnoreTheOrder(x, ys[..|ys| - 1], zs[..k] + zs[k + 1..]);
      BelowIsACount(x, zs, k);
    } else {
      assert |multiset(zs)| == |zs|;
    }
  }

  lemma {:induction false} WinsIgnoreTheOpponentsOrder(xs: seq<real>, ys: seq<real>, zs: seq<real>)
    requires multiset(ys) == multiset(zs)
    ensures Wins(xs, ys) == Wins(xs, zs) && Losses(xs, ys) == Losses(xs, zs)
  {
    if xs != [] {
      WinsIgnoreTheOpponentsOrder(xs[..|xs| - 1], ys, zs);
      CountsIgnoreTheOrder(xs[|xs| - 1], ys, zs);
    }
  }

  /** Delta depends on the two multisets of values only; in particular it is zero when they coincide. */
  lemma DeltaIgnoresTheOrder(xs: seq<real>, us: seq<real>, ys: seq<real>, vs: seq<real>)
    requires multiset(xs) == multiset(us) && multiset(ys) == multiset(vs)
    ensures Delta(xs, ys) == Delta(us, vs)
    ensures Delta(xs, us) == 0.0
  {
    assert |multiset(xs)| == |xs| && |multiset(us)| == |us| && |multiset(ys)| == |ys| && |multiset(vs)| == |vs|;
    WinsIgnoreTheOpponentsOrder(xs, ys, vs);
    WinsAreTheOthersLosses(xs, vs);
    WinsIgnoreTheOpponentsOrder(vs, xs, us);
    WinsAreTheOthersLosses(us, vs);
    WinsIgnoreTheOpponentsOrder(xs, us, xs);
    DeltaIsAntisymmetric(xs, xs);
  }

  // ----- range, and what the ends mean ---------------------------------------------------------

  ghost predicate Dominates(xs: seq<real>, ys: seq<real>) {
    forall x, y :: x in xs && y in ys ==> x > y
  }

  lemma {:induction false} CountsAgainst(x: real, ys: seq<real>)
    ensures Below(x, ys) + Above(x, ys) <= |ys|
    ensures Below(x, ys) == |ys| <==> forall y :: y in ys ==> x > y
  {
    if ys != [] {
      var init, y := ys[..|ys| - 1], ys[|ys| - 1];
      CountsAgainst(x, init);
      assert ys == init + [y];
      assert y in ys && forall z :: z in ys <==> z in init || z == y;
    }
  }

  lemma {:induction false} CountsOfPairs(xs: seq<real>, ys: seq<real>)
    ensures Wins(xs, ys) + Losses(xs, ys) <= |xs| * |ys|
    ensures Wins(xs, ys) == |xs| * |ys| <==> Dominates(xs, ys)
  {
    if xs != [] {
      var init, x := xs[..|xs| - 1], xs[|xs| - 1];
      CountsOfPairs(init, ys);
      CountsAgainst(x, ys);
      assert Wins(xs, ys) == Wins(init, ys) + Below(x, ys) && Losses(xs, ys) == Losses(init, ys) + Above(x, ys);
      assert xs == init + [x];
      DominatesOneMore(init, x, ys);
      OneMoreRow(|init|, |ys|);
    }
  }

  lemma DominatesOneMore(init: seq<real>, x: real, ys: seq<real>)
    ensures Dominates(init + [x], ys) <==> Dominates(init, ys) && forall y :: y in ys ==> x > y
  {
    assert x in init + [x] && forall z :: z in init + [x] <==> z in init || z == x;
  }

  lemma OneMoreRow(m: nat, n: nat)
    ensures (m + 1) * n == m * n + n
  {
  }

  lemma RatioInUnitRange(a: int, b: int)
    requires b > 0 && -b <= a <= b
    ensures -1.0 <= a as real / b as real <= 1.0
    ensures a as real / b as real == 1.0 <==> a == b
  {
    var q := a as real / b as real;
    assert q * b as real == a as real;
    if a == b {
      assert (q - 1.0) * b as real == 0.0;
    }
  }

  /** Delta is in [-1, 1], and 1 exactly when there is something to compare and every first value exceeds every second. */
  lemma DeltaIsInRange(xs: seq<real>, ys: seq<real>)
    ensures -1.0 <= Delta(xs, ys) <= 1.0
    ensures Delta(xs, ys) == 1.0 <==> |xs| > 0 && |ys| > 0 && Dominates(xs, ys)
    ensures Delta(xs, ys) == -1.0 <==> |xs| > 0 && |ys| > 0 && Dominates(ys, xs)
  {
    DeltaAtTheTop(xs, ys);
    DeltaAtTheTop(ys, xs);
    DeltaIsAntisymmetric(xs, ys);
  }

  lemma DeltaAtTheTop(xs: seq<real>, ys: seq<real>)
    ensures -1.0 <= Delta(xs, ys) <= 1.0
    ensures Delta(xs, ys) == 1.0 <==> |xs| > 0 && |ys| > 0 && Dominates(xs, ys)
  {
    if |xs| > 0 && |ys| > 0 {
      CountsOfPairs(xs, ys);
      PairsArePositive(|xs|, |ys|);
      RatioInUnitRange(Wins(xs, ys) - Losses(xs, ys), |xs| * |ys|);
    }
  }

  // ----- an ordinal effect ---------------------------------------------------------------------

  ghost predicate StrictlyIncreasing(f: real -> real) {
    forall x, y :: x < y ==> f(x) < f(y)
  }

  function Rescaled(f: real -> real, xs: seq<real>): seq<real> {
    seq(|xs|, i requires 0 <= i < |xs| => f(xs[i]))
  }

  lemma {:induction false} CountsAreOrdinal(f: real -> real, x: real, ys: seq<real>)
    requires StrictlyIncreasing(f)
    ensures Below(f(x), Rescaled(f, ys)) == Below(x, ys) && Above(f(x), Rescaled(f, ys)) == Above(x, ys)
  {
    if ys != [] {
      CountsAreOrdinal(f, x, ys[..|ys| - 1]);
      assert Rescaled(f, ys)[..|ys| - 1] == Rescaled(f, ys[..|ys| - 1]);
    }
  }

  lemma {:induction false} PairsAreOrdinal(f: real -> real, xs: seq<real>, ys: seq<real>)
    requires StrictlyIncreasing(f)
    ensures Wins(Rescaled(f, xs), Rescaled(f, ys)) == Wins(xs, ys)
    ensures Losses(Rescaled(f, xs), Rescaled(f, ys)) == Losses(xs, ys)
  {
    if xs != [] {
      PairsAreOrdinal(f, xs[..|xs| - 1], ys);
      CountsAreOrdinal(f, xs[|xs| - 1], ys);
      assert Rescaled(f, xs)[..|xs| - 1] == Rescaled(f, xs[..|xs| - 1]);
    }
  }

  /** No unit or scale matters: any strictly increasing change of measure leaves delta as it was. */
  lemma DeltaIsOrdinal(f: real -> real, xs: seq<real>, ys: seq<real>)
    requires StrictlyIncreasing(f)
    ensures Delta(Rescaled(f, xs), Rescaled(f, ys)) == Delta(xs, ys)
  {
    PairsAreOrdinal(f, xs, ys);
  }

  // ----- the interval ------------------------------------------------------------------------------

  const DELTA_ROUNDS: nat := 400

  /** `seed ^ 0x5f5f`, as the generator reads it. */
  function DeltaSeed(seed: int): int {
    (ToUint32(seed) as bv32 ^ 0x5f5f) as int
  }

  /** The generator after `rounds` pairs of resamples. */
  function StateAtDelta(s: int, m: nat, n: nat, rounds: nat): int {
    if rounds == 0 then s else StateAfter(StateAfter(StateAtDelta(s, m, n, rounds - 1), m), n)
  }

  function Deltas(a: seq<real>, b: seq<real>, s: int, rounds: nat): (ds: seq<real>)
    ensures |ds| == rounds
  {
    if rounds == 0 then []
    else
      var start := StateAtDelta(s, |a|, |b|, rounds - 1);
      Deltas(a, b, s, rounds - 1) + [Delta(Resample(a, start), Resample(b, StateAfter(start, |a|)))]
  }

  datatype Effect = Effect(delta: real, ci95: Option<Interval>, nA: nat, nB: nat, separates: bool)

  function DeltaInterval(a: seq<real>, b: seq<real>, seed: int): Option<Interval> {
    if |a| >= 8 && |b| >= 8 then Some(Percentiles(Deltas(a, b, ToUint32(DeltaSeed(seed)), DELTA_ROUNDS))) else None
  }

  method ResampleFrom(values: seq<real>, rng: Rng) returns (r: seq<real>)
    requires |values| > 0
    modifies rng
    ensures r == Resample(values, old(rng.s)) && rng.s == StateAfter(old(rng.s), |values|)
  {
    r := [];
    var i := 0;
    while i < |values|
      invariant i <= |values| && |r| == i
      invariant rng.s == StateAfter(old(rng.s), i)
      invariant forall k :: 0 <= k < i ==> r[k] == DrawValue(values, old(rng.s), k)
    {
      var index := rng.NextIndex(|values|);
      r := r + [values[index]];
      i := i + 1;
    }
    assert r == Resample(values, old(rng.s));
  }

  method ResampledDeltas(a: seq<real>, b: seq<real>, rng: Rng, rounds: nat) returns (ds: seq<real>)
    requires |a| > 0 && |b| > 0
    modifies rng
    ensures ds == Deltas(a, b, old(rng.s), rounds)
  {
    ds := [];
    var i := 0;
    while i < rounds
      invariant i <= rounds
      invariant rng.s == StateAtDelta(old(rng.s), |a|, |b|, i)
      invariant ds == Deltas(a, b, old(rng.s), i)
    {
      var ra := ResampleFrom(a, rng);
      var rb := ResampleFrom(b, rng);
      var d := Raw(ra, rb);
      ds := ds + [d];
      i := i + 1;
    }
  }

  method Compare(a: seq<real>, b: seq<real>, seed: int) returns (e: Effect)
    ensures e.delta == Delta(a, b) && e.nA == |a| && e.nB == |b|
    ensures e.ci95 == DeltaInterval(a, b, seed)
    ensures e.separates <==> e.ci95.Some? && !(e.ci95.value.low <= 0.0 <= e.ci95.value.high)
  {
    var delta := Raw(a, b);
    var ci: Option<Interval> := None;
    if |a| >= 8 && |b| >= 8 {
      var rng := new Rng(DeltaSeed(seed));
      var ds := ResampledDeltas(a, b, rng, DELTA_ROUNDS);
      ci := Some(Percentiles(ds));
    }
    DeltaIntervalIsInRange(a, b, seed);
    e := Effect(delta, ci, |a|, |b|, ci.Some? && (ci.value.low > 0.0 || ci.value.high < 0.0));
  }

  lemma {:induction false} DeltasStayInRange(a: seq<real>, b: seq<real>, s: int, rounds: nat)
    ensures AllWithin(Deltas(a, b, s, rounds), -1.0, 1.0)
  {
    if rounds > 0 {
      DeltasStayInRange(a, b, s, rounds - 1);
      var start := StateAtDelta(s, |a|, |b|, rounds - 1);
      DeltaIsInRange(Resample(a, start), Resample(b, StateAfter(start, |a|)));
    }
  }

  /** The interval is there exactly when both samples have eight values; it is ordered and stays in [-1, 1]. */
  lemma DeltaIntervalIsInRange(a: seq<real>, b: seq<real>, seed: int)
    ensures DeltaInterval(a, b, seed).Some? <==> |a| >= 8 && |b| >= 8
    ensures |a| >= 8 && |b| >= 8 ==> var ci := DeltaInterval(a, b, seed).value; -1.0 <= ci.low <= ci.high <= 1.0
  {
    if |a| >= 8 && |b| >= 8 {
      DeltasStayInRange(a, b, ToUint32(DeltaSeed(seed)), DELTA_ROUNDS);
      PercentilesAreOrderedAndWithin(Deltas(a, b, ToUint32(DeltaSeed(seed)), DELTA_ROUNDS), -1.0, 1.0);
    }
  }

  // ----- the interval, draw by draw -------------------------------------------------------

  /** `d` is the delta of as many values of `a` picked after `from` and as many of `b` after those. */
  ghost predicate DeltaOfPicks(a: seq<real>, b: seq<real>, state: nat -> int, from: nat, d: real) {
    exists ra, rb :: PickedIn(a, state, from, ra) && PickedIn(b, state, from + |a|, rb) && d == Delta(ra, rb)
  }

  /** As many values as `r` has, picked one after the other. */
  ghost predicate PickedIn(values: seq<real>, state: nat -> int, from: nat, r: seq<real>) {
    |r| == |values| && PickedInARow(values, state, from, r)
  }

  ghost predicate DeltasOfPicks(a: seq<real>, b: seq<real>, state: nat -> int, ds: seq<real>) {
    forall k: nat, from: nat :: k < |ds| && from == k * (|a| + |b|) ==> DeltaOfPicks(a, b, state, from, ds[k])
  }

  lemma {:induction false} PairsOfRoundsAreDraws(s: int, m: nat, n: nat, rounds: nat)
    ensures StateAtDelta(s, m, n, rounds) == StateAfter(s, rounds * (m + n))
  {
    if rounds > 0 {
      var from := (rounds - 1) * (m + n);
      PairsOfRoundsAreDraws(s, m, n, rounds - 1);
      StatesJoin(s, from, m);
      StatesJoin(s, from + m, n);
      OneRoundMore(rounds, m + n);
    }
  }

  lemma {:induction false} DeltaOfARound(a: seq<real>, b: seq<real>, s: int, rounds: nat, k: nat)
    requires k < rounds
    ensures var start := StateAtDelta(s, |a|, |b|, k);
            Deltas(a, b, s, rounds)[k] == Delta(Resample(a, start), Resample(b, StateAfter(start, |a|)))
  {
    if k < rounds - 1 {
      DeltaOfARound(a, b, s, rounds - 1, k);
    }
  }

  lemma PicksGiveADelta(a: seq<real>, b: seq<real>, state: nat -> int, from: nat, ra: seq<real>, rb: seq<real>, d: real)
    requires PickedIn(a, state, from, ra) && PickedIn(b, state, from + |a|, rb) && d == Delta(ra, rb)
    ensures DeltaOfPicks(a, b, state, from, d)
  {
  }

  lemma ResamplesArePicked(values: seq<real>, seed: int, from: nat)
    ensures PickedIn(values, StatesFrom(seed), from, Resample(values, StateAfter(ToUint32(seed), from)))
  {
    ResampleIsPicked(values, seed, from);
  }

  lemma RoundStarts(s: int, m: nat, n: nat, k: nat, from: nat)
    requires from == k * (m + n)
    ensures StateAtDelta(s, m, n, k) == StateAfter(s, from)
    ensures StateAfter(StateAtDelta(s, m, n, k), m) == StateAfter(s, from + m)
  {
    PairsOfRoundsAreDraws(s, m, n, k);
    StatesJoin(s, from, m);
  }

  /** The two resamples of round `k`, and what is left of them. */
  lemma ResamplesOfARound(a: seq<real>, b: seq<real>, s: int, rounds: nat, k: nat, from: nat) returns (ra: seq<real>, rb: seq<real>)
    requires k < rounds && from == k * (|a| + |b|)
    ensures ra == Resample(a, StateAfter(s, from)) && rb == Resample(b, StateAfter(s, from + |a|))
    ensures Deltas(a, b, s, rounds)[k] == Delta(ra, rb)
  {
    var start := StateAtDelta(s, |a|, |b|, k);
    RoundStarts(s, |a|, |b|, k, from);
    ra, rb := Resample(a, start), Resample(b, StateAfter(start, |a|));
    DeltaOfARound(a, b, s, rounds, k);
  }

  lemma DeltaIsPicked(a: seq<real>, b: seq<real>, seed: int, rounds: nat, k: nat, from: nat)
    requires k < rounds && from == k * (|a| + |b|)
    ensures DeltaOfPicks(a, b, StatesFrom(seed), from, Deltas(a, b, ToUint32(seed), rounds)[k])
  {
    var ra, rb := ResamplesOfARound(a, b, ToUint32(seed), rounds, k, from);
    ResamplesArePicked(a, seed, from);
    ResamplesArePicked(b, seed, from + |a|);
    PicksGiveADelta(a, b, StatesFrom(seed), from, ra, rb, Deltas(a, b, ToUint32(seed), rounds)[k]);
  }

  lemma DeltasArePicked(a: seq<real>, b: seq<real>, seed: int, rounds: nat)
    ensures DeltasOfPicks(a, b, StatesFrom(seed), Deltas(a, b, ToUint32(seed), rounds))
  {
    var ds := Deltas(a, b, ToUint32(seed), rounds);
    forall k: nat, from: nat | k < |ds| && from == k * (|a| + |b|)
      ensures DeltaOfPicks(a, b, StatesFrom(seed), from, ds[k])
    {
      DeltaIsPicked(a, b, seed, rounds, k, from);
    }
  }

  /** Two resamples of one sample from one place are one. */
  ghost predicate OnePick(values: seq<real>, s: nat -> int, t: nat -> int, from: nat) {
    forall r, q :: PickedIn(values, s, from, r) && PickedIn(values, t, from, q) ==> r == q
  }

  lemma OnlyOnePick(values: seq<real>, s: nat -> int, t: nat -> int, start: int, from: nat)
    requires AreStates(s, start) && AreStates(t, start)
    ensures OnePick(values, s, t, from)
  {
    forall r, q | PickedIn(values, s, from, r) && PickedIn(values, t, from, q) ensures r == q {
      PickedInIsDetermined(values, s, t, start, from, r, q);
    }
  }

  lemma SamePicksSameDelta(a: seq<real>, b: seq<real>, s: nat -> int, t: nat -> int, from: nat, d: real, e: real)
    requires DeltaOfPicks(a, b, s, from, d) && DeltaOfPicks(a, b, t, from, e)
    requires OnePick(a, s, t, from) && OnePick(b, s, t, from + |a|)
    ensures d == e
  {
  }

  lemma ADeltaOfPicksIsDetermined(a: seq<real>, b: seq<real>, s: nat -> int, t: nat -> int, start: int, from: nat, d: real, e: real)
    requires AreStates(s, start) && AreStates(t, start)
    requires DeltaOfPicks(a, b, s, from, d) && DeltaOfPicks(a, b, t, from, e)
    ensures d == e
  {
    OnlyOnePick(a, s, t, start, from);
    OnlyOnePick(b, s, t, start, from + |a|);
    SamePicksSameDelta(a, b, s, t, from, d, e);
  }

  lemma PickedInIsDetermined(values: seq<real>, s: nat -> int, t: nat -> int, start: int, from: nat, r: seq<real>, q: seq<real>)
    requires AreStates(s, start) && AreStates(t, start) && PickedIn(values, s, from, r) && PickedIn(values, t, from, q)
    ensures r == q
  {
    PicksAreDetermined(values, s, t, start, from, r, q);
  }

  lemma DeltasAreDetermined(a: seq<real>, b: seq<real>, s: nat -> int, t: nat -> int, start: int, ds: seq<real>, es: seq<real>)
    requires AreStates(s, start) && AreStates(t, start) && |ds| == |es|
    requires DeltasOfPicks(a, b, s, ds) && DeltasOfPicks(a, b, t, es)
    ensures ds == es
  {
    forall k: nat | k < |ds| ensures ds[k] == es[k] {
      var from := k * (|a| + |b|);
      ADeltaOfPicksIsDetermined(a, b, s, t, start, from, ds[k], es[k]);
    }
  }

  lemma PercentilesOfFourHundred(estimates: seq<real>)
    requires |estimates| == 400
    ensures var sorted := SortNumbers(estimates);
            && |sorted| == 400 && Ascending(sorted) && multiset(sorted) == multiset(estimates)
            && Percentiles(estimates)
               == Interval(0.025 * sorted[9] + 0.975 * sorted[10], 0.975 * sorted[389] + 0.025 * sorted[390])
  {
    var sorted := SortNumbers(estimates);
    SortNumbersSorts(estimates);
    QuantileInterpolatesNeighbours(sorted, 0.025, 9, 0.975);
    QuantileInterpolatesNeighbours(sorted, 0.975, 389, 0.025);
  }

  /**
   * The interval from the generator up: four hundred deltas, each of as many values as
   * the two samples have, picked by consecutive draws; put in order, the interval reads
   * them at 9.975 and at 389.025 of 399.
   */
  lemma TheDeltaIntervalIsOfTheDraws(a: seq<real>, b: seq<real>, seed: int) returns (state: nat -> int, ds: seq<real>, sorted: seq<real>)
    requires |a| >= 8 && |b| >= 8
    ensures AreStates(state, ((seed % 0x1_0000_0000) as bv32 ^ 0x5f5f) as int)
    ensures |ds| == 400 && DeltasOfPicks(a, b, state, ds)
    ensures Ascending(sorted) && multiset(sorted) == multiset(ds) && |sorted| == 400
    ensures DeltaInterval(a, b, seed)
            == Some(Interval(0.025 * sorted[9] + 0.975 * sorted[10], 0.975 * sorted[389] + 0.025 * sorted[390]))
  {
    state := StatesFrom(DeltaSeed(seed));
    ds := Deltas(a, b, ToUint32(DeltaSeed(seed)), DELTA_ROUNDS);
    sorted := SortNumbers(ds);
    StatesAreStates(DeltaSeed(seed));
    DeltasArePicked(a, b, DeltaSeed(seed), DELTA_ROUNDS);
    PercentilesOfFourHundred(ds);
  }

  /** Whatever states, deltas and order meet that description, the interval read off them is the one computed. */
  lemma TheDrawsDetermineTheDeltaInterval(a: seq<real>, b: seq<real>, seed: int, state: nat -> int, ds: seq<real>, sorted: seq<real>)
    requires |a| >= 8 && |b| >= 8 && AreStates(state, ((seed % 0x1_0000_0000) as bv32 ^ 0x5f5f) as int)
    requires |ds| == 400 && DeltasOfPicks(a, b, state, ds)
    requires Ascending(sorted) && multiset(sorted) == multiset(ds) && |sorted| == 400
    ensures DeltaInterval(a, b, seed)
            == Some(Interval(0.025 * sorted[9] + 0.975 * sorted[10], 0.975 * sorted[389] + 0.025 * sorted[390]))
  {
    var state', ds', sorted' := TheDeltaIntervalIsOfTheDraws(a, b, seed);
    DeltasAreDetermined(a, b, state, state', ((seed % 0x1_0000_0000) as bv32 ^ 0x5f5f) as int, ds, ds');
    AscendingIsUnique(sorted, sorted');
  }
}
