/**
 * How measured rounds become a bundle (scripts/board-arms.ts): `collect` and
 * `summarise`, against the validator that has to accept what they write.
 */
module ArmCollector {
  import opened Options
  import opened Quantiles
  import opened StableSort
  import opened ArmValidator

  datatype Measurement = Measurement(
    arm: Arm, inputTokens: int, outputTokens: int, cacheWriteTokens: int, cacheReadTokens: int, workTokens: int,
    costUsd: real, wallClockMs: int, apiCalls: int, delivered: bool, model: string, effort: string, sandboxTreeSha: string)

  function AsEntry(m: Measurement): Entry {
    Run(Some(m.arm),
        Some(Usage(Count(m.inputTokens as real), Count(m.outputTokens as real), Count(m.cacheWriteTokens as real),
                   Count(m.cacheReadTokens as real), Count(m.workTokens as real))),
        Some(m.sandboxTreeSha), Some(m.model), Some(m.effort))
  }

  /** Every figure of a run is written under its own name. */
  lemma FiguresKeepTheirNames(m: Measurement)
    ensures AsEntry(m).arm == Some(m.arm) && AsEntry(m).usage.Some?
    ensures var u := AsEntry(m).usage.value;
            && FieldOf(u, InputTokens) == Count(m.inputTokens as real) && FieldOf(u, OutputTokens) == Count(m.outputTokens as real)
            && FieldOf(u, CacheWriteTokens) == Count(m.cacheWriteTokens as real) && FieldOf(u, CacheReadTokens) == Count(m.cacheReadTokens as real)
            && FieldOf(u, WorkTokens) == Count(m.workTokens as real)
  {
  }

  function AsEntries(ms: seq<Measurement>): (es: seq<Entry>)
    ensures |es| == |ms| && forall i :: 0 <= i < |ms| ==> es[i] == AsEntry(ms[i])
  {
    if ms == [] then [] else AsEntries(ms[..|ms| - 1]) + [AsEntry(ms[|ms| - 1])]
  }

  // ----- the summary ---------------------------------------------------------------------

  datatype Spread = Spread(min: real, median: real, max: real)

  function SpreadOf(values: seq<real>): Spread {
    var s := SortNumbers(values);
    var mid := |s| / 2;
    var median :=
      if |s| == 0 then 0.0
      else if |s| % 2 == 1 then At(s, mid, 0.0)
      else (At(s, mid - 1, 0.0) + At(s, mid, 0.0)) / 2.0;
    Spread(At(s, 0, 0.0), median, At(s, |s| - 1, 0.0))
  }

  /** The median of a spread is the quantile at one half, and lies between two values that bound the whole sample. */
  lemma SpreadBoundsTheSample(values: seq<real>)
    ensures SpreadOf(values).median == MedianOf(SortNumbers(values))
    ensures values != [] ==> SpreadOf(values).min in values && SpreadOf(values).max in values
    ensures forall x :: x in values ==> SpreadOf(values).min <= x <= SpreadOf(values).max
    ensures SpreadOf(values).min <= SpreadOf(values).median <= SpreadOf(values).max
  {
    var s := SortNumbers(values);
    SortNumbersSorts(values);
    if values != [] {
      MedianIsTheMiddle(s);
      QuantileIsWithinTheSample(s, 0.5);
      forall x | x in values ensures s[0] <= x <= s[|s| - 1] {
        var i :| 0 <= i < |s| && s[i] == x;
      }
    }
  }

  function RunsBy(ms: seq<Measurement>, a: Arm): seq<Measurement> {
    if ms == [] then []
    else
      var last := ms[|ms| - 1];
      RunsBy(ms[..|ms| - 1], a) + if last.arm == a then [last] else []
  }

  lemma {:induction false} RunsByMembers(ms: seq<Measurement>, a: Arm)
    ensures forall m :: m in RunsBy(ms, a) <==> m in ms && m.arm == a
  {
    if ms != [] {
      RunsByMembers(ms[..|ms| - 1], a);
      assert forall m :: m in ms <==> m in ms[..|ms| - 1] || m == ms[|ms| - 1];
    }
  }

  function Values(ms: seq<Measurement>, f: Measurement -> real): seq<real> {
    seq(|ms|, i requires 0 <= i < |ms| => f(ms[i]))
  }

  function Delivered(ms: seq<Measurement>): nat {
    if ms == [] then 0 else Delivered(ms[..|ms| - 1]) + if ms[|ms| - 1].delivered then 1 else 0
  }

  datatype ArmSummary = ArmSummary(arm: Arm, runs: nat, delivered: nat, workTokens: Spread, cacheReadTokens: Spread,
                                   costUsd: Spread, wallClockMs: Spread, apiCalls: Spread)

  function SummaryOfArm(a: Arm, runs: seq<Measurement>): ArmSummary {
    ArmSummary(a, |runs|, Delivered(runs),
               SpreadOf(Values(runs, (m: Measurement) => m.workTokens as real)),
               SpreadOf(Values(runs, (m: Measurement) => m.cacheReadTokens as real)),
               SpreadOf(Values(runs, (m: Measurement) => m.costUsd)),
               SpreadOf(Values(runs, (m: Measurement) => m.wallClockMs as real)),
               SpreadOf(Values(runs, (m: Measurement) => m.apiCalls as real)))
  }

  /** One entry for each of the arms `ids` that ran, in that order. */
  function SummaryOf(all: seq<Measurement>, ids: seq<Arm>): seq<ArmSummary> {
    if ids == [] then []
    else
      var a := ids[|ids| - 1];
      var runs := RunsBy(all, a);
      SummaryOf(all, ids[..|ids| - 1]) + if runs == [] then [] else [SummaryOfArm(a, runs)]
  }

  method Summarise(all: seq<Measurement>) returns (out: seq<ArmSummary>)
    ensures out == SummaryOf(all, ARM_IDS)
  {
    out := [];
    for i := 0 to |ARM_IDS|
      invariant out == SummaryOf(all, ARM_IDS[..i])
    {
      assert ARM_IDS[..i + 1][..i] == ARM_IDS[..i];
      var id := ARM_IDS[i];
      var runs := RunsBy(all, id);
      if runs == [] { continue; }
      out := out + [SummaryOfArm(id, runs)];
    }
    assert ARM_IDS[..|ARM_IDS|] == ARM_IDS;
  }

  lemma {:induction false} RunsByCounts(ms: seq<Measurement>, a: Arm)
    ensures |RunsBy(ms, a)| == RunsOf(AsEntries(ms), a)
  {
    if ms != [] {
      RunsByCounts(ms[..|ms| - 1], a);
      assert AsEntries(ms)[..|ms| - 1] == AsEntries(ms[..|ms| - 1]);
    }
  }

  lemma {:induction false} SummaryEntries(all: seq<Measurement>, ids: seq<Arm>)
    ensures forall s :: s in SummaryOf(all, ids) <==> s.arm in ids && RunsBy(all, s.arm) != [] && s == SummaryOfArm(s.arm, RunsBy(all, s.arm))
  {
    if ids != [] {
      SummaryEntries(all, ids[..|ids| - 1]);
      assert forall a :: a in ids <==> a in ids[..|ids| - 1] || a == ids[|ids| - 1];
    }
  }

  /** Every figure of an arm's summary bounds that figure of each of its runs; `delivered` is between none and all of them. */
  lemma SummaryBoundsEveryRun(all: seq<Measurement>, s: ArmSummary, m: Measurement)
    requires s in SummaryOf(all, ARM_IDS) && m in all && m.arm == s.arm
    ensures s.workTokens.min <= m.workTokens as real <= s.workTokens.max
    ensures s.cacheReadTokens.min <= m.cacheReadTokens as real <= s.cacheReadTokens.max
    ensures s.costUsd.min <= m.costUsd <= s.costUsd.max
    ensures s.wallClockMs.min <= m.wallClockMs as real <= s.wallClockMs.max
    ensures s.apiCalls.min <= m.apiCalls as real <= s.apiCalls.max
    ensures s.runs == |RunsBy(all, m.arm)| && (m.delivered ==> s.delivered > 0) && (!m.delivered ==> s.delivered < s.runs)
  {
    SummaryEntries(all, ARM_IDS);
    var runs := RunsBy(all, m.arm);
    RunsByMembers(all, m.arm);
    assert m in runs;
    ValueIsBounded(runs, (r: Measurement) => r.workTokens as real, m);
    ValueIsBounded(runs, (r: Measurement) => r.cacheReadTokens as real, m);
    ValueIsBounded(runs, (r: Measurement) => r.costUsd, m);
    ValueIsBounded(runs, (r: Measurement) => r.wallClockMs as real, m);
    ValueIsBounded(runs, (r: Measurement) => r.apiCalls as real, m);
    DeliveredIsACount(runs, m);
  }

  lemma ValueIsBounded(ms: seq<Measurement>, f: Measurement -> real, m: Measurement)
    requires m in ms
    ensures SpreadOf(Values(ms, f)).min <= f(m) <= SpreadOf(Values(ms, f)).max
  {
    var i :| 0 <= i < |ms| && ms[i] == m;
    assert Values(ms, f)[i] in Values(ms, f);
    SpreadBoundsTheSample(Values(ms, f));
  }

  lemma {:induction false} DeliveredIsACount(ms: seq<Measurement>, m: Measurement)
    ensures Delivered(ms) <= |ms|
    ensures m in ms && m.delivered ==> Delivered(ms) > 0
    ensures m in ms && !m.delivered ==> Delivered(ms) < |ms|
  {
    if ms != [] {
      DeliveredIsACount(ms[..|ms| - 1], m);
      assert m in ms <==> m in ms[..|ms| - 1] || m == ms[|ms| - 1];
    }
  }

  /** The positions of an arm's runs, or of those of them that delivered. */
  ghost function RunsAmong(all: seq<Measurement>, a: Arm, deliveredOnly: bool): set<int> {
    set i | 0 <= i < |all| && all[i].arm == a && (deliveredOnly ==> all[i].delivered)
  }

  lemma OneMoreAmong(init: seq<Measurement>, last: Measurement, a: Arm, deliveredOnly: bool)
    ensures |RunsAmong(init + [last], a, deliveredOnly)|
            == |RunsAmong(init, a, deliveredOnly)| + if last.arm == a && (deliveredOnly ==> last.delivered) then 1 else 0
  {
    var all, n := init + [last], |init|;
    assert RunsAmong(all, a, deliveredOnly)
        == RunsAmong(init, a, deliveredOnly) + if last.arm == a && (deliveredOnly ==> last.delivered) then {n} else {};
  }

  lemma DeliveredOneMore(runs: seq<Measurement>, m: Measurement)
    ensures Delivered(runs + [m]) == Delivered(runs) + if m.delivered then 1 else 0
  {
    assert (runs + [m])[..|runs|] == runs;
  }

  lemma {:induction false} RunsAreCountedOnce(all: seq<Measurement>, a: Arm)
    ensures |RunsBy(all, a)| == |RunsAmong(all, a, false)|
    ensures Delivered(RunsBy(all, a)) == |RunsAmong(all, a, true)|
  {
    if all == [] {
      assert RunsAmong(all, a, false) == {} && RunsAmong(all, a, true) == {};
    } else {
      var init, last := all[..|all| - 1], all[|all| - 1];
      assert all == init + [last];
      RunsAreCountedOnce(init, a);
      OneMoreAmong(init, last, a, false);
      OneMoreAmong(init, last, a, true);
      if last.arm == a {
        DeliveredOneMore(RunsBy(init, a), last);
      } else {
        assert RunsBy(init, a) + [] == RunsBy(init, a);
      }
    }
  }

  lemma FigureIsAttained(runs: seq<Measurement>, f: Measurement -> real)
    requires runs != []
    ensures exists m :: m in runs && f(m) == SpreadOf(Values(runs, f)).min
    ensures exists m :: m in runs && f(m) == SpreadOf(Values(runs, f)).max
  {
    var values := Values(runs, f);
    SpreadBoundsTheSample(values);
    var i: nat :| i < |values| && values[i] == SpreadOf(values).min;
    var j: nat :| j < |values| && values[j] == SpreadOf(values).max;
    assert runs[i] in runs && runs[j] in runs;
  }

  /** Runs and deliveries are counted over all measurements, and every extreme is that of some run. */
  lemma SummaryFiguresAreOfRuns(all: seq<Measurement>, s: ArmSummary)
    requires s in SummaryOf(all, ARM_IDS)
    ensures s.runs == |RunsAmong(all, s.arm, false)| && s.delivered == |RunsAmong(all, s.arm, true)|
    ensures var runs := RunsBy(all, s.arm);
            && (exists m :: m in runs && m.workTokens as real == s.workTokens.min)
            && (exists m :: m in runs && m.workTokens as real == s.workTokens.max)
            && (exists m :: m in runs && m.cacheReadTokens as real == s.cacheReadTokens.min)
            && (exists m :: m in runs && m.cacheReadTokens as real == s.cacheReadTokens.max)
            && (exists m :: m in runs && m.costUsd == s.costUsd.min)
            && (exists m :: m in runs && m.costUsd == s.costUsd.max)
            && (exists m :: m in runs && m.wallClockMs as real == s.wallClockMs.min)
            && (exists m :: m in runs && m.wallClockMs as real == s.wallClockMs.max)
            && (exists m :: m in runs && m.apiCalls as real == s.apiCalls.min)
            && (exists m :: m in runs && m.apiCalls as real == s.apiCalls.max)
  {
    SummaryEntries(all, ARM_IDS);
    var runs := RunsBy(all, s.arm);
    RunsAreCountedOnce(all, s.arm);
    FigureIsAttained(runs, (r: Measurement) => r.workTokens as real);
    FigureIsAttained(runs, (r: Measurement) => r.cacheReadTokens as real);
    FigureIsAttained(runs, (r: Measurement) => r.costUsd);
    FigureIsAttained(runs, (r: Measurement) => r.wallClockMs as real);
    FigureIsAttained(runs, (r: Measurement) => r.apiCalls as real);
  }

  function TotalRuns(summary: seq<ArmSummary>): nat {
    if summary == [] then 0 else TotalRuns(summary[..|summary| - 1]) + summary[|summary| - 1].runs
  }

  function CountOf(all: seq<Measurement>, ids: seq<Arm>): nat {
    if ids == [] then 0 else CountOf(all, ids[..|ids| - 1]) + |RunsBy(all, ids[|ids| - 1])|
  }

  lemma {:induction false} TotalIsTheCount(all: seq<Measurement>, ids: seq<Arm>)
    ensures TotalRuns(SummaryOf(all, ids)) == CountOf(all, ids)
  {
    if ids != [] {
      TotalIsTheCount(all, ids[..|ids| - 1]);
      var before := SummaryOf(all, ids[..|ids| - 1]);
      var a := ids[|ids| - 1];
      if RunsBy(all, a) != [] {
        assert (before + [SummaryOfArm(a, RunsBy(all, a))])[..|before|] == before;
      } else {
        assert before + [] == before;
      }
    }
  }

  /** No run is lost or counted twice: the runs of the summary add up to all of them. */
  lemma {:induction false} SummaryCountsEveryRun(all: seq<Measurement>)
    ensures TotalRuns(SummaryOf(all, ARM_IDS)) == |all|
  {
    TotalIsTheCount(all, ARM_IDS);
    CountOfTheFour(all);
    EveryRunHasOneArm(all);
  }

  lemma CountOfTheFour(all: seq<Measurement>)
    ensures CountOf(all, ARM_IDS) == |RunsBy(all, Cli)| + |RunsBy(all, Chat)| + |RunsBy(all, ChatXhigh)| + |RunsBy(all, BoardSim)|
  {
    assert ARM_IDS[..3] == [Cli, Chat, ChatXhigh] && ARM_IDS[..3][..2] == [Cli, Chat] && [Cli, Chat][..1] == [Cli] && [Cli][..0] == [];
    assert CountOf(all, [Cli]) == CountOf(all, []) + |RunsBy(all, Cli)|;
    assert CountOf(all, [Cli, Chat]) == CountOf(all, [Cli]) + |RunsBy(all, Chat)|;
    assert CountOf(all, ARM_IDS[..3]) == CountOf(all, [Cli, Chat]) + |RunsBy(all, ChatXhigh)|;
  }

  lemma {:induction false} EveryRunHasOneArm(all: seq<Measurement>)
    ensures |RunsBy(all, Cli)| + |RunsBy(all, Chat)| + |RunsBy(all, ChatXhigh)| + |RunsBy(all, BoardSim)| == |all|
  {
    if all != [] {
      EveryRunHasOneArm(all[..|all| - 1]);
    }
  }

  // ----- the bundle ------------------------------------------------------------------------

  datatype Collected =
    | NoRuns
    | CommitGivesAnotherTree
    | Written(arms: seq<Measurement>, replicates: seq<Measurement>, baseCommit: string, baseTreeSha: string,
              effortByArm: map<Arm, string>, sameEffort: bool, paired: bool, summary: seq<ArmSummary>,
              costOrderingPerTriple: seq<seq<Arm>>)

  function Flat(rounds: seq<seq<Measurement>>): seq<Measurement> {
    if rounds == [] then [] else Flat(rounds[..|rounds| - 1]) + rounds[|rounds| - 1]
  }

  function EffortByArm(all: seq<Measurement>): map<Arm, string> {
    if all == [] then map[] else EffortByArm(all[..|all| - 1])[all[|all| - 1].arm := all[|all| - 1].effort]
  }

  predicate NoDearer(a: Measurement, b: Measurement) {
    a.costUsd <= b.costUsd
  }

  function ArmsOf(ms: seq<Measurement>): (arms: seq<Arm>)
    ensures |arms| == |ms| && forall i :: 0 <= i < |ms| ==> arms[i] == ms[i].arm
  {
    seq(|ms|, i requires 0 <= i < |ms| => ms[i].arm)
  }

  /** For each round its arms, cheapest first. */
  function CostOrders(rounds: seq<seq<Measurement>>): (orders: seq<seq<Arm>>)
    ensures |orders| == |rounds|
  {
    if rounds == [] then []
    else CostOrders(rounds[..|rounds| - 1]) + [ArmsOf(Sort(NoDearer, rounds[|rounds| - 1]))]
  }

  /** Each ordering lists the runs of its round, every one once, at rising cost. */
  lemma {:induction false} CostOrdersRise(rounds: seq<seq<Measurement>>, k: nat) returns (ranked: seq<Measurement>)
    requires k < |rounds|
    ensures CostOrders(rounds)[k] == ArmsOf(ranked) && multiset(ranked) == multiset(rounds[k])
    ensures forall i, j :: 0 <= i < j < |ranked| ==> ranked[i].costUsd <= ranked[j].costUsd
  {
    if k < |rounds| - 1 {
      ranked := CostOrdersRise(rounds[..|rounds| - 1], k);
    } else {
      ranked := Sort(NoDearer, rounds[k]);
      SortSorts(NoDearer, rounds[k]);
      forall i, j | 0 <= i < j < |ranked| ensures ranked[i].costUsd <= ranked[j].costUsd {
        assert NoDearer(ranked[i], ranked[j]);
      }
    }
  }

  /** Each arm's effort is the one of its last run. */
  lemma {:induction false} EffortIsOfTheLastRun(all: seq<Measurement>, i: nat)
    requires i < |all| && forall j :: i < j < |all| ==> all[j].arm != all[i].arm
    ensures all[i].arm in EffortByArm(all) && EffortByArm(all)[all[i].arm] == all[i].effort
  {
    if i < |all| - 1 {
      EffortIsOfTheLastRun(all[..|all| - 1], i);
    }
  }

  function FirstRound(rounds: seq<seq<Measurement>>): seq<Measurement> {
    if rounds == [] then [] else rounds[0]
  }

  function LaterRounds(rounds: seq<seq<Measurement>>): seq<Measurement> {
    if rounds == [] then [] else Flat(rounds[1..])
  }

  function TreesOf(all: seq<Measurement>): set<string> {
    set m: Measurement | m in all :: m.sandboxTreeSha
  }

  function ModelsOf(all: seq<Measurement>): set<string> {
    set m: Measurement | m in all :: m.model
  }

  function EffortsOf(all: seq<Measurement>): set<string> {
    set m: Measurement | m in all :: m.effort
  }

  predicate OneTree(all: seq<Measurement>)
    requires all != []
  {
    forall m :: m in all ==> m.sandboxTreeSha == all[0].sandboxTreeSha
  }

  predicate OneModel(all: seq<Measurement>)
    requires all != []
  {
    forall m :: m in all ==> m.model == all[0].model
  }

  predicate OneEffort(all: seq<Measurement>)
    requires all != []
  {
    forall m :: m in all ==> m.effort == all[0].effort
  }

  lemma TreesAgree(all: seq<Measurement>)
    requires all != []
    ensures |TreesOf(all)| == 1 <==> OneTree(all)
    ensures |TreesOf(all)| >= 1
  {
    assert all[0] in all;
    assert forall m :: m in all ==> m.sandboxTreeSha in TreesOf(all);
    AllTheSame(TreesOf(all), all[0].sandboxTreeSha);
  }

  lemma ModelsAgree(all: seq<Measurement>)
    requires all != []
    ensures |ModelsOf(all)| == 1 <==> OneModel(all)
    ensures |ModelsOf(all)| >= 1
  {
    assert all[0] in all;
    assert forall m :: m in all ==> m.model in ModelsOf(all);
    AllTheSame(ModelsOf(all), all[0].model);
  }

  lemma EffortsAgree(all: seq<Measurement>)
    requires all != []
    ensures |EffortsOf(all)| <= 1 <==> OneEffort(all)
    ensures |EffortsOf(all)| >= 1
  {
    assert all[0] in all;
    assert forall m :: m in all ==> m.effort in EffortsOf(all);
    AllTheSame(EffortsOf(all), all[0].effort);
  }

  /**
   * One bundle from one list of runs per folder. `treeOfCommit` is the tree that the
   * claimed commit gives when it is unpacked again.
   */
  method Collect(rounds: seq<seq<Measurement>>, baseCommit: string, treeOfCommit: string) returns (r: Collected)
    ensures var all := FirstRound(rounds) + LaterRounds(rounds);
            && (r.NoRuns? <==> all == [])
            && (r.CommitGivesAnotherTree? <==> all != [] && all[0].sandboxTreeSha != treeOfCommit)
            && (r.Written? ==>
                  && r.arms == FirstRound(rounds) && r.replicates == LaterRounds(rounds)
                  && r.baseCommit == baseCommit && r.baseTreeSha == treeOfCommit && IsCollected(r)
                  && r.costOrderingPerTriple == CostOrders(rounds))
  {
    var arms := FirstRound(rounds);
    var replicates := LaterRounds(rounds);
    var all := arms + replicates;
    if all == [] { return NoRuns; }
    var trees, models, efforts := TreesOf(all), ModelsOf(all), EffortsOf(all);
    var effortByArm: map<Arm, string> := map[];
    for i := 0 to |all|
      invariant effortByArm == EffortByArm(all[..i])
    {
      assert all[..i + 1][..i] == all[..i];
      effortByArm := effortByArm[all[i].arm := all[i].effort];
    }
    assert all[..|all|] == all;
    var treeSha := all[0].sandboxTreeSha;
    if treeSha != treeOfCommit { return CommitGivesAnotherTree; }
    var summary := Summarise(all);
    TreesAgree(all);
    ModelsAgree(all);
    EffortsAgree(all);
    r := Written(arms, replicates, baseCommit, treeSha, effortByArm, |efforts| <= 1, |trees| == 1 && |models| == 1, summary,
                   CostOrders(rounds));
  }

  lemma AllTheSame<T>(s: set<T>, x: T)
    requires x in s
    ensures |s| == 1 <==> forall y :: y in s ==> y == x
    ensures |s| <= 1 <==> |s| == 1
  {
    TwoValues(s);
    assert |s - {x}| == |s| - 1;
  }

  // ----- what the validator says of it ---------------------------------------------------------

  function AsSummaryEntries(summary: seq<ArmSummary>): (out: seq<SummaryEntry>)
    ensures |out| == |summary| && forall i :: 0 <= i < |out| ==> out[i] == Summarised(Some(summary[i].arm), Some(summary[i].runs as real))
  {
    if summary == [] then []
    else
      var last := summary[|summary| - 1];
      AsSummaryEntries(summary[..|summary| - 1]) + [Summarised(Some(last.arm), Some(last.runs as real))]
  }

  /** The written file, read back as JSON. */
  function AsBundle(c: Collected): Bundle
    requires c.Written?
  {
    Bundle(true, Some(c.baseCommit), Some(c.baseTreeSha), true, Some(AsEntries(c.arms)), Some(AsEntries(c.replicates)),
           Some(c.paired), Some(c.sameEffort), Some(c.effortByArm.Keys), Some(AsSummaryEntries(c.summary)))
  }

  function AllOf(c: Collected): seq<Measurement>
    requires c.Written?
  {
    c.arms + c.replicates
  }

  /** What `Collect` promises of a bundle, whatever the rounds were. */
  ghost predicate IsCollected(c: Collected) {
    && c.Written? && AllOf(c) != []
    && c.baseTreeSha == AllOf(c)[0].sandboxTreeSha
    && c.effortByArm == EffortByArm(AllOf(c))
    && (c.sameEffort <==> OneEffort(AllOf(c)))
    && (c.paired <==> OneTree(AllOf(c)) && OneModel(AllOf(c)))
    && c.summary == SummaryOf(AllOf(c), ARM_IDS)
  }

  lemma EntriesOfAll(a: seq<Measurement>, b: seq<Measurement>)
    ensures AsEntries(a + b) == AsEntries(a) + AsEntries(b)
  {
  }

  lemma SameLabels(ms: seq<Measurement>)
    ensures Trees(AsEntries(ms)) == TreesOf(ms) && Models(AsEntries(ms)) == ModelsOf(ms) && Efforts(AsEntries(ms)) == EffortsOf(ms)
  {
    var es := AsEntries(ms);
    forall m | m in ms ensures AsEntry(m) in es {
      var i :| 0 <= i < |ms| && ms[i] == m;
      assert es[i] == AsEntry(m);
    }
    forall e | e in es ensures exists m :: m in ms && e == AsEntry(m) {
      var i :| 0 <= i < |es| && es[i] == e;
      assert ms[i] in ms;
    }
  }

  lemma {:induction false} EffortsAreWritten(ms: seq<Measurement>)
    ensures EffortByArm(ms).Keys == ArmsSeen(AsEntries(ms))
  {
    if ms != [] {
      var i := |ms| - 1;
      EffortsAreWritten(ms[..i]);
      var es := AsEntries(ms);
      OneMoreEntry(es, i);
      assert es[..i] == AsEntries(ms[..i]) && es[..i + 1] == es;
      assert [es[i]][0] in [es[i]];
      assert ArmsSeen([es[i]]) == {ms[i].arm};
    }
  }

  /** For every set of runs, the two flags and the per-arm efforts are what the validator recomputes. */
  lemma FlagsAgree(c: Collected, p: Problem)
    requires IsCollected(c)
    ensures FlagsHave(AsBundle(c), AsEntries(AllOf(c)), p) <==> p == UnequalRuns && !RunsAreEqual(AsEntries(AllOf(c)))
  {
    LabelsAreRecomputed(AllOf(c));
    EffortsAreWritten(AllOf(c));
    FlagsAsRecomputed(AsBundle(c), AsEntries(AllOf(c)), p);
  }

  lemma FlagsAsRecomputed(b: Bundle, es: seq<Entry>, p: Problem)
    requires b.Bundle? && b.paired == Some(Paired(es)) && b.sameEffort == Some(SameEffort(es)) && b.effortByArm == Some(ArmsSeen(es))
    ensures FlagsHave(b, es, p) <==> p == UnequalRuns && !RunsAreEqual(es)
  {
  }

  lemma LabelsAreRecomputed(all: seq<Measurement>)
    requires all != []
    ensures Paired(AsEntries(all)) <==> OneTree(all) && OneModel(all)
    ensures SameEffort(AsEntries(all)) <==> OneEffort(all)
  {
    SameLabels(all);
    TreesAgree(all);
    ModelsAgree(all);
    EffortsAgree(all);
  }

  /** For every set of runs, the validator finds nothing to say about the summary. */
  lemma SummaryAgrees(c: Collected, p: Problem)
    requires IsCollected(c)
    ensures !SummaryHas(AsBundle(c).summary, AsEntries(AllOf(c)), p)
  {
    var summary := AsSummaryEntries(c.summary);
    forall s | s in summary ensures s.Summarised? && s.runs == Some(Expected(AsEntries(AllOf(c)), s.arm) as real) {
      SummarisedRunsAreRight(AllOf(c), s);
    }
    forall a | a in ArmsSeen(AsEntries(AllOf(c))) ensures Covers(summary, a) {
      EveryArmIsSummarised(AllOf(c), a);
    }
    RightSummaryHasNoProblem(summary, AsEntries(AllOf(c)), p);
  }

  lemma RightSummaryHasNoProblem(summary: seq<SummaryEntry>, es: seq<Entry>, p: Problem)
    requires forall s :: s in summary ==> s.Summarised? && s.runs == Some(Expected(es, s.arm) as real)
    requires forall a :: a in ArmsSeen(es) ==> Covers(summary, a)
    ensures !SummaryHas(Some(summary), es, p)
  {
  }

  lemma SummarisedRunsAreRight(all: seq<Measurement>, s: SummaryEntry)
    requires s in AsSummaryEntries(SummaryOf(all, ARM_IDS))
    ensures s.Summarised? && s.runs == Some(Expected(AsEntries(all), s.arm) as real)
  {
    var summary := SummaryOf(all, ARM_IDS);
    var i :| 0 <= i < |summary| && AsSummaryEntries(summary)[i] == s;
    SummaryEntries(all, ARM_IDS);
    assert summary[i] in summary;
    RunsByCounts(all, summary[i].arm);
  }

  lemma EveryArmIsSummarised(all: seq<Measurement>, a: Arm)
    requires a in ArmsSeen(AsEntries(all))
    ensures Covers(AsSummaryEntries(SummaryOf(all, ARM_IDS)), a)
  {
    var summary := SummaryOf(all, ARM_IDS);
    SeenMeansCounted(AsEntries(all), a);
    RunsByCounts(all, a);
    ArmIsListed(a);
    SummaryEntries(all, ARM_IDS);
    assert SummaryOfArm(a, RunsBy(all, a)) in summary;
    var i :| 0 <= i < |summary| && summary[i] == SummaryOfArm(a, RunsBy(all, a));
    assert AsSummaryEntries(summary)[i] in AsSummaryEntries(summary);
  }

  lemma ArmIsListed(a: Arm)
    ensures a in ARM_IDS
  {
    match a
    case Cli => assert ARM_IDS[0] == a;
    case Chat => assert ARM_IDS[1] == a;
    case ChatXhigh => assert ARM_IDS[2] == a;
    case BoardSim => assert ARM_IDS[3] == a;
  }

  predicate WorkAddsUp(m: Measurement) {
    m.workTokens == m.inputTokens + m.outputTokens + m.cacheWriteTokens
  }

  predicate DistinctArms(ms: seq<Measurement>) {
    forall i, j :: 0 <= i < j < |ms| ==> ms[i].arm != ms[j].arm
  }

  predicate EqualRuns(ms: seq<Measurement>) {
    forall m, n :: m in ms && n in ms ==> |RunsBy(ms, m.arm)| == |RunsBy(ms, n.arm)|
  }

  /** What the runs themselves have to satisfy. */
  predicate Acceptable(c: Collected)
    requires c.Written? && AllOf(c) != []
  {
    && c.arms != [] && |c.baseCommit| >= 7 && |c.baseTreeSha| >= 7
    && OneTree(AllOf(c))
    && (forall m :: m in AllOf(c) ==> WorkAddsUp(m))
    && DistinctArms(c.arms)
    && EqualRuns(AllOf(c))
  }

  lemma OneMoreTree(init: seq<Measurement>, last: Measurement, tree: string)
    ensures WrongTrees(AsEntries(init + [last]), tree) == WrongTrees(AsEntries(init), tree) + if last.sandboxTreeSha != tree then 1 else 0
    ensures (forall m :: m in init + [last] ==> m.sandboxTreeSha == tree) <==>
              (forall m :: m in init ==> m.sandboxTreeSha == tree) && last.sandboxTreeSha == tree
  {
    var ms := init + [last];
    assert ms[..|init|] == init && last in ms;
    assert AsEntries(ms)[..|init|] == AsEntries(init);
    assert AsEntries(ms)[|init|] == AsEntry(last);
  }

  lemma {:induction false} NoWrongTrees(ms: seq<Measurement>, tree: string)
    ensures WrongTrees(AsEntries(ms), tree) == 0 <==> forall m :: m in ms ==> m.sandboxTreeSha == tree
  {
    if ms != [] {
      var init, last := ms[..|ms| - 1], ms[|ms| - 1];
      assert ms == init + [last];
      NoWrongTrees(init, tree);
      OneMoreTree(init, last, tree);
    }
  }

  lemma NewArm(init: seq<Measurement>, last: Measurement)
    ensures RunsOf(AsEntries(init), last.arm) == 0 <==> forall i :: 0 <= i < |init| ==> init[i].arm != last.arm
  {
    RunsByCounts(init, last.arm);
    RunsByMembers(init, last.arm);
    if RunsBy(init, last.arm) != [] {
      var m := RunsBy(init, last.arm)[0];
      assert m in RunsBy(init, last.arm);
      var i :| 0 <= i < |init| && init[i] == m;
    } else {
      forall i | 0 <= i < |init| ensures init[i].arm != last.arm {
        var m := init[i];
        assert m in init && m !in RunsBy(init, last.arm);
      }
    }
  }

  lemma DistinctGrows(init: seq<Measurement>, last: Measurement)
    ensures DistinctArms(init + [last]) <==> DistinctArms(init) && forall i :: 0 <= i < |init| ==> init[i].arm != last.arm
  {
    var ms := init + [last];
    assert forall i :: 0 <= i < |init| ==> ms[i] == init[i];
    assert ms[|init|] == last;
  }

  ghost predicate AtMostOneRunEach(ms: seq<Measurement>) {
    forall a :: RunsOf(AsEntries(ms), a) <= 1
  }

  lemma OneMoreRun(init: seq<Measurement>, last: Measurement)
    ensures AtMostOneRunEach(init + [last]) <==> AtMostOneRunEach(init) && RunsOf(AsEntries(init), last.arm) == 0
  {
    var ms := init + [last];
    assert ms[..|init|] == init;
    assert AsEntries(ms)[..|init|] == AsEntries(init);
    assert forall a :: RunsOf(AsEntries(ms), a) == RunsOf(AsEntries(init), a) + if a == last.arm then 1 else 0;
  }

  lemma {:induction false} DistinctMeansCountedOnce(ms: seq<Measurement>)
    ensures DistinctArms(ms) <==> AtMostOneRunEach(ms)
  {
    if ms != [] {
      var init, last := ms[..|ms| - 1], ms[|ms| - 1];
      assert ms == init + [last];
      DistinctMeansCountedOnce(init);
      NewArm(init, last);
      DistinctGrows(init, last);
      OneMoreRun(init, last);
      assert DistinctArms(init + [last]) <==> AtMostOneRunEach(init + [last]);
    }
  }

  lemma EqualRunsMeansEqualCounts(ms: seq<Measurement>)
    ensures EqualRuns(ms) <==> RunsAreEqual(AsEntries(ms))
  {
    var es := AsEntries(ms);
    forall a ensures |RunsBy(ms, a)| == RunsOf(es, a) {
      RunsByCounts(ms, a);
    }
    forall m | m in ms ensures m.arm in ArmsSeen(es) {
      var i :| 0 <= i < |ms| && ms[i] == m;
      assert es[i] in es;
    }
    forall a | a in ArmsSeen(es) ensures exists m :: m in ms && m.arm == a {
      var e :| e in es && Known(e) && e.arm.value == a;
      var i :| 0 <= i < |es| && es[i] == e;
      assert ms[i] in ms;
    }
  }

  lemma EntriesOfMeasurements(ms: seq<Measurement>, p: Problem)
    ensures (exists e :: e in AsEntries(ms) && EntryHas(e, p)) <==>
            p.WorkIsNotTheSum? && exists m :: m in ms && m.arm == p.arm && !WorkAddsUp(m)
  {
    var es := AsEntries(ms);
    if e :| e in es && EntryHas(e, p) {
      var i :| 0 <= i < |es| && es[i] == e;
      ProblemOfAMeasurement(ms[i], p);
      assert ms[i] in ms;
    }
    if p.WorkIsNotTheSum? {
      if m :| m in ms && m.arm == p.arm && !WorkAddsUp(m) {
        var i :| 0 <= i < |ms| && ms[i] == m;
        ProblemOfAMeasurement(m, p);
        assert es[i] in es;
      }
    }
  }

  lemma ProblemOfAMeasurement(m: Measurement, p: Problem)
    ensures EntryHas(AsEntry(m), p) <==> p == WorkIsNotTheSum(m.arm) && !WorkAddsUp(m)
  {
  }

  /** Which problems a collected bundle can still have. */
  lemma ProblemsOfACollectedBundle(c: Collected, p: Problem)
    requires IsCollected(c) && c.arms != []
    ensures Reported(AsBundle(c), p) <==>
              || (p == NoBaseCommit && |c.baseCommit| < 7)
              || (p == NoBaseTreeSha && |c.baseTreeSha| < 7)
              || (p.OtherTrees? && p.runs == WrongTrees(AsEntries(AllOf(c)), c.baseTreeSha) > 0)
              || (p.WorkIsNotTheSum? && exists m :: m in AllOf(c) && m.arm == p.arm && !WorkAddsUp(m))
              || (p.DuplicateArm? && RunsOf(AsEntries(c.arms), p.arm) >= 2)
              || (p == UnequalRuns && !EqualRuns(AllOf(c)))
  {
    ReportedBy(c, p);
    HeaderOfACollectedBundle(c, p);
    FlagsAgree(c, p);
    SummaryAgrees(c, p);
    EntriesOfACollectedBundle(c, p);
    EqualRunsMeansEqualCounts(AllOf(c));
  }

  lemma ReportedBy(c: Collected, p: Problem)
    requires IsCollected(c) && c.arms != []
    ensures Reported(AsBundle(c), p) <==>
              || HeaderHas(AsBundle(c), p)
              || EntriesHave(AsEntries(AllOf(c)), |c.arms|, p)
              || FlagsHave(AsBundle(c), AsEntries(AllOf(c)), p)
              || SummaryHas(AsBundle(c).summary, AsEntries(AllOf(c)), p)
  {
    EntriesOfAll(c.arms, c.replicates);
  }

  lemma HeaderOfACollectedBundle(c: Collected, p: Problem)
    requires c.Written?
    ensures HeaderHas(AsBundle(c), p) <==>
              || (p == NoBaseCommit && |c.baseCommit| < 7)
              || (p == NoBaseTreeSha && |c.baseTreeSha| < 7)
              || (p.OtherTrees? && p.runs == WrongTrees(AsEntries(AllOf(c)), c.baseTreeSha) > 0)
  {
    EntriesOfAll(c.arms, c.replicates);
  }

  lemma EntriesOfACollectedBundle(c: Collected, p: Problem)
    requires c.Written?
    ensures EntriesHave(AsEntries(AllOf(c)), |c.arms|, p) <==>
              || (p.WorkIsNotTheSum? && exists m :: m in AllOf(c) && m.arm == p.arm && !WorkAddsUp(m))
              || (p.DuplicateArm? && RunsOf(AsEntries(c.arms), p.arm) >= 2)
  {
    EntriesOfAll(c.arms, c.replicates);
    assert Head(AsEntries(AllOf(c)), |c.arms|) == AsEntries(c.arms);
    EntriesOfMeasurements(AllOf(c), p);
  }

  /**
   * The producer and the checker agree: for every set of runs, what `collect` writes
   * has no problem exactly when the first folder held runs, the two hashes are whole,
   * all runs start from one tree, each run's work is the sum of its parts, no arm is
   * twice in the first folder and all arms ran equally often.
   */
  lemma CollectedIsAcceptedExactlyWhen(c: Collected)
    requires IsCollected(c)
    ensures (forall p :: !Reported(AsBundle(c), p)) <==> Acceptable(c)
  {
    var b, es := AsBundle(c), AsEntries(AllOf(c));
    if c.arms == [] {
      assert Reported(b, NoArms);
    } else {
      forall p
        ensures Reported(b, p) ==> !Acceptable(c)
      {
        ProblemsOfACollectedBundle(c, p);
        NoWrongTrees(AllOf(c), c.baseTreeSha);
        DistinctMeansCountedOnce(c.arms);
      }
      if !Acceptable(c) {
        NotAcceptableIsReported(c);
      }
    }
  }

  lemma NotAcceptableIsReported(c: Collected)
    requires IsCollected(c) && c.arms != [] && !Acceptable(c)
    ensures exists p :: Reported(AsBundle(c), p)
  {
    var b, es := AsBundle(c), AsEntries(AllOf(c));
    if |c.baseCommit| < 7 {
      ProblemsOfACollectedBundle(c, NoBaseCommit);
    } else if |c.baseTreeSha| < 7 {
      ProblemsOfACollectedBundle(c, NoBaseTreeSha);
    } else if !OneTree(AllOf(c)) {
      NoWrongTrees(AllOf(c), c.baseTreeSha);
      ProblemsOfACollectedBundle(c, OtherTrees(WrongTrees(es, c.baseTreeSha)));
    } else if m :| m in AllOf(c) && !WorkAddsUp(m) {
      ProblemsOfACollectedBundle(c, WorkIsNotTheSum(m.arm));
    } else if !DistinctArms(c.arms) {
      DistinctMeansCountedOnce(c.arms);
      var a :| RunsOf(AsEntries(c.arms), a) >= 2;
      ProblemsOfACollectedBundle(c, DuplicateArm(a));
    } else {
      ProblemsOfACollectedBundle(c, UnequalRuns);
    }
  }
}
