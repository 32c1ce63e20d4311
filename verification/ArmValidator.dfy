/**
 * The validator of a bundle of measured runs (scripts/board-arms.ts). It reads
 * parsed JSON whose every part may be missing or of another type, and reports the
 * whole list of problems.
 */
module ArmValidator {
  import opened Options

  datatype Arm = Cli | Chat | ChatXhigh | BoardSim

  const ARM_IDS: seq<Arm> := [Cli, Chat, ChatXhigh, BoardSim]

  /** A field meant to be a number; anything else has the value that `Number(x ?? 0)` gives it, or NaN. */
  datatype Field = Count(n: real) | Other(asNumber: Option<real>)

  datatype FieldName = InputTokens | OutputTokens | CacheWriteTokens | CacheReadTokens | WorkTokens

  const USAGE_FIELDS: seq<FieldName> := [InputTokens, OutputTokens, CacheWriteTokens, CacheReadTokens, WorkTokens]

  datatype Usage = Usage(input: Field, output: Field, cacheWrite: Field, cacheRead: Field, work: Field)

  /** An entry of `arms` or `replicates`; `None` stands for a field that is missing, of another type, or not a known arm. */
  datatype Entry = NotARecord | Run(arm: Option<Arm>, usage: Option<Usage>, tree: Option<string>, model: Option<string>, effort: Option<string>)

  datatype SummaryEntry = NotASummary | Summarised(arm: Option<Arm>, runs: Option<real>)

  datatype Bundle =
    | NotAnObject
    | Bundle(schemaIsRight: bool, baseCommit: Option<string>, baseTreeSha: Option<string>, hasMicroTaskSha: bool,
             arms: Option<seq<Entry>>, replicates: Option<seq<Entry>>,
             paired: Option<bool>, sameEffort: Option<bool>, effortByArm: Option<set<Arm>>, summary: Option<seq<SummaryEntry>>)

  datatype Problem =
    | BundleIsNotAnObject | WrongSchema | NoBaseCommit | NoBaseTreeSha | NoMicroTaskSha
    | OtherTrees(runs: nat) | NoArms
    | EntryIsNotARecord | UnknownArm | DuplicateArm(arm: Arm) | NoUsage(arm: Arm)
    | NotANumber(arm: Arm, field: FieldName) | WorkIsNotTheSum(arm: Arm)
    | PairedIsWrong | SameEffortIsWrong | NoEffortByArm | NoEffortFor(arm: Arm)
    | UnequalRuns | NoSummary | SummaryEntryIsNotARecord | SummaryRunsAreWrong(summarised: Option<Arm>) | NotSummarised(arm: Arm)

  // ----- what the entries say -----------------------------------------------------------

  predicate Known(e: Entry) {
    e.Run? && e.arm.Some?
  }

  predicate IsOf(e: Entry, a: Arm) {
    e.Run? && e.arm == Some(a)
  }

  /** An entry whose tree, model and effort are looked at. */
  predicate Measured(e: Entry) {
    Known(e) && e.usage.Some?
  }

  function Trees(es: seq<Entry>): set<string> {
    set e | e in es && Measured(e) && e.tree.Some? :: e.tree.value
  }

  function Models(es: seq<Entry>): set<string> {
    set e | e in es && Measured(e) && e.model.Some? :: e.model.value
  }

  function Efforts(es: seq<Entry>): set<string> {
    set e | e in es && Measured(e) && e.effort.Some? :: e.effort.value
  }

  function ArmsSeen(es: seq<Entry>): set<Arm> {
    set e | e in es && Known(e) :: e.arm.value
  }

  function RunsOf(es: seq<Entry>, a: Arm): nat {
    if es == [] then 0 else RunsOf(es[..|es| - 1], a) + if IsOf(es[|es| - 1], a) then 1 else 0
  }

  /** Entries that name another tree than the declared one. */
  function WrongTrees(es: seq<Entry>, declared: string): nat {
    if es == [] then 0
    else
      var e := es[|es| - 1];
      WrongTrees(es[..|es| - 1], declared) + if e.Run? && e.tree.Some? && e.tree.value != declared then 1 else 0
  }

  predicate Paired(es: seq<Entry>) {
    |Trees(es)| == 1 && |Models(es)| <= 1
  }

  predicate SameEffort(es: seq<Entry>) {
    |Efforts(es)| <= 1
  }

  predicate RunsAreEqual(es: seq<Entry>) {
    forall a, c :: a in ArmsSeen(es) && c in ArmsSeen(es) ==> RunsOf(es, a) == RunsOf(es, c)
  }

  function FieldOf(u: Usage, f: FieldName): Field {
    match f
    case InputTokens => u.input
    case OutputTokens => u.output
    case CacheWriteTokens => u.cacheWrite
    case CacheReadTokens => u.cacheRead
    case WorkTokens => u.work
  }

  /** `Number(x ?? 0)`; `None` is NaN. */
  function AsNumber(f: Field): Option<real> {
    if f.Count? then Some(f.n) else f.asNumber
  }

  function Plus(a: Option<real>, b: Option<real>): Option<real> {
    if a.Some? && b.Some? then Some(a.value + b.value) else None
  }

  /** `work === recomposed`, false when either is NaN. */
  predicate WorkIsTheSum(u: Usage) {
    && AsNumber(u.work).Some?
    && AsNumber(u.work) == Plus(Plus(AsNumber(u.input), AsNumber(u.output)), AsNumber(u.cacheWrite))
  }

  function OrEmpty(es: Option<seq<Entry>>): seq<Entry> {
    if es.Some? then es.value else []
  }

  // ----- which problems a bundle has -------------------------------------------------------

  predicate EntryHas(e: Entry, p: Problem) {
    match p
    case EntryIsNotARecord => e.NotARecord?
    case UnknownArm => e.Run? && e.arm.None?
    case NoUsage(a) => IsOf(e, a) && e.usage.None?
    case NotANumber(a, f) => IsOf(e, a) && e.usage.Some? && FieldOf(e.usage.value, f).Other?
    case WorkIsNotTheSum(a) => IsOf(e, a) && e.usage.Some? && !WorkIsTheSum(e.usage.value)
    case _ => false
  }

  function Head(es: seq<Entry>, headline: nat): seq<Entry> {
    if headline <= |es| then es[..headline] else es
  }

  ghost predicate EntriesHave(es: seq<Entry>, headline: nat, p: Problem) {
    || (exists e :: e in es && EntryHas(e, p))
    || (p.DuplicateArm? && RunsOf(Head(es, headline), p.arm) >= 2)
  }

  predicate HeaderHas(b: Bundle, p: Problem)
    requires b.Bundle?
  {
    match p
    case WrongSchema => !b.schemaIsRight
    case NoBaseCommit => b.baseCommit.None? || |b.baseCommit.value| < 7
    case NoBaseTreeSha => b.baseTreeSha.None? || |b.baseTreeSha.value| < 7
    case NoMicroTaskSha => !b.hasMicroTaskSha
    case OtherTrees(n) => b.baseTreeSha.Some? && b.arms.Some? && n == WrongTrees(b.arms.value + OrEmpty(b.replicates), b.baseTreeSha.value) > 0
    case _ => false
  }

  predicate FlagsHave(b: Bundle, es: seq<Entry>, p: Problem)
    requires b.Bundle?
  {
    match p
    case PairedIsWrong => b.paired != Some(Paired(es))
    case SameEffortIsWrong => b.sameEffort != Some(SameEffort(es))
    case NoEffortByArm => b.effortByArm.None?
    case NoEffortFor(a) => b.effortByArm.Some? && a in ArmsSeen(es) && a !in b.effortByArm.value
    case UnequalRuns => !RunsAreEqual(es)
    case _ => false
  }

  function Expected(es: seq<Entry>, a: Option<Arm>): nat {
    if a.Some? then RunsOf(es, a.value) else 0
  }

  predicate Covers(summary: seq<SummaryEntry>, a: Arm) {
    exists s :: s in summary && s.Summarised? && s.arm == Some(a)
  }

  predicate SummaryEntryHas(s: SummaryEntry, es: seq<Entry>, p: Problem) {
    match p
    case SummaryEntryIsNotARecord => s.NotASummary?
    case SummaryRunsAreWrong(a) => s.Summarised? && s.arm == a && s.runs != Some(Expected(es, a) as real)
    case _ => false
  }

  ghost predicate SummaryHas(summary: Option<seq<SummaryEntry>>, es: seq<Entry>, p: Problem) {
    match p
    case NoSummary => summary.None?
    case NotSummarised(a) => summary.Some? && a in ArmsSeen(es) && !Covers(summary.value, a)
    case _ => summary.Some? && exists s :: s in summary.value && SummaryEntryHas(s, es, p)
  }

  /** The problems of a bundle, each stated on its own. */
  ghost predicate Reported(b: Bundle, p: Problem) {
    if b.NotAnObject? then p == BundleIsNotAnObject
    else if b.arms.None? || b.arms.value == [] then HeaderHas(b, p) || p == NoArms
    else
      var es := b.arms.value + OrEmpty(b.replicates);
      HeaderHas(b, p) || EntriesHave(es, |b.arms.value|, p) || FlagsHave(b, es, p) || SummaryHas(b.summary, es, p)
  }

  // ----- the checks ------------------------------------------------------------------------

  method CheckHeader(b: Bundle) returns (errs: seq<Problem>)
    requires b.Bundle?
    ensures forall p :: p in errs <==> HeaderHas(b, p)
  {
    errs := [];
    if !b.schemaIsRight { errs := errs + [WrongSchema]; }
    if b.baseCommit.None? || |b.baseCommit.value| < 7 { errs := errs + [NoBaseCommit]; }
    if b.baseTreeSha.None? || |b.baseTreeSha.value| < 7 { errs := errs + [NoBaseTreeSha]; }
    if !b.hasMicroTaskSha { errs := errs + [NoMicroTaskSha]; }
    if b.baseTreeSha.Some? && b.arms.Some? {
      var wrong := WrongTrees(b.arms.value + OrEmpty(b.replicates), b.baseTreeSha.value);
      if wrong > 0 { errs := errs + [OtherTrees(wrong)]; }
    }
  }

  lemma EveryFieldIsListed()
    ensures forall f :: f in USAGE_FIELDS
  {
    forall f ensures f in USAGE_FIELDS {
      match f
      case InputTokens => assert USAGE_FIELDS[0] == f;
      case OutputTokens => assert USAGE_FIELDS[1] == f;
      case CacheWriteTokens => assert USAGE_FIELDS[2] == f;
      case CacheReadTokens => assert USAGE_FIELDS[3] == f;
      case WorkTokens => assert USAGE_FIELDS[4] == f;
    }
  }

  method CheckUsage(a: Arm, u: Usage) returns (errs: seq<Problem>)
    ensures forall p :: p in errs <==>
              || (p.NotANumber? && p.arm == a && FieldOf(u, p.field).Other?)
              || (p == WorkIsNotTheSum(a) && !WorkIsTheSum(u))
  {
    errs := [];
    for k := 0 to |USAGE_FIELDS|
      invariant forall p :: p in errs <==> p.NotANumber? && p.arm == a && p.field in USAGE_FIELDS[..k] && FieldOf(u, p.field).Other?
    {
      if FieldOf(u, USAGE_FIELDS[k]).Other? { errs := errs + [NotANumber(a, USAGE_FIELDS[k])]; }
    }
    EveryFieldIsListed();
    assert USAGE_FIELDS[..|USAGE_FIELDS|] == USAGE_FIELDS;
    var recomposed := Plus(Plus(AsNumber(u.input), AsNumber(u.output)), AsNumber(u.cacheWrite));
    if AsNumber(u.work).None? || AsNumber(u.work) != recomposed { errs := errs + [WorkIsNotTheSum(a)]; }
  }

  method CheckEntry(e: Entry, duplicate: bool) returns (errs: seq<Problem>)
    ensures forall p :: p in errs <==> EntryHas(e, p) || (duplicate && Known(e) && p == DuplicateArm(e.arm.value))
  {
    if e.NotARecord? { return [EntryIsNotARecord]; }
    if e.arm.None? { return [UnknownArm]; }
    var a := e.arm.value;
    errs := if duplicate then [DuplicateArm(a)] else [];
    if e.usage.None? { return errs + [NoUsage(a)]; }
    var ofUsage := CheckUsage(a, e.usage.value);
    errs := errs + ofUsage;
  }

  lemma OneMoreEntry(es: seq<Entry>, i: nat)
    requires i < |es|
    ensures es[..i + 1][..i] == es[..i] && es[..i + 1] == es[..i] + [es[i]]
    ensures Trees(es[..i + 1]) == Trees(es[..i]) + Trees([es[i]])
    ensures Models(es[..i + 1]) == Models(es[..i]) + Models([es[i]])
    ensures Efforts(es[..i + 1]) == Efforts(es[..i]) + Efforts([es[i]])
    ensures ArmsSeen(es[..i + 1]) == ArmsSeen(es[..i]) + ArmsSeen([es[i]])
  {
    var before, e, after := es[..i], es[i], es[..i + 1];
    assert after == before + [e];
    assert e in after && forall x :: x in after <==> x in before || x in [e];
  }

  lemma {:induction false} SeenMeansCounted(es: seq<Entry>, a: Arm)
    ensures a in ArmsSeen(es) <==> RunsOf(es, a) > 0
  {
    if es != [] {
      var i := |es| - 1;
      SeenMeansCounted(es[..i], a);
      OneMoreEntry(es, i);
      assert es[..i + 1] == es;
      assert a in ArmsSeen([es[i]]) <==> IsOf(es[i], a) by {
        assert es[i] in [es[i]];
      }
    }
  }

  lemma DuplicateOnArrival(es: seq<Entry>, headline: nat, i: nat, p: Problem)
    requires i < |es|
    ensures EntriesHave(es[..i + 1], headline, p) <==>
              || EntriesHave(es[..i], headline, p)
              || EntryHas(es[i], p)
              || (i < headline && Known(es[i]) && p == DuplicateArm(es[i].arm.value) && RunsOf(es[..i], es[i].arm.value) > 0)
  {
    OneMoreEntry(es, i);
    var before, after := es[..i], es[..i + 1];
    assert es[i] in after && forall x :: x in after <==> x in before || x == es[i];
    if p.DuplicateArm? {
      assert Head(after, headline) == if i < headline then after else Head(before, headline);
      assert i < headline ==> Head(before, headline) == before;
    }
  }

  datatype Tally = Tally(trees: set<string>, models: set<string>, efforts: set<string>, runsPerArm: map<Arm, nat>)

  ghost predicate Tallies(t: Tally, es: seq<Entry>) {
    && t.trees == Trees(es) && t.models == Models(es) && t.efforts == Efforts(es)
    && t.runsPerArm.Keys == ArmsSeen(es)
    && forall a :: a in t.runsPerArm ==> t.runsPerArm[a] == RunsOf(es, a)
  }

  function AddToTally(t: Tally, e: Entry): Tally {
    if !Known(e) then t
    else
      var a := e.arm.value;
      var counted := t.runsPerArm[a := (if a in t.runsPerArm then t.runsPerArm[a] else 0) + 1];
      if e.usage.None? then t.(runsPerArm := counted)
      else Tally(if e.tree.Some? then t.trees + {e.tree.value} else t.trees,
                 if e.model.Some? then t.models + {e.model.value} else t.models,
                 if e.effort.Some? then t.efforts + {e.effort.value} else t.efforts,
                 counted)
  }

  lemma SingleEntry(e: Entry)
    ensures Trees([e]) == if Measured(e) && e.tree.Some? then {e.tree.value} else {}
    ensures Models([e]) == if Measured(e) && e.model.Some? then {e.model.value} else {}
    ensures Efforts([e]) == if Measured(e) && e.effort.Some? then {e.effort.value} else {}
    ensures ArmsSeen([e]) == if Known(e) then {e.arm.value} else {}
  {
    assert e in [e];
  }

  lemma TallyGrows(t: Tally, es: seq<Entry>, i: nat)
    requires i < |es| && Tallies(t, es[..i])
    ensures Tallies(AddToTally(t, es[i]), es[..i + 1])
  {
    CountsGrow(t, es, i);
    OneMoreEntry(es, i);
    SingleEntry(es[i]);
  }

  lemma CountsGrow(t: Tally, es: seq<Entry>, i: nat)
    requires i < |es| && Tallies(t, es[..i])
    ensures var runs := AddToTally(t, es[i]).runsPerArm;
            runs.Keys == ArmsSeen(es[..i + 1]) && forall a :: a in runs ==> runs[a] == RunsOf(es[..i + 1], a)
  {
    var e := es[i];
    OneMoreEntry(es, i);
    SingleEntry(e);
    if Known(e) {
      SeenMeansCounted(es[..i], e.arm.value);
    }
  }

  /** The loop over the head triple and the replicates. */
  method CheckEntries(es: seq<Entry>, headline: nat) returns (errs: seq<Problem>, tally: Tally)
    ensures forall p :: p in errs <==> EntriesHave(es, headline, p)
    ensures Tallies(tally, es)
  {
    errs := [];
    tally := Tally({}, {}, {}, map[]);
    var seen: set<Arm> := {};
    for i := 0 to |es|
      invariant forall p :: p in errs <==> EntriesHave(es[..i], headline, p)
      invariant Tallies(tally, es[..i])
      invariant i <= headline ==> seen == ArmsSeen(es[..i])
    {
      var e := es[i];
      var isHeadline := i < headline;
      var duplicate := isHeadline && Known(e) && e.arm.value in seen;
      var own := CheckEntry(e, duplicate);
      forall p ensures p in errs + own <==> EntriesHave(es[..i + 1], headline, p) {
        DuplicateOnArrival(es, headline, i, p);
        if Known(e) {
          SeenMeansCounted(es[..i], e.arm.value);
        }
      }
      errs := errs + own;
      if isHeadline && Known(e) { seen := seen + {e.arm.value}; }
      OneMoreEntry(es, i);
      assert e in [e];
      TallyGrows(tally, es, i);
      tally := AddToTally(tally, e);
    }
    assert es[..|es|] == es;
  }

  lemma TwoValues<T>(s: set<T>)
    ensures |s| > 1 <==> exists x, y :: x in s && y in s && x != y
  {
    if x, y :| x in s && y in s && x != y {
      assert |{x, y}| == 2;
      Inside({x, y}, s);
    }
    if |s| > 1 {
      var x :| x in s;
      assert |s - {x}| > 0;
      var y :| y in s - {x};
      assert x in s && y in s && x != y;
    }
  }

  lemma {:induction false} Inside<T>(s: set<T>, t: set<T>)
    requires s <= t
    ensures |s| <= |t|
  {
    if s != {} {
      var x :| x in s;
      Inside(s - {x}, t - {x});
    }
  }

  lemma CountsAreEqual(t: Tally, es: seq<Entry>)
    requires Tallies(t, es)
    ensures |t.runsPerArm.Values| > 1 <==> !RunsAreEqual(es)
  {
    TwoValues(t.runsPerArm.Values);
    if !RunsAreEqual(es) {
      var a, c :| a in ArmsSeen(es) && c in ArmsSeen(es) && RunsOf(es, a) != RunsOf(es, c);
      assert t.runsPerArm[a] in t.runsPerArm.Values && t.runsPerArm[c] in t.runsPerArm.Values;
    }
    if x, y :| x in t.runsPerArm.Values && y in t.runsPerArm.Values && x != y {
      var a :| a in t.runsPerArm && t.runsPerArm[a] == x;
      var c :| c in t.runsPerArm && t.runsPerArm[c] == y;
      assert RunsOf(es, a) != RunsOf(es, c);
    }
  }

  method CheckEffortByArm(effortByArm: Option<set<Arm>>, tally: Tally, ghost es: seq<Entry>) returns (errs: seq<Problem>)
    requires Tallies(tally, es)
    ensures forall p :: p in errs <==> if effortByArm.None? then p == NoEffortByArm
                                        else p.NoEffortFor? && p.arm in ArmsSeen(es) && p.arm !in effortByArm.value
  {
    if effortByArm.None? { return [NoEffortByArm]; }
    errs := [];
    var todo := tally.runsPerArm.Keys;
    while todo != {}
      invariant todo <= tally.runsPerArm.Keys
      invariant forall p :: p in errs <==> p.NoEffortFor? && p.arm in tally.runsPerArm.Keys - todo && p.arm !in effortByArm.value
      decreases todo
    {
      var id :| id in todo;
      todo := todo - {id};
      if tally.runsPerArm[id] > 0 && id !in effortByArm.value { errs := errs + [NoEffortFor(id)]; }
      SeenMeansCounted(es, id);
    }
  }

  method CheckFlags(b: Bundle, tally: Tally, ghost es: seq<Entry>) returns (errs: seq<Problem>)
    requires b.Bundle? && Tallies(tally, es)
    ensures forall p :: p in errs <==> FlagsHave(b, es, p)
  {
    errs := [];
    var paired := |tally.trees| == 1 && |tally.models| <= 1;
    if b.paired != Some(paired) { errs := errs + [PairedIsWrong]; }
    var sameEffort := |tally.efforts| <= 1;
    if b.sameEffort != Some(sameEffort) { errs := errs + [SameEffortIsWrong]; }
    var ofEfforts := CheckEffortByArm(b.effortByArm, tally, es);
    errs := errs + ofEfforts;
    CountsAreEqual(tally, es);
    if |tally.runsPerArm.Values| > 1 { errs := errs + [UnequalRuns]; }
  }

  method CheckSummary(b: Bundle, tally: Tally, ghost es: seq<Entry>) returns (errs: seq<Problem>)
    requires b.Bundle? && Tallies(tally, es)
    ensures forall p :: p in errs <==> SummaryHas(b.summary, es, p)
  {
    if b.summary.None? { return [NoSummary]; }
    var summary := b.summary.value;
    errs := [];
    for i := 0 to |summary|
      invariant forall p :: p in errs <==> exists s :: s in summary[..i] && SummaryEntryHas(s, es, p)
    {
      var s := summary[i];
      ghost var before := errs;
      if s.NotASummary? {
        errs := errs + [SummaryEntryIsNotARecord];
      } else {
        var expected := if s.arm.Some? && s.arm.value in tally.runsPerArm then tally.runsPerArm[s.arm.value] else 0;
        if s.arm.Some? {
          SeenMeansCounted(es, s.arm.value);
        }
        assert expected == Expected(es, s.arm);
        if s.runs != Some(expected as real) { errs := errs + [SummaryRunsAreWrong(s.arm)]; }
      }
      assert forall p :: p in errs <==> p in before || SummaryEntryHas(s, es, p);
      assert summary[..i + 1] == summary[..i] + [s];
      assert s in summary[..i + 1] && forall x :: x in summary[..i + 1] <==> x in summary[..i] || x == s;
    }
    assert summary[..|summary|] == summary;
    ghost var before := errs;
    var covered := set s | s in summary && s.Summarised? && s.arm.Some? :: s.arm.value;
    var todo := tally.runsPerArm.Keys;
    while todo != {}
      invariant todo <= tally.runsPerArm.Keys
      invariant forall p :: p in errs <==> p in before || (p.NotSummarised? && p.arm in tally.runsPerArm.Keys - todo && p.arm !in covered)
      decreases todo
    {
      var id :| id in todo;
      todo := todo - {id};
      if id !in covered { errs := errs + [NotSummarised(id)]; }
    }
    assert forall a :: a in covered <==> Covers(summary, a);
  }

  /** Every problem of the bundle is listed and nothing else is: not only the first. */
  method Validate(b: Bundle) returns (errs: seq<Problem>)
    ensures forall p :: p in errs <==> Reported(b, p)
    ensures b.NotAnObject? ==> errs == [BundleIsNotAnObject]
    ensures b.Bundle? ==>
              && (WrongSchema in errs <==> !b.schemaIsRight) && (NoMicroTaskSha in errs <==> !b.hasMicroTaskSha)
              && (NoBaseCommit in errs <==> b.baseCommit.None? || |b.baseCommit.value| < 7)
              && (NoBaseTreeSha in errs <==> b.baseTreeSha.None? || |b.baseTreeSha.value| < 7)
              && (NoArms in errs <==> b.arms.None? || b.arms.value == [])
  {
    if b.NotAnObject? { return [BundleIsNotAnObject]; }
    errs := CheckHeader(b);
    if b.arms.None? || b.arms.value == [] { return errs + [NoArms]; }
    var es := b.arms.value + OrEmpty(b.replicates);
    var ofEntries, tally := CheckEntries(es, |b.arms.value|);
    var ofFlags := CheckFlags(b, tally, es);
    var ofSummary := CheckSummary(b, tally, es);
    errs := errs + ofEntries + ofFlags + ofSummary;
  }

  // ----- a bundle without problems -----------------------------------------------------------

  function ArmOf(e: Entry): Option<Arm> {
    if e.Run? then e.arm else None
  }

  function TreeOf(e: Entry): Option<string> {
    if e.Run? then e.tree else None
  }

  function ModelOf(e: Entry): Option<string> {
    if e.Run? then e.model else None
  }

  function EffortOf(e: Entry): Option<string> {
    if e.Run? then e.effort else None
  }

  ghost function RunsAt(es: seq<Entry>, a: Arm): set<int> {
    set i | 0 <= i < |es| && ArmOf(es[i]) == Some(a)
  }

  lemma {:induction false} RunsAreCounted(es: seq<Entry>, a: Arm)
    ensures RunsOf(es, a) == |RunsAt(es, a)|
  {
    if es != [] {
      var n := |es| - 1;
      RunsAreCounted(es[..n], a);
      assert RunsAt(es, a) == RunsAt(es[..n], a) + if ArmOf(es[n]) == Some(a) then {n} else {};
    } else {
      assert RunsAt(es, a) == {};
    }
  }

  lemma {:induction false} NoWrongTree(es: seq<Entry>, declared: string)
    ensures WrongTrees(es, declared) == 0 <==> forall e :: e in es && TreeOf(e).Some? ==> TreeOf(e).value == declared
  {
    if es != [] {
      var init, last := es[..|es| - 1], es[|es| - 1];
      NoWrongTree(init, declared);
      assert WrongTrees(es, declared) == WrongTrees(init, declared) + if TreeOf(last).Some? && TreeOf(last).value != declared then 1 else 0;
      assert last in es && forall e :: e in es <==> e in init || e == last;
    }
  }

  /** The format's header, and no run from another tree than the declared one. */
  predicate HeaderIsRight(b: Bundle)
    requires b.Bundle? && b.arms.Some?
  {
    && b.schemaIsRight && b.hasMicroTaskSha
    && b.baseCommit.Some? && |b.baseCommit.value| >= 7 && b.baseTreeSha.Some? && |b.baseTreeSha.value| >= 7
    && forall e :: e in b.arms.value + OrEmpty(b.replicates) && TreeOf(e).Some? ==> TreeOf(e) == b.baseTreeSha
  }

  lemma CleanHeader(b: Bundle)
    requires b.Bundle? && b.arms.Some?
    ensures (forall p :: !HeaderHas(b, p)) <==> HeaderIsRight(b)
  {
    var es := b.arms.value + OrEmpty(b.replicates);
    if b.baseTreeSha.Some? {
      NoWrongTree(es, b.baseTreeSha.value);
    }
    if forall p :: !HeaderHas(b, p) {
      assert !HeaderHas(b, WrongSchema) && !HeaderHas(b, NoMicroTaskSha);
      assert !HeaderHas(b, NoBaseCommit) && !HeaderHas(b, NoBaseTreeSha);
      assert !HeaderHas(b, OtherTrees(WrongTrees(es, b.baseTreeSha.value)));
    }
  }

  /** A known arm, five numbers, and the work their sum without what was read from the cache. */
  predicate WellMeasured(e: Entry) {
    && e.Run? && e.arm.Some? && e.usage.Some?
    && var u := e.usage.value;
       && u.input.Count? && u.output.Count? && u.cacheWrite.Count? && u.cacheRead.Count? && u.work.Count?
       && u.work.n == u.input.n + u.output.n + u.cacheWrite.n
  }

  lemma CleanEntry(e: Entry)
    ensures (forall p :: !EntryHas(e, p)) <==> WellMeasured(e)
  {
    if forall p :: !EntryHas(e, p) {
      assert !EntryHas(e, EntryIsNotARecord) && !EntryHas(e, UnknownArm);
      var a := e.arm.value;
      assert !EntryHas(e, NoUsage(a)) && !EntryHas(e, WorkIsNotTheSum(a));
      assert !EntryHas(e, NotANumber(a, InputTokens)) && !EntryHas(e, NotANumber(a, OutputTokens));
      assert !EntryHas(e, NotANumber(a, CacheWriteTokens)) && !EntryHas(e, NotANumber(a, CacheReadTokens));
      assert !EntryHas(e, NotANumber(a, WorkTokens));
    }
  }

  lemma CleanEntries(arms: seq<Entry>, replicates: seq<Entry>)
    ensures (forall p :: !EntriesHave(arms + replicates, |arms|, p)) <==>
              && (forall e :: e in arms + replicates ==> WellMeasured(e))
              && (forall i, j :: 0 <= i < j < |arms| ==> ArmOf(arms[i]) != ArmOf(arms[j]))
  {
    var es := arms + replicates;
    assert Head(es, |arms|) == arms;
    forall e ensures (forall p :: !EntryHas(e, p)) <==> WellMeasured(e) {
      CleanEntry(e);
    }
    if forall p :: !EntriesHave(es, |arms|, p) {
      forall e, p | e in es ensures !EntryHas(e, p) {
        assert !EntriesHave(es, |arms|, p);
      }
      forall i, j | 0 <= i < j < |arms| ensures ArmOf(arms[i]) != ArmOf(arms[j]) {
        assert arms[i] == es[i] && arms[i] in es && WellMeasured(arms[i]);
        var a := ArmOf(arms[i]).value;
        assert !EntriesHave(es, |arms|, DuplicateArm(a));
        TwiceIn(arms, a);
      }
    } else {
      var p :| EntriesHave(es, |arms|, p);
      if p.DuplicateArm? && RunsOf(arms, p.arm) >= 2 {
        TwiceIn(arms, p.arm);
      }
    }
  }

  lemma TwiceIn(es: seq<Entry>, a: Arm)
    ensures RunsOf(es, a) >= 2 <==>
              exists i, j :: 0 <= i < j < |es| && ArmOf(es[i]) == ArmOf(es[j]) == Some(a)
  {
    RunsAreCounted(es, a);
    TwoValues(RunsAt(es, a));
    if x, y :| x in RunsAt(es, a) && y in RunsAt(es, a) && x != y {
      var i, j := if x < y then x else y, if x < y then y else x;
      assert 0 <= i < j < |es| && ArmOf(es[i]) == ArmOf(es[j]) == Some(a);
    }
    if i, j :| 0 <= i < j < |es| && ArmOf(es[i]) == ArmOf(es[j]) == Some(a) {
      assert i in RunsAt(es, a) && j in RunsAt(es, a);
    }
  }

  /** At most one value, exactly when any two are the same. */
  lemma AtMostOne<T>(s: set<T>)
    ensures |s| <= 1 <==> forall x, y :: x in s && y in s ==> x == y
  {
    TwoValues(s);
  }

  /** The two flags say of the runs what is true of them, every arm has its effort, and none ran more often than another. */
  ghost predicate FlagsAreRight(b: Bundle, es: seq<Entry>)
    requires b.Bundle?
  {
    && b.paired == Some((exists e :: e in es && TreeOf(e).Some?)
                        && (forall e, f :: e in es && f in es && TreeOf(e).Some? && TreeOf(f).Some? ==> TreeOf(e) == TreeOf(f))
                        && (forall e, f :: e in es && f in es && ModelOf(e).Some? && ModelOf(f).Some? ==> ModelOf(e) == ModelOf(f)))
    && b.sameEffort == Some(forall e, f :: e in es && f in es && EffortOf(e).Some? && EffortOf(f).Some? ==> EffortOf(e) == EffortOf(f))
    && b.effortByArm.Some? && EffortsWritten(es, b.effortByArm.value) && EvenRuns(es)
  }

  lemma CleanFlags(b: Bundle, es: seq<Entry>)
    requires b.Bundle? && forall e :: e in es ==> WellMeasured(e)
    ensures (forall p :: !FlagsHave(b, es, p)) <==> FlagsAreRight(b, es)
  {
    LabelsPlainly(es);
    FlagsPlainly(b, es);
  }

  /** Every arm that ran has its effort. */
  ghost predicate EffortsWritten(es: seq<Entry>, efforts: set<Arm>) {
    forall e :: e in es && ArmOf(e).Some? ==> ArmOf(e).value in efforts
  }

  /** Arms that ran, ran equally often. */
  ghost predicate EvenRuns(es: seq<Entry>) {
    forall a, c :: RunsAt(es, a) != {} && RunsAt(es, c) != {} ==> |RunsAt(es, a)| == |RunsAt(es, c)|
  }

  lemma LabelsPlainly(es: seq<Entry>)
    requires forall e :: e in es ==> WellMeasured(e)
    ensures Paired(es) <==>
              && (exists e :: e in es && TreeOf(e).Some?)
              && (forall e, f :: e in es && f in es && TreeOf(e).Some? && TreeOf(f).Some? ==> TreeOf(e) == TreeOf(f))
              && (forall e, f :: e in es && f in es && ModelOf(e).Some? && ModelOf(f).Some? ==> ModelOf(e) == ModelOf(f))
    ensures SameEffort(es) <==> forall e, f :: e in es && f in es && EffortOf(e).Some? && EffortOf(f).Some? ==> EffortOf(e) == EffortOf(f)
  {
    TreesPlainly(es);
    ModelsPlainly(es);
    EffortsPlainly(es);
  }

  lemma TreesPlainly(es: seq<Entry>)
    requires forall e :: e in es ==> WellMeasured(e)
    ensures |Trees(es)| == 1 <==>
              && (exists e :: e in es && TreeOf(e).Some?)
              && (forall e, f :: e in es && f in es && TreeOf(e).Some? && TreeOf(f).Some? ==> TreeOf(e) == TreeOf(f))
  {
    AtMostOne(Trees(es));
    assert forall e :: e in es && TreeOf(e).Some? ==> TreeOf(e).value in Trees(es);
    if Trees(es) != {} {
      var t :| t in Trees(es);
    }
  }

  lemma ModelsPlainly(es: seq<Entry>)
    requires forall e :: e in es ==> WellMeasured(e)
    ensures |Models(es)| <= 1 <==> forall e, f :: e in es && f in es && ModelOf(e).Some? && ModelOf(f).Some? ==> ModelOf(e) == ModelOf(f)
  {
    AtMostOne(Models(es));
    assert forall e :: e in es && ModelOf(e).Some? ==> ModelOf(e).value in Models(es);
  }

  lemma EffortsPlainly(es: seq<Entry>)
    requires forall e :: e in es ==> WellMeasured(e)
    ensures |Efforts(es)| <= 1 <==> forall e, f :: e in es && f in es && EffortOf(e).Some? && EffortOf(f).Some? ==> EffortOf(e) == EffortOf(f)
  {
    AtMostOne(Efforts(es));
    assert forall e :: e in es && EffortOf(e).Some? ==> EffortOf(e).value in Efforts(es);
  }

  lemma EvenRunsAreEqual(es: seq<Entry>)
    ensures RunsAreEqual(es) <==> EvenRuns(es)
  {
    forall a ensures (a in ArmsSeen(es) <==> RunsAt(es, a) != {}) && RunsOf(es, a) == |RunsAt(es, a)| {
      SeenMeansCounted(es, a);
      RunsAreCounted(es, a);
    }
  }

  lemma AFlagProblemIsReal(b: Bundle, es: seq<Entry>, p: Problem)
    requires b.Bundle? && FlagsHave(b, es, p)
    ensures b.paired != Some(Paired(es)) || b.sameEffort != Some(SameEffort(es)) || b.effortByArm.None?
            || !EffortsWritten(es, b.effortByArm.value) || !RunsAreEqual(es)
  {
    if p.NoEffortFor? {
      var e :| e in es && Known(e) && e.arm.value == p.arm;
      assert ArmOf(e).Some?;
    }
  }

  lemma FlagsPlainly(b: Bundle, es: seq<Entry>)
    requires b.Bundle?
    ensures (forall p :: !FlagsHave(b, es, p)) <==>
              && b.paired == Some(Paired(es)) && b.sameEffort == Some(SameEffort(es))
              && b.effortByArm.Some? && EffortsWritten(es, b.effortByArm.value) && EvenRuns(es)
  {
    EvenRunsAreEqual(es);
    assert forall e :: e in es && ArmOf(e).Some? ==> ArmOf(e).value in ArmsSeen(es);
    if forall p :: !FlagsHave(b, es, p) {
      assert !FlagsHave(b, es, PairedIsWrong) && !FlagsHave(b, es, SameEffortIsWrong) && !FlagsHave(b, es, NoEffortByArm);
      forall e | e in es && ArmOf(e).Some? ensures ArmOf(e).value in b.effortByArm.value {
        assert !FlagsHave(b, es, NoEffortFor(ArmOf(e).value));
      }
      assert !FlagsHave(b, es, UnequalRuns);
    } else {
      var p :| FlagsHave(b, es, p);
      AFlagProblemIsReal(b, es, p);
    }
  }

  /** The summary counts the runs of each arm it names, and names every arm that ran. */
  ghost predicate SummaryIsRight(summary: seq<SummaryEntry>, es: seq<Entry>) {
    && (forall s :: s in summary ==> CountIsRight(s, es))
    && (forall e :: e in es && ArmOf(e).Some? ==> exists s :: s in summary && s.Summarised? && s.arm == ArmOf(e))
  }

  ghost predicate CountIsRight(s: SummaryEntry, es: seq<Entry>) {
    s.Summarised? && s.runs == Some(if s.arm.Some? then |RunsAt(es, s.arm.value)| as real else 0.0)
  }

  lemma CleanCount(s: SummaryEntry, es: seq<Entry>)
    ensures (forall p :: !SummaryEntryHas(s, es, p)) <==> CountIsRight(s, es)
  {
    if s.Summarised? {
      if s.arm.Some? {
        RunsAreCounted(es, s.arm.value);
      }
      assert SummaryEntryHas(s, es, SummaryRunsAreWrong(s.arm)) <==> s.runs != Some(Expected(es, s.arm) as real);
    } else {
      assert SummaryEntryHas(s, es, SummaryEntryIsNotARecord);
    }
  }

  lemma CleanSummary(summary: Option<seq<SummaryEntry>>, es: seq<Entry>)
    ensures (forall p :: !SummaryHas(summary, es, p)) <==> summary.Some? && SummaryIsRight(summary.value, es)
  {
    if summary.None? {
      assert SummaryHas(summary, es, NoSummary);
    } else {
      NothingSaidOfTheSummary(summary.value, es);
      forall s ensures (forall p :: !SummaryEntryHas(s, es, p)) <==> CountIsRight(s, es) {
        CleanCount(s, es);
      }
    }
  }

  lemma NothingSaidOfTheSummary(summary: seq<SummaryEntry>, es: seq<Entry>)
    ensures (forall p :: !SummaryHas(Some(summary), es, p)) <==>
              && (forall s, p :: s in summary ==> !SummaryEntryHas(s, es, p))
              && (forall e :: e in es && ArmOf(e).Some? ==> exists s :: s in summary && s.Summarised? && s.arm == ArmOf(e))
  {
    if forall p :: !SummaryHas(Some(summary), es, p) {
      forall s, p | s in summary ensures !SummaryEntryHas(s, es, p) {
        assert !SummaryHas(Some(summary), es, p);
      }
      forall e | e in es && ArmOf(e).Some? ensures exists s :: s in summary && s.Summarised? && s.arm == ArmOf(e) {
        assert !SummaryHas(Some(summary), es, NotSummarised(ArmOf(e).value));
        assert ArmOf(e).value in ArmsSeen(es) && Covers(summary, ArmOf(e).value);
      }
    }
  }

  /** What a bundle looks like that has no problem: the whole format, said of the bundle's own parts. */
  ghost predicate WellFormed(b: Bundle) {
    && b.Bundle? && b.arms.Some? && b.arms.value != [] && HeaderIsRight(b)
    && (forall i, j :: 0 <= i < j < |b.arms.value| ==> ArmOf(b.arms.value[i]) != ArmOf(b.arms.value[j]))
    && var es := b.arms.value + OrEmpty(b.replicates);
       && (forall e :: e in es ==> WellMeasured(e)) && FlagsAreRight(b, es)
       && b.summary.Some? && SummaryIsRight(b.summary.value, es)
  }

  /** The validator has nothing to say exactly of a bundle that has the whole format. */
  lemma CleanExactlyWhenWellFormed(b: Bundle)
    ensures (forall p :: !Reported(b, p)) <==> WellFormed(b)
  {
    if b.NotAnObject? {
      assert Reported(b, BundleIsNotAnObject);
    } else if b.arms.None? || b.arms.value == [] {
      assert Reported(b, NoArms);
    } else {
      var es := b.arms.value + OrEmpty(b.replicates);
      NothingReported(b);
      CleanHeader(b);
      CleanEntries(b.arms.value, OrEmpty(b.replicates));
      CleanSummary(b.summary, es);
      if forall e :: e in es ==> WellMeasured(e) {
        CleanFlags(b, es);
      }
    }
  }

  lemma NothingReported(b: Bundle)
    requires b.Bundle? && b.arms.Some? && b.arms.value != []
    ensures var es := b.arms.value + OrEmpty(b.replicates);
            (forall p :: !Reported(b, p)) <==>
              && (forall p :: !HeaderHas(b, p)) && (forall p :: !EntriesHave(es, |b.arms.value|, p))
              && (forall p :: !FlagsHave(b, es, p)) && (forall p :: !SummaryHas(b.summary, es, p))
  {
    var es := b.arms.value + OrEmpty(b.replicates);
    forall p
      ensures !Reported(b, p) <==> !HeaderHas(b, p) && !EntriesHave(es, |b.arms.value|, p) && !FlagsHave(b, es, p) && !SummaryHas(b.summary, es, p)
    {
    }
  }

  // ----- what is held against a run ------------------------------------------------------------

  /** A number as JSON has it, or what `Number()` makes of something else. */
  predicate IsNumber(f: Field, x: real) {
    f == Count(x) || f == Other(Some(x))
  }

  /** The work is the sum of the other three, all of them numbers; what is read from the cache is not counted. */
  ghost predicate Sums(u: Usage) {
    exists x, y, z :: IsNumber(u.input, x) && IsNumber(u.output, y) && IsNumber(u.cacheWrite, z) && IsNumber(u.work, x + y + z)
  }

  lemma WorkIsTheSumMeans(u: Usage)
    ensures WorkIsTheSum(u) <==> Sums(u)
  {
    if WorkIsTheSum(u) {
      assert IsNumber(u.input, AsNumber(u.input).value) && IsNumber(u.output, AsNumber(u.output).value);
      assert IsNumber(u.cacheWrite, AsNumber(u.cacheWrite).value);
      assert IsNumber(u.work, AsNumber(u.input).value + AsNumber(u.output).value + AsNumber(u.cacheWrite).value);
    }
  }

  /** The runs of other trees than `declared`. */
  ghost function OtherTreesAt(es: seq<Entry>, declared: string): set<int> {
    set i | 0 <= i < |es| && TreeOf(es[i]).Some? && TreeOf(es[i]).value != declared
  }

  lemma {:induction false} WrongTreesAreCounted(es: seq<Entry>, declared: string)
    ensures WrongTrees(es, declared) == |OtherTreesAt(es, declared)|
  {
    if es == [] {
      assert OtherTreesAt(es, declared) == {};
    } else {
      var n := |es| - 1;
      WrongTreesAreCounted(es[..n], declared);
      assert OtherTreesAt(es, declared)
          == OtherTreesAt(es[..n], declared) + if TreeOf(es[n]).Some? && TreeOf(es[n]).value != declared then {n} else {};
    }
  }

  /**
   * Work that is not the sum is held against an arm exactly when one of its runs has
   * such usage, not a number included; other trees are counted over all runs, in the
   * head and after it.
   */
  lemma WhatIsHeldAgainstARun(b: Bundle, a: Arm, n: nat)
    requires b.Bundle? && b.arms.Some? && b.arms.value != []
    ensures var es := b.arms.value + (if b.replicates.Some? then b.replicates.value else []);
            && (Reported(b, WorkIsNotTheSum(a)) <==> exists e :: e in es && ArmOf(e) == Some(a) && e.usage.Some? && !Sums(e.usage.value))
            && (Reported(b, OtherTrees(n)) <==>
                  b.baseTreeSha.Some? && n == |OtherTreesAt(es, b.baseTreeSha.value)| > 0)
  {
    var es := b.arms.value + OrEmpty(b.replicates);
    forall u ensures WorkIsTheSum(u) <==> Sums(u) {
      WorkIsTheSumMeans(u);
    }
    if b.baseTreeSha.Some? {
      WrongTreesAreCounted(es, b.baseTreeSha.value);
    }
  }
}
