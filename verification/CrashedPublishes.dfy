/**
 * What the generation record loses when publishes crash between their flip and
 * their record write (scripts/build-client-publish.ts): the next publish finds the
 * old record and only the last flipped bundle on display.
 */
module CrashedPublishes {
  import opened Options
  import opened StableSort
  import opened Generations

  type Key = set<string>

  predicate NamedAsServed(record: Record, k: Key) {
    exists g :: g in record && g.refs == k && g.replacedAt.None?
  }

  predicate NamedAsReplaced(record: Record, k: Key) {
    exists g :: g in record && g.refs == k && g.replacedAt.Some?
  }

  predicate Unnamed(record: Record, k: Key) {
    forall g :: g in record ==> g.refs != k
  }

  ghost predicate OneServed(gens: Record) {
    forall g, h :: g in gens && h in gens && g.replacedAt.None? && h.replacedAt.None? ==> g == h
  }

  // ----- records are fit for what follows ------------------------------------------------

  lemma {:induction false} DistinctKeysAt(gens: Record, i: nat, j: nat)
    requires DistinctKeys(gens) && i < j < |gens|
    ensures gens[i].refs != gens[j].refs
  {
    if i > 0 {
      DistinctKeysAt(gens[1..], i - 1, j - 1);
    } else {
      assert gens[j] == gens[1..][j - 1];
    }
  }

  lemma {:induction false} SameKeySameGeneration(gens: Record, g: Generation, h: Generation)
    requires DistinctKeys(gens) && g in gens && h in gens && g.refs == h.refs
    ensures g == h
  {
    if g in gens[1..] && h in gens[1..] {
      SameKeySameGeneration(gens[1..], g, h);
    }
  }

  lemma JoiningKeepsKeysDistinct(record: Record, shown: Option<Generation>)
    requires DistinctKeys(record)
    ensures DistinctKeys(WithServed(record, shown))
  {
    if WithServed(record, shown) != record {
      AppendKeepsKeysDistinct(record, shown.value);
    }
  }

  lemma OnlyTheNewOneIsServed(gens: Record, p: Publish)
    ensures OneServed(WithPublish(gens, p))
  {
    ReplaceMembers(gens, p.refs, p.now);
  }

  /** Every record a publish writes has one entry per bundle, one of them served, the others replaced by then. */
  lemma ARecordIsFitForTheNext(gens: Record, p: Publish, later: int)
    requires DistinctKeys(gens) && ReplacedBefore(gens, p.now) && p.now < later
    ensures DistinctKeys(RecordAfter(gens, p)) && OneServed(RecordAfter(gens, p)) && ReplacedBefore(RecordAfter(gens, p), later)
  {
    var full := WithPublish(gens, p);
    PublishKeepsHistoryFit(gens, p, later);
    KeptMembers(full, p.now);
    OnlyTheNewOneIsServed(gens, p);
    var k := KeptOfUnranked(full, p.now);
    SortKeepsKeysDistinct(full);
    PrefixKeepsKeysDistinct(Sort(RanksFirst, full), k);
  }

  // ----- rank, as the set of bundles ahead --------------------------------------------------

  /** The bundles before the first entry of `k`. */
  function Ahead(gens: Record, k: Key): set<Key> {
    if gens == [] || gens[0].refs == k then {} else {gens[0].refs} + Ahead(gens[1..], k)
  }

  lemma {:induction false} AheadAreNamed(gens: Record, k: Key)
    ensures forall q :: q in Ahead(gens, k) ==> !Unnamed(gens, q) && q != k
  {
    if gens != [] && gens[0].refs != k {
      AheadAreNamed(gens[1..], k);
      assert gens[0] in gens && forall g :: g in gens[1..] ==> g in gens;
    }
  }

  /** With one entry per bundle, an entry stands where as many bundles are ahead of it. */
  lemma {:induction false} AheadIsTheIndex(gens: Record, i: nat)
    requires DistinctKeys(gens) && i < |gens|
    ensures |Ahead(gens, gens[i].refs)| == i
  {
    if i > 0 {
      var k := gens[i].refs;
      AheadIsTheIndex(gens[1..], i - 1);
      DistinctKeysAt(gens, 0, i);
      AheadAreNamed(gens[1..], k);
      assert gens[0].refs !in Ahead(gens[1..], k);
    }
  }

  lemma {:induction false} AheadInReplaced(gens: Record, refs: Key, now: int, k: Key)
    requires k != refs
    ensures Ahead(Replace(gens, refs, now), k) == Ahead(gens, k) - {refs}
  {
    if gens != [] {
      AheadInReplaced(gens[1..], refs, now, k);
      if gens[0].refs == refs {
        assert Replace(gens, refs, now) == Replace(gens[1..], refs, now);
      } else {
        assert Replace(gens, refs, now)[1..] == Replace(gens[1..], refs, now);
      }
    }
  }

  lemma {:induction false} AheadWithOneMore(u: Record, t: Generation, v: Record, k: Key)
    requires k != t.refs
    ensures Ahead(u + v, k) <= Ahead(u + [t] + v, k) <= Ahead(u + v, k) + {t.refs}
  {
    if u == [] {
      assert u + v == v && u + [t] + v == [t] + v && ([t] + v)[1..] == v;
    } else {
      AheadWithOneMore(u[1..], t, v, k);
      assert (u + v)[1..] == u[1..] + v && (u + [t] + v)[1..] == u[1..] + [t] + v;
    }
  }

  /** A publish puts its own bundle ahead of all others and moves nobody else. */
  lemma AheadAfterPublish(gens: Record, p: Publish, k: Key)
    requires ReplacedBefore(gens, p.now) && k != p.refs
    ensures Ahead(Sort(RanksFirst, WithPublish(gens, p)), k) == {p.refs} + Ahead(Sort(RanksFirst, gens), k)
  {
    var ranked := Sort(RanksFirst, gens);
    RankingAfterPublish(gens, p);
    AheadInReplaced(ranked, p.refs, p.now, k);
    assert ([NewGeneration(p)] + Replace(ranked, p.refs, p.now))[1..] == Replace(ranked, p.refs, p.now);
  }

  lemma AheadAfterJoining(record: Record, shown: Option<Generation>, k: Key)
    requires shown.Some? ==> shown.value.refs != k
    ensures Ahead(Sort(RanksFirst, record), k) <= Ahead(Sort(RanksFirst, WithServed(record, shown)), k)
    ensures Ahead(Sort(RanksFirst, WithServed(record, shown)), k)
            <= Ahead(Sort(RanksFirst, record), k) + if shown.Some? then {shown.value.refs} else {}
  {
    if WithServed(record, shown) != record {
      var ranked := Sort(RanksFirst, record);
      RankingIsTotal();
      var i := SortAppend(RanksFirst, record, shown.value);
      AheadWithOneMore(ranked[..i], shown.value, ranked[i..], k);
      assert ranked[..i] + ranked[i..] == ranked;
    }
  }

  lemma {:induction false} AheadInHistory(start: Record, ps: seq<Publish>, k: Key)
    requires DistinctKeys(start) && StrictlyLater(start, ps) && forall p :: p in ps ==> p.refs != k
    ensures Ahead(Sort(RanksFirst, start), k) <= Ahead(Sort(RanksFirst, FullHistory(start, ps)), k)
    ensures ps != [] ==> ps[|ps| - 1].refs in Ahead(Sort(RanksFirst, FullHistory(start, ps)), k)
  {
    if ps != [] {
      var init, p := ps[..|ps| - 1], ps[|ps| - 1];
      AheadInHistory(start, init, k);
      HistoryStaysFit(start, init, p.now);
      AheadAfterPublish(FullHistory(start, init), p, k);
    }
  }

  /** An entry is kept exactly when fewer than forty bundles are ahead of it and it is in date. */
  lemma KeptByRankAndAge(gens: Record, now: int, g: Generation)
    requires DistinctKeys(gens) && g in gens
    ensures g in KeptGenerations(gens, now) <==> |Ahead(Sort(RanksFirst, gens), g.refs)| < GENERATION_KEEP_COUNT && StillWithin(g, now)
  {
    var ranked := Sort(RanksFirst, gens);
    RankingIsTotal();
    SortMembers(RanksFirst, gens);
    SortKeepsKeysDistinct(gens);
    var i :| 0 <= i < |ranked| && ranked[i] == g;
    AheadIsTheIndex(ranked, i);
    var top := Take(ranked, GENERATION_KEEP_COUNT);
    OnlyWithinMembers(top, now);
    if i < |top| {
      assert top[i] == g;
    }
    if g in top {
      var j :| 0 <= j < |top| && top[j] == g;
      AheadIsTheIndex(ranked, j);
    }
  }

  lemma {:induction false} FewerAhead(a: set<Key>, b: set<Key>)
    requires a <= b
    ensures |a| <= |b|
  {
    if a != {} {
      var x :| x in a;
      FewerAhead(a - {x}, b - {x});
    }
  }

  // ----- three days and forty bundles ---------------------------------------------------------

  /** `h` is still served and `g` is not, or it stopped later, or as late and was published later. */
  predicate Outranks(h: Generation, g: Generation) {
    || (h.replacedAt.None? && g.replacedAt.Some?)
    || (h.replacedAt.Some? && g.replacedAt.Some? && h.replacedAt.value > g.replacedAt.value)
    || (h.replacedAt == g.replacedAt && h.publishedAt > g.publishedAt)
  }

  /** In a ranked list what stands before an entry is everything that outranks it, and nothing that it outranks. */
  lemma OutrankingStandsBefore(ranked: Record, i: nat)
    requires Sorted(RanksFirst, ranked) && DistinctKeys(ranked) && i < |ranked|
    ensures forall h :: h in ranked && Outranks(h, ranked[i]) ==> h in ranked[..i]
    ensures forall h :: h in ranked[..i] ==> h in ranked && h != ranked[i] && !Outranks(ranked[i], h)
  {
    assert forall k :: i < k < |ranked| ==> RanksFirst(ranked[i], ranked[k]);
    forall h | h in ranked && Outranks(h, ranked[i]) ensures h in ranked[..i] {
      var j :| 0 <= j < |ranked| && ranked[j] == h;
    }
    forall h | h in ranked[..i] ensures h in ranked && h != ranked[i] && !Outranks(ranked[i], h) {
      var j :| 0 <= j < i && ranked[j] == h;
      DistinctKeysAt(ranked, j, i);
      assert RanksFirst(ranked[j], ranked[i]);
    }
  }

  /** With one entry per bundle a list has as many members as entries. */
  lemma {:induction false} MembersOf(gens: Record)
    requires DistinctKeys(gens)
    ensures |set g | g in gens| == |gens|
  {
    if gens != [] {
      MembersOf(gens[1..]);
      var rest := set g | g in gens[1..];
      assert gens[0] !in rest;
      assert (set g | g in gens) == {gens[0]} + rest;
    }
  }

  lemma {:induction false} FewerMembers(a: set<Generation>, b: set<Generation>)
    requires a <= b
    ensures |a| <= |b|
  {
    if a != {} {
      var x :| x in a;
      FewerMembers(a - {x}, b - {x});
    }
  }

  /**
   * Who is kept, in plain numbers: nobody replaced three days ago or outranked by
   * forty; and everybody else who is not outranked or tied by forty.
   */
  lemma KeptForThreeDaysAmongForty(gens: Record, now: int, g: Generation)
    requires DistinctKeys(gens) && g in gens
    ensures forall h :: h in gens ==>
              (Outranks(h, g) || Outranks(g, h) <==> h.replacedAt != g.replacedAt || h.publishedAt != g.publishedAt)
    ensures g in KeptGenerations(gens, now) ==>
              && (g.replacedAt.Some? ==> now - g.replacedAt.value < 259_200_000)
              && |set h | h in gens && Outranks(h, g)| < 40
    ensures (g.replacedAt.Some? ==> now - g.replacedAt.value < 259_200_000)
            && |set h | h in gens && h != g && !Outranks(g, h)| < 40
            ==> g in KeptGenerations(gens, now)
  {
    var ranked := Sort(RanksFirst, gens);
    RankingIsTotal();
    SortSorts(RanksFirst, gens);
    SortMembers(RanksFirst, gens);
    SortKeepsKeysDistinct(gens);
    var i: nat :| i < |ranked| && ranked[i] == g;
    AheadIsTheIndex(ranked, i);
    KeptByRankAndAge(gens, now, g);
    OutrankingStandsBefore(ranked, i);
    PrefixKeepsKeysDistinct(ranked, i);
    MembersOf(ranked[..i]);
    FewerMembers(set h | h in gens && Outranks(h, g), set h | h in ranked[..i]);
    FewerMembers(set h | h in ranked[..i], set h | h in gens && h != g && !Outranks(g, h));
  }

  /**
   * What a publish writes: its own bundle first, then bundles of the list under their
   * own references, dates of publication and files, replaced when they were or else
   * now; and of those everyone in date whom fewer than thirty-nine others can outrank.
   */
  lemma WhatAPublishWrites(gens: Record, p: Publish)
    requires DistinctKeys(gens) && ReplacedBefore(gens, p.now)
    ensures RecordAfter(gens, p) != [] && RecordAfter(gens, p)[0] == Generation(p.now, None, p.refs, p.assets)
    ensures forall g :: g in RecordAfter(gens, p) && g.refs == p.refs ==> g == Generation(p.now, None, p.refs, p.assets)
    ensures forall g :: g in RecordAfter(gens, p) && g.refs != p.refs ==>
              exists h :: h in gens && g == Generation(h.publishedAt, if h.replacedAt.Some? then h.replacedAt else Some(p.now), h.refs, h.assets)
    ensures forall h :: h in gens && h.refs != p.refs ==>
              (h.replacedAt.Some? ==> p.now - h.replacedAt.value < 259_200_000)
              && |set q | q in gens && q != h && !Outranks(h, q)| < 39
              ==> Generation(h.publishedAt, if h.replacedAt.Some? then h.replacedAt else Some(p.now), h.refs, h.assets) in RecordAfter(gens, p)
  {
    ServedIsRecorded(gens, p, NewGeneration(p));
    forall h ensures Retired(h, p.now) == Generation(h.publishedAt, if h.replacedAt.Some? then h.replacedAt else Some(p.now), h.refs, h.assets) {
    }
    forall g | g in RecordAfter(gens, p)
      ensures g == NewGeneration(p) || (g.refs != p.refs && exists h :: h in gens && g == Retired(h, p.now))
    {
      EntriesComeFromTheList(gens, p, g);
    }
    forall h | h in gens && h.refs != p.refs
               && (h.replacedAt.Some? ==> p.now - h.replacedAt.value < 259_200_000)
               && |set q | q in gens && q != h && !Outranks(h, q)| < 39
      ensures Retired(h, p.now) in RecordAfter(gens, p)
    {
      HighEnoughIsWritten(gens, p, h);
    }
  }

  lemma HighEnoughIsWritten(gens: Record, p: Publish, h: Generation)
    requires DistinctKeys(gens) && ReplacedBefore(gens, p.now) && h in gens && h.refs != p.refs
    requires h.replacedAt.Some? ==> p.now - h.replacedAt.value < 259_200_000
    requires |set q | q in gens && q != h && !Outranks(h, q)| < 39
    ensures Retired(h, p.now) in RecordAfter(gens, p)
  {
    var ranked := Sort(RanksFirst, gens);
    RankingIsTotal();
    SortSorts(RanksFirst, gens);
    SortMembers(RanksFirst, gens);
    SortKeepsKeysDistinct(gens);
    var i: nat :| i < |ranked| && ranked[i] == h;
    OutrankingStandsBefore(ranked, i);
    PrefixKeepsKeysDistinct(ranked, i);
    MembersOf(ranked[..i]);
    FewerMembers(set q | q in ranked[..i], set q | q in gens && q != h && !Outranks(h, q));
    RankedSurvivesPublish(gens, p, i);
  }

  // ----- what the next publish knows of a bundle ------------------------------------------------

  /** A generation still served ranks first or second when at most one other is. */
  lemma ServedRanksHigh(gens: Record, x: Generation, h: Generation) returns (i: nat)
    requires DistinctKeys(gens) && h in gens && h.replacedAt.None?
    requires forall g, g' :: g in gens && g' in gens && g != x && g' != x && g.replacedAt.None? && g'.replacedAt.None? ==> g == g'
    ensures i < |Sort(RanksFirst, gens)| && i <= 1 && Sort(RanksFirst, gens)[i] == h
  {
    var ranked := Sort(RanksFirst, gens);
    RankingIsTotal();
    SortSorts(RanksFirst, gens);
    SortMembers(RanksFirst, gens);
    SortKeepsKeysDistinct(gens);
    i :| 0 <= i < |ranked| && ranked[i] == h;
    if i >= 2 {
      assert RanksFirst(ranked[0], ranked[i]) && RanksFirst(ranked[1], ranked[i]);
      assert ranked[0] in gens && ranked[1] in gens;
      DistinctKeysAt(ranked, 0, 1);
      DistinctKeysAt(ranked, 0, i);
      DistinctKeysAt(ranked, 1, i);
      assert false;
    }
  }

  /** Replacing moves no other entry down. */
  lemma ReplacedNoFurther(gens: Record, refs: Key, now: int, i: nat) returns (j: nat)
    requires i < |gens| && gens[i].refs != refs
    ensures j <= i && j < |Replace(gens, refs, now)| && Replace(gens, refs, now)[j] == Retired(gens[i], now)
  {
    var head, tail := gens[..i + 1], gens[i + 1..];
    assert gens == head + tail;
    ReplaceSplits(head, tail, refs, now);
    ReplaceLength(head, refs, now);
    ReplaceMembers(head, refs, now);
    assert head[i] in head;
    j :| 0 <= j < |Replace(head, refs, now)| && Replace(head, refs, now)[j] == Retired(gens[i], now);
  }

  /** Whatever ranks above the last place and is in date is still kept by the next publish, re-dated if it was served. */
  lemma RankedSurvivesPublish(gens: Record, p: Publish, i: nat)
    requires ReplacedBefore(gens, p.now) && i < |Sort(RanksFirst, gens)| && i < GENERATION_KEEP_COUNT - 1
    requires var h := Sort(RanksFirst, gens)[i]; h.refs != p.refs && StillWithin(Retired(h, p.now), p.now)
    ensures Retired(Sort(RanksFirst, gens)[i], p.now) in RecordAfter(gens, p)
  {
    var ranked := Sort(RanksFirst, gens);
    var listed := [NewGeneration(p)] + Replace(ranked, p.refs, p.now);
    KeptAfterPublish(gens, p, p.now);
    var j := ReplacedNoFurther(ranked, p.refs, p.now, i);
    assert listed[j + 1] == Retired(ranked[i], p.now);
    assert Take(listed, GENERATION_KEEP_COUNT)[j + 1] == listed[j + 1];
    OnlyWithinMembers(Take(listed, GENERATION_KEEP_COUNT), p.now);
  }

  /** An entry still served, or the joined bundle, is recorded as replaced now. */
  lemma ServedIsRedated(record: Record, x: Generation, h: Generation, next: Publish)
    requires DistinctKeys(record) && OneServed(record) && ReplacedBefore(record, next.now) && x.replacedAt.None?
    requires h in WithServed(record, Some(x)) && h.replacedAt.None? && h.refs != next.refs
    ensures Retired(h, next.now) in RecordAfter(WithServed(record, Some(x)), next)
  {
    var listed := WithServed(record, Some(x));
    JoiningKeepsKeysDistinct(record, Some(x));
    var i := ServedRanksHigh(listed, x, h);
    RankedSurvivesPublish(listed, next, i);
  }

  /** Whatever the next publish has of a bundle other than its own comes from the record or is the joined bundle. */
  lemma EntriesComeFromTheList(list: Record, next: Publish, g: Generation)
    requires g in RecordAfter(list, next)
    ensures g == NewGeneration(next) || exists h :: h in list && g == Retired(h, next.now) && h.refs != next.refs
  {
    KeptMembers(WithPublish(list, next), next.now);
    ReplaceMembers(list, next.refs, next.now);
  }

  /**
   * What a publish knows of a bundle `k` when `record` is on disk and `x` on display:
   * it is recorded as replaced now if and only if the record calls it served, or it is
   * `x` itself and unnamed; if the record calls it replaced any entry keeps that
   * date; and if it is neither named nor `x` there is no entry at all.
   */
  lemma WhatTheNextPublishKnows(record: Record, x: Generation, next: Publish, k: Key)
    requires DistinctKeys(record) && OneServed(record) && ReplacedBefore(record, next.now)
    requires x.replacedAt.None? && x.refs != {} && k != next.refs
    ensures (exists g :: g in RecordAfter(WithServed(record, Some(x)), next) && g.refs == k && g.replacedAt == Some(next.now))
            <==> NamedAsServed(record, k) || (k == x.refs && Unnamed(record, k))
    ensures NamedAsReplaced(record, k) ==> forall g :: g in RecordAfter(WithServed(record, Some(x)), next) && g.refs == k ==> g in record
    ensures Unnamed(record, k) && k != x.refs ==> forall g :: g in RecordAfter(WithServed(record, Some(x)), next) ==> g.refs != k
  {
    if NamedAsServed(record, k) {
      var h :| h in record && h.refs == k && h.replacedAt.None?;
      ServedIsRedated(record, x, h, next);
      assert Retired(h, next.now).refs == k;
      NamedOnce(record, k);
    } else if k == x.refs && Unnamed(record, k) {
      ServedIsRedated(record, x, x, next);
      assert Retired(x, next.now).refs == k;
    } else {
      NotServedIsNotRedated(record, x, next, k);
    }
  }

  lemma NotServedIsNotRedated(record: Record, x: Generation, next: Publish, k: Key)
    requires DistinctKeys(record) && ReplacedBefore(record, next.now) && k != next.refs
    requires !NamedAsServed(record, k) && (k == x.refs ==> !Unnamed(record, k))
    ensures forall g :: g in RecordAfter(WithServed(record, Some(x)), next) && g.refs == k ==>
              g in record && g.replacedAt.Some? && g.replacedAt.value < next.now
  {
    var listed := WithServed(record, Some(x));
    forall g | g in RecordAfter(listed, next) && g.refs == k
      ensures g in record && g.replacedAt.Some? && g.replacedAt.value < next.now
    {
      EntriesComeFromTheList(listed, next, g);
      var h :| h in listed && g == Retired(h, next.now);
      assert h in record;
    }
  }

  /**
   * A publish of `x` crashed after its flip, so `x` is on display and unrecorded
   * when `next` runs. `next` records it as replaced at that moment exactly when no
   * entry already calls `x` a replaced generation: an old entry with the same
   * references is taken for the record of the live bundle and keeps its old date.
   */
  lemma CrashedBundleIsRecordedUnlessItIsAnOldOne(record: Record, x: Generation, next: Publish)
    requires DistinctKeys(record) && OneServed(record) && ReplacedBefore(record, next.now)
    requires x.replacedAt.None? && x.refs != {} && x.refs != next.refs
    ensures (exists g :: g in RecordAfter(WithServed(record, Some(x)), next) && g.refs == x.refs && g.replacedAt == Some(next.now))
            <==> (forall g :: g in record && g.refs == x.refs ==> g.replacedAt.None?)
  {
    WhatTheNextPublishKnows(record, x, next, x.refs);
    NamedOnce(record, x.refs);
  }

  /** And past the retention period of its old date the bundle is not retained at all, though it was live until now. */
  lemma CrashedOldBundleLosesItsRetention(record: Record, x: Generation, stale: Generation, next: Publish)
    requires DistinctKeys(record) && OneServed(record) && ReplacedBefore(record, next.now)
    requires x.replacedAt.None? && x.refs != {} && x.refs != next.refs
    requires stale in record && stale.refs == x.refs && stale.replacedAt.Some?
    ensures next.now - stale.replacedAt.value >= GENERATION_KEEP_MS ==>
              forall g :: g in RecordAfter(WithServed(record, Some(x)), next) ==> g.refs != x.refs
  {
    WhatTheNextPublishKnows(record, x, next, x.refs);
    KeptMembers(WithPublish(WithServed(record, Some(x)), next), next.now);
    forall g | g in RecordAfter(WithServed(record, Some(x)), next) && g.refs == x.refs ensures g == stale {
      SameKeySameGeneration(record, g, stale);
    }
  }

  /**
   * A bundle that was on display before the crashed publish, and is not the one on
   * display now, still has an entry after the next publish if and only if the record
   * already names it; the record is taken not to call it a replaced one.
   */
  lemma ShownBeforeTheCrashIsKeptIffNamed(record: Record, shown: Generation, x: Generation, next: Publish)
    requires DistinctKeys(record) && OneServed(record) && ReplacedBefore(record, next.now)
    requires x.replacedAt.None? && x.refs != {} && shown.refs != x.refs && shown.refs != next.refs
    requires !NamedAsReplaced(record, shown.refs)
    ensures (exists g :: g in RecordAfter(WithServed(record, Some(x)), next) && g.refs == shown.refs)
            <==> !Unnamed(record, shown.refs)
  {
    WhatTheNextPublishKnows(record, x, next, shown.refs);
    if g :| g in record && g.refs == shown.refs {
      assert g.replacedAt.None?;
    }
  }

  // ----- any number of crashes ----------------------------------------------------------------------

  /** `g` has the references of `h`, and stopped being served no earlier. */
  predicate LastsAsLong(g: Generation, h: Generation) {
    && g.refs == h.refs
    && (g.replacedAt.Some? ==> h.replacedAt.Some? && h.replacedAt.value <= g.replacedAt.value)
  }

  /** And so do the files of `h`. */
  predicate LivesAsLong(g: Generation, h: Generation) {
    LastsAsLong(g, h) && h.assets <= g.assets
  }

  predicate Publishes(ps: seq<Publish>, k: Key) {
    exists p :: p in ps && p.refs == k
  }

  /**
   * What crashes of `ps`, over `record` with `shown` on display at first, cost: a
   * bundle that was on display, is not any more, and that the record does not name;
   * and a published bundle that the record calls a replaced one.
   */
  predicate CostsTheLifeOf(record: Record, shown: Option<Generation>, ps: seq<Publish>, k: Key)
    requires ps != []
  {
    || (Unnamed(record, k) && k != ps[|ps| - 1].refs && (Publishes(ps, k) || (shown.Some? && shown.value.refs == k)))
    || (NamedAsReplaced(record, k) && Publishes(ps, k))
  }

  ghost predicate CrashedInARow(record: Record, shown: Option<Generation>, ps: seq<Publish>, x: Generation, next: Publish) {
    && DistinctKeys(record) && OneServed(record)
    && ps != [] && StrictlyLater(record, ps + [next])
    && (shown.Some? ==> shown.value.replacedAt.None? && shown.value.refs != {})
    && x.replacedAt.None? && x.refs == ps[|ps| - 1].refs != {}
  }

  lemma {:induction false} NamedInHistory(start: Record, ps: seq<Publish>, g: Generation)
    requires g in FullHistory(start, ps)
    ensures !Unnamed(start, g.refs) || Publishes(ps, g.refs)
  {
    if ps != [] {
      var init, p := ps[..|ps| - 1], ps[|ps| - 1];
      ReplaceMembers(FullHistory(start, init), p.refs, p.now);
      assert p in ps && forall q :: q in init ==> q in ps;
      if g != NewGeneration(p) {
        var h :| h in FullHistory(start, init) && g == Retired(h, p.now);
        NamedInHistory(start, init, h);
      }
    }
  }

  lemma {:induction false} UntouchedInHistory(start: Record, ps: seq<Publish>, g: Generation)
    requires g in start && g.replacedAt.Some? && !Publishes(ps, g.refs)
    ensures g in FullHistory(start, ps)
  {
    if ps != [] {
      var init, p := ps[..|ps| - 1], ps[|ps| - 1];
      assert p in ps && forall q :: q in init ==> q in ps;
      UntouchedInHistory(start, init, g);
      ReplaceMembers(FullHistory(start, init), p.refs, p.now);
      assert g == Retired(g, p.now);
    }
  }

  /** A bundle published in the history was not replaced before its first publish. */
  lemma {:induction false} PublishedIsReplacedLater(start: Record, ps: seq<Publish>, g: Generation)
    requires StrictlyLater(start, ps) && g in FullHistory(start, ps) && Publishes(ps, g.refs)
    ensures g.replacedAt.Some? ==> g.replacedAt.value >= ps[0].now
  {
    var init, p := ps[..|ps| - 1], ps[|ps| - 1];
    ReplaceMembers(FullHistory(start, init), p.refs, p.now);
    if g != NewGeneration(p) {
      var h :| h in FullHistory(start, init) && g == Retired(h, p.now);
      assert forall q :: q in ps <==> q in init || q == p;
      PublishedIsReplacedLater(start, init, h);
    }
  }

  lemma AllButTheLastAreEarlier(start: Record, ps: seq<Publish>, next: Publish)
    requires ps != [] && StrictlyLater(start, ps + [next])
    ensures StrictlyLater(start, ps) && ps[|ps| - 1].now < next.now
  {
    var all := ps + [next];
    assert forall p :: p in ps ==> p in all;
    assert forall i :: 0 <= i < |ps| ==> all[i] == ps[i];
    assert all[|ps| - 1].now < all[|ps|].now;
  }

  /** The record had every publish completed, taken from the history that forgets nothing. */
  lemma CompletedRecord(record: Record, shown: Option<Generation>, ps: seq<Publish>, x: Generation, next: Publish)
    requires CrashedInARow(record, shown, ps, x, next)
    ensures var start := WithServed(record, shown);
            && DistinctKeys(start) && StrictlyLater(start, ps)
            && DistinctKeys(FullHistory(start, ps)) && ReplacedBefore(FullHistory(start, ps), next.now)
            && RecordHistory(start, ps + [next]) == RecordAfter(FullHistory(start, ps), next)
  {
    var start, all := WithServed(record, shown), ps + [next];
    JoiningKeepsKeysDistinct(record, shown);
    assert next in all && all[..|ps|] == ps;
    assert StrictlyLater(start, all);
    AllButTheLastAreEarlier(start, ps, next);
    RecordRefinesFullHistory(start, all, next.now);
    HistoryStaysFit(start, ps, next.now);
  }

  /** An entry the crashes did not touch ranks no lower without them. */
  lemma UntouchedIsKept(record: Record, shown: Option<Generation>, ps: seq<Publish>, x: Generation, next: Publish, g: Generation)
    requires CrashedInARow(record, shown, ps, x, next)
    requires g in record && g.replacedAt.Some? && !Publishes(ps, g.refs) && g.refs != next.refs
    requires g in RecordAfter(FullHistory(WithServed(record, shown), ps), next)
    ensures g in RecordAfter(WithServed(record, Some(x)), next)
  {
    var start, k := WithServed(record, shown), g.refs;
    var full, listed := FullHistory(start, ps), WithServed(record, Some(x));
    CompletedRecord(record, shown, ps, x, next);
    JoiningKeepsKeysDistinct(record, Some(x));
    assert next in ps + [next] && ps[|ps| - 1] in ps;
    PublishKeepsHistoryFit(full, next, next.now + 1);
    PublishKeepsHistoryFit(listed, next, next.now + 1);
    ReplaceMembers(full, next.refs, next.now);
    ReplaceMembers(listed, next.refs, next.now);
    UntouchedInHistory(start, ps, g);
    assert g == Retired(g, next.now);
    assert g in WithPublish(full, next) && g in WithPublish(listed, next);
    KeptByRankAndAge(WithPublish(full, next), next.now, g);
    KeptByRankAndAge(WithPublish(listed, next), next.now, g);
    AheadIsNoMore(record, shown, ps, x, next, k);
    FewerAhead(Ahead(Sort(RanksFirst, WithPublish(listed, next)), k), Ahead(Sort(RanksFirst, WithPublish(full, next)), k));
  }

  lemma AheadIsNoMore(record: Record, shown: Option<Generation>, ps: seq<Publish>, x: Generation, next: Publish, k: Key)
    requires CrashedInARow(record, shown, ps, x, next) && !Publishes(ps, k) && k != next.refs && !Unnamed(record, k)
    ensures Ahead(Sort(RanksFirst, WithPublish(WithServed(record, Some(x)), next)), k)
            <= Ahead(Sort(RanksFirst, WithPublish(FullHistory(WithServed(record, shown), ps), next)), k)
  {
    var start, listed := WithServed(record, shown), WithServed(record, Some(x));
    CompletedRecord(record, shown, ps, x, next);
    assert next in ps + [next] && ps[|ps| - 1] in ps;
    assert ReplacedBefore(listed, next.now);
    AheadAfterPublish(listed, next, k);
    AheadAfterPublish(FullHistory(start, ps), next, k);
    AheadAfterJoining(record, Some(x), k);
    AheadAfterJoining(record, if start == record then None else shown, k);
    AheadInHistory(start, ps, k);
  }

  /**
   * Any number of publishes crash between flip and record, then one completes. A
   * generation that it would keep had all of them completed has an entry that lasts as
   * long after the crashes if and only if it is the new one or the crashes did not
   * cost its life.
   */
  lemma AnEntryLastsExactlyWhen(record: Record, shown: Option<Generation>, ps: seq<Publish>, x: Generation, next: Publish, h: Generation)
    requires CrashedInARow(record, shown, ps, x, next)
    requires h in RecordHistory(WithServed(record, shown), ps + [next])
    ensures (exists g :: g in RecordAfter(WithServed(record, Some(x)), next) && LastsAsLong(g, h))
            <==> h.refs == next.refs || !CostsTheLifeOf(record, shown, ps, h.refs)
  {
    var full := FullHistory(WithServed(record, shown), ps);
    CompletedRecord(record, shown, ps, x, next);
    assert next in ps + [next];
    EntriesComeFromTheList(full, next, h);
    if h.refs == next.refs {
      TheNewOneIsThere(record, x, next, h);
    } else {
      var h0 :| h0 in full && h == Retired(h0, next.now);
      OlderEntryLastsExactlyWhen(record, shown, ps, x, next, h0, h);
    }
  }

  lemma OlderEntryLastsExactlyWhen(record: Record, shown: Option<Generation>, ps: seq<Publish>, x: Generation, next: Publish,
                                     h0: Generation, h: Generation)
    requires CrashedInARow(record, shown, ps, x, next) && h.refs != next.refs && ReplacedBefore(record, next.now)
    requires h in RecordAfter(FullHistory(WithServed(record, shown), ps), next)
    requires h0 in FullHistory(WithServed(record, shown), ps) && h == Retired(h0, next.now)
    requires ReplacedBefore(FullHistory(WithServed(record, shown), ps), next.now)
    ensures (exists g :: g in RecordAfter(WithServed(record, Some(x)), next) && LastsAsLong(g, h))
            <==> !CostsTheLifeOf(record, shown, ps, h.refs)
  {
    NamedInHistory(WithServed(record, shown), ps, h0);
    NamedOnce(record, h.refs);
    if NamedAsServed(record, h.refs) || (h.refs == x.refs && Unnamed(record, h.refs)) {
      WhatTheNextPublishKnows(record, x, next, h.refs);
      RedatedLastsOn(record, x, next, FullHistory(WithServed(record, shown), ps), h);
    } else if NamedAsReplaced(record, h.refs) {
      ReplacedLastsUnlessPublished(record, shown, ps, x, next, h0, h);
    } else {
      ForgottenForGood(record, x, next, h);
    }
  }

  lemma ForgottenForGood(record: Record, x: Generation, next: Publish, h: Generation)
    requires DistinctKeys(record) && OneServed(record) && ReplacedBefore(record, next.now) && x.replacedAt.None? && x.refs != {}
    requires Unnamed(record, h.refs) && h.refs != x.refs && h.refs != next.refs
    ensures !exists g :: g in RecordAfter(WithServed(record, Some(x)), next) && LastsAsLong(g, h)
  {
    WhatTheNextPublishKnows(record, x, next, h.refs);
  }

  lemma TheNewOneIsThere(record: Record, x: Generation, next: Publish, h: Generation)
    requires ReplacedBefore(record, next.now) && x.replacedAt.None? && h == NewGeneration(next)
    ensures exists g :: g in RecordAfter(WithServed(record, Some(x)), next) && LivesAsLong(g, h)
  {
    ServedIsRecorded(WithServed(record, Some(x)), next, h);
    assert LivesAsLong(h, h) && h in RecordAfter(WithServed(record, Some(x)), next);
  }

  lemma ReplacedLastsUnlessPublished(record: Record, shown: Option<Generation>, ps: seq<Publish>, x: Generation, next: Publish,
                                       h0: Generation, h: Generation)
    requires CrashedInARow(record, shown, ps, x, next) && NamedAsReplaced(record, h.refs) && h.refs != next.refs
    requires h in RecordAfter(FullHistory(WithServed(record, shown), ps), next)
    requires h0 in FullHistory(WithServed(record, shown), ps) && h == Retired(h0, next.now)
    ensures (exists g :: g in RecordAfter(WithServed(record, Some(x)), next) && LastsAsLong(g, h)) <==> !Publishes(ps, h.refs)
  {
    var start := WithServed(record, shown);
    CompletedRecord(record, shown, ps, x, next);
    assert next in ps + [next];
    var stale :| stale in record && stale.refs == h.refs && stale.replacedAt.Some?;
    if Publishes(ps, h.refs) {
      PublishedIsReplacedLater(start, ps, h0);
      assert ps[0] == (ps + [next])[0] && next == (ps + [next])[|ps|] && ps[0] in ps + [next];
      WhatTheNextPublishKnows(record, x, next, h.refs);
      forall g | g in RecordAfter(WithServed(record, Some(x)), next) && g.refs == h.refs ensures g == stale {
        SameKeySameGeneration(record, g, stale);
      }
    } else {
      UntouchedInHistory(start, ps, stale);
      SameKeySameGeneration(FullHistory(start, ps), h0, stale);
      UntouchedIsKept(record, shown, ps, x, next, stale);
      assert LastsAsLong(stale, h);
    }
  }

  lemma NamedOnce(record: Record, k: Key)
    requires DistinctKeys(record)
    ensures !(NamedAsServed(record, k) && NamedAsReplaced(record, k))
  {
    if NamedAsServed(record, k) && NamedAsReplaced(record, k) {
      var g :| g in record && g.refs == k && g.replacedAt.None?;
      var h :| h in record && h.refs == k && h.replacedAt.Some?;
      SameKeySameGeneration(record, g, h);
    }
  }

  lemma RedatedLastsOn(record: Record, x: Generation, next: Publish, full: Record, h: Generation)
    requires exists g :: g in RecordAfter(WithServed(record, Some(x)), next) && g.refs == h.refs && g.replacedAt == Some(next.now)
    requires ReplacedBefore(full, next.now) && exists h0 :: h0 in full && h == Retired(h0, next.now)
    ensures exists g :: g in RecordAfter(WithServed(record, Some(x)), next) && LastsAsLong(g, h)
  {
    var g :| g in RecordAfter(WithServed(record, Some(x)), next) && g.refs == h.refs && g.replacedAt == Some(next.now);
    assert LastsAsLong(g, h);
  }

  // ----- and the files --------------------------------------------------------------------------

  /** What the last publish of `k` among `ps` staged. */
  function LastStaged(ps: seq<Publish>, k: Key): set<string> {
    if ps == [] then {}
    else if ps[|ps| - 1].refs == k then ps[|ps| - 1].assets
    else LastStaged(ps[..|ps| - 1], k)
  }

  /**
   * What crashes of `ps` cost a bundle that keeps its life: files that its last publish
   * staged and that are not in the entry the next publish finds for it, which is the
   * record's or, when that has none, the one read off the display.
   */
  predicate CostsFilesOf(record: Record, ps: seq<Publish>, x: Generation, k: Key) {
    Publishes(ps, k) && exists r :: r in WithServed(record, Some(x)) && r.refs == k && !(LastStaged(ps, k) <= r.assets)
  }

  /** In a history a bundle owns what its last publish staged, and without one what it owned at first. */
  lemma {:induction false} HistoryAssets(start: Record, ps: seq<Publish>, g: Generation)
    requires g in FullHistory(start, ps)
    ensures Publishes(ps, g.refs) ==> g.assets == LastStaged(ps, g.refs)
    ensures !Publishes(ps, g.refs) ==> exists s :: s in start && s.refs == g.refs && s.assets == g.assets
  {
    if ps != [] {
      var init, p := ps[..|ps| - 1], ps[|ps| - 1];
      ReplaceMembers(FullHistory(start, init), p.refs, p.now);
      assert forall q :: q in ps <==> q in init || q == p;
      if g != NewGeneration(p) {
        var h :| h in FullHistory(start, init) && g == Retired(h, p.now);
        HistoryAssets(start, init, h);
        assert Publishes(ps, g.refs) <==> Publishes(init, g.refs);
      } else {
        assert Publishes(ps, p.refs);
      }
    }
  }

  /** The next publish has at most one entry of `r`'s references, with `r`'s files. */
  lemma TheEntryOwnsWhatItOwned(list: Record, next: Publish, r: Generation)
    requires DistinctKeys(list) && r in list && r.refs != next.refs
    ensures forall g :: g in RecordAfter(list, next) && g.refs == r.refs ==> g.assets == r.assets
  {
    forall g | g in RecordAfter(list, next) && g.refs == r.refs ensures g.assets == r.assets {
      EntriesComeFromTheList(list, next, g);
      var h :| h in list && g == Retired(h, next.now);
      SameKeySameGeneration(list, h, r);
    }
  }

  lemma FilesOfTheEntry(list: Record, next: Publish, r: Generation, h: Generation)
    requires DistinctKeys(list) && r in list && r.refs == h.refs != next.refs
    requires exists g :: g in RecordAfter(list, next) && LastsAsLong(g, h)
    ensures (exists g :: g in RecordAfter(list, next) && LivesAsLong(g, h)) <==> h.assets <= r.assets
  {
    TheEntryOwnsWhatItOwned(list, next, r);
    var g :| g in RecordAfter(list, next) && LastsAsLong(g, h);
    assert h.assets <= r.assets ==> LivesAsLong(g, h);
  }

  /** The entry that the next publish finds for a bundle whose life the crashes did not cost. */
  lemma TheEntryOf(record: Record, shown: Option<Generation>, ps: seq<Publish>, x: Generation, next: Publish, h: Generation)
    returns (r: Generation)
    requires CrashedInARow(record, shown, ps, x, next) && h.refs != next.refs
    requires h in RecordAfter(FullHistory(WithServed(record, shown), ps), next)
    requires !CostsTheLifeOf(record, shown, ps, h.refs)
    ensures r in WithServed(record, Some(x)) && r.refs == h.refs
    ensures h.assets <= r.assets <==> !CostsFilesOf(record, ps, x, h.refs)
  {
    var start, listed, k := WithServed(record, shown), WithServed(record, Some(x)), h.refs;
    var full := FullHistory(start, ps);
    EntriesComeFromTheList(full, next, h);
    var h0 :| h0 in full && h == Retired(h0, next.now);
    HistoryAssets(start, ps, h0);
    NamedInHistory(start, ps, h0);
    assert ps[|ps| - 1] in ps;
    if Unnamed(record, k) {
      r := x;
      assert k == x.refs;
    } else {
      r :| r in record && r.refs == k;
    }
    JoiningKeepsKeysDistinct(record, Some(x));
    forall q | q in listed && q.refs == k ensures q == r {
      SameKeySameGeneration(listed, q, r);
    }
    if !Publishes(ps, k) {
      var s :| s in start && s.refs == k && s.assets == h.assets;
      JoiningKeepsKeysDistinct(record, shown);
      SameKeySameGeneration(start, s, r);
    }
  }

  lemma FilesLastExactlyWhen(record: Record, shown: Option<Generation>, ps: seq<Publish>, x: Generation, next: Publish, h: Generation)
    requires CrashedInARow(record, shown, ps, x, next) && h.refs != next.refs
    requires h in RecordAfter(FullHistory(WithServed(record, shown), ps), next)
    requires !CostsTheLifeOf(record, shown, ps, h.refs)
    requires exists g :: g in RecordAfter(WithServed(record, Some(x)), next) && LastsAsLong(g, h)
    ensures (exists g :: g in RecordAfter(WithServed(record, Some(x)), next) && LivesAsLong(g, h))
            <==> !CostsFilesOf(record, ps, x, h.refs)
  {
    var r := TheEntryOf(record, shown, ps, x, next, h);
    JoiningKeepsKeysDistinct(record, Some(x));
    FilesOfTheEntry(WithServed(record, Some(x)), next, r, h);
  }

  /**
   * Any number of publishes crash between flip and record, then one completes. A
   * generation that it would keep had all of them completed is kept for as long, if
   * and only if it is the new one or the crashes did not cost its life; and all its
   * files with it, if and only if, besides, its last crashed publish staged nothing
   * that the entry the next publish finds does not own. A bundle that no crashed
   * publish staged keeps its files as long as it keeps its life.
   */
  lemma ALifeSurvivesCrashesExactlyWhen(record: Record, shown: Option<Generation>, ps: seq<Publish>, x: Generation, next: Publish, h: Generation)
    requires CrashedInARow(record, shown, ps, x, next)
    requires h in RecordHistory(WithServed(record, shown), ps + [next])
    ensures (exists g :: g in RecordAfter(WithServed(record, Some(x)), next) && LastsAsLong(g, h))
            <==> h.refs == next.refs || !CostsTheLifeOf(record, shown, ps, h.refs)
    ensures (exists g :: g in RecordAfter(WithServed(record, Some(x)), next) && LivesAsLong(g, h))
            <==> h.refs == next.refs || (!CostsTheLifeOf(record, shown, ps, h.refs) && !CostsFilesOf(record, ps, x, h.refs))
  {
    AnEntryLastsExactlyWhen(record, shown, ps, x, next, h);
    CompletedRecord(record, shown, ps, x, next);
    assert next in ps + [next];
    if h.refs == next.refs {
      EntriesComeFromTheList(FullHistory(WithServed(record, shown), ps), next, h);
      TheNewOneIsThere(record, x, next, h);
    } else if !CostsTheLifeOf(record, shown, ps, h.refs) {
      FilesLastExactlyWhen(record, shown, ps, x, next, h);
    }
  }

  /**
   * One crash, with what was on display recorded and no old bundle flipped, shortens no
   * life at all, and costs no files but those of the bundle it flipped.
   */
  lemma CrashNeverShortensALife(record: Record, shown: Option<Generation>, crashed: Publish, x: Generation, next: Publish)
    requires CrashedInARow(record, shown, [crashed], x, next)
    requires shown.Some? ==> !Unnamed(record, shown.value.refs)
    requires !NamedAsReplaced(record, crashed.refs)
    ensures forall h :: h in RecordHistory(WithServed(record, shown), [crashed, next]) ==>
              exists g :: g in RecordAfter(WithServed(record, Some(x)), next) && LastsAsLong(g, h) && (h.refs != crashed.refs ==> h.assets <= g.assets)
  {
    assert [crashed] + [next] == [crashed, next];
    forall h | h in RecordHistory(WithServed(record, shown), [crashed, next])
      ensures exists g :: g in RecordAfter(WithServed(record, Some(x)), next) && LastsAsLong(g, h) && (h.refs != crashed.refs ==> h.assets <= g.assets)
    {
      ALifeSurvivesCrashesExactlyWhen(record, shown, [crashed], x, next, h);
      assert forall p :: p in [crashed] ==> p == crashed;
      var g :| g in RecordAfter(WithServed(record, Some(x)), next) && LastsAsLong(g, h) && (h.refs != crashed.refs ==> LivesAsLong(g, h));
    }
  }

  /** Otherwise one crash costs at most the old bundle it flipped and the unrecorded one that was on display. */
  lemma CrashOfAnOldBundleSparesTheOthers(record: Record, shown: Option<Generation>, crashed: Publish, x: Generation, next: Publish)
    requires CrashedInARow(record, shown, [crashed], x, next)
    ensures forall h :: h in RecordHistory(WithServed(record, shown), [crashed, next]) ==>
              || h.refs == crashed.refs
              || (Unnamed(record, h.refs) && shown.Some? && shown.value.refs == h.refs)
              || exists g :: g in RecordAfter(WithServed(record, Some(x)), next) && LivesAsLong(g, h)
  {
    assert [crashed] + [next] == [crashed, next];
    forall h | h in RecordHistory(WithServed(record, shown), [crashed, next])
      ensures h.refs == crashed.refs || (Unnamed(record, h.refs) && shown.Some? && shown.value.refs == h.refs)
              || exists g :: g in RecordAfter(WithServed(record, Some(x)), next) && LivesAsLong(g, h)
    {
      ALifeSurvivesCrashesExactlyWhen(record, shown, [crashed], x, next, h);
    }
  }

  /**
   * A first publish over a bundle that no publish recorded, crashed after its flip:
   * completed, it would have recorded the bundle that windows run; crashed, no later
   * record names it.
   */
  lemma AnUnrecordedBundleIsForgotten(y: Generation, x: Generation, z: Publish)
    requires y.replacedAt.None? && x.replacedAt.None? && z.now == 20
    requires y.refs != {} && x.refs != {} && y.refs != x.refs && y.refs != z.refs
    ensures var crashed := Publish(10, x.refs, x.assets);
            exists g :: g in RecordHistory(WithServed([], Some(y)), [crashed]) && g.refs == y.refs && g.replacedAt == Some(10)
    ensures forall g :: g in RecordAfter(WithServed([], Some(x)), z) ==> g.refs != y.refs
  {
    var crashed := Publish(10, x.refs, x.assets);
    ServedIsRedated([], y, y, crashed);
    assert Retired(y, 10) in RecordAfter(WithServed([], Some(y)), crashed);
    assert [crashed][..0] == [];
    assert RecordHistory(WithServed([], Some(y)), [crashed]) == RecordAfter(WithServed([], Some(y)), crashed);
    WhatTheNextPublishKnows([], x, z, y.refs);
  }
}
