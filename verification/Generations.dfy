/**
 * The bounded record of published generations
 * (`keptGenerations` and the record update of `publishBundle` in
 * scripts/build-client-publish.ts). Times are epoch milliseconds.
 */
module Generations {
  import opened Options
  import opened StableSort

  const GENERATION_KEEP_MS: int := 3 * 24 * 3_600_000
  const GENERATION_KEEP_COUNT: nat := 40

  /** `refs` tells two generations apart, `assets` is every file one is made of. */
  datatype Generation = Generation(publishedAt: int, replacedAt: Option<int>, refs: set<string>, assets: set<string>)

  type Record = seq<Generation>

  /**
   * The comparator of `keptGenerations` does not put `a` after `b`. Last served is
   * infinite while a generation is served; the difference of two infinities is NaN,
   * which falls through to `publishedAt`.
   */
  predicate RanksFirst(a: Generation, b: Generation) {
    match (a.replacedAt, b.replacedAt)
    case (None, None) => a.publishedAt >= b.publishedAt
    case (None, Some(_)) => true
    case (Some(_), None) => false
    case (Some(x), Some(y)) => x > y || (x == y && a.publishedAt >= b.publishedAt)
  }

  predicate StillWithin(g: Generation, now: int) {
    g.replacedAt.None? || now - g.replacedAt.value < GENERATION_KEEP_MS
  }

  function OnlyWithin(gens: Record, now: int): Record {
    if gens == [] then []
    else (if StillWithin(gens[0], now) then [gens[0]] else []) + OnlyWithin(gens[1..], now)
  }

  function Take(gens: Record, n: nat): Record {
    if |gens| <= n then gens else gens[..n]
  }

  function KeptGenerations(gens: Record, now: int): Record {
    OnlyWithin(Take(Sort(RanksFirst, gens), GENERATION_KEEP_COUNT), now)
  }

  /** Whatever was served until now stops being served now. */
  function Retired(g: Generation, now: int): Generation {
    if g.replacedAt.None? then g.(replacedAt := Some(now)) else g
  }

  /** What was served stops being served at `now`; the generation with `refs` leaves the list. */
  function Replace(gens: Record, refs: set<string>, now: int): Record {
    if gens == [] then []
    else
      (if gens[0].refs == refs then []
       else [Retired(gens[0], now)])
      + Replace(gens[1..], refs, now)
  }

  datatype Publish = Publish(now: int, refs: set<string>, assets: set<string>)

  function NewGeneration(p: Publish): Generation {
    Generation(p.now, None, p.refs, p.assets)
  }

  /** The list a publish ranks: nothing dropped yet. */
  function WithPublish(gens: Record, p: Publish): Record {
    Replace(gens, p.refs, p.now) + [NewGeneration(p)]
  }

  /** The record a publish writes. */
  function RecordAfter(gens: Record, p: Publish): Record {
    KeptGenerations(WithPublish(gens, p), p.now)
  }

  /** The bundle on display joins the list when no entry has its references. */
  function WithServed(gens: Record, served: Option<Generation>): Record {
    if served.Some? && served.value.refs != {} && forall g :: g in gens ==> g.refs != served.value.refs
    then gens + [served.value] else gens
  }

  /** Every file a kept generation owns (`retainedAssets`). */
  function RetainedAssets(record: Record, now: int): set<string> {
    AssetsOf(KeptGenerations(record, now))
  }

  function AssetsOf(gens: Record): set<string> {
    set g, a | g in gens && a in g.assets :: a
  }

  ghost predicate DistinctKeys(gens: Record) {
    gens != [] ==> (forall g :: g in gens[1..] ==> g.refs != gens[0].refs) && DistinctKeys(gens[1..])
  }

  ghost predicate ReplacedBefore(gens: Record, now: int) {
    forall g :: g in gens && g.replacedAt.Some? ==> g.replacedAt.value < now
  }

  // ----- the ranking and its prefix ---------------------------------------------

  lemma RankingIsTotal()
    ensures TotalPreorder(RanksFirst)
  {
  }

  lemma {:induction false} OnlyWithinSplits(a: Record, b: Record, now: int)
    ensures OnlyWithin(a + b, now) == OnlyWithin(a, now) + OnlyWithin(b, now)
  {
    if a == [] {
      assert a + b == b;
    } else {
      assert (a + b)[0] == a[0] && (a + b)[1..] == a[1..] + b;
      OnlyWithinSplits(a[1..], b, now);
      var head: Record := if StillWithin(a[0], now) then [a[0]] else [];
      assert head + (OnlyWithin(a[1..], now) + OnlyWithin(b, now)) == head + OnlyWithin(a[1..], now) + OnlyWithin(b, now);
    }
  }

  lemma {:induction false} OnlyWithinAll(gens: Record, now: int)
    ensures (forall g :: g in gens ==> StillWithin(g, now)) ==> OnlyWithin(gens, now) == gens
    ensures (forall g :: g in gens ==> !StillWithin(g, now)) ==> OnlyWithin(gens, now) == []
  {
    if gens != [] {
      assert forall g :: g in gens[1..] ==> g in gens;
      assert gens[0] in gens;
      OnlyWithinAll(gens[1..], now);
    }
  }

  /** How many of a ranked list stay inside the retention period. */
  ghost function WithinCount(ranked: Record, now: int): (k: nat)
    ensures k <= |ranked|
    ensures k < |ranked| ==> !StillWithin(ranked[k], now)
    ensures forall i :: 0 <= i < k ==> StillWithin(ranked[i], now)
  {
    if ranked == [] || !StillWithin(ranked[0], now) then 0 else 1 + WithinCount(ranked[1..], now)
  }

  lemma TooOldFromThere(ranked: Record, now: int, w: nat)
    requires Sorted(RanksFirst, ranked) && w <= |ranked| && (w < |ranked| ==> !StillWithin(ranked[w], now))
    ensures forall g :: g in ranked[w..] ==> !StillWithin(g, now)
  {
    forall g | g in ranked[w..] ensures !StillWithin(g, now) {
      var i :| w <= i < |ranked| && ranked[i] == g;
      assert i > w ==> RanksFirst(ranked[w], ranked[i]);
    }
  }

  /** On a ranked list, slicing then filtering keeps a prefix, and everything past it stays out for good. */
  lemma KeptIsAPrefix(ranked: Record, now: int) returns (k: nat)
    requires Sorted(RanksFirst, ranked)
    ensures k <= |ranked| && OnlyWithin(Take(ranked, GENERATION_KEEP_COUNT), now) == ranked[..k]
    ensures k == GENERATION_KEEP_COUNT || (k < GENERATION_KEEP_COUNT && forall g :: g in ranked[k..] ==> !StillWithin(g, now))
    ensures forall g :: g in ranked[..k] ==> StillWithin(g, now)
  {
    var top := Take(ranked, GENERATION_KEEP_COUNT);
    var w := WithinCount(ranked, now);
    TooOldFromThere(ranked, now, w);
    k := if w < GENERATION_KEEP_COUNT then w else GENERATION_KEEP_COUNT;
    assert top == ranked[..k] + top[k..];
    OnlyWithinSplits(ranked[..k], top[k..], now);
    OnlyWithinAll(ranked[..k], now);
    forall g | g in top[k..] ensures !StillWithin(g, now) {
      assert g in ranked[w..];
    }
    OnlyWithinAll(top[k..], now);
  }

  lemma {:induction false} ReplaceSplits(a: Record, b: Record, refs: set<string>, now: int)
    ensures Replace(a + b, refs, now) == Replace(a, refs, now) + Replace(b, refs, now)
  {
    if a == [] {
      assert a + b == b;
    } else {
      assert (a + b)[1..] == a[1..] + b;
      ReplaceSplits(a[1..], b, refs, now);
    }
  }

  lemma {:induction false} ReplaceMembers(gens: Record, refs: set<string>, now: int)
    ensures forall g :: g in Replace(gens, refs, now) <==>
              g.refs != refs && exists h :: h in gens && g == Retired(h, now)
  {
    if gens != [] {
      ReplaceMembers(gens[1..], refs, now);
      assert forall h :: h in gens <==> h == gens[0] || h in gens[1..];
    }
  }

  lemma RetiringKeepsTheRanking(a: Generation, b: Generation, now: int)
    requires ReplacedBefore([a, b], now)
    ensures RanksFirst(a, b) <==> RanksFirst(Retired(a, now), Retired(b, now))
  {
    assert a in [a, b] && b in [a, b];
  }

  lemma ReplaceInsertAtTheFront(x: Generation, ranked: Record, refs: set<string>, now: int)
    requires Sorted(RanksFirst, ranked) && ReplacedBefore([x] + ranked, now)
    requires ranked != [] && RanksFirst(x, ranked[0]) && x.refs != refs
    ensures [Retired(x, now)] + Replace(ranked, refs, now) == Insert(RanksFirst, Retired(x, now), Replace(ranked, refs, now))
  {
    var rest := Replace(ranked, refs, now);
    if rest != [] {
      ReplaceMembers(ranked, refs, now);
      assert rest[0] in rest;
      var h :| h in ranked && rest[0] == Retired(h, now);
      assert RanksFirst(x, h);
      assert x in [x] + ranked && h in [x] + ranked;
      RetiringKeepsTheRanking(x, h, now);
    }
  }

  lemma ReplaceOfCons(x: Generation, tail: Record, refs: set<string>, now: int)
    ensures x.refs == refs ==> Replace([x] + tail, refs, now) == Replace(tail, refs, now)
    ensures x.refs != refs ==> Replace([x] + tail, refs, now) == [Retired(x, now)] + Replace(tail, refs, now)
  {
    assert ([x] + tail)[1..] == tail;
  }

  /** Replacing commutes with inserting into a ranked list. */
  lemma {:induction false} ReplaceInsert(x: Generation, ranked: Record, refs: set<string>, now: int)
    requires Sorted(RanksFirst, ranked) && ReplacedBefore([x] + ranked, now)
    ensures Replace(Insert(RanksFirst, x, ranked), refs, now) ==
            var rest := Replace(ranked, refs, now);
            if x.refs == refs then rest else Insert(RanksFirst, Retired(x, now), rest)
  {
    if ranked == [] || RanksFirst(x, ranked[0]) {
      assert Insert(RanksFirst, x, ranked) == [x] + ranked;
      ReplaceOfCons(x, ranked, refs, now);
      if ranked != [] && x.refs != refs {
        ReplaceInsertAtTheFront(x, ranked, refs, now);
      }
    } else {
      var first, tail := ranked[0], ranked[1..];
      assert forall g :: g in [x] + tail ==> g in [x] + ranked;
      assert x in [x] + ranked && first in [x] + ranked;
      ReplaceInsert(x, tail, refs, now);
      RetiringKeepsTheRanking(x, first, now);
      ReplaceInsertFurther(x, first, tail, refs, now);
      assert ranked == [first] + tail;
    }
  }

  lemma InsertOfCons(x: Generation, first: Generation, tail: Record)
    requires !RanksFirst(x, first)
    ensures Insert(RanksFirst, x, [first] + tail) == [first] + Insert(RanksFirst, x, tail)
  {
    assert ([first] + tail)[1..] == tail;
  }

  /** One entry more in front, which ranks before `x`. */
  lemma ReplaceInsertFurther(x: Generation, first: Generation, tail: Record, refs: set<string>, now: int)
    requires !RanksFirst(x, first) && !RanksFirst(Retired(x, now), Retired(first, now))
    requires var rest := Replace(tail, refs, now);
             Replace(Insert(RanksFirst, x, tail), refs, now) == if x.refs == refs then rest else Insert(RanksFirst, Retired(x, now), rest)
    ensures var rest := Replace([first] + tail, refs, now);
            Replace(Insert(RanksFirst, x, [first] + tail), refs, now)
            == if x.refs == refs then rest else Insert(RanksFirst, Retired(x, now), rest)
  {
    InsertOfCons(x, first, tail);
    ReplaceOfCons(first, Insert(RanksFirst, x, tail), refs, now);
    ReplaceOfCons(first, tail, refs, now);
    if first.refs != refs {
      InsertOfCons(Retired(x, now), Retired(first, now), Replace(tail, refs, now));
    }
  }

  lemma SortOfCons(x: Generation, tail: Record)
    ensures Sort(RanksFirst, [x] + tail) == Insert(RanksFirst, x, Sort(RanksFirst, tail))
  {
    assert ([x] + tail)[1..] == tail;
  }

  lemma {:induction false} ReplaceSort(gens: Record, refs: set<string>, now: int)
    requires ReplacedBefore(gens, now)
    ensures Sort(RanksFirst, Replace(gens, refs, now)) == Replace(Sort(RanksFirst, gens), refs, now)
  {
    if gens != [] {
      var x, tail := gens[0], gens[1..];
      ReplaceSort(tail, refs, now);
      var ranked := Sort(RanksFirst, tail);
      assert Sorted(RanksFirst, ranked) && ReplacedBefore([x] + ranked, now) by {
        RankingIsTotal();
        SortSorts(RanksFirst, tail);
        SortMembers(RanksFirst, tail);
        assert forall g :: g in [x] + ranked ==> g in gens;
      }
      ReplaceInsert(x, ranked, refs, now);
      var rest := Replace(tail, refs, now);
      if x.refs == refs {
        assert Replace(gens, refs, now) == rest;
      } else {
        assert Replace(gens, refs, now) == [Retired(x, now)] + rest;
        SortOfCons(Retired(x, now), rest);
      }
    }
  }

  /** A ranked list after a publish: the new generation, then the old ranking with its entries replaced. */
  lemma RankingAfterPublish(gens: Record, p: Publish)
    requires ReplacedBefore(gens, p.now)
    ensures Sort(RanksFirst, WithPublish(gens, p)) == [NewGeneration(p)] + Replace(Sort(RanksFirst, gens), p.refs, p.now)
  {
    RankingIsTotal();
    ReplaceMembers(gens, p.refs, p.now);
    SortAppendTop(RanksFirst, Replace(gens, p.refs, p.now), NewGeneration(p));
    ReplaceSort(gens, p.refs, p.now);
  }

  lemma KeptAfterPublish(gens: Record, p: Publish, later: int)
    requires ReplacedBefore(gens, p.now)
    ensures KeptGenerations(WithPublish(gens, p), later)
            == OnlyWithin(Take([NewGeneration(p)] + Replace(Sort(RanksFirst, gens), p.refs, p.now), GENERATION_KEEP_COUNT), later)
  {
    RankingAfterPublish(gens, p);
  }

  lemma {:induction false} ReplaceDropsAtMostOne(gens: Record, refs: set<string>, now: int)
    requires DistinctKeys(gens)
    ensures |Replace(gens, refs, now)| >= |gens| - 1
    ensures (forall g :: g in gens ==> g.refs != refs) ==> |Replace(gens, refs, now)| == |gens|
  {
    if gens != [] {
      assert gens[0] in gens;
      assert forall g :: g in gens[1..] ==> g in gens;
      ReplaceDropsAtMostOne(gens[1..], refs, now);
    }
  }

  lemma {:induction false} InsertKeepsKeysDistinct(x: Generation, gens: Record)
    requires DistinctKeys(gens) && forall g :: g in gens ==> g.refs != x.refs
    ensures DistinctKeys(Insert(RanksFirst, x, gens))
  {
    if gens == [] || RanksFirst(x, gens[0]) {
      assert ([x] + gens)[1..] == gens;
    } else {
      var rest := Insert(RanksFirst, x, gens[1..]);
      InsertKeepsKeysDistinct(x, gens[1..]);
      InsertKeepsElements(RanksFirst, x, gens[1..]);
      forall g | g in rest ensures g.refs != gens[0].refs {
        assert g in multiset(rest);
        assert g == x || g in gens[1..];
      }
      assert ([gens[0]] + rest)[1..] == rest;
    }
  }

  lemma {:induction false} SortKeepsKeysDistinct(gens: Record)
    requires DistinctKeys(gens)
    ensures DistinctKeys(Sort(RanksFirst, gens))
  {
    if gens != [] {
      SortKeepsKeysDistinct(gens[1..]);
      RankingIsTotal();
      SortMembers(RanksFirst, gens[1..]);
      InsertKeepsKeysDistinct(gens[0], Sort(RanksFirst, gens[1..]));
    }
  }

  lemma {:induction false} PrefixKeepsKeysDistinct(gens: Record, k: nat)
    requires DistinctKeys(gens) && k <= |gens|
    ensures DistinctKeys(gens[..k])
  {
    if k > 0 {
      PrefixKeepsKeysDistinct(gens[1..], k - 1);
      assert gens[..k][1..] == gens[1..][..k - 1];
    }
  }

  /** Once forty generations are kept, what ranks below them is out of every later record. */
  lemma CutByRank(kept: Record, dropped: Record, p: Publish)
    requires |kept| == GENERATION_KEEP_COUNT && DistinctKeys(kept)
    ensures var head := [NewGeneration(p)] + Replace(kept, p.refs, p.now);
            Take(head + Replace(dropped, p.refs, p.now), GENERATION_KEEP_COUNT) == Take(head, GENERATION_KEEP_COUNT)
  {
    ReplaceDropsAtMostOne(kept, p.refs, p.now);
  }

  /** What was already too old stays out of every later record. */
  lemma CutByAge(kept: Record, dropped: Record, before: int, p: Publish, later: int)
    requires |kept| < GENERATION_KEEP_COUNT && before <= p.now <= later
    requires forall g :: g in dropped ==> !StillWithin(g, before)
    ensures var head := [NewGeneration(p)] + Replace(kept, p.refs, p.now);
            OnlyWithin(Take(head + Replace(dropped, p.refs, p.now), GENERATION_KEEP_COUNT), later)
            == OnlyWithin(Take(head, GENERATION_KEEP_COUNT), later)
  {
    var head, b := [NewGeneration(p)] + Replace(kept, p.refs, p.now), Replace(dropped, p.refs, p.now);
    ReplaceMembers(dropped, p.refs, p.now);
    ReplaceLength(kept, p.refs, p.now);
    var extra := Take(head + b, GENERATION_KEEP_COUNT)[|head|..];
    assert Take(head + b, GENERATION_KEEP_COUNT) == head + extra;
    forall g | g in extra ensures !StillWithin(g, later) {
      assert g in b;
    }
    OnlyWithinSplits(head, extra, later);
    OnlyWithinAll(extra, later);
  }

  lemma CutIsInvisible(kept: Record, dropped: Record, before: int, p: Publish, later: int)
    requires DistinctKeys(kept) && before <= p.now <= later
    requires || |kept| == GENERATION_KEEP_COUNT
             || (|kept| < GENERATION_KEEP_COUNT && forall g :: g in dropped ==> !StillWithin(g, before))
    ensures OnlyWithin(Take([NewGeneration(p)] + Replace(kept + dropped, p.refs, p.now), GENERATION_KEEP_COUNT), later)
            == OnlyWithin(Take([NewGeneration(p)] + Replace(kept, p.refs, p.now), GENERATION_KEEP_COUNT), later)
  {
    ReplaceSplits(kept, dropped, p.refs, p.now);
    var top, a, b := [NewGeneration(p)], Replace(kept, p.refs, p.now), Replace(dropped, p.refs, p.now);
    assert top + (a + b) == (top + a) + b;
    if |kept| == GENERATION_KEEP_COUNT {
      CutByRank(kept, dropped, p);
    } else {
      CutByAge(kept, dropped, before, p, later);
    }
  }

  /**
   * The truncated record refines the untruncated list for one publish: what was
   * dropped can never come back, neither by rank nor by age.
   */
  lemma TruncationIsInvisible(full: Record, before: int, p: Publish, later: int)
    requires DistinctKeys(full) && ReplacedBefore(full, p.now) && before <= p.now <= later
    ensures KeptGenerations(WithPublish(KeptGenerations(full, before), p), later) == KeptGenerations(WithPublish(full, p), later)
  {
    var ranked := Sort(RanksFirst, full);
    var kept := KeptGenerations(full, before);
    var k := KeptOfUnranked(full, before);
    KeptAfterPublish(full, p, later);
    KeptAfterPublish(kept, p, later);
    assert ranked == kept + ranked[k..];
    SortKeepsKeysDistinct(full);
    PrefixKeepsKeysDistinct(ranked, k);
    CutIsInvisible(kept, ranked[k..], before, p, later);
  }

  /** What the kept generations are to the list they were taken from. */
  lemma KeptOfUnranked(full: Record, now: int) returns (k: nat)
    ensures var ranked := Sort(RanksFirst, full);
            var kept := KeptGenerations(full, now);
            && k <= |ranked| && kept == ranked[..k] && Sort(RanksFirst, kept) == kept
            && (k == GENERATION_KEEP_COUNT || (k < GENERATION_KEEP_COUNT && forall g :: g in ranked[k..] ==> !StillWithin(g, now)))
            && (forall g :: g in kept ==> g in full && StillWithin(g, now))
  {
    var ranked := Sort(RanksFirst, full);
    RankingIsTotal();
    SortSorts(RanksFirst, full);
    SortMembers(RanksFirst, full);
    k := KeptIsAPrefix(ranked, now);
    SortOfSorted(RanksFirst, ranked[..k]);
    assert forall g :: g in ranked[..k] ==> g in ranked;
  }

  lemma {:induction false} ReplaceLength(gens: Record, refs: set<string>, now: int)
    ensures |Replace(gens, refs, now)| <= |gens|
  {
    if gens != [] {
      ReplaceLength(gens[1..], refs, now);
    }
  }

  // ----- the record is the full history, cut -------------------------------------

  /** Remembering everything: no publish ever forgets. */
  function FullHistory(start: Record, ps: seq<Publish>): Record {
    if ps == [] then start else WithPublish(FullHistory(start, ps[..|ps| - 1]), ps[|ps| - 1])
  }

  /** What the file holds: every publish reads the record of the one before and writes a cut one. */
  function RecordHistory(start: Record, ps: seq<Publish>): Record {
    if ps == [] then start else RecordAfter(RecordHistory(start, ps[..|ps| - 1]), ps[|ps| - 1])
  }

  ghost predicate StrictlyLater(start: Record, ps: seq<Publish>) {
    && (forall p :: p in ps ==> ReplacedBefore(start, p.now))
    && (forall i, j :: 0 <= i < j < |ps| ==> ps[i].now < ps[j].now)
  }

  lemma {:induction false} ReplaceKeepsKeysDistinct(gens: Record, refs: set<string>, now: int)
    requires DistinctKeys(gens)
    ensures DistinctKeys(Replace(gens, refs, now))
  {
    if gens != [] {
      var rest := Replace(gens[1..], refs, now);
      ReplaceKeepsKeysDistinct(gens[1..], refs, now);
      ReplaceMembers(gens[1..], refs, now);
      if gens[0].refs != refs {
        assert ([Retired(gens[0], now)] + rest)[1..] == rest;
      } else {
        assert Replace(gens, refs, now) == rest;
      }
    }
  }

  lemma {:induction false} AppendKeepsKeysDistinct(gens: Record, g: Generation)
    requires DistinctKeys(gens) && forall h :: h in gens ==> h.refs != g.refs
    ensures DistinctKeys(gens + [g])
  {
    if gens != [] {
      AppendKeepsKeysDistinct(gens[1..], g);
      assert (gens + [g])[1..] == gens[1..] + [g];
    } else {
      assert (gens + [g])[1..] == [];
    }
  }

  lemma PublishKeepsHistoryFit(gens: Record, p: Publish, later: int)
    requires DistinctKeys(gens) && ReplacedBefore(gens, p.now) && p.now < later
    ensures DistinctKeys(WithPublish(gens, p)) && ReplacedBefore(WithPublish(gens, p), later)
  {
    ReplaceKeepsKeysDistinct(gens, p.refs, p.now);
    ReplaceMembers(gens, p.refs, p.now);
    AppendKeepsKeysDistinct(Replace(gens, p.refs, p.now), NewGeneration(p));
  }

  lemma {:induction false} HistoryStaysFit(start: Record, ps: seq<Publish>, later: int)
    requires DistinctKeys(start) && ReplacedBefore(start, later) && StrictlyLater(start, ps)
    requires ps != [] ==> ps[|ps| - 1].now < later
    ensures DistinctKeys(FullHistory(start, ps)) && ReplacedBefore(FullHistory(start, ps), later)
  {
    if ps != [] {
      var p := ps[|ps| - 1];
      HistoryStaysFit(start, ps[..|ps| - 1], p.now);
      PublishKeepsHistoryFit(FullHistory(start, ps[..|ps| - 1]), p, later);
    }
  }

  lemma KeptTwiceIsKeptOnce(gens: Record, now: int)
    ensures KeptGenerations(KeptGenerations(gens, now), now) == KeptGenerations(gens, now)
  {
    var kept := KeptGenerations(gens, now);
    var k := KeptOfUnranked(gens, now);
    assert Take(kept, GENERATION_KEEP_COUNT) == kept;
    OnlyWithinAll(kept, now);
  }

  /** Cutting now and again later is cutting later. */
  lemma KeptLater(full: Record, now: int, later: int)
    requires now <= later
    ensures KeptGenerations(KeptGenerations(full, now), later) == KeptGenerations(full, later)
  {
    var ranked, kept := Sort(RanksFirst, full), KeptGenerations(full, now);
    var k := KeptOfUnranked(full, now);
    assert Take(kept, GENERATION_KEEP_COUNT) == kept;
    var extra := Take(ranked, GENERATION_KEEP_COUNT)[k..];
    assert Take(ranked, GENERATION_KEEP_COUNT) == kept + extra;
    forall g | g in extra ensures !StillWithin(g, later) {
      assert g in ranked[k..];
    }
    OnlyWithinSplits(kept, extra, later);
    OnlyWithinAll(extra, later);
  }

  /**
   * The bounded record refines remembering everything: after any sequence of new or
   * repeated bundles at strictly increasing times, what the file keeps is what the
   * whole history would keep, at that publish and at every later moment.
   */
  lemma {:induction false} RecordRefinesFullHistory(start: Record, ps: seq<Publish>, later: int)
    requires DistinctKeys(start) && StrictlyLater(start, ps)
    requires ps != [] && ps[|ps| - 1].now <= later
    ensures RecordHistory(start, ps) == KeptGenerations(FullHistory(start, ps), ps[|ps| - 1].now)
    ensures KeptGenerations(RecordHistory(start, ps), later) == KeptGenerations(FullHistory(start, ps), later)
  {
    var before, p := ps[..|ps| - 1], ps[|ps| - 1];
    var full := FullHistory(start, before);
    if before != [] {
      var last := before[|before| - 1];
      RecordRefinesFullHistory(start, before, last.now);
      HistoryStaysFit(start, before, p.now);
      assert last.now < p.now;
      TruncationIsInvisible(full, last.now, p, p.now);
    }
    KeptLater(WithPublish(full, p), p.now, later);
  }

  // ----- membership ------------------------------------------------------------------

  lemma {:induction false} OnlyWithinMembers(gens: Record, now: int)
    ensures forall g :: g in OnlyWithin(gens, now) <==> g in gens && StillWithin(g, now)
  {
    if gens != [] {
      OnlyWithinMembers(gens[1..], now);
      assert forall g :: g in gens <==> g == gens[0] || g in gens[1..];
    }
  }

  lemma KeptMembers(gens: Record, now: int)
    ensures forall g :: g in KeptGenerations(gens, now) ==> g in gens && StillWithin(g, now)
    ensures |KeptGenerations(gens, now)| <= GENERATION_KEEP_COUNT
  {
    var k := KeptOfUnranked(gens, now);
  }

  /** The generation just published leads its record: until the next flip what is served is recorded. */
  lemma ServedIsRecorded(gens: Record, p: Publish, shown: Generation)
    requires ReplacedBefore(gens, p.now) && shown.refs == p.refs
    ensures RecordAfter(gens, p) != [] && RecordAfter(gens, p)[0] == NewGeneration(p)
    ensures WithServed(RecordAfter(gens, p), Some(shown)) == RecordAfter(gens, p)
  {
    KeptAfterPublish(gens, p, p.now);
    assert NewGeneration(p) in RecordAfter(gens, p);
  }
}
