/**
 * Every run of sequential publishes, crashed anywhere, as a list of attempts: what
 * each read from the display, what it published, and whether it got as far as the
 * record (scripts/build-client-publish.ts).
 */
module PublishHistory {
  import opened Options
  import opened Generations
  import opened StableSort
  import opened ClientBundle
  import opened CrashedPublishes
  import opened PublishProtocol
  import opened PublishRetention

  /** A publish that flipped. `read`: the generation it found on display. */
  datatype Attempt = Attempt(read: Option<Generation>, publish: Publish, completed: bool)

  function RecordAfterAttempts(record: Record, attempts: seq<Attempt>): Record {
    if attempts == [] then record
    else
      var before, a := RecordAfterAttempts(record, attempts[..|attempts| - 1]), attempts[|attempts| - 1];
      if a.completed then RecordAfter(WithServed(before, a.read), a.publish) else before
  }

  function ShownAfter(shown: Key, attempts: seq<Attempt>): Key {
    if attempts == [] then shown else attempts[|attempts| - 1].publish.refs
  }

  /** What is on display is read as one generation still served, unless it references nothing. */
  predicate Reads(shown: Key, read: Option<Generation>) {
    if shown == {} then read.None? else read.Some? && read.value.refs == shown && read.value.replacedAt.None?
  }

  predicate Chained(shown: Key, attempts: seq<Attempt>) {
    attempts != [] ==>
      && Chained(shown, attempts[..|attempts| - 1])
      && Reads(ShownAfter(shown, attempts[..|attempts| - 1]), attempts[|attempts| - 1].read)
  }

  function PublishesOf(attempts: seq<Attempt>): (ps: seq<Publish>)
    ensures |ps| == |attempts| && forall i :: 0 <= i < |ps| ==> ps[i] == attempts[i].publish
  {
    if attempts == [] then [] else PublishesOf(attempts[..|attempts| - 1]) + [attempts[|attempts| - 1].publish]
  }

  lemma OneMore(record: Record, shown: Key, attempts: seq<Attempt>, a: Attempt)
    ensures Chained(shown, attempts + [a]) <==> Chained(shown, attempts) && Reads(ShownAfter(shown, attempts), a.read)
    ensures ShownAfter(shown, attempts + [a]) == a.publish.refs
    ensures var before := RecordAfterAttempts(record, attempts);
            RecordAfterAttempts(record, attempts + [a]) == if a.completed then RecordAfter(WithServed(before, a.read), a.publish) else before
    ensures PublishesOf(attempts + [a]) == PublishesOf(attempts) + [a.publish]
  {
    assert (attempts + [a])[..|attempts|] == attempts;
  }

  // ----- runs of the protocol are attempts ---------------------------------------------------

  /** Where the publisher at work stands in the list. */
  ghost predicate InStep(d: Dir, attempts: seq<Attempt>, p: Publisher) {
    match p.phase
    case Entered(gens) => gens == d.record
    case Copying(gens, _, _) => exists read :: Reads(ReferencedAssets(d.index), read) && gens == WithServed(d.record, read)
    case Flipped(gens) => JustFlipped(d, attempts, p) && gens == WithServed(d.record, attempts[|attempts| - 1].read)
    case Verified(gens) => JustFlipped(d, attempts, p) && gens == WithServed(d.record, attempts[|attempts| - 1].read)
    case Composed(kept) =>
      JustFlipped(d, attempts, p)
      && kept == RecordAfter(WithServed(d.record, attempts[|attempts| - 1].read), attempts[|attempts| - 1].publish)
    case _ => true
  }

  ghost predicate JustFlipped(d: Dir, attempts: seq<Attempt>, p: Publisher) {
    && attempts != [] && !attempts[|attempts| - 1].completed
    && attempts[|attempts| - 1].publish == Publish(p.now, ReferencedAssets(d.index), p.staging.assets.Keys)
  }

  ghost predicate Tracks(w: World, record: Record, shown: Key, attempts: seq<Attempt>) {
    && AtMostOneActive(w) && Chained(shown, attempts)
    && w.dir.record == RecordAfterAttempts(record, attempts)
    && ReferencedAssets(w.dir.index) == ShownAfter(shown, attempts)
    && forall p :: p in w.publishers ==> InStep(w.dir, attempts, p)
  }

  /** Times never go back along the list, nor past the clock or a publisher still before its flip. */
  ghost predicate InOrder(w: World, attempts: seq<Attempt>) {
    && (forall i, j :: 0 <= i < j < |attempts| ==> attempts[i].publish.now <= attempts[j].publish.now)
    && (forall a :: a in attempts ==> a.publish.now <= w.clock)
    && (forall p :: p in w.publishers ==> p.now <= w.clock)
    && forall p, a :: p in w.publishers && (p.phase.Entered? || p.phase.Copying?) && a in attempts ==> a.publish.now <= p.now
  }

  /** The list after a step: a flip adds an attempt, a record write completes the last one. */
  function OneMoreAttempt(attempts: seq<Attempt>, read: Option<Generation>, p: Publisher): seq<Attempt> {
    attempts + [Attempt(read, Publish(p.now, p.staging.index.refs, p.staging.assets.Keys), false)]
  }

  function LastCompleted(attempts: seq<Attempt>): seq<Attempt>
    requires attempts != []
  {
    attempts[..|attempts| - 1] + [attempts[|attempts| - 1].(completed := true)]
  }

  /** The list with one attempt more, or its last one completed, goes with the new directory. */
  lemma TracksWith(w: World, i: nat, w': World, record: Record, shown: Key, init: seq<Attempt>, a: Attempt)
    requires AtMostOneActive(w) && i < |w.publishers| && !w.publishers[i].phase.Ended()
    requires |w'.publishers| == |w.publishers| && forall j :: 0 <= j < |w.publishers| && j != i ==> w'.publishers[j] == w.publishers[j]
    requires Chained(shown, init) && Reads(ShownAfter(shown, init), a.read)
    requires var before := RecordAfterAttempts(record, init);
             w'.dir.record == if a.completed then RecordAfter(WithServed(before, a.read), a.publish) else before
    requires ReferencedAssets(w'.dir.index) == a.publish.refs && InStep(w'.dir, init + [a], w'.publishers[i])
    ensures Tracks(w', record, shown, init + [a])
  {
    OneMore(record, shown, init, a);
    OthersAreEnded(w, i, w', init, init + [a]);
  }

  lemma FlipIsTracked(w: World, i: nat, at: int, w': World, record: Record, shown: Key, attempts: seq<Attempt>) returns (next: seq<Attempt>)
    requires Tracks(w, record, shown, attempts) && InOrder(w, attempts) && Happens(w, Step(i, Flip(at)), w')
    ensures Tracks(w', record, shown, next) && InOrder(w', next)
  {
    var read := ReadBeforeTheFlip(w, i, at, w', attempts);
    next := OneMoreAttempt(attempts, read, w.publishers[i]);
    FlippedInStep(w, i, at, w', attempts, read);
    TracksWith(w, i, w', record, shown, attempts, next[|attempts|]);
    FlipKeepsTheOrder(w, i, at, w', attempts, read);
  }

  lemma ReadBeforeTheFlip(w: World, i: nat, at: int, w': World, attempts: seq<Attempt>) returns (read: Option<Generation>)
    requires Happens(w, Step(i, Flip(at)), w') && forall p :: p in w.publishers ==> InStep(w.dir, attempts, p)
    ensures w.publishers[i].phase.Copying? && w.publishers[i].phase.gens == WithServed(w.dir.record, read)
    ensures Reads(ReferencedAssets(w.dir.index), read)
  {
    var p := w.publishers[i];
    assert p in w.publishers && InStep(w.dir, attempts, p);
    read :| Reads(ReferencedAssets(w.dir.index), read) && p.phase.gens == WithServed(w.dir.record, read);
  }

  lemma FlippedInStep(w: World, i: nat, at: int, w': World, attempts: seq<Attempt>, read: Option<Generation>)
    requires Happens(w, Step(i, Flip(at)), w') && w.publishers[i].phase.Copying?
    requires w.publishers[i].phase.gens == WithServed(w.dir.record, read)
    ensures InStep(w'.dir, OneMoreAttempt(attempts, read, w.publishers[i]), w'.publishers[i])
    ensures w'.dir.record == w.dir.record && ReferencedAssets(w'.dir.index) == w.publishers[i].staging.index.refs
    ensures |w'.publishers| == |w.publishers| && forall j :: 0 <= j < |w.publishers| && j != i ==> w'.publishers[j] == w.publishers[j]
  {
  }

  lemma FlipKeepsTheOrder(w: World, i: nat, at: int, w': World, attempts: seq<Attempt>, read: Option<Generation>)
    requires AtMostOneActive(w) && InOrder(w, attempts) && Happens(w, Step(i, Flip(at)), w')
    ensures InOrder(w', OneMoreAttempt(attempts, read, w.publishers[i]))
  {
    var p := w.publishers[i];
    var next := OneMoreAttempt(attempts, read, p);
    assert p in w.publishers;
    forall a | a in next ensures a.publish.now <= p.now {
      assert a in attempts || a == next[|attempts|];
    }
    forall j | 0 <= j < |attempts| ensures next[j].publish.now <= p.now {
      assert next[j] in next;
    }
    forall q | q in w'.publishers ensures q.now <= w'.clock && (q.phase.Entered? || q.phase.Copying? ==> false) {
      var j :| 0 <= j < |w'.publishers| && w'.publishers[j] == q;
      if j != i {
        assert w.publishers[j] in w.publishers && w.publishers[j].phase.Ended();
      }
    }
  }

  /** Only the publisher at work has anything to answer for. */
  lemma OthersAreEnded(w: World, i: nat, w': World, attempts: seq<Attempt>, next: seq<Attempt>)
    requires AtMostOneActive(w) && i < |w.publishers| && !w.publishers[i].phase.Ended()
    requires |w'.publishers| == |w.publishers| && forall j :: 0 <= j < |w.publishers| && j != i ==> w'.publishers[j] == w.publishers[j]
    requires InStep(w'.dir, next, w'.publishers[i])
    ensures AtMostOneActive(w') && forall p :: p in w'.publishers ==> InStep(w'.dir, next, p)
  {
    forall p | p in w'.publishers ensures InStep(w'.dir, next, p) {
      var j :| 0 <= j < |w'.publishers| && w'.publishers[j] == p;
      assert j != i ==> w.publishers[j].phase.Ended();
    }
  }

  lemma WriteIsTracked(w: World, i: nat, w': World, record: Record, shown: Key, attempts: seq<Attempt>) returns (next: seq<Attempt>)
    requires Tracks(w, record, shown, attempts) && InOrder(w, attempts) && Happens(w, Step(i, WriteRecord), w')
    ensures Tracks(w', record, shown, next) && InOrder(w', next)
  {
    var last := WrittenInStep(w, i, w', attempts);
    var init := attempts[..|attempts| - 1];
    assert attempts == init + [last];
    OneMore(record, shown, init, last);
    TracksWith(w, i, w', record, shown, init, last.(completed := true));
    next := LastCompleted(attempts);
    WriteKeepsTheOrder(w, i, w', attempts);
  }

  lemma WrittenInStep(w: World, i: nat, w': World, attempts: seq<Attempt>) returns (last: Attempt)
    requires Happens(w, Step(i, WriteRecord), w') && forall p :: p in w.publishers ==> InStep(w.dir, attempts, p)
    ensures attempts != [] && last == attempts[|attempts| - 1] && !last.completed && !w.publishers[i].phase.Ended()
    ensures w'.dir.record == RecordAfter(WithServed(w.dir.record, last.read), last.publish)
    ensures ReferencedAssets(w'.dir.index) == last.publish.refs && InStep(w'.dir, LastCompleted(attempts), w'.publishers[i])
    ensures |w'.publishers| == |w.publishers| && forall j :: 0 <= j < |w.publishers| && j != i ==> w'.publishers[j] == w.publishers[j]
  {
    var p := w.publishers[i];
    assert p in w.publishers && InStep(w.dir, attempts, p);
    last := attempts[|attempts| - 1];
  }

  lemma WriteKeepsTheOrder(w: World, i: nat, w': World, attempts: seq<Attempt>)
    requires AtMostOneActive(w) && InOrder(w, attempts) && Happens(w, Step(i, WriteRecord), w') && attempts != []
    ensures InOrder(w', LastCompleted(attempts))
  {
    var next := LastCompleted(attempts);
    assert w.publishers[i] in w.publishers;
    assert forall j :: 0 <= j < |next| ==> next[j].publish == attempts[j].publish;
    forall q | q in w'.publishers ensures q.now <= w'.clock && !q.phase.Entered? && !q.phase.Copying? {
      var j :| 0 <= j < |w'.publishers| && w'.publishers[j] == q;
      if j != i {
        assert w.publishers[j] in w.publishers && w.publishers[j].phase.Ended();
      }
    }
    forall a | a in next ensures a.publish.now <= w.clock {
      var j :| 0 <= j < |next| && next[j] == a;
      assert attempts[j] in attempts;
    }
  }

  lemma OtherStepsAreTracked(w: World, i: nat, a: Action, w': World, record: Record, shown: Key, attempts: seq<Attempt>)
    requires Tracks(w, record, shown, attempts) && InOrder(w, attempts)
    requires Happens(w, Step(i, a), w') && !a.Flip? && !a.WriteRecord?
    ensures Tracks(w', record, shown, attempts) && InOrder(w', attempts)
  {
    var p := w.publishers[i];
    assert p in w.publishers && InStep(w.dir, attempts, p);
    if a.ReadServed? {
      assert Reads(ReferencedAssets(w.dir.index), Served(w.dir));
    }
    OthersAreEnded(w, i, w', attempts, attempts);
  }

  lemma StartIsTracked(w: World, e: Event, w': World, record: Record, shown: Key, attempts: seq<Attempt>)
    requires Tracks(w, record, shown, attempts) && InOrder(w, attempts)
    requires !e.Step? && OneAtATime(w, e) && Happens(w, e, w')
    ensures Tracks(w', record, shown, attempts) && InOrder(w', attempts)
  {
  }

  /**
   * Over every run of sequential publishes with crashes anywhere, the record on disk
   * is what the attempts made of it, in the order of the clock, and index.html shows
   * the last one's bundle.
   */
  lemma {:induction false} RunsAreAttempts(ws: seq<World>, es: seq<Event>) returns (attempts: seq<Attempt>)
    requires Run(ws, es) && ws[0].publishers == []
    requires forall i :: 0 <= i < |es| ==> OneAtATime(ws[i], es[i])
    ensures Tracks(ws[|es|], ws[0].dir.record, ReferencedAssets(ws[0].dir.index), attempts) && InOrder(ws[|es|], attempts)
  {
    var n := |es|;
    if n == 0 {
      return [];
    }
    var record, shown := ws[0].dir.record, ReferencedAssets(ws[0].dir.index);
    attempts := RunsAreAttempts(ws[..n], es[..n - 1]);
    var w, w' := ws[n - 1], ws[n];
    assert Happens(w, es[n - 1], w') && OneAtATime(w, es[n - 1]);
    match es[n - 1] {
      case Step(i, Flip(at)) => attempts := FlipIsTracked(w, i, at, w', record, shown, attempts);
      case Step(i, WriteRecord) => attempts := WriteIsTracked(w, i, w', record, shown, attempts);
      case Step(i, a) => OtherStepsAreTracked(w, i, a, w', record, shown, attempts);
      case _ => StartIsTracked(w, es[n - 1], w', record, shown, attempts);
    }
  }

  // ----- what attempts leave in the record -------------------------------------------------------

  /** The times of the attempts, and of nothing in the record, rise. */
  ghost predicate Rising(record: Record, attempts: seq<Attempt>) {
    StrictlyLater(record, PublishesOf(attempts))
  }

  lemma RisingPrefix(record: Record, attempts: seq<Attempt>)
    requires Rising(record, attempts) && attempts != []
    ensures Rising(record, attempts[..|attempts| - 1]) && ReplacedBefore(record, attempts[|attempts| - 1].publish.now)
    ensures |attempts| > 1 ==> attempts[|attempts| - 2].publish.now < attempts[|attempts| - 1].publish.now
  {
    var ps, init := PublishesOf(attempts), PublishesOf(attempts[..|attempts| - 1]);
    assert init == ps[..|ps| - 1] && ps[|ps| - 1] in ps;
    assert forall p :: p in init ==> p in ps;
  }

  /** In every reachable state the record has one entry per bundle, at most one of them served, the others replaced by then. */
  lemma {:induction false} EveryRecordIsFit(record: Record, shown: Key, attempts: seq<Attempt>, now: int)
    requires DistinctKeys(record) && ReplacedBefore(record, now)
    requires Chained(shown, attempts) && Rising(record, attempts)
    requires attempts != [] ==> attempts[|attempts| - 1].publish.now < now
    ensures DistinctKeys(RecordAfterAttempts(record, attempts)) && ReplacedBefore(RecordAfterAttempts(record, attempts), now)
    ensures OneServed(record) ==> OneServed(RecordAfterAttempts(record, attempts))
  {
    if attempts != [] {
      var init, a := attempts[..|attempts| - 1], attempts[|attempts| - 1];
      RisingPrefix(record, attempts);
      EveryRecordIsFit(record, shown, init, a.publish.now);
      var before := RecordAfterAttempts(record, init);
      if a.completed {
        JoiningKeepsKeysDistinct(before, a.read);
        ARecordIsFitForTheNext(WithServed(before, a.read), a.publish, now);
      } else {
        assert ReplacedBefore(before, now);
      }
    }
  }

  predicate AllCompleted(attempts: seq<Attempt>) {
    forall a :: a in attempts ==> a.completed
  }

  /** Once a publish has written its record, what it shows is named there: only the first join can add anything. */
  lemma {:induction false} OnlyTheFirstJoinCounts(record: Record, shown: Key, attempts: seq<Attempt>)
    requires DistinctKeys(record) && Chained(shown, attempts) && Rising(record, attempts)
    requires attempts != [] && AllCompleted(attempts)
    ensures RecordAfterAttempts(record, attempts) == RecordHistory(WithServed(record, attempts[0].read), PublishesOf(attempts))
  {
    var n := |attempts| - 1;
    var init, last := attempts[..n], attempts[n];
    assert attempts == init + [last] && last in attempts;
    OneMore(record, shown, init, last);
    HistoryGrows(WithServed(record, attempts[0].read), PublishesOf(init), last.publish);
    if n > 0 {
      assert forall a :: a in init ==> a in attempts;
      RisingPrefix(record, attempts);
      OnlyTheFirstJoinCounts(record, shown, init);
      RecordedBundleIsNamed(record, shown, init, last.read);
    }
  }

  lemma HistoryGrows(start: Record, ps: seq<Publish>, p: Publish)
    ensures RecordHistory(start, ps + [p]) == RecordAfter(RecordHistory(start, ps), p)
    ensures ps == [] ==> RecordHistory(start, ps) == start
  {
    assert (ps + [p])[..|ps|] == ps;
  }

  lemma RecordedBundleIsNamed(record: Record, shown: Key, attempts: seq<Attempt>, read: Option<Generation>)
    requires DistinctKeys(record) && Chained(shown, attempts) && Rising(record, attempts)
    requires attempts != [] && attempts[|attempts| - 1].completed && Reads(ShownAfter(shown, attempts), read)
    ensures WithServed(RecordAfterAttempts(record, attempts), read) == RecordAfterAttempts(record, attempts)
  {
    var init, last := attempts[..|attempts| - 1], attempts[|attempts| - 1];
    RisingPrefix(record, attempts);
    EveryRecordIsFit(record, shown, init, last.publish.now);
    if read.Some? {
      ServedIsRecorded(WithServed(RecordAfterAttempts(record, init), last.read), last.publish, read.value);
    }
  }

  /**
   * When every attempt completes, the record is the whole history cut: the bundle on
   * display at first, joined if unrecorded, then every publish, none forgotten.
   */
  lemma CompletedRunsRefineFullHistory(record: Record, shown: Key, attempts: seq<Attempt>, later: int)
    requires DistinctKeys(record) && Chained(shown, attempts) && Rising(record, attempts)
    requires attempts != [] && AllCompleted(attempts) && attempts[|attempts| - 1].publish.now <= later
    ensures var full := FullHistory(WithServed(record, attempts[0].read), PublishesOf(attempts));
            && RecordAfterAttempts(record, attempts) == KeptGenerations(full, attempts[|attempts| - 1].publish.now)
            && KeptGenerations(RecordAfterAttempts(record, attempts), later) == KeptGenerations(full, later)
  {
    var ps := PublishesOf(attempts);
    OnlyTheFirstJoinCounts(record, shown, attempts);
    FirstRead(shown, attempts);
    JoinedIsFit(record, attempts[0].read, ps);
    assert ps[|ps| - 1] == attempts[|attempts| - 1].publish;
    RecordRefinesFullHistory(WithServed(record, attempts[0].read), ps, later);
  }

  /** Fewer than forty bundles rank ahead of `g` in the whole history, and it was not replaced three days ago. */
  predicate Recent(full: Record, now: int, g: Generation) {
    && g in full && StillWithin(g, now)
    && |Ahead(Sort(RanksFirst, full), g.refs)| < GENERATION_KEEP_COUNT
  }

  /**
   * After any sequential run that starts from a recorded directory and whose attempts
   * completed, every bundle of its whole history that is recent at the last publish,
   * the one on display at first included, has all its files on disk.
   */
  lemma ARecentBundleHasItsFiles(ws: seq<World>, es: seq<Event>) returns (attempts: seq<Attempt>)
    requires Run(ws, es) && ws[0].publishers == []
    requires forall i :: 0 <= i < |es| ==> OneAtATime(ws[i], es[i])
    requires DistinctKeys(ws[0].dir.record) && AssetsOf(ws[0].dir.record) <= ws[0].dir.assets.Keys
    ensures Tracks(ws[|es|], ws[0].dir.record, ReferencedAssets(ws[0].dir.index), attempts)
    ensures attempts != [] && AllCompleted(attempts) && Rising(ws[0].dir.record, attempts) ==>
              var full := FullHistory(WithServed(ws[0].dir.record, attempts[0].read), PublishesOf(attempts));
              var last := attempts[|attempts| - 1].publish;
              forall g :: Recent(full, last.now, g) ==> g.assets <= ws[|es|].dir.assets.Keys
  {
    attempts := RunsAreAttempts(ws, es);
    RecordedGenerationsStayOnDisk(ws, es);
    assert RecordOnDisk(ws[|es|]);
    if attempts != [] && AllCompleted(attempts) && Rising(ws[0].dir.record, attempts) {
      RecentIsRecorded(ws[0].dir.record, ReferencedAssets(ws[0].dir.index), attempts);
    }
  }

  lemma RecentIsRecorded(record: Record, shown: Key, attempts: seq<Attempt>)
    requires DistinctKeys(record) && Chained(shown, attempts) && Rising(record, attempts)
    requires attempts != [] && AllCompleted(attempts)
    ensures var full := FullHistory(WithServed(record, attempts[0].read), PublishesOf(attempts));
            var last := attempts[|attempts| - 1].publish;
            forall g :: Recent(full, last.now, g) ==> g in RecordAfterAttempts(record, attempts)
  {
    var ps, last := PublishesOf(attempts), attempts[|attempts| - 1].publish;
    var start := WithServed(record, attempts[0].read);
    CompletedRunsRefineFullHistory(record, shown, attempts, last.now);
    FirstRead(shown, attempts);
    JoinedIsFit(record, attempts[0].read, ps);
    assert ps[|ps| - 1] == last && last in ps;
    HistoryStaysFit(start, ps, last.now + 1);
    forall g | Recent(FullHistory(start, ps), last.now, g) ensures g in RecordAfterAttempts(record, attempts) {
      KeptByRankAndAge(FullHistory(start, ps), last.now, g);
    }
  }

  lemma JoinedIsFit(record: Record, read: Option<Generation>, ps: seq<Publish>)
    requires DistinctKeys(record) && StrictlyLater(record, ps) && (read.Some? ==> read.value.replacedAt.None?)
    ensures DistinctKeys(WithServed(record, read)) && StrictlyLater(WithServed(record, read), ps)
  {
    JoiningKeepsKeysDistinct(record, read);
  }

  lemma {:induction false} FirstRead(shown: Key, attempts: seq<Attempt>)
    requires Chained(shown, attempts) && attempts != []
    ensures Reads(shown, attempts[0].read)
  {
    if |attempts| > 1 {
      FirstRead(shown, attempts[..|attempts| - 1]);
    }
  }

  // ----- crashes anywhere in a run ------------------------------------------------------------------

  lemma {:induction false} AttemptsJoin(record: Record, before: seq<Attempt>, more: seq<Attempt>)
    ensures RecordAfterAttempts(record, before + more) == RecordAfterAttempts(RecordAfterAttempts(record, before), more)
  {
    if more == [] {
      assert before + more == before;
    } else {
      AttemptsJoin(record, before, more[..|more| - 1]);
      assert (before + more)[..|before + more| - 1] == before + more[..|more| - 1];
    }
  }

  lemma {:induction false} ChainedSuffix(shown: Key, before: seq<Attempt>, more: seq<Attempt>)
    requires Chained(shown, before + more)
    ensures Chained(shown, before) && Chained(ShownAfter(shown, before), more)
    ensures ShownAfter(shown, before + more) == ShownAfter(ShownAfter(shown, before), more)
  {
    if more == [] {
      assert before + more == before;
    } else {
      assert (before + more)[..|before + more| - 1] == before + more[..|more| - 1];
      ChainedSuffix(shown, before, more[..|more| - 1]);
    }
  }

  lemma {:induction false} CrashesLeaveTheRecord(record: Record, crashes: seq<Attempt>)
    requires forall a :: a in crashes ==> !a.completed
    ensures RecordAfterAttempts(record, crashes) == record
  {
    if crashes != [] {
      assert crashes[|crashes| - 1] in crashes && forall a :: a in crashes[..|crashes| - 1] ==> a in crashes;
      CrashesLeaveTheRecord(record, crashes[..|crashes| - 1]);
    }
  }

  /** The same attempts, had they all got as far as the record. */
  function Completed(attempts: seq<Attempt>): (cs: seq<Attempt>)
    ensures |cs| == |attempts| && forall i :: 0 <= i < |cs| ==> cs[i] == attempts[i].(completed := true)
  {
    if attempts == [] then [] else Completed(attempts[..|attempts| - 1]) + [attempts[|attempts| - 1].(completed := true)]
  }

  lemma {:induction false} CompletedAreChained(shown: Key, attempts: seq<Attempt>)
    requires Chained(shown, attempts)
    ensures Chained(shown, Completed(attempts)) && ShownAfter(shown, Completed(attempts)) == ShownAfter(shown, attempts)
  {
    if attempts != [] {
      CompletedAreChained(shown, attempts[..|attempts| - 1]);
      assert Completed(attempts)[..|attempts| - 1] == Completed(attempts[..|attempts| - 1]);
    }
  }

  lemma {:induction false} PublishesJoin(before: seq<Attempt>, more: seq<Attempt>)
    ensures PublishesOf(before + more) == PublishesOf(before) + PublishesOf(more)
  {
  }

  lemma RisingParts(record: Record, before: seq<Attempt>, more: seq<Attempt>)
    requires Rising(record, before + more)
    ensures Rising(record, before) && Rising(record, more)
    ensures before != [] ==> forall p :: p in PublishesOf(more) ==> before[|before| - 1].publish.now < p.now
  {
    var ps, early, late := PublishesOf(before + more), PublishesOf(before), PublishesOf(more);
    PublishesJoin(before, more);
    LaterInParts(record, early, late);
  }

  lemma LaterInParts(record: Record, early: seq<Publish>, late: seq<Publish>)
    requires StrictlyLater(record, early + late)
    ensures StrictlyLater(record, early) && StrictlyLater(record, late)
    ensures early != [] ==> forall p :: p in late ==> early[|early| - 1].now < p.now
  {
    var ps := early + late;
    assert forall p :: p in early || p in late ==> p in ps;
    assert forall i :: 0 <= i < |early| ==> early[i] == ps[i];
    forall i, j | 0 <= i < j < |late| ensures late[i].now < late[j].now {
      assert ps[|early| + i].now < ps[|early| + j].now;
    }
    forall p | p in late && early != [] ensures early[|early| - 1].now < p.now {
      var j :| 0 <= j < |late| && late[j] == p;
      assert ps[|early| - 1].now < ps[|early| + j].now;
    }
  }

  lemma FitAtEveryLaterPublish(record: Record, shown: Key, before: seq<Attempt>, more: seq<Attempt>)
    requires DistinctKeys(record) && OneServed(record)
    requires Chained(shown, before) && Rising(record, before + more) && more != []
    ensures var r := RecordAfterAttempts(record, before); DistinctKeys(r) && OneServed(r) && Rising(r, more)
  {
    RisingParts(record, before, more);
    var r, late := RecordAfterAttempts(record, before), PublishesOf(more);
    assert late[0] in late && forall p :: p in late ==> ReplacedBefore(record, p.now);
    EveryRecordIsFit(record, shown, before, late[0].now);
    forall p | p in late ensures ReplacedBefore(r, p.now) {
      EveryRecordIsFit(record, shown, before, p.now);
    }
  }

  /** What the record holds after crashes in a row and the publish that completes. */
  lemma AfterCrashesInARow(record: Record, shown: Key, crashes: seq<Attempt>, last: Attempt)
    requires DistinctKeys(record) && OneServed(record)
    requires Chained(shown, crashes + [last]) && Rising(record, crashes + [last])
    requires crashes != [] && (forall a :: a in crashes ==> !a.completed) && last.completed
    requires ShownAfter(shown, crashes) != {}
    ensures last.read.Some?
    ensures RecordAfterAttempts(record, crashes + [last]) == RecordAfter(WithServed(record, last.read), last.publish)
    ensures RecordAfterAttempts(record, Completed(crashes) + [last])
            == RecordHistory(WithServed(record, crashes[0].read), PublishesOf(crashes) + [last.publish])
    ensures CrashedInARow(record, crashes[0].read, PublishesOf(crashes), last.read.value, last.publish)
  {
    OneMore(record, shown, crashes, last);
    CrashesLeaveTheRecord(record, crashes);
    HadTheyCompleted(record, shown, crashes, last);
    FirstRead(shown, crashes);
  }

  lemma HadTheyCompleted(record: Record, shown: Key, crashes: seq<Attempt>, last: Attempt)
    requires DistinctKeys(record) && Chained(shown, crashes + [last]) && Rising(record, crashes + [last]) && crashes != [] && last.completed
    ensures RecordAfterAttempts(record, Completed(crashes) + [last])
            == RecordHistory(WithServed(record, crashes[0].read), PublishesOf(crashes) + [last.publish])
  {
    var done := Completed(crashes) + [last];
    CompletedPublishTheSame(record, shown, crashes, last);
    assert AllCompleted(done) && done[0].read == crashes[0].read;
    OnlyTheFirstJoinCounts(record, shown, done);
  }

  lemma CompletedPublishTheSame(record: Record, shown: Key, crashes: seq<Attempt>, last: Attempt)
    requires Chained(shown, crashes + [last])
    ensures Chained(shown, Completed(crashes) + [last])
    ensures PublishesOf(Completed(crashes) + [last]) == PublishesOf(crashes + [last]) == PublishesOf(crashes) + [last.publish]
  {
    OneMore(record, shown, crashes, last);
    OneMore(record, shown, Completed(crashes), last);
    CompletedAreChained(shown, crashes);
    assert PublishesOf(Completed(crashes)) == PublishesOf(crashes);
  }

  /**
   * Wherever crashes between flip and record fall in a run, the next publish that
   * completes has a generation for as long as if all of them had completed, if and
   * only if it is its own or the crashes did not cost its life; and with all its files,
   * if and only if they did not cost those either.
   */
  lemma CrashesInARunCostExactly(record: Record, shown: Key, before: seq<Attempt>, crashes: seq<Attempt>, last: Attempt, h: Generation)
    requires DistinctKeys(record) && OneServed(record)
    requires Chained(shown, before + (crashes + [last])) && Rising(record, before + (crashes + [last]))
    requires crashes != [] && (forall a :: a in crashes ==> !a.completed) && last.completed
    requires crashes[|crashes| - 1].publish.refs != {}
    requires h in RecordAfterAttempts(record, before + (Completed(crashes) + [last]))
    ensures last.read.Some?
    ensures (exists g :: g in RecordAfterAttempts(record, before + (crashes + [last])) && LastsAsLong(g, h))
            <==> h.refs == last.publish.refs
                 || !CostsTheLifeOf(RecordAfterAttempts(record, before), crashes[0].read, PublishesOf(crashes), h.refs)
    ensures (exists g :: g in RecordAfterAttempts(record, before + (crashes + [last])) && LivesAsLong(g, h))
            <==> h.refs == last.publish.refs
                 || (&& !CostsTheLifeOf(RecordAfterAttempts(record, before), crashes[0].read, PublishesOf(crashes), h.refs)
                     && !CostsFilesOf(RecordAfterAttempts(record, before), PublishesOf(crashes), last.read.value, h.refs))
  {
    var r := RecordAfterAttempts(record, before);
    AttemptsJoin(record, before, crashes + [last]);
    AttemptsJoin(record, before, Completed(crashes) + [last]);
    ChainedSuffix(shown, before, crashes + [last]);
    FitAtEveryLaterPublish(record, shown, before, crashes + [last]);
    AfterCrashesInARow(r, ShownAfter(shown, before), crashes, last);
    ALifeSurvivesCrashesExactlyWhen(r, crashes[0].read, PublishesOf(crashes), last.read.value, last.publish, h);
  }

  /** Whatever a whole bundle on display reaches is in the entry that a publish reads off the disk: only files nobody cites can be missing from it. */
  lemma TheDisplayOwnsWhatItReaches(text: Tree, w: World)
    requires UniqueBases(text.Keys) && Hashed(text, TreeOf(w.dir.assets)) && Built(text, w.live)
    requires ServedWhole(w) && w.live.index.refs != {}
    ensures Served(w.dir).Some? && Need(w.live) <= Served(w.dir).value.assets
  {
    NeedIsAlive(text, w.live, w.dir.assets);
  }

  /** The directory a crash leaves that follows the flip of `a`, which cites nothing, with `b`, which nobody cites. */
  function FlippedWithB(): Dir {
    Dir(Some(Index({"a"}, {}, true)), 10, {}, map["a" := File({}, 10), "b" := File({}, 10)], [])
  }

  /**
   * Such a file is owned for three days after a publish that completes, and by nobody
   * after one that crashes, though the bundle's life is not cut.
   */
  lemma AnUncitedFileIsForgotten()
    ensures Served(FlippedWithB()).Some?
    ensures var crashed, next, x := Publish(10, {"a"}, {"a", "b"}), Publish(20, {"c"}, {"c"}), Served(FlippedWithB()).value;
            && CrashedInARow([], None, [crashed], x, next) && !CostsTheLifeOf([], None, [crashed], {"a"})
            && "b" in AssetsOf(RecordHistory([], [crashed, next]))
            && "b" !in AssetsOf(RecordAfter(WithServed([], Some(x)), next))
  {
    var crashed, next := Publish(10, {"a"}, {"a", "b"}), Publish(20, {"c"}, {"c"});
    var x := OnlyAIsReached();
    OneCrash(crashed, x, next);
    CompletedFirst(crashed, next);
    TheNextPublishKeeps(NewGeneration(crashed), next);
    TheNextPublishKeeps(x, next);
  }

  /** A first publish that crashed is not among the lives that crashes cost. */
  lemma OneCrash(crashed: Publish, x: Generation, next: Publish)
    requires crashed.now < next.now && x.replacedAt.None? && x.refs == crashed.refs != {}
    ensures CrashedInARow([], None, [crashed], x, next) && !CostsTheLifeOf([], None, [crashed], crashed.refs)
  {
  }

  lemma OnlyAIsReached() returns (x: Generation)
    ensures x == Generation(10, None, {"a"}, {"a"}) && Served(FlippedWithB()) == Some(x)
  {
    x := Generation(10, None, {"a"}, {"a"});
    FlatTree(TreeOf(FlippedWithB().assets), {"a"});
  }

  /** Over an empty record the next publish owns the files of the bundle on display and its own, no others. */
  lemma TheNextPublishKeeps(x: Generation, next: Publish)
    requires x.replacedAt.None? && x.refs != {} && x.refs != next.refs
    ensures AssetsOf(RecordAfter(WithServed([], Some(x)), next)) == x.assets + next.assets
  {
    assert WithServed([], Some(x)) == [x];
    ServedIsRedated([], x, x, next);
    ServedIsRecorded([x], next, NewGeneration(next));
    var after := RecordAfter([x], next);
    assert Retired(x, next.now) in after && NewGeneration(next) in after;
    forall g | g in after ensures g.assets <= x.assets + next.assets {
      EntriesComeFromTheList([x], next, g);
    }
  }

  lemma CompletedFirst(crashed: Publish, next: Publish)
    requires crashed.refs != {}
    ensures RecordHistory([], [crashed, next]) == RecordAfter(WithServed([], Some(NewGeneration(crashed))), next)
  {
    var both := [crashed, next];
    assert both[..1] == [crashed] && [crashed][..0] == [];
    assert RecordHistory([], [crashed]) == RecordAfter([], crashed);
    assert WithPublish([], crashed) == [NewGeneration(crashed)];
    OnlyOneIsKept(NewGeneration(crashed), crashed.now);
  }

  lemma OnlyOneIsKept(g: Generation, now: int)
    requires g.replacedAt.None?
    ensures KeptGenerations([g], now) == [g]
  {
    SortOfCons(g, []);
    assert [g] + [] == [g] && Sort(RanksFirst, [g]) == [g];
    OnlyWithinAll([g], now);
  }
}
