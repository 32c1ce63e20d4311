/**
 * Publishes one after the other, each of which may crash anywhere: the generation
 * record never names a file that is not on disk (scripts/build-client-publish.ts).
 * No assumption on the bundles, on time or on file dates.
 */
module PublishRetention {
  import opened Options
  import opened ClientBundle
  import opened Generations
  import opened PublishProtocol

  /** Nobody starts before every earlier publish has ended or crashed. */
  ghost predicate OneAtATime(w: World, e: Event) {
    e.Start? ==> forall p :: p in w.publishers ==> p.phase.Ended()
  }

  ghost predicate AtMostOneActive(w: World) {
    forall i, j :: 0 <= i < |w.publishers| && 0 <= j < |w.publishers| && i != j ==>
                     w.publishers[i].phase.Ended() || w.publishers[j].phase.Ended()
  }

  /** What the publisher at work still owes the record is on disk too. */
  ghost predicate Accounted(d: Dir, p: Publisher) {
    var disk, staged := d.assets.Keys, p.staging.assets.Keys;
    match p.phase
    case Entered(gens) => AssetsOf(gens) <= disk
    case Copying(gens, left, _) => AssetsOf(gens) <= disk && staged - left <= disk
    case Flipped(gens) => AssetsOf(gens) <= disk && staged <= disk
    case Verified(gens) => AssetsOf(gens) <= disk && staged <= disk
    case Composed(kept) => AssetsOf(kept) <= disk
    case Recorded(retained) => retained == AssetsOf(d.record)
    case Listing(retained, _) => retained == AssetsOf(d.record)
    case Sweeping(retained, _, condemned, _) =>
      retained == AssetsOf(d.record) && (condemned.Some? ==> condemned.value !in retained)
    case _ => true
  }

  ghost predicate RecordOnDisk(w: World) {
    && AssetsOf(w.dir.record) <= w.dir.assets.Keys
    && AtMostOneActive(w)
    && forall p :: p in w.publishers ==> Accounted(w.dir, p)
  }

  lemma RecordOwnsNothingNew(gens: Record, p: Publish)
    ensures AssetsOf(RecordAfter(gens, p)) <= AssetsOf(gens) + p.assets
  {
    KeptMembers(WithPublish(gens, p), p.now);
    ReplaceMembers(gens, p.refs, p.now);
  }

  lemma ServedIsOnDisk(d: Dir, gens: Record)
    requires AssetsOf(gens) <= d.assets.Keys
    ensures AssetsOf(WithServed(gens, Served(d))) <= d.assets.Keys
  {
  }

  lemma StepIsAccounted(w: World, i: nat, a: Action, w': World)
    requires Happens(w, Step(i, a), w') && AssetsOf(w.dir.record) <= w.dir.assets.Keys && Accounted(w.dir, w.publishers[i])
    ensures Accounted(w'.dir, w'.publishers[i]) && AssetsOf(w'.dir.record) <= w'.dir.assets.Keys
    ensures !w.publishers[i].phase.Ended()
  {
    var p := w.publishers[i];
    if a.ReadServed? {
      ServedIsOnDisk(w.dir, p.phase.gens);
    } else if a.Compose? {
      RecordOwnsNothingNew(p.phase.gens, Publish(p.now, ReferencedAssets(w.dir.index), p.staging.assets.Keys));
    }
  }

  lemma StepKeepsTheRecordOnDisk(w: World, i: nat, a: Action, w': World)
    requires RecordOnDisk(w) && Happens(w, Step(i, a), w')
    ensures RecordOnDisk(w')
  {
    assert w.publishers[i] in w.publishers;
    StepIsAccounted(w, i, a, w');
    forall q | q in w'.publishers ensures Accounted(w'.dir, q) {
      var j :| 0 <= j < |w'.publishers| && w'.publishers[j] == q;
      if j != i {
        assert q in w.publishers && w.publishers[j].phase.Ended();
      }
    }
  }

  /**
   * Over every run of sequential publishes with crashes anywhere, every file of every
   * recorded generation is on disk at every instant.
   */
  lemma {:induction false} RecordedGenerationsStayOnDisk(ws: seq<World>, es: seq<Event>)
    requires Run(ws, es) && ws[0].publishers == [] && AssetsOf(ws[0].dir.record) <= ws[0].dir.assets.Keys
    requires forall i :: 0 <= i < |es| ==> OneAtATime(ws[i], es[i])
    ensures forall i :: 0 <= i < |ws| ==> RecordOnDisk(ws[i])
  {
    var n := |es|;
    if n > 0 {
      RecordedGenerationsStayOnDisk(ws[..n], es[..n - 1]);
      var w, w' := ws[n - 1], ws[n];
      assert RecordOnDisk(ws[..n][n - 1]);
      match es[n - 1] {
        case Step(i, a) => StepKeepsTheRecordOnDisk(w, i, a, w');
        case _ =>
      }
      forall i | 0 <= i < |ws| ensures RecordOnDisk(ws[i]) {
        if i < n {
          assert ws[..n][i] == ws[i];
        }
      }
    }
  }
}
