/**
 * `publishBundle` as it runs: a class whose fields are the served directory, copied
 * into, flipped, recorded and swept in place. Its effects are the steps of
 * PublishProtocol, in one of that protocol's orders, so a crash is any prefix.
 */
module PublicDirectory {
  import opened Options
  import opened ClientBundle
  import opened Generations
  import opened CrashedPublishes
  import opened PublishProtocol

  /** `broken`: what is served is not whole. `swept`: stale assets removed. */
  datatype PublishResult = PublishResult(broken: bool, swept: nat)

  /** The directory and the publisher's place in its program, after each step. */
  datatype Moment = Moment(dir: Dir, phase: Phase)

  ghost predicate Trace(staging: Staging, now: int, moments: seq<Moment>, actions: seq<Action>) {
    && |moments| == |actions| + 1
    && forall i :: 0 <= i < |actions| ==>
                     Perform(moments[i].dir, Publisher(staging, now, moments[i].phase), actions[i])
                     == Some((moments[i + 1].dir, moments[i + 1].phase))
  }

  lemma TraceGrows(staging: Staging, now: int, moments: seq<Moment>, actions: seq<Action>, a: Action, next: Moment)
    requires Trace(staging, now, moments, actions)
    requires Perform(moments[|actions|].dir, Publisher(staging, now, moments[|actions|].phase), a) == Some((next.dir, next.phase))
    ensures Trace(staging, now, moments + [next], actions + [a])
  {
    var ms, acts := moments + [next], actions + [a];
    forall i | 0 <= i < |acts|
      ensures Perform(ms[i].dir, Publisher(staging, now, ms[i].phase), acts[i]) == Some((ms[i + 1].dir, ms[i + 1].phase))
    {
      if i < |actions| {
        assert ms[i] == moments[i] && ms[i + 1] == moments[i + 1] && acts[i] == actions[i];
      }
    }
  }

  lemma TracesJoin(staging: Staging, now: int, ms: seq<Moment>, acts: seq<Action>, more: seq<Moment>, moreActs: seq<Action>)
    requires Trace(staging, now, ms, acts) && Trace(staging, now, more, moreActs) && ms[|acts|] == more[0]
    ensures Trace(staging, now, ms + more[1..], acts + moreActs)
    ensures (ms + more[1..])[0] == ms[0] && (ms + more[1..])[|acts + moreActs|] == more[|moreActs|]
  {
    var all, allActs := ms + more[1..], acts + moreActs;
    forall i | 0 <= i < |allActs|
      ensures Perform(all[i].dir, Publisher(staging, now, all[i].phase), allActs[i]) == Some((all[i + 1].dir, all[i + 1].phase))
    {
      if i < |acts| {
        assert all[i] == ms[i] && all[i + 1] == ms[i + 1];
      } else {
        var k := i - |acts|;
        assert all[i] == more[k] && all[i + 1] == more[k + 1] && allActs[i] == moreActs[k];
      }
    }
  }

  /** The directory's assets once a staging directory is copied over them. */
  function Copied(assets: map<Name, File>, staged: Tree, dates: Name -> int): map<Name, File> {
    assets + map n | n in staged :: File(staged[n], dates(n))
  }

  lemma OneMoreCopied(assets: map<Name, File>, staged: Tree, left: set<Name>, n: Name, dates: Name -> int)
    requires n in left && n in staged
    ensures Copied(assets, staged - left, dates)[n := File(staged[n], dates(n))] == Copied(assets, staged - (left - {n}), dates)
  {
  }

  class PublicDir {
    var index: Option<Index>
    var indexMtime: int
    var roots: set<Name>
    var assets: map<Name, File>
    var record: Record

    ghost function Snapshot(): Dir
      reads this
    {
      Dir(index, indexMtime, roots, assets, record)
    }

    constructor ()
      ensures index == None && roots == {} && assets == map[] && record == []
    {
      index, indexMtime, roots, assets, record := None, 0, {}, map[], [];
    }

    method CopyAssets(staging: Staging, ghost now: int, dates: Name -> int, ghost gens: Record)
      returns (ghost moments: seq<Moment>, ghost actions: seq<Action>)
      modifies this`assets
      ensures assets == Copied(old(assets), staging.assets, dates)
      ensures Trace(staging, now, moments, actions)
      ensures moments[0] == Moment(old(Snapshot()), Copying(gens, staging.assets.Keys, staging.roots))
      ensures moments[|actions|] == Moment(Snapshot(), Copying(gens, {}, staging.roots))
    {
      var left := staging.assets.Keys;
      moments, actions := [Moment(Snapshot(), Copying(gens, left, staging.roots))], [];
      while left != {}
        invariant left <= staging.assets.Keys
        invariant assets == Copied(old(assets), staging.assets - left, dates)
        invariant Trace(staging, now, moments, actions)
        invariant moments[0] == Moment(old(Snapshot()), Copying(gens, staging.assets.Keys, staging.roots))
        invariant moments[|actions|] == Moment(Snapshot(), Copying(gens, left, staging.roots))
        decreases left
      {
        var n :| n in left;
        OneMoreCopied(old(assets), staging.assets, left, n, dates);
        assets := assets[n := File(staging.assets[n], dates(n))];
        left := left - {n};
        ghost var next := Moment(Snapshot(), Copying(gens, left, staging.roots));
        TraceGrows(staging, now, moments, actions, CopyAsset(n, dates(n)), next);
        moments, actions := moments + [next], actions + [CopyAsset(n, dates(n))];
      }
      assert staging.assets - left == staging.assets;
    }

    method CopyRoots(staging: Staging, ghost now: int, ghost gens: Record)
      returns (ghost moments: seq<Moment>, ghost actions: seq<Action>)
      modifies this`roots
      ensures roots == old(roots) + staging.roots
      ensures Trace(staging, now, moments, actions)
      ensures moments[0] == Moment(old(Snapshot()), Copying(gens, {}, staging.roots))
      ensures moments[|actions|] == Moment(Snapshot(), Copying(gens, {}, {}))
    {
      var left := staging.roots;
      moments, actions := [Moment(Snapshot(), Copying(gens, {}, left))], [];
      while left != {}
        invariant left <= staging.roots
        invariant roots == old(roots) + (staging.roots - left)
        invariant Trace(staging, now, moments, actions)
        invariant moments[0] == Moment(old(Snapshot()), Copying(gens, {}, staging.roots))
        invariant moments[|actions|] == Moment(Snapshot(), Copying(gens, {}, left))
        decreases left
      {
        var n :| n in left;
        roots := roots + {n};
        left := left - {n};
        ghost var next := Moment(Snapshot(), Copying(gens, {}, left));
        TraceGrows(staging, now, moments, actions, CopyRoot(n), next);
        moments, actions := moments + [next], actions + [CopyRoot(n)];
      }
    }

    /**
     * Copies every asset and every file beside index.html, one rename each, in any
     * order within the two. `dates` says when each copy was made.
     */
    method CopyStaging(staging: Staging, ghost now: int, dates: Name -> int, ghost gens: Record)
      returns (ghost moments: seq<Moment>, ghost actions: seq<Action>)
      modifies this`assets, this`roots
      ensures assets == Copied(old(assets), staging.assets, dates) && roots == old(roots) + staging.roots
      ensures Trace(staging, now, moments, actions)
      ensures moments[0] == Moment(old(Snapshot()), Copying(gens, staging.assets.Keys, staging.roots))
      ensures moments[|actions|] == Moment(Snapshot(), Copying(gens, {}, {}))
    {
      moments, actions := CopyAssets(staging, now, dates, gens);
      ghost var more, moreActs := CopyRoots(staging, now, gens);
      TracesJoin(staging, now, moments, actions, more, moreActs);
      moments, actions := moments + more[1..], actions + moreActs;
    }

    /** One file of the sweep: spared, deleted, or resisting its delete. */
    method SweepFile(ghost staging: Staging, now: int, retained: set<Name>, f: Name, resists: bool, ghost left: set<Name>,
                     ghost swept: nat, ghost before: seq<Moment>, ghost done: seq<Action>)
      returns (deleted: bool, ghost moments: seq<Moment>, ghost actions: seq<Action>)
      requires f in left && Trace(staging, now, before, done)
      requires before[|done|] == Moment(Snapshot(), Sweeping(retained, left, None, swept))
      modifies this`assets
      ensures deleted <==> f in old(assets) && f !in retained && !resists && !Young(old(Snapshot()), f, now)
      ensures assets == if deleted then old(assets) - {f} else old(assets)
      ensures Trace(staging, now, moments, actions) && moments[0] == before[0]
      ensures moments[|actions|] == Moment(Snapshot(), Sweeping(retained, left - {f}, None, if deleted then swept + 1 else swept))
    {
      deleted := false;
      if f in retained || f !in assets || now - assets[f].mtime < SWEEP_MIN_AGE_MS {
        ghost var next := Moment(Snapshot(), Sweeping(retained, left - {f}, None, swept));
        TraceGrows(staging, now, before, done, Spare(f), next);
        moments, actions := before + [next], done + [Spare(f)];
      } else {
        ghost var examined := Moment(Snapshot(), Sweeping(retained, left - {f}, Some(f), swept));
        TraceGrows(staging, now, before, done, Condemn(f), examined);
        if !resists {
          assets := assets - {f};
          deleted := true;
        }
        ghost var next := Moment(Snapshot(), Sweeping(retained, left - {f}, None, if deleted then swept + 1 else swept));
        TraceGrows(staging, now, before + [examined], done + [Condemn(f)], Remove(deleted), next);
        moments, actions := before + [examined] + [next], done + [Condemn(f)] + [Remove(deleted)];
      }
    }

    /** The sweep so far: what is gone is what was examined and had no reason to stay. */
    method SweepNext(ghost staging: Staging, now: int, ghost start: Dir, retained: set<Name>, ghost dead: set<Name>, undeletable: set<Name>,
                     ghost left: set<Name>, f: Name, swept: nat, ghost before: seq<Moment>, ghost done: seq<Action>)
      returns (nextSwept: nat, ghost moments: seq<Moment>, ghost actions: seq<Action>)
      requires f in left && left <= dead <= start.assets.Keys && SweptUpTo(now, start, retained, dead, undeletable, left, assets, swept)
      requires Trace(staging, now, before, done) && before[|done|] == Moment(Snapshot(), Sweeping(retained, left, None, swept))
      modifies this`assets
      ensures SweptUpTo(now, start, retained, dead, undeletable, left - {f}, assets, nextSwept)
      ensures Trace(staging, now, moments, actions) && moments[0] == before[0]
      ensures moments[|actions|] == Moment(Snapshot(), Sweeping(retained, left - {f}, None, nextSwept))
    {
      var deleted;
      ghost var held := assets;
      StillThere(start, dead - left, f, retained, undeletable, now);
      deleted, moments, actions := SweepFile(staging, now, retained, f, f in undeletable, left, swept, before, done);
      OneMoreExamined(start, dead - left, f, retained, undeletable, now, held, deleted);
      assert dead - (left - {f}) == (dead - left) + {f};
      nextSwept := if deleted then swept + 1 else swept;
    }

    /**
     * Deletes every dead file that is neither retained nor young. A file in
     * `undeletable` resists: the error is swallowed and the sweep goes on.
     */
    method Sweep(ghost staging: Staging, now: int, retained: set<Name>, dead: set<Name>, undeletable: set<Name>)
      returns (swept: nat, ghost moments: seq<Moment>, ghost actions: seq<Action>)
      requires dead <= assets.Keys
      modifies this`assets
      ensures assets == old(assets) - Doomed(old(Snapshot()), dead, retained, undeletable, now)
      ensures swept == |old(assets)| - |assets|
      ensures Trace(staging, now, moments, actions)
      ensures moments[0] == Moment(old(Snapshot()), Sweeping(retained, dead, None, 0))
      ensures moments[|actions|] == Moment(Snapshot(), Published(swept))
    {
      var left := dead;
      swept := 0;
      ghost var start := Snapshot();
      moments, actions := [Moment(start, Sweeping(retained, left, None, 0))], [];
      while left != {}
        invariant left <= dead
        invariant SweptUpTo(now, start, retained, dead, undeletable, left, assets, swept)
        invariant Trace(staging, now, moments, actions)
        invariant moments[0] == Moment(start, Sweeping(retained, dead, None, 0))
        invariant moments[|actions|] == Moment(Snapshot(), Sweeping(retained, left, None, swept))
        decreases left
      {
        var f :| f in left;
        swept, moments, actions := SweepNext(staging, now, start, retained, dead, undeletable, left, f, swept, moments, actions);
        left := left - {f};
      }
      assert dead - left == dead;
      ghost var last := Moment(Snapshot(), Published(swept));
      TraceGrows(staging, now, moments, actions, Finish, last);
      moments, actions := moments + [last], actions + [Finish];
    }

    /** The record as read, with the bundle on display if no entry stands for it (lines 192-198). */
    method ReadRecord(ghost staging: Staging, ghost now: int) returns (gens: Record, ghost moments: seq<Moment>, ghost actions: seq<Action>)
      ensures gens == WithServed(record, Served(Snapshot()))
      ensures index.None? || index.value.refs == {} || (exists g :: g in record && g.refs == index.value.refs) ==> gens == record
      ensures index.Some? && index.value.refs != {} && (forall g :: g in record ==> g.refs != index.value.refs) ==>
                gens == record + [Generation(indexMtime, None, index.value.refs, Alive(TreeOf(assets), index.value.refs))]
      ensures Trace(staging, now, moments, actions) && moments[0] == Moment(Snapshot(), Entered(record))
      ensures moments[|actions|] == Moment(Snapshot(), Copying(gens, staging.assets.Keys, staging.roots))
    {
      gens := record;
      var refs := ReferencedAssets(index);
      if refs != {} && forall g :: g in record ==> g.refs != refs {
        var dead := UnreachableAssets(TreeOf(assets), refs);
        assert assets.Keys - dead == Alive(TreeOf(assets), refs);
        gens := gens + [Generation(indexMtime, None, refs, assets.Keys - dead)];
      }
      moments, actions := [Moment(Snapshot(), Entered(record))], [];
      ghost var next := Moment(Snapshot(), Copying(gens, staging.assets.Keys, staging.roots));
      TraceGrows(staging, now, moments, actions, ReadServed, next);
      moments, actions := moments + [next], actions + [ReadServed];
    }

    /** Lines 212-233: the record is cut and written. */
    method CutRecord(ghost staging: Staging, now: int, gens: Record, staged: set<Name>)
      returns (retained: set<Name>, ghost moments: seq<Moment>, ghost actions: seq<Action>)
      requires staged == staging.assets.Keys
      modifies this`record
      ensures record == RecordAfter(gens, Publish(now, ReferencedAssets(index), staged)) && retained == AssetsOf(record)
      ensures Trace(staging, now, moments, actions) && moments[0] == Moment(old(Snapshot()), Verified(gens))
      ensures moments[|actions|] == Moment(Snapshot(), Listing(retained, ReferencedAssets(index)))
    {
      var kept := RecordAfter(gens, Publish(now, ReferencedAssets(index), staged));
      moments, actions := [Moment(Snapshot(), Verified(gens))], [];
      ghost var composed := Moment(Snapshot(), Composed(kept));
      TraceGrows(staging, now, moments, actions, Compose, composed);
      moments, actions := moments + [composed], actions + [Compose];
      record := kept;
      retained := AssetsOf(kept);
      ghost var written := Moment(Snapshot(), Recorded(retained));
      TraceGrows(staging, now, moments, actions, WriteRecord, written);
      moments, actions := moments + [written], actions + [WriteRecord];
      ghost var listing := Moment(Snapshot(), Listing(retained, ReferencedAssets(index)));
      TraceGrows(staging, now, moments, actions, ReadRoots, listing);
      moments, actions := moments + [listing], actions + [ReadRoots];
    }

    /** Lines 189-206: the old bundle noted, the new files copied, index.html swapped by one rename. */
    method CopyAndFlip(staging: Staging, ghost now: int, dates: Name -> int, flippedAt: int)
      returns (gens: Record, ghost moments: seq<Moment>, ghost actions: seq<Action>)
      modifies this
      ensures index == Some(staging.index) && indexMtime == flippedAt && roots == old(roots) + staging.roots
      ensures assets == Copied(old(assets), staging.assets, dates) && record == old(record)
      ensures gens == WithServed(old(record), Served(old(Snapshot())))
      ensures Trace(staging, now, moments, actions) && moments[0] == Moment(old(Snapshot()), Entered(old(record)))
      ensures moments[|actions|] == Moment(Snapshot(), Flipped(gens))
    {
      gens, moments, actions := ReadRecord(staging, now);
      ghost var more, moreActs := CopyStaging(staging, now, dates, gens);
      TracesJoin(staging, now, moments, actions, more, moreActs);
      moments, actions := moments + more[1..], actions + moreActs;
      index, indexMtime := Some(staging.index), flippedAt;
      ghost var flipped := Moment(Snapshot(), Flipped(gens));
      TraceGrows(staging, now, moments, actions, Flip(flippedAt), flipped);
      moments, actions := moments + [flipped], actions + [Flip(flippedAt)];
    }

    /** What nothing reaches from the index.html on display. */
    method DeadFiles(ghost staging: Staging, ghost now: int, ghost retained: set<Name>, ghost before: seq<Moment>, ghost done: seq<Action>)
      returns (dead: set<Name>, ghost moments: seq<Moment>, ghost actions: seq<Action>)
      requires Trace(staging, now, before, done)
      requires before[|done|] == Moment(Snapshot(), Listing(retained, ReferencedAssets(index)))
      ensures dead == assets.Keys - Alive(TreeOf(assets), ReferencedAssets(index))
      ensures Trace(staging, now, moments, actions) && moments[0] == before[0]
      ensures moments[|actions|] == Moment(Snapshot(), Sweeping(retained, dead, None, 0))
    {
      dead := UnreachableAssets(TreeOf(assets), ReferencedAssets(index));
      assert TreeOf(assets).Keys == assets.Keys;
      ghost var sweeping := Moment(Snapshot(), Sweeping(retained, dead, None, 0));
      TraceGrows(staging, now, before, done, ListDead, sweeping);
      moments, actions := before + [sweeping], done + [ListDead];
    }

    /** Lines 212-269, once what is served was found whole. */
    method RecordAndSweep(ghost staging: Staging, now: int, gens: Record, staged: set<Name>, undeletable: set<Name>)
      returns (swept: nat, ghost moments: seq<Moment>, ghost actions: seq<Action>)
      requires staged == staging.assets.Keys
      modifies this`record, this`assets
      ensures record == RecordAfter(gens, Publish(now, ReferencedAssets(index), staged))
      ensures assets == Exempt(old(assets), ReferencedAssets(index), AssetsOf(record), now, undeletable)
      ensures swept == |old(assets)| - |assets|
      ensures Trace(staging, now, moments, actions) && moments[0] == Moment(old(Snapshot()), Verified(gens))
      ensures moments[|actions|] == Moment(Snapshot(), Published(swept))
    {
      var retained;
      retained, moments, actions := CutRecord(staging, now, gens, staged);
      var dead;
      dead, moments, actions := DeadFiles(staging, now, retained, moments, actions);
      ghost var more, moreActs;
      swept, more, moreActs := Sweep(staging, now, retained, dead, undeletable);
      TracesJoin(staging, now, moments, actions, more, moreActs);
      moments, actions := moments + more[1..], actions + moreActs;
    }

    /**
     * After a publish that is not broken, what is left under `assets/` is exactly what
     * was there or was copied and is reachable, owned by one of at most forty kept
     * generations, younger than the sweep age, or could not be deleted; and
     * `retainedAssets` at that instant is that very ownership.
     */
    method PublishBundle(staging: Staging, now: int, dates: Name -> int, flippedAt: int, undeletable: set<Name>)
      returns (result: PublishResult, ghost moments: seq<Moment>, ghost actions: seq<Action>)
      modifies this
      ensures index == Some(staging.index) && indexMtime == flippedAt && roots == old(roots) + staging.roots
      ensures result.broken <==> !Servable(index, roots, Copied(old(assets), staging.assets, dates).Keys)
      ensures result.broken ==> assets == Copied(old(assets), staging.assets, dates) && record == old(record) && result.swept == 0
      ensures !result.broken ==>
                && record == RecordAfter(WithServed(old(record), Served(old(Snapshot()))),
                                         Publish(now, staging.index.refs, staging.assets.Keys))
                && |record| <= GENERATION_KEEP_COUNT && RetainedAssets(record, now) == AssetsOf(record)
                && assets == Exempt(Copied(old(assets), staging.assets, dates), staging.index.refs, RetainedAssets(record, now), now, undeletable)
                && result.swept == |Copied(old(assets), staging.assets, dates)| - |assets|
      ensures result.broken <==> !(staging.index.sound && staging.index.rootRefs <= old(roots) + staging.roots
                                   && staging.index.refs <= old(assets).Keys + staging.assets.Keys)
      ensures forall f :: f in assets <==>
                && (f in staging.assets || f in old(assets))
                && (result.broken || f in Alive(TreeOf(Copied(old(assets), staging.assets, dates)), staging.index.refs)
                    || (exists g :: g in record && f in g.assets) || f in undeletable
                    || now - (if f in staging.assets then dates(f) else old(assets)[f].mtime) < 1_800_000)
      ensures forall f :: f in assets ==>
                assets[f] == if f in staging.assets then File(staging.assets[f], dates(f)) else old(assets)[f]
      ensures Trace(staging, now, moments, actions) && moments[0] == Moment(old(Snapshot()), Entered(old(record)))
      ensures moments[|actions|] == Moment(Snapshot(), if result.broken then Broken else Published(result.swept))
    {
      var gens: Record;
      gens, moments, actions := CopyAndFlip(staging, now, dates, flippedAt);
      var sound := Servable(index, roots, assets.Keys);
      ghost var verified := Moment(Snapshot(), if sound then Verified(gens) else Broken);
      TraceGrows(staging, now, moments, actions, Verify, verified);
      moments, actions := moments + [verified], actions + [Verify];
      if !sound {
        return PublishResult(true, 0), moments, actions;
      }
      var swept;
      ghost var more, moreActs;
      swept, more, moreActs := RecordAndSweep(staging, now, gens, staging.assets.Keys, undeletable);
      TracesJoin(staging, now, moments, actions, more, moreActs);
      moments, actions := moments + more[1..], actions + moreActs;
      ghost var listed := WithPublish(gens, Publish(now, staging.index.refs, staging.assets.Keys));
      KeptMembers(listed, now);
      KeptTwiceIsKeptOnce(listed, now);
      WhatStays(old(assets), staging.assets, dates, staging.index.refs, record, now, undeletable);
      result := PublishResult(false, swept);
    }
  }

  /** What a publish that served a whole bundle leaves under `assets/`. */
  ghost function Exempt(copied: map<Name, File>, refs: set<Name>, retained: set<Name>, now: int, undeletable: set<Name>): map<Name, File> {
    var alive := Alive(TreeOf(copied), refs);
    map f | f in copied && (f in alive || f in retained || now - copied[f].mtime < SWEEP_MIN_AGE_MS || f in undeletable) :: copied[f]
  }

  /** What stays, file by file, and with which text and date. */
  lemma WhatStays(assets: map<Name, File>, staged: Tree, dates: Name -> int, refs: set<Name>, record: Record, now: int, undeletable: set<Name>)
    ensures var left := Exempt(Copied(assets, staged, dates), refs, AssetsOf(record), now, undeletable);
            && (forall f :: f in left <==>
                  && (f in staged || f in assets)
                  && (f in Alive(TreeOf(Copied(assets, staged, dates)), refs)
                      || (exists g :: g in record && f in g.assets) || f in undeletable
                      || now - (if f in staged then dates(f) else assets[f].mtime) < 1_800_000))
            && (forall f :: f in left ==> left[f] == if f in staged then File(staged[f], dates(f)) else assets[f])
  {
  }

  /** A live file's precompressed sibling survives every sweep, in either encoding. */
  lemma LiveSiblingsStay(copied: map<Name, File>, refs: set<Name>, retained: set<Name>, now: int, undeletable: set<Name>, n: Name)
    requires n in Reachable(TreeOf(copied), refs)
    ensures n + ".br" in copied ==> n + ".br" in Exempt(copied, refs, retained, now, undeletable)
    ensures n + ".gz" in copied ==> n + ".gz" in Exempt(copied, refs, retained, now, undeletable)
  {
    SiblingsShareTheFate(TreeOf(copied), refs, n, n);
  }

  /**
   * A bundle on display that no publish recorded is kept whole by the publish that
   * replaces it: every file it reaches and their siblings in either encoding, however
   * old.
   */
  lemma WhatWindowsRunStays(d: Dir, staging: Staging, dates: Name -> int, now: int, undeletable: set<Name>, n: Name, f: Name)
    requires DistinctKeys(d.record) && OneServed(d.record) && ReplacedBefore(d.record, now)
    requires d.index.Some? && d.index.value.refs !in {{}, staging.index.refs} && Unnamed(d.record, d.index.value.refs)
    requires n in Reachable(TreeOf(d.assets), d.index.value.refs) && f in d.assets && f in {n, n + ".br", n + ".gz"}
    ensures var record := RecordAfter(WithServed(d.record, Served(d)), Publish(now, staging.index.refs, staging.assets.Keys));
            f in Exempt(Copied(d.assets, staging.assets, dates), staging.index.refs, AssetsOf(record), now, undeletable)
  {
    var next, x := Publish(now, staging.index.refs, staging.assets.Keys), Served(d).value;
    SiblingsShareTheFate(TreeOf(d.assets), d.index.value.refs, n, f);
    assert f in x.assets;
    ServedIsRedated(d.record, x, x, next);
    assert f in Retired(x, now).assets;
  }

  /** The files among `examined` that the sweep deletes. */
  function Doomed(d: Dir, examined: set<Name>, retained: set<Name>, undeletable: set<Name>, now: int): set<Name> {
    set f | f in examined && f !in retained && f !in undeletable && !Young(d, f, now)
  }

  ghost predicate SweptUpTo(now: int, start: Dir, retained: set<Name>, dead: set<Name>, undeletable: set<Name>,
                            left: set<Name>, assets: map<Name, File>, swept: int) {
    && assets == start.assets - Doomed(start, dead - left, retained, undeletable, now)
    && swept == |start.assets| - |assets|
  }

  /** What was not examined yet is as it was at the start. */
  lemma StillThere(d: Dir, examined: set<Name>, f: Name, retained: set<Name>, undeletable: set<Name>, now: int)
    requires f in d.assets && f !in examined
    ensures var after := d.assets - Doomed(d, examined, retained, undeletable, now);
            f in after && after[f] == d.assets[f]
  {
  }

  lemma OneMoreExamined(d: Dir, examined: set<Name>, f: Name, retained: set<Name>, undeletable: set<Name>, now: int,
                        held: map<Name, File>, deleted: bool)
    requires f in d.assets && f !in examined && held == d.assets - Doomed(d, examined, retained, undeletable, now)
    requires deleted <==> f !in retained && f !in undeletable && !Young(d, f, now)
    ensures (if deleted then held - {f} else held) == d.assets - Doomed(d, examined + {f}, retained, undeletable, now)
    ensures deleted ==> |held - {f}| == |held| - 1
  {
    var doomed, next := Doomed(d, examined, retained, undeletable, now), Doomed(d, examined + {f}, retained, undeletable, now);
    if deleted {
      assert next == doomed + {f};
      RemovingOne(held, f);
    } else {
      assert next == doomed;
    }
  }

  lemma RemovingOne(m: map<Name, File>, f: Name)
    requires f in m
    ensures |m - {f}| == |m| - 1
  {
    assert (m - {f}).Keys == m.Keys - {f};
  }
}
