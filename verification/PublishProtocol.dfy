/**
 * `publishBundle` (scripts/build-client-publish.ts) as a protocol over the served
 * directory: every read, rename and delete is one atomic step, any number of
 * publishers interleave their steps, and any of them may crash at any step.
 */
module PublishProtocol {
  import opened Options
  import opened ClientBundle
  import opened Generations

  const SWEEP_MIN_AGE_MS: int := 30 * 60_000

  datatype File = File(cites: set<Name>, mtime: int)

  /** `sound`: closed with `</html>` and naming a script under `/assets/`. */
  datatype Index = Index(refs: set<Name>, rootRefs: set<Name>, sound: bool)

  /** The served directory: index.html, the files beside it, those under `assets/`, and the record. */
  datatype Dir = Dir(index: Option<Index>, indexMtime: int, roots: set<Name>, assets: map<Name, File>, record: Record)

  datatype Staging = Staging(index: Index, roots: set<Name>, assets: Tree)

  function TreeOf(assets: map<Name, File>): Tree {
    map n | n in assets :: assets[n].cites
  }

  function ReferencedAssets(index: Option<Index>): set<Name> {
    if index.None? then {} else index.value.refs
  }

  /** `missingBundleAssets` finds nothing wrong. */
  predicate Servable(index: Option<Index>, roots: set<Name>, assets: set<Name>) {
    index.Some? && index.value.sound && index.value.rootRefs <= roots && index.value.refs <= assets
  }

  predicate DirServable(d: Dir) {
    Servable(d.index, d.roots, d.assets.Keys)
  }

  predicate Whole(s: Staging) {
    Servable(Some(s.index), s.roots, s.assets.Keys)
  }

  /** The generation on display, read off the disk (`servedGeneration`), if index.html references any asset. */
  ghost function Served(d: Dir): Option<Generation> {
    var refs := ReferencedAssets(d.index);
    if refs == {} then None else Some(Generation(d.indexMtime, None, refs, Alive(TreeOf(d.assets), refs)))
  }

  predicate Young(d: Dir, f: Name, now: int) {
    f in d.assets && now - d.assets[f].mtime < SWEEP_MIN_AGE_MS
  }

  datatype Phase =
    | Entered(gens: Record)
    | Copying(gens: Record, assetsLeft: set<Name>, rootsLeft: set<Name>)
    | Flipped(gens: Record)
    | Verified(gens: Record)
    | Composed(kept: Record)
    | Recorded(retained: set<Name>)
    | Listing(retained: set<Name>, roots: set<Name>)
    | Sweeping(retained: set<Name>, left: set<Name>, condemned: Option<Name>, swept: nat)
    | Published(swept: nat)
    | Broken
    | Crashed
  {
    predicate Ended() { Published? || Broken? || Crashed? }
  }

  datatype Publisher = Publisher(staging: Staging, now: int, phase: Phase)

  datatype Action =
    | ReadServed
    | CopyAsset(name: Name, mtime: int)
    | CopyRoot(name: Name)
    | Flip(mtime: int)
    | Verify
    | Compose
    | WriteRecord
    | ReadRoots
    | ListDead
    | Spare(name: Name)
    | Condemn(name: Name)
    | Remove(deleted: bool)
    | Finish
    | Crash

  /** One atomic step of one publisher, or `None` where its program does not stand at that step. */
  ghost function Perform(d: Dir, p: Publisher, a: Action): Option<(Dir, Phase)> {
    match (p.phase, a)
    case (Entered(gens), ReadServed) =>
      Some((d, Copying(WithServed(gens, Served(d)), p.staging.assets.Keys, p.staging.roots)))
    case (Copying(gens, left, roots), CopyAsset(n, mtime)) =>
      if n in left && n in p.staging.assets then
        Some((d.(assets := d.assets[n := File(p.staging.assets[n], mtime)]), Copying(gens, left - {n}, roots)))
      else None
    case (Copying(gens, left, roots), CopyRoot(n)) =>
      if n in roots then Some((d.(roots := d.roots + {n}), Copying(gens, left, roots - {n}))) else None
    case (Copying(gens, left, roots), Flip(mtime)) =>
      if left == {} && roots == {} then Some((d.(index := Some(p.staging.index), indexMtime := mtime), Flipped(gens))) else None
    case (Flipped(gens), Verify) =>
      Some((d, if DirServable(d) then Verified(gens) else Broken))
    case (Verified(gens), Compose) =>
      Some((d, Composed(RecordAfter(gens, Publish(p.now, ReferencedAssets(d.index), p.staging.assets.Keys)))))
    case (Composed(kept), WriteRecord) =>
      Some((d.(record := kept), Recorded(AssetsOf(kept))))
    case (Recorded(retained), ReadRoots) =>
      Some((d, Listing(retained, ReferencedAssets(d.index))))
    case (Listing(retained, roots), ListDead) =>
      Some((d, Sweeping(retained, d.assets.Keys - Alive(TreeOf(d.assets), roots), None, 0)))
    case (Sweeping(retained, left, None, swept), Spare(n)) =>
      if n in left && (n in retained || n !in d.assets || Young(d, n, p.now)) then
        Some((d, Sweeping(retained, left - {n}, None, swept)))
      else None
    case (Sweeping(retained, left, None, swept), Condemn(n)) =>
      if n in left && n !in retained && n in d.assets && !Young(d, n, p.now) then
        Some((d, Sweeping(retained, left - {n}, Some(n), swept)))
      else None
    case (Sweeping(retained, left, Some(f), swept), Remove(deleted)) =>
      if deleted then
        if f in d.assets then Some((d.(assets := d.assets - {f}), Sweeping(retained, left, None, swept + 1))) else None
      else Some((d, Sweeping(retained, left, None, swept)))
    case (Sweeping(retained, left, None, swept), Finish) =>
      if left == {} then Some((d, Published(swept))) else None
    case (phase, Crash) =>
      if phase.Ended() then None else Some((d, Crashed))
    case _ => None
  }

  // ----- any number of publishers --------------------------------------------------

  /** `live` is the bundle whose index.html is on display. */
  datatype World = World(dir: Dir, live: Staging, clock: int, publishers: seq<Publisher>)

  datatype Event =
    | Tick(clock: int)
    | Start(staging: Staging)
    | Step(who: nat, action: Action)

  ghost predicate Happens(w: World, e: Event, w': World) {
    match e
    case Tick(clock) => w.clock <= clock && w' == w.(clock := clock)
    case Start(staging) => w' == w.(publishers := w.publishers + [Publisher(staging, w.clock, Entered(w.dir.record))])
    case Step(i, a) =>
      && i < |w.publishers|
      && var p := w.publishers[i];
         var next := Perform(w.dir, p, a);
         && next.Some?
         && w' == World(next.value.0, if a.Flip? then p.staging else w.live, w.clock,
                        w.publishers[i := p.(phase := next.value.1)])
  }

  ghost predicate Run(ws: seq<World>, es: seq<Event>) {
    |ws| == |es| + 1 && forall i :: 0 <= i < |es| ==> Happens(ws[i], es[i], ws[i + 1])
  }

  /** Asset names are content hashes: the name decides the text. */
  ghost predicate Hashed(text: Tree, t: Tree) {
    forall n :: n in t ==> n in text && t[n] == text[n]
  }

  /** A staging directory that passed the build's own check, with content-hashed plain names. */
  ghost predicate Built(text: Tree, s: Staging) {
    Whole(s) && Hashed(text, s.assets) && forall r :: r in s.index.refs ==> StripAssets(r) == r
  }

  /** Everything the bundle is made of: the closure of its index.html, precompressed siblings included. */
  ghost function Need(s: Staging): set<Name> {
    Alive(s.assets, s.index.refs)
  }

  /** index.html is a built bundle's own, and that bundle's whole closure is on disk. */
  ghost predicate ServedWhole(w: World) {
    && w.dir.index == Some(w.live.index)
    && DirServable(w.dir)
    && Need(w.live) <= w.dir.assets.Keys
  }

  predicate Timely(w: World, p: Publisher) {
    w.clock < p.now + SWEEP_MIN_AGE_MS
  }

  /**
   * What the directory may be asked to survive: bundles are built, a publish is
   * shorter than the sweep age, a copy is dated no earlier than its publish nor than
   * the file it replaces, and no copy lands on a file another publisher has already
   * examined and is about to delete.
   */
  ghost predicate Careful(text: Tree, w: World, e: Event) {
    match e
    case Tick(_) => true
    case Start(staging) => Built(text, staging)
    case Step(i, a) =>
      i < |w.publishers| && !a.Crash? ==>
        && Timely(w, w.publishers[i])
        && (a.CopyAsset? ==>
              && w.publishers[i].now <= a.mtime
              && (a.name in w.dir.assets ==> w.dir.assets[a.name].mtime <= a.mtime)
              && forall q :: q in w.publishers && q.phase.Sweeping? ==> q.phase.condemned != Some(a.name))
  }

  // ----- the invariant ---------------------------------------------------------------

  /** What `p` has copied is on disk and dated no earlier than its publish, while it may still flip. */
  ghost predicate CopiesStand(w: World, p: Publisher) {
    p.phase.Copying? ==>
      && p.staging.roots - p.phase.rootsLeft <= w.dir.roots
      && (Timely(w, p) ==> forall a :: a in p.staging.assets.Keys - p.phase.assetsLeft ==>
                             a in w.dir.assets && p.now <= w.dir.assets[a].mtime)
  }

  /** Nothing the served bundle needs can be deleted by `p`. */
  ghost predicate SweepIsSafe(w: World, p: Publisher) {
    && (p.phase.Listing? ==>
          p.phase.roots == w.live.index.refs || forall a :: a in Need(w.live) ==> Young(w.dir, a, p.now))
    && (p.phase.Sweeping? ==>
          && (forall a :: a in Need(w.live) && a in p.phase.left ==> Young(w.dir, a, p.now))
          && (p.phase.condemned.Some? ==> p.phase.condemned.value !in Need(w.live)))
  }

  /** Nor anything that a publisher which may still flip has copied. */
  ghost predicate CondemnedIsNobodys(w: World, p: Publisher, q: Publisher) {
    p.phase.Sweeping? && p.phase.condemned.Some? && q.phase.Copying? && Timely(w, q) ==>
      p.phase.condemned.value !in q.staging.assets.Keys - q.phase.assetsLeft
  }

  ghost predicate Inv(text: Tree, w: World) {
    && UniqueBases(text.Keys)
    && Hashed(text, TreeOf(w.dir.assets)) && Built(text, w.live) && ServedWhole(w)
    && (forall p :: p in w.publishers ==>
          && p.now <= w.clock && Built(text, p.staging) && CopiesStand(w, p) && SweepIsSafe(w, p))
    && (forall p, q :: p in w.publishers && q in w.publishers ==> CondemnedIsNobodys(w, p, q))
  }

  /** What a bundle needs is reachable in any directory of hashed files that holds it. */
  lemma NeedIsAlive(text: Tree, s: Staging, assets: map<Name, File>)
    requires UniqueBases(text.Keys) && Hashed(text, s.assets) && Hashed(text, TreeOf(assets))
    requires Need(s) <= assets.Keys
    ensures Need(s) <= Alive(TreeOf(assets), s.index.refs)
  {
    var t, d := s.assets, TreeOf(assets);
    assert UniqueBases(t.Keys + d.Keys);
    AliveSurvives(t, d, s.index.refs);
  }

  lemma RefsAreNeeded(text: Tree, s: Staging)
    requires Built(text, s)
    ensures s.index.refs <= Need(s) <= s.assets.Keys
  {
    forall r | r in s.index.refs ensures r in Reachable(s.assets, s.index.refs) {
      assert r in Resolve(s.assets.Keys, StripAssets(r));
      assert r in Entries(s.assets, s.index.refs);
      ReachableCovers(s.assets, s.index.refs);
    }
  }

  /**
   * What a browser gets from a directory that serves a built bundle whole: the page,
   * the files beside it that it asks for, whatever a chain of citations leads to, and
   * every one of those in either encoding that the build emitted.
   */
  lemma ServedWholeMeans(text: Tree, w: World)
    requires Built(text, w.live)
    ensures ServedWhole(w) <==>
              && w.dir.index == Some(w.live.index) && w.live.index.sound
              && w.live.index.rootRefs <= w.dir.roots && w.live.index.refs <= w.dir.assets.Keys
              && forall n :: n in Reachable(w.live.assets, w.live.index.refs) ==>
                   && n in w.dir.assets
                   && (n + ".br" in w.live.assets ==> n + ".br" in w.dir.assets)
                   && (n + ".gz" in w.live.assets ==> n + ".gz" in w.dir.assets)
  {
    var t, refs := w.live.assets, w.live.index.refs;
    RefsAreNeeded(text, w.live);
    if ServedWhole(w) {
      forall n | n in Reachable(t, refs)
        ensures n in Need(w.live)
        ensures n + ".br" in t ==> n + ".br" in Need(w.live)
        ensures n + ".gz" in t ==> n + ".gz" in Need(w.live)
      {
        SiblingsShareTheFate(t, refs, n, n);
      }
    } else if !(Need(w.live) <= w.dir.assets.Keys) {
      var f :| f in Need(w.live) && f !in w.dir.assets;
      SiblingsShareTheFate(t, refs, f, f);
    }
  }

  lemma StartKeeps(text: Tree, w: World, s: Staging, w': World)
    requires Inv(text, w) && Built(text, s) && Happens(w, Start(s), w')
    ensures Inv(text, w')
  {
  }

  lemma TickKeeps(text: Tree, w: World, clock: int, w': World)
    requires Inv(text, w) && Happens(w, Tick(clock), w')
    ensures Inv(text, w')
  {
    forall p | p in w'.publishers ensures CopiesStand(w', p) && SweepIsSafe(w', p) {
      assert CopiesStand(w, p) && SweepIsSafe(w, p);
    }
    forall p, q | p in w'.publishers && q in w'.publishers ensures CondemnedIsNobodys(w', p, q) {
      assert CondemnedIsNobodys(w, p, q);
    }
  }

  /** A step that leaves the directory alone and does not flip only has to answer for its own publisher. */
  lemma QuietStepKeeps(text: Tree, w: World, i: nat, a: Action, w': World)
    requires Inv(text, w) && Happens(w, Step(i, a), w') && w'.dir == w.dir.(record := w'.dir.record) && !a.Flip?
    requires CopiesStand(w', w'.publishers[i]) && SweepIsSafe(w', w'.publishers[i])
    requires forall q :: q in w'.publishers ==> CondemnedIsNobodys(w', w'.publishers[i], q) && CondemnedIsNobodys(w', q, w'.publishers[i])
    ensures Inv(text, w')
  {
    forall p | p in w'.publishers
      ensures p.now <= w'.clock && Built(text, p.staging) && CopiesStand(w', p) && SweepIsSafe(w', p)
    {
      assert w.publishers[i] in w.publishers;
      if p != w'.publishers[i] {
        assert p in w.publishers;
        assert CopiesStand(w, p) && SweepIsSafe(w, p);
      }
    }
    forall p, q | p in w'.publishers && q in w'.publishers ensures CondemnedIsNobodys(w', p, q) {
      if p != w'.publishers[i] && q != w'.publishers[i] {
        assert p in w.publishers && q in w.publishers;
        assert CondemnedIsNobodys(w, p, q);
      }
    }
  }

  lemma ReadingKeeps(text: Tree, w: World, i: nat, a: Action, w': World)
    requires Inv(text, w) && Happens(w, Step(i, a), w')
    requires a.ReadServed? || a.Verify? || a.Compose? || a.WriteRecord? || a.Crash?
    ensures Inv(text, w')
  {
    var p := w.publishers[i];
    assert p in w.publishers && CopiesStand(w, p) && SweepIsSafe(w, p);
    forall q | q in w'.publishers
      ensures CondemnedIsNobodys(w', w'.publishers[i], q) && CondemnedIsNobodys(w', q, w'.publishers[i])
    {
      if q != w'.publishers[i] {
        assert q in w.publishers && CondemnedIsNobodys(w, q, p) && CondemnedIsNobodys(w, p, q);
      }
    }
    QuietStepKeeps(text, w, i, a, w');
  }

  lemma SweepingKeeps(text: Tree, w: World, i: nat, a: Action, w': World)
    requires Inv(text, w) && Happens(w, Step(i, a), w')
    requires a.ReadRoots? || a.Spare? || a.Finish?
    ensures Inv(text, w')
  {
    var p := w.publishers[i];
    assert p in w.publishers && SweepIsSafe(w, p);
    forall q | q in w'.publishers
      ensures CondemnedIsNobodys(w', w'.publishers[i], q) && CondemnedIsNobodys(w', q, w'.publishers[i])
    {
      if q != w'.publishers[i] {
        assert q in w.publishers && CondemnedIsNobodys(w, q, p) && CondemnedIsNobodys(w, p, q);
      }
    }
    QuietStepKeeps(text, w, i, a, w');
  }

  lemma ListDeadKeeps(text: Tree, w: World, i: nat, w': World)
    requires Inv(text, w) && Happens(w, Step(i, ListDead), w')
    ensures Inv(text, w')
  {
    var p := w.publishers[i];
    assert p in w.publishers && SweepIsSafe(w, p);
    if p.phase.roots == w.live.index.refs {
      NeedIsAlive(text, w.live, w.dir.assets);
    }
    QuietStepKeeps(text, w, i, ListDead, w');
  }

  lemma CondemnKeeps(text: Tree, w: World, i: nat, f: Name, w': World)
    requires Inv(text, w) && Happens(w, Step(i, Condemn(f)), w')
    ensures Inv(text, w')
  {
    var p := w.publishers[i];
    assert p in w.publishers && SweepIsSafe(w, p);
    forall q | q in w'.publishers
      ensures CondemnedIsNobodys(w', w'.publishers[i], q) && CondemnedIsNobodys(w', q, w'.publishers[i])
    {
      if q != w'.publishers[i] {
        assert q in w.publishers && CopiesStand(w, q);
      }
    }
    QuietStepKeeps(text, w, i, Condemn(f), w');
  }

  lemma CopyRootKeeps(text: Tree, w: World, i: nat, n: Name, w': World)
    requires Inv(text, w) && Happens(w, Step(i, CopyRoot(n)), w')
    ensures Inv(text, w')
  {
    var p := w.publishers[i];
    assert p in w.publishers && CopiesStand(w, p);
    forall q | q in w'.publishers
      ensures CondemnedIsNobodys(w', w'.publishers[i], q) && CondemnedIsNobodys(w', q, w'.publishers[i])
    {
      if q != w'.publishers[i] {
        assert q in w.publishers && CondemnedIsNobodys(w, q, p);
      }
    }
    OthersStand(text, w, i, w');
  }

  /** Publishers other than `i` keep their part of the invariant while no file goes, loses its date or changes owner. */
  lemma OthersStand(text: Tree, w: World, i: nat, w': World)
    requires Inv(text, w) && i < |w.publishers| && |w'.publishers| == |w.publishers| && w'.clock == w.clock
    requires forall j :: 0 <= j < |w.publishers| && j != i ==> w'.publishers[j] == w.publishers[j]
    requires w'.live == w.live && w.dir.roots <= w'.dir.roots && w'.dir.index == w.dir.index
    requires forall f :: f in w.dir.assets ==> f in w'.dir.assets && w.dir.assets[f].mtime <= w'.dir.assets[f].mtime
    requires Hashed(text, TreeOf(w'.dir.assets))
    requires w'.publishers[i].now == w.publishers[i].now && w'.publishers[i].staging == w.publishers[i].staging
    requires CopiesStand(w', w'.publishers[i]) && SweepIsSafe(w', w'.publishers[i])
    requires forall q :: q in w'.publishers ==> CondemnedIsNobodys(w', w'.publishers[i], q) && CondemnedIsNobodys(w', q, w'.publishers[i])
    ensures Inv(text, w')
  {
    assert w.publishers[i] in w.publishers;
    forall p | p in w'.publishers
      ensures p.now <= w'.clock && Built(text, p.staging) && CopiesStand(w', p) && SweepIsSafe(w', p)
    {
      var j :| 0 <= j < |w'.publishers| && w'.publishers[j] == p;
      if j != i {
        assert p in w.publishers && CopiesStand(w, p) && SweepIsSafe(w, p);
      }
    }
    forall p, q | p in w'.publishers && q in w'.publishers ensures CondemnedIsNobodys(w', p, q) {
      var j :| 0 <= j < |w'.publishers| && w'.publishers[j] == p;
      var k :| 0 <= k < |w'.publishers| && w'.publishers[k] == q;
      if j != i && k != i {
        assert p in w.publishers && q in w.publishers && CondemnedIsNobodys(w, p, q);
      }
    }
  }

  lemma CopyAssetKeeps(text: Tree, w: World, i: nat, n: Name, mtime: int, w': World)
    requires Inv(text, w) && Careful(text, w, Step(i, CopyAsset(n, mtime))) && Happens(w, Step(i, CopyAsset(n, mtime)), w')
    ensures Inv(text, w')
  {
    var p := w.publishers[i];
    assert p in w.publishers && CopiesStand(w, p);
    forall q | q in w'.publishers
      ensures CondemnedIsNobodys(w', w'.publishers[i], q) && CondemnedIsNobodys(w', q, w'.publishers[i])
    {
      if q != w'.publishers[i] {
        assert q in w.publishers && CondemnedIsNobodys(w, q, p);
      }
    }
    OthersStand(text, w, i, w');
  }

  lemma FlipKeeps(text: Tree, w: World, i: nat, mtime: int, w': World)
    requires Inv(text, w) && Careful(text, w, Step(i, Flip(mtime))) && Happens(w, Step(i, Flip(mtime)), w')
    ensures Inv(text, w')
  {
    var p := w.publishers[i];
    assert p in w.publishers && CopiesStand(w, p);
    RefsAreNeeded(text, p.staging);
    assert ServedWhole(w');
    forall q | q in w'.publishers
      ensures q.now <= w'.clock && Built(text, q.staging) && CopiesStand(w', q) && SweepIsSafe(w', q)
    {
      if q != w'.publishers[i] {
        assert q in w.publishers && CopiesStand(w, q) && SweepIsSafe(w, q) && CondemnedIsNobodys(w, q, p);
      }
    }
    forall q, r | q in w'.publishers && r in w'.publishers ensures CondemnedIsNobodys(w', q, r) {
      if q != w'.publishers[i] && r != w'.publishers[i] {
        assert q in w.publishers && r in w.publishers && CondemnedIsNobodys(w, q, r);
      }
    }
  }

  lemma RemoveKeeps(text: Tree, w: World, i: nat, deleted: bool, w': World)
    requires Inv(text, w) && Happens(w, Step(i, Remove(deleted)), w')
    ensures Inv(text, w')
  {
    var p := w.publishers[i];
    assert p in w.publishers && SweepIsSafe(w, p);
    var f := p.phase.condemned.value;
    RefsAreNeeded(text, w.live);
    forall q | q in w'.publishers
      ensures q.now <= w'.clock && Built(text, q.staging) && CopiesStand(w', q) && SweepIsSafe(w', q)
    {
      if q != w'.publishers[i] {
        assert q in w.publishers && CopiesStand(w, q) && SweepIsSafe(w, q) && CondemnedIsNobodys(w, p, q);
      }
    }
    forall q, r | q in w'.publishers && r in w'.publishers ensures CondemnedIsNobodys(w', q, r) {
      if q != w'.publishers[i] && r != w'.publishers[i] {
        assert q in w.publishers && r in w.publishers && CondemnedIsNobodys(w, q, r);
      }
    }
  }

  lemma EveryStepKeeps(text: Tree, w: World, e: Event, w': World)
    requires Inv(text, w) && Careful(text, w, e) && Happens(w, e, w')
    ensures Inv(text, w')
  {
    match e
    case Tick(clock) => TickKeeps(text, w, clock, w');
    case Start(s) => StartKeeps(text, w, s, w');
    case Step(i, a) =>
      match a
      case CopyAsset(n, mtime) => CopyAssetKeeps(text, w, i, n, mtime, w');
      case CopyRoot(n) => CopyRootKeeps(text, w, i, n, w');
      case Flip(mtime) => FlipKeeps(text, w, i, mtime, w');
      case ListDead => ListDeadKeeps(text, w, i, w');
      case ReadRoots => SweepingKeeps(text, w, i, a, w');
      case Spare(_) => SweepingKeeps(text, w, i, a, w');
      case Finish => SweepingKeeps(text, w, i, a, w');
      case Condemn(f) => CondemnKeeps(text, w, i, f, w');
      case Remove(deleted) => RemoveKeeps(text, w, i, deleted, w');
      case _ => ReadingKeeps(text, w, i, a, w');
  }

  /** A directory that serves a whole bundle, and nobody publishing yet. */
  ghost predicate Init(text: Tree, w: World) {
    && UniqueBases(text.Keys) && Hashed(text, TreeOf(w.dir.assets)) && Built(text, w.live)
    && ServedWhole(w) && w.publishers == []
  }

  lemma NobodyFindsItBroken(text: Tree, w: World, e: Event, w': World)
    requires Inv(text, w) && Happens(w, e, w') && forall p :: p in w.publishers ==> !p.phase.Broken?
    ensures forall p :: p in w'.publishers ==> !p.phase.Broken?
  {
    forall p | p in w'.publishers ensures !p.phase.Broken? {
      if e.Step? && p == w'.publishers[e.who] {
        assert w.publishers[e.who] in w.publishers;
      }
    }
  }

  /**
   * There is no instant at which the served directory is not a complete bundle:
   * under every interleaving of any number of publishers, with crashes anywhere,
   * index.html is a built bundle's own and that bundle's whole closure is on disk;
   * and no publisher ever finds what it serves broken.
   */
  lemma {:induction false} AlwaysACompleteBundle(text: Tree, ws: seq<World>, es: seq<Event>)
    requires Run(ws, es) && Init(text, ws[0])
    requires forall i :: 0 <= i < |es| ==> Careful(text, ws[i], es[i])
    ensures forall i :: 0 <= i < |ws| ==> Inv(text, ws[i]) && ServedWhole(ws[i])
    ensures forall i, p :: 0 <= i < |ws| && p in ws[i].publishers ==> !p.phase.Broken?
  {
    var n := |es|;
    if n > 0 {
      AlwaysACompleteBundle(text, ws[..n], es[..n - 1]);
      var w, w' := ws[n - 1], ws[n];
      assert Inv(text, ws[..n][n - 1]);
      EveryStepKeeps(text, w, es[n - 1], w');
      NobodyFindsItBroken(text, w, es[n - 1], w');
      forall i | 0 <= i < |ws| ensures Inv(text, ws[i]) && forall p :: p in ws[i].publishers ==> !p.phase.Broken? {
        if i < n {
          assert ws[..n][i] == ws[i];
        }
      }
    }
  }

  /** A publisher can die before any of its steps, leaving the directory as it is, and then takes no other. */
  lemma ACrashCanComeAnywhere(w: World, i: nat)
    requires i < |w.publishers|
    ensures var dead := w.(publishers := w.publishers[i := w.publishers[i].(phase := Crashed)]);
            && (Happens(w, Step(i, Crash), dead) <==> !w.publishers[i].phase.Published? && !w.publishers[i].phase.Broken? && !w.publishers[i].phase.Crashed?)
            && forall a, next :: !Happens(dead, Step(i, a), next)
  {
  }

  // ----- what a sweep that ran through has done --------------------------------------------

  /** `e` is publisher `i` dealing with `f`: spared with a reason to stay, or condemned for want of one. */
  ghost predicate DealsWith(w: World, e: Event, i: nat, retained: set<Name>, f: Name) {
    && i < |w.publishers| && (e == Step(i, Spare(f)) || e == Step(i, Condemn(f)))
    && (e == Step(i, Spare(f)) <==>
          f in retained || f !in w.dir.assets || w.publishers[i].now - w.dir.assets[f].mtime < 1_800_000)
  }

  /** Still to be dealt with, or the sweep did not run through. */
  predicate IsListed(p: Publisher, retained: set<Name>, f: Name) {
    p.phase.Ended() || (p.phase.Sweeping? && p.phase.retained == retained && f in p.phase.left)
  }

  lemma ListedUntilDealtWith(w: World, e: Event, w': World, i: nat, retained: set<Name>, f: Name)
    requires Happens(w, e, w') && i < |w.publishers| && IsListed(w.publishers[i], retained, f)
    ensures i < |w'.publishers| && (DealsWith(w, e, i, retained, f) || IsListed(w'.publishers[i], retained, f))
  {
  }

  /**
   * Between the listing and the end of a sweep, whatever the other publishers do
   * meanwhile, every file that the listing found dead is examined: spared because the
   * record owns it, or it is gone, or it is younger than thirty minutes; and condemned
   * otherwise.
   */
  lemma NoDeadFileIsOverlooked(ws: seq<World>, es: seq<Event>, i: nat, listed: nat, finished: nat, f: Name) returns (at: nat)
    requires Run(ws, es) && listed < finished < |es| && es[listed] == Step(i, ListDead) && es[finished] == Step(i, Finish)
    requires i < |ws[listed].publishers| && ws[listed].publishers[i].phase.Listing?
    requires f in ws[listed].dir.assets && f !in Alive(TreeOf(ws[listed].dir.assets), ws[listed].publishers[i].phase.roots)
    ensures listed < at < finished && i < |ws[at].publishers| && (es[at] == Step(i, Spare(f)) || es[at] == Step(i, Condemn(f)))
    ensures es[at] == Step(i, Spare(f)) <==>
              || f in ws[listed].publishers[i].phase.retained || f !in ws[at].dir.assets
              || ws[at].publishers[i].now - ws[at].dir.assets[f].mtime < 1_800_000
  {
    var retained := ws[listed].publishers[i].phase.retained;
    assert Happens(ws[listed], es[listed], ws[listed + 1]);
    assert Happens(ws[finished], es[finished], ws[finished + 1]);
    assert !IsListed(ws[finished].publishers[i], retained, f);
    at := listed + 1;
    while at < finished && !DealsWith(ws[at], es[at], i, retained, f)
      invariant listed < at <= finished && i < |ws[at].publishers| && IsListed(ws[at].publishers[i], retained, f)
    {
      assert Happens(ws[at], es[at], ws[at + 1]);
      ListedUntilDealtWith(ws[at], es[at], ws[at + 1], i, retained, f);
      at := at + 1;
    }
  }

  /** The text of `f` was there at first or somebody staged it. */
  predicate TextComesFrom(first: Dir, publishers: seq<Publisher>, f: Name, cites: set<Name>) {
    || (f in first.assets && first.assets[f].cites == cites)
    || exists p :: p in publishers && f in p.staging.assets && p.staging.assets[f] == cites
  }

  predicate RootComesFrom(first: Dir, publishers: seq<Publisher>, r: Name) {
    r in first.roots || exists p :: p in publishers && r in p.staging.roots
  }

  predicate IndexComesFrom(first: Dir, publishers: seq<Publisher>, index: Option<Index>) {
    index == first.index || exists p :: p in publishers && index == Some(p.staging.index)
  }

  ghost predicate NothingFromNowhere(first: Dir, w: World) {
    && (forall f :: f in w.dir.assets ==> TextComesFrom(first, w.publishers, f, w.dir.assets[f].cites))
    && (forall r :: r in w.dir.roots ==> RootComesFrom(first, w.publishers, r))
    && IndexComesFrom(first, w.publishers, w.dir.index)
    && forall p :: p in w.publishers && p.phase.Copying? ==> p.phase.rootsLeft <= p.staging.roots
  }

  /** Publishers come and go through their phases; what they staged stays what it was. */
  lemma SourcesStay(first: Dir, w: World, e: Event, w': World)
    requires Happens(w, e, w')
    ensures forall f, cites :: TextComesFrom(first, w.publishers, f, cites) ==> TextComesFrom(first, w'.publishers, f, cites)
    ensures forall r :: RootComesFrom(first, w.publishers, r) ==> RootComesFrom(first, w'.publishers, r)
    ensures forall index :: IndexComesFrom(first, w.publishers, index) ==> IndexComesFrom(first, w'.publishers, index)
  {
    forall p | p in w.publishers ensures exists q :: q in w'.publishers && q.staging == p.staging {
      var j :| 0 <= j < |w.publishers| && w.publishers[j] == p;
      assert w'.publishers[j] in w'.publishers && w'.publishers[j].staging == p.staging;
    }
  }

  lemma StepFromSomewhere(first: Dir, w: World, e: Event, w': World)
    requires NothingFromNowhere(first, w) && Happens(w, e, w')
    ensures NothingFromNowhere(first, w')
  {
    SourcesStay(first, w, e, w');
    if e.Step? {
      var p, q := w.publishers[e.who], w'.publishers[e.who];
      assert p in w.publishers && q in w'.publishers && q.staging == p.staging;
      forall r | r in w'.publishers && r.phase.Copying? ensures r.phase.rootsLeft <= r.staging.roots {
        assert r == q || r in w.publishers;
      }
    }
  }

  /**
   * At every instant of every run, every file's text, every file beside index.html and
   * index.html itself were there at first or were staged by somebody under that name.
   */
  lemma {:induction false} EverythingWasStaged(ws: seq<World>, es: seq<Event>, n: nat)
    requires Run(ws, es) && ws[0].publishers == [] && n <= |es|
    ensures NothingFromNowhere(ws[0].dir, ws[n])
    ensures forall f :: f in ws[n].dir.assets ==>
              || (f in ws[0].dir.assets && ws[0].dir.assets[f].cites == ws[n].dir.assets[f].cites)
              || exists p :: p in ws[n].publishers && f in p.staging.assets && p.staging.assets[f] == ws[n].dir.assets[f].cites
    ensures forall r :: r in ws[n].dir.roots ==> r in ws[0].dir.roots || exists p :: p in ws[n].publishers && r in p.staging.roots
    ensures ws[n].dir.index == ws[0].dir.index || exists p :: p in ws[n].publishers && ws[n].dir.index == Some(p.staging.index)
  {
    if n > 0 {
      EverythingWasStaged(ws, es, n - 1);
      assert Happens(ws[n - 1], es[n - 1], ws[n - 1 + 1]);
      StepFromSomewhere(ws[0].dir, ws[n - 1], es[n - 1], ws[n]);
    }
  }

  /** A condemned file is deleted by its publisher's next step or resists; nobody deletes what no sweep condemned. */
  lemma OnlyTheCondemnedGo(w: World, e: Event, w': World, f: Name)
    requires Happens(w, e, w') && f in w.dir.assets && f !in w'.dir.assets
    ensures e.Step? && e.action == Remove(true) && e.who < |w.publishers|
            && w.publishers[e.who].phase.Sweeping? && w.publishers[e.who].phase.condemned == Some(f)
    ensures w'.dir.assets == w.dir.assets - {f}
  {
  }

  // ----- how the promise is broken --------------------------------------------------

  /** `p` has copied `f` already, so it never will again. */
  predicate HasCopied(p: Publisher, f: Name) {
    !p.phase.Entered? && (p.phase.Copying? ==> f !in p.phase.assetsLeft)
  }

  lemma StillCopied(w: World, e: Event, w': World, copier: nat, f: Name)
    requires Happens(w, e, w') && copier < |w.publishers| && HasCopied(w.publishers[copier], f)
    ensures copier < |w'.publishers| && HasCopied(w'.publishers[copier], f)
    ensures w'.publishers[copier].staging == w.publishers[copier].staging
  {
  }

  lemma {:induction false} CopiedForGood(ws: seq<World>, es: seq<Event>, copier: nat, f: Name, from: nat, end: nat)
    requires Run(ws, es) && from <= end <= |es|
    requires copier < |ws[from].publishers| && HasCopied(ws[from].publishers[copier], f)
    ensures copier < |ws[end].publishers| && HasCopied(ws[end].publishers[copier], f)
    ensures ws[end].publishers[copier].staging == ws[from].publishers[copier].staging
    decreases end
  {
    if from < end {
      CopiedForGood(ws, es, copier, f, from, end - 1);
      assert Happens(ws[end - 1], es[end - 1], ws[end - 1 + 1]);
      StillCopied(ws[end - 1], es[end - 1], ws[end], copier, f);
    }
  }

  predicate Copies(e: Event, f: Name) {
    e.Step? && e.action.CopyAsset? && e.action.name == f
  }

  /** A deleted file stays gone until somebody copies it again. */
  lemma {:induction false} GoneUntilCopied(ws: seq<World>, es: seq<Event>, copier: nat, f: Name, from: nat, end: nat)
    requires Run(ws, es) && from <= end <= |es| && f !in ws[from].dir.assets
    requires copier < |ws[from].publishers| && HasCopied(ws[from].publishers[copier], f)
    requires forall i :: from <= i < end && Copies(es[i], f) ==> es[i].who == copier
    ensures f !in ws[end].dir.assets
    decreases end
  {
    if from < end {
      GoneUntilCopied(ws, es, copier, f, from, end - 1);
      CopiedForGood(ws, es, copier, f, from, end - 1);
      assert Happens(ws[end - 1], es[end - 1], ws[end - 1 + 1]);
    }
  }

  /** `e` is a delete of `f` by a publisher that had condemned it. */
  predicate Deletes(w: World, e: Event, f: Name) {
    && e.Step? && e.action == Remove(true) && e.who < |w.publishers|
    && w.publishers[e.who].phase.Sweeping? && w.publishers[e.who].phase.condemned == Some(f)
  }

  /** And a copied file is missing only because somebody deleted it since. */
  lemma {:induction false} MissingMeansDeleted(ws: seq<World>, es: seq<Event>, f: Name, from: nat, end: nat) returns (deleted: nat)
    requires Run(ws, es) && from <= end <= |es| && f in ws[from].dir.assets && f !in ws[end].dir.assets
    ensures from <= deleted < end && Deletes(ws[deleted], es[deleted], f)
    ensures forall i :: deleted < i < end ==> !Copies(es[i], f)
    decreases end
  {
    assert Happens(ws[end - 1], es[end - 1], ws[end - 1 + 1]);
    if f in ws[end - 1].dir.assets {
      deleted := end - 1;
    } else {
      deleted := MissingMeansDeleted(ws, es, f, from, end - 1);
    }
  }

  /**
   * A file deleted between its copy and its copier's flip breaks the bundle, however
   * far apart the three are and whatever happens meanwhile, unless another publisher
   * copies it again. The age test and the delete are two calls, so a copy landing
   * between them is one way there; a publish longer than the sweep age is another.
   */
  lemma ADeleteBetweenCopyAndFlipBreaksTheBundle(ws: seq<World>, es: seq<Event>, f: Name, copied: nat, deleted: nat, flipped: nat)
    requires Run(ws, es) && copied < deleted < flipped < |es|
    requires Copies(es[copied], f) && Deletes(ws[deleted], es[deleted], f)
    requires es[flipped].Step? && es[flipped].action.Flip? && es[flipped].who == es[copied].who
    requires es[copied].who < |ws[copied].publishers| && f in Need(ws[copied].publishers[es[copied].who].staging)
    requires forall i :: deleted < i < flipped && Copies(es[i], f) ==> es[i].who == es[copied].who
    ensures !ServedWhole(ws[flipped + 1])
  {
    var copier := es[copied].who;
    assert Happens(ws[copied], es[copied], ws[copied + 1]);
    assert Happens(ws[deleted], es[deleted], ws[deleted + 1]);
    assert Happens(ws[flipped], es[flipped], ws[flipped + 1]);
    CopiedForGood(ws, es, copier, f, copied + 1, deleted + 1);
    CopiedForGood(ws, es, copier, f, copied + 1, flipped);
    GoneUntilCopied(ws, es, copier, f, deleted + 1, flipped);
  }

  // ----- when it is kept, exactly -----------------------------------------------------

  /** Some sweep deleted `f` before instant `n`, and nobody has copied it since. */
  ghost predicate LostAt(ws: seq<World>, es: seq<Event>, f: Name, n: nat)
    requires n <= |es| && |ws| == |es| + 1
  {
    exists d: nat :: d < n && Deletes(ws[d], es[d], f) && NotCopied(es, f, d + 1, n)
  }

  predicate NotCopied(es: seq<Event>, f: Name, from: nat, end: nat)
    requires end <= |es|
  {
    forall i :: from <= i < end ==> !Copies(es[i], f)
  }

  lemma {:induction false} GoneStaysGone(ws: seq<World>, es: seq<Event>, f: Name, from: nat, end: nat)
    requires Run(ws, es) && from <= end <= |es| && f !in ws[from].dir.assets && NotCopied(es, f, from, end)
    ensures f !in ws[end].dir.assets
    decreases end
  {
    if from < end {
      GoneStaysGone(ws, es, f, from, end - 1);
      assert Happens(ws[end - 1], es[end - 1], ws[end - 1 + 1]);
    }
  }

  /** A file that was once there is there now exactly when it is not lost. */
  lemma OnDiskExactlyWhenNotLost(ws: seq<World>, es: seq<Event>, f: Name, once: nat, n: nat)
    requires Run(ws, es) && once <= n <= |es| && f in ws[once].dir.assets
    ensures f in ws[n].dir.assets <==> !LostAt(ws, es, f, n)
  {
    if f !in ws[n].dir.assets {
      var d := MissingMeansDeleted(ws, es, f, once, n);
      assert NotCopied(es, f, d + 1, n);
    } else if d: nat :| d < n && Deletes(ws[d], es[d], f) && NotCopied(es, f, d + 1, n) {
      assert Happens(ws[d], es[d], ws[d + 1]);
      GoneStaysGone(ws, es, f, d + 1, n);
      assert false;
    }
  }

  ghost predicate OnceOnDisk(ws: seq<World>, f: Name, n: nat)
    requires n < |ws|
  {
    exists m: nat :: m <= n && f in ws[m].dir.assets
  }

  /** What a publisher that may still flip has copied was on disk, and its root files are. */
  ghost predicate HasBeenCopied(ws: seq<World>, n: nat, p: Publisher)
    requires n < |ws|
  {
    p.phase.Copying? ==>
      && p.staging.roots - p.phase.rootsLeft <= ws[n].dir.roots
      && forall f :: f in p.staging.assets.Keys - p.phase.assetsLeft ==> OnceOnDisk(ws, f, n)
  }

  ghost predicate Provisioned(text: Tree, ws: seq<World>, n: nat)
    requires n < |ws|
  {
    && ws[n].dir.index == Some(ws[n].live.index) && Built(text, ws[n].live)
    && ws[n].live.index.rootRefs <= ws[n].dir.roots
    && (forall f :: f in Need(ws[n].live) ==> OnceOnDisk(ws, f, n))
    && forall p :: p in ws[n].publishers ==> Built(text, p.staging) && HasBeenCopied(ws, n, p)
  }

  lemma StillOnceOnDisk(ws: seq<World>, n: nat)
    requires n + 1 < |ws|
    ensures forall f :: OnceOnDisk(ws, f, n) ==> OnceOnDisk(ws, f, n + 1)
    ensures var onDisk := ws[n + 1].dir.assets; forall f :: f in onDisk ==> OnceOnDisk(ws, f, n + 1)
  {
    forall f | OnceOnDisk(ws, f, n) ensures OnceOnDisk(ws, f, n + 1) {
      var m: nat :| m <= n && f in ws[m].dir.assets;
    }
  }

  lemma StillHasBeenCopied(ws: seq<World>, n: nat, p: Publisher)
    requires n + 1 < |ws| && HasBeenCopied(ws, n, p) && ws[n].dir.roots <= ws[n + 1].dir.roots
    ensures HasBeenCopied(ws, n + 1, p)
  {
    StillOnceOnDisk(ws, n);
  }

  /** A step that does not flip adds to what its own publisher has copied at most what it put on disk. */
  lemma OneMoreHasBeenCopied(ws: seq<World>, n: nat, i: nat, a: Action)
    requires n + 1 < |ws| && Happens(ws[n], Step(i, a), ws[n + 1]) && HasBeenCopied(ws, n, ws[n].publishers[i])
    ensures HasBeenCopied(ws, n + 1, ws[n + 1].publishers[i])
  {
    var p, q := ws[n].publishers[i], ws[n + 1].publishers[i];
    StillOnceOnDisk(ws, n);
    if q.phase.Copying? && p.phase.Copying? {
      forall f | f in q.staging.assets.Keys - q.phase.assetsLeft ensures OnceOnDisk(ws, f, n + 1) {
        if f in p.phase.assetsLeft {
          assert a.CopyAsset? && a.name == f && f in ws[n + 1].dir.assets;
        } else {
          assert OnceOnDisk(ws, f, n);
        }
      }
    }
  }

  /** A step of publisher `i` that does not flip: only `i` has more to show. */
  lemma StepProvisions(text: Tree, ws: seq<World>, n: nat, i: nat, a: Action)
    requires n + 1 < |ws| && Provisioned(text, ws, n) && Happens(ws[n], Step(i, a), ws[n + 1]) && !a.Flip?
    ensures Provisioned(text, ws, n + 1)
  {
    StillOnceOnDisk(ws, n);
    assert ws[n].publishers[i] in ws[n].publishers;
    OneMoreHasBeenCopied(ws, n, i, a);
    forall p | p in ws[n + 1].publishers ensures Built(text, p.staging) && HasBeenCopied(ws, n + 1, p) {
      if p != ws[n + 1].publishers[i] {
        assert p in ws[n].publishers;
        StillHasBeenCopied(ws, n, p);
      }
    }
  }

  lemma FlipProvisions(text: Tree, ws: seq<World>, n: nat, i: nat, at: int)
    requires n + 1 < |ws| && Provisioned(text, ws, n) && Happens(ws[n], Step(i, Flip(at)), ws[n + 1])
    ensures Provisioned(text, ws, n + 1)
  {
    StillOnceOnDisk(ws, n);
    var p := ws[n].publishers[i];
    assert p in ws[n].publishers && HasBeenCopied(ws, n, p);
    RefsAreNeeded(text, p.staging);
    forall f | f in Need(p.staging) ensures OnceOnDisk(ws, f, n + 1) {
      assert f in p.staging.assets.Keys - p.phase.assetsLeft;
      assert OnceOnDisk(ws, f, n);
    }
    forall q | q in ws[n + 1].publishers ensures Built(text, q.staging) && HasBeenCopied(ws, n + 1, q) {
      if q != ws[n + 1].publishers[i] {
        assert q in ws[n].publishers;
        StillHasBeenCopied(ws, n, q);
      }
    }
  }

  lemma {:induction false} EveryInstantIsProvisioned(text: Tree, ws: seq<World>, es: seq<Event>, n: nat)
    requires Run(ws, es) && Init(text, ws[0]) && n <= |es|
    requires forall i :: 0 <= i < |es| && es[i].Start? ==> Built(text, es[i].staging)
    ensures Provisioned(text, ws, n)
  {
    if n == 0 {
      assert forall f :: f in ws[0].dir.assets ==> OnceOnDisk(ws, f, 0);
    } else {
      EveryInstantIsProvisioned(text, ws, es, n - 1);
      assert Happens(ws[n - 1], es[n - 1], ws[n - 1 + 1]);
      match es[n - 1] {
        case Step(i, Flip(at)) => FlipProvisions(text, ws, n - 1, i, at);
        case Step(i, a) => StepProvisions(text, ws, n - 1, i, a);
        case _ => OthersProvision(text, ws, n - 1, es[n - 1]);
      }
    }
  }

  lemma OthersProvision(text: Tree, ws: seq<World>, n: nat, e: Event)
    requires n + 1 < |ws| && Provisioned(text, ws, n) && Happens(ws[n], e, ws[n + 1]) && !e.Step?
    requires e.Start? ==> Built(text, e.staging)
    ensures Provisioned(text, ws, n + 1)
  {
    StillOnceOnDisk(ws, n);
    forall p | p in ws[n + 1].publishers ensures Built(text, p.staging) && HasBeenCopied(ws, n + 1, p) {
      if p in ws[n].publishers {
        StillHasBeenCopied(ws, n, p);
      }
    }
  }

  /**
   * At every instant of every run of built bundles, with no care asked of anybody, the
   * served directory is a complete bundle if and only if no file of the bundle on
   * display is lost: deleted by a sweep, before or after the flip, and not copied
   * since.
   */
  lemma ServedWholeExactlyWhenNothingIsLost(text: Tree, ws: seq<World>, es: seq<Event>, n: nat)
    requires Run(ws, es) && Init(text, ws[0]) && n <= |es|
    requires forall i :: 0 <= i < |es| && es[i].Start? ==> Built(text, es[i].staging)
    ensures ServedWhole(ws[n]) <==> forall f :: f in Need(ws[n].live) ==> !LostAt(ws, es, f, n)
  {
    EveryInstantIsProvisioned(text, ws, es, n);
    RefsAreNeeded(text, ws[n].live);
    forall f | f in Need(ws[n].live) ensures f in ws[n].dir.assets <==> !LostAt(ws, es, f, n) {
      var once: nat :| once <= n && f in ws[once].dir.assets;
      OnDiskExactlyWhenNotLost(ws, es, f, once, n);
    }
  }
}
