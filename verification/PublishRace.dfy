/**
 * A run that starts from a whole bundle, keeps every care but one and ends in a
 * broken directory: the age test and the delete of the sweep
 * (scripts/build-client-publish.ts) are two calls, and a copy can land between them.
 */
module PublishRace {
  import opened Options
  import opened ClientBundle
  import opened Generations
  import opened PublishProtocol

  const T: int := SWEEP_MIN_AGE_MS

  /** The bundle of one script that cites nothing. */
  function OneScript(script: Name): Staging {
    Staging(Index({script}, {}, true), {}, map[script := {}])
  }

  function Scripts(): Tree {
    map["a" := {}, "b" := {}]
  }

  /** `a` is served; `b` is a leftover older than the sweep age. */
  function Start0(): Dir {
    Dir(Some(OneScript("a").index), 0, {}, map["a" := File({}, 0), "b" := File({}, 0)], [])
  }

  /** The first publisher republishes `a`, the second publishes `b`, which is on disk already. */
  function Two(d: Dir, live: Name, first: Phase, second: Phase): World {
    World(d, OneScript(live), T, [Publisher(OneScript("a"), T, first), Publisher(OneScript("b"), T, second)])
  }

  ghost function Gens(): Record {
    WithServed([], Served(Start0()))
  }

  ghost function Kept(): Record {
    RecordAfter(Gens(), Publish(T, {"a"}, {"a"}))
  }

  lemma OnlyScript(script: Name)
    ensures OneScript(script).assets.Keys == {script} && {script} - {script} == {}
  {
  }

  function WithA(): Dir {
    Start0().(assets := map["a" := File({}, T), "b" := File({}, 0)], indexMtime := T)
  }

  lemma NothingRetainsB()
    ensures "b" !in AssetsOf(Kept())
  {
    FlatTree(TreeOf(Start0().assets), {"a"});
    assert Served(Start0()) == Some(Generation(0, None, {"a"}, {"a"}));
    assert Gens() == [Generation(0, None, {"a"}, {"a"})];
    var p := Publish(T, {"a"}, {"a"});
    assert Replace(Gens()[1..], {"a"}, T) == [];
    assert WithPublish(Gens(), p) == [NewGeneration(p)];
    KeptMembers(WithPublish(Gens(), p), T);
  }

  lemma IsStart(w: World)
    requires w == World(Start0(), OneScript("a"), T, [])
    ensures Init(Scripts(), w)
  {
    DifferentBases();
    BuiltScript("a");
    StartIsWhole(w);
  }

  lemma DifferentBases()
    ensures UniqueBases(Scripts().Keys)
  {
    assert Scripts().Keys == {"a", "b"};
    assert Base("") == "";
    assert Base("a") == "a" && Base("b") == "b";
  }

  lemma StartIsWhole(w: World)
    requires w == World(Start0(), OneScript("a"), T, [])
    ensures ServedWhole(w) && Hashed(Scripts(), TreeOf(w.dir.assets))
  {
    OnlyScript("a");
    FlatTree(OneScript("a").assets, {"a"});
    assert Need(w.live) == {"a"};
  }

  lemma BuiltScript(script: Name)
    requires script == "a" || script == "b"
    ensures Built(Scripts(), OneScript(script))
  {
    assert |script| < 7;
  }

  /** The first publisher's own steps, up to the test that condemns `b`. */
  lemma FirstPublishes()
    ensures var second := Copying(Gens(), {"b"}, {});
            && Happens(Two(Start0(), "a", Entered([]), second), Step(0, ReadServed), Two(Start0(), "a", Copying(Gens(), {"a"}, {}), second))
            && Happens(Two(Start0(), "a", Copying(Gens(), {"a"}, {}), second), Step(0, CopyAsset("a", T)),
                       Two(WithA().(indexMtime := 0), "a", Copying(Gens(), {}, {}), second))
            && Happens(Two(WithA().(indexMtime := 0), "a", Copying(Gens(), {}, {}), second), Step(0, Flip(T)),
                       Two(WithA(), "a", Flipped(Gens()), second))
            && Happens(Two(WithA(), "a", Flipped(Gens()), second), Step(0, Verify), Two(WithA(), "a", Verified(Gens()), second))
  {
    OnlyScript("a");
    assert Start0().assets["a" := File({}, T)] == WithA().assets;
  }

  ghost function Recorded2(): Dir {
    WithA().(record := Kept())
  }

  lemma FirstRecords()
    ensures var second := Copying(Gens(), {"b"}, {});
            && Happens(Two(WithA(), "a", Verified(Gens()), second), Step(0, Compose), Two(WithA(), "a", Composed(Kept()), second))
            && Happens(Two(WithA(), "a", Composed(Kept()), second), Step(0, WriteRecord), Two(Recorded2(), "a", Recorded(AssetsOf(Kept())), second))
            && Happens(Two(Recorded2(), "a", Recorded(AssetsOf(Kept())), second), Step(0, ReadRoots),
                       Two(Recorded2(), "a", Listing(AssetsOf(Kept()), {"a"}), second))
  {
    OnlyScript("a");
  }

  lemma OnlyBIsDead()
    ensures Recorded2().assets.Keys - Alive(TreeOf(Recorded2().assets), {"a"}) == {"b"}
  {
    var t := TreeOf(WithA().assets);
    FlatTree(t, {"a"});
    assert t.Keys == {"a", "b"};
  }

  lemma FirstListsB()
    ensures var second := Copying(Gens(), {"b"}, {});
            Happens(Two(Recorded2(), "a", Listing(AssetsOf(Kept()), {"a"}), second), Step(0, ListDead),
                    Two(Recorded2(), "a", Sweeping(AssetsOf(Kept()), {"b"}, None, 0), second))
  {
    OnlyBIsDead();
  }

  lemma FirstCondemnsB()
    ensures var second := Copying(Gens(), {"b"}, {});
            Happens(Two(Recorded2(), "a", Sweeping(AssetsOf(Kept()), {"b"}, None, 0), second), Step(0, Condemn("b")),
                    Two(Recorded2(), "a", Sweeping(AssetsOf(Kept()), {}, Some("b"), 0), second))
  {
    NothingRetainsB();
    OnlyScript("b");
  }

  ghost function Copied2(): Dir {
    Recorded2().(assets := map["a" := File({}, T), "b" := File({}, T)])
  }

  ghost function Lost(): Dir {
    Recorded2().(assets := map["a" := File({}, T)])
  }

  lemma SecondLosesItsScript()
    ensures var condemned := Sweeping(AssetsOf(Kept()), {}, Some("b"), 0);
            var swept := Sweeping(AssetsOf(Kept()), {}, None, 1);
            && Happens(Two(Recorded2(), "a", condemned, Copying(Gens(), {"b"}, {})), Step(1, CopyAsset("b", T)),
                       Two(Copied2(), "a", condemned, Copying(Gens(), {}, {})))
            && Happens(Two(Copied2(), "a", condemned, Copying(Gens(), {}, {})), Step(0, Remove(true)),
                       Two(Lost(), "a", swept, Copying(Gens(), {}, {})))
            && Happens(Two(Lost(), "a", swept, Copying(Gens(), {}, {})), Step(1, Flip(T)),
                       Two(Lost().(index := Some(OneScript("b").index)), "b", swept, Flipped(Gens())))
  {
    SecondCopies();
    assert Copied2().assets - {"b"} == Lost().assets;
  }

  lemma SecondCopies()
    ensures var condemned := Sweeping(AssetsOf(Kept()), {}, Some("b"), 0);
            Happens(Two(Recorded2(), "a", condemned, Copying(Gens(), {"b"}, {})), Step(1, CopyAsset("b", T)),
                    Two(Copied2(), "a", condemned, Copying(Gens(), {}, {})))
  {
    assert {"b"} - {"b"} == {};
    assert Recorded2().assets["b" := File({}, T)] == Copied2().assets;
  }

  lemma BothStart()
    ensures var alone := World(Start0(), OneScript("a"), T, []);
            var one := World(Start0(), OneScript("a"), T, [Publisher(OneScript("a"), T, Entered([]))]);
            && Happens(alone, Start(OneScript("a")), one)
            && Happens(one, Start(OneScript("b")), Two(Start0(), "a", Entered([]), Entered([])))
            && Happens(Two(Start0(), "a", Entered([]), Entered([])), Step(1, ReadServed), Two(Start0(), "a", Entered([]), Copying(Gens(), {"b"}, {})))
  {
    OnlyScript("b");
  }

  ghost function WorldAt(i: nat): World {
    var second := Copying(Gens(), {"b"}, {});
    var retained := AssetsOf(Kept());
    match i
    case 0 => World(Start0(), OneScript("a"), T, [])
    case 1 => World(Start0(), OneScript("a"), T, [Publisher(OneScript("a"), T, Entered([]))])
    case 2 => Two(Start0(), "a", Entered([]), Entered([]))
    case 3 => Two(Start0(), "a", Entered([]), second)
    case 4 => Two(Start0(), "a", Copying(Gens(), {"a"}, {}), second)
    case 5 => Two(WithA().(indexMtime := 0), "a", Copying(Gens(), {}, {}), second)
    case 6 => Two(WithA(), "a", Flipped(Gens()), second)
    case 7 => Two(WithA(), "a", Verified(Gens()), second)
    case 8 => Two(WithA(), "a", Composed(Kept()), second)
    case 9 => Two(Recorded2(), "a", Recorded(retained), second)
    case 10 => Two(Recorded2(), "a", Listing(retained, {"a"}), second)
    case 11 => Two(Recorded2(), "a", Sweeping(retained, {"b"}, None, 0), second)
    case 12 => Two(Recorded2(), "a", Sweeping(retained, {}, Some("b"), 0), second)
    case 13 => Two(Copied2(), "a", Sweeping(retained, {}, Some("b"), 0), Copying(Gens(), {}, {}))
    case 14 => Two(Lost(), "a", Sweeping(retained, {}, None, 1), Copying(Gens(), {}, {}))
    case _ => Two(Lost().(index := Some(OneScript("b").index)), "b", Sweeping(retained, {}, None, 1), Flipped(Gens()))
  }

  function EventAt(i: nat): Event {
    match i
    case 0 => Start(OneScript("a"))
    case 1 => Start(OneScript("b"))
    case 2 => Step(1, ReadServed)
    case 3 => Step(0, ReadServed)
    case 4 => Step(0, CopyAsset("a", T))
    case 5 => Step(0, Flip(T))
    case 6 => Step(0, Verify)
    case 7 => Step(0, Compose)
    case 8 => Step(0, WriteRecord)
    case 9 => Step(0, ReadRoots)
    case 10 => Step(0, ListDead)
    case 11 => Step(0, Condemn("b"))
    case 12 => Step(1, CopyAsset("b", T))
    case 13 => Step(0, Remove(true))
    case _ => Step(1, Flip(T))
  }

  lemma HappensFirst(i: nat)
    requires i < 3
    ensures Happens(WorldAt(i), EventAt(i), WorldAt(i + 1))
  {
    BothStart();
  }

  lemma HappensEarly(i: nat)
    requires 3 <= i < 7
    ensures Happens(WorldAt(i), EventAt(i), WorldAt(i + 1))
  {
    FirstPublishes();
  }

  lemma HappensLate(i: nat)
    requires 7 <= i < 15
    ensures Happens(WorldAt(i), EventAt(i), WorldAt(i + 1))
  {
    if i < 10 {
      FirstRecords();
    } else if i < 11 {
      FirstListsB();
    } else if i < 12 {
      FirstCondemnsB();
    } else {
      SecondLosesItsScript();
    }
  }

  lemma HappensAt(i: nat)
    requires i < 15
    ensures Happens(WorldAt(i), EventAt(i), WorldAt(i + 1))
  {
    if i < 3 {
      HappensFirst(i);
    } else if i < 7 {
      HappensEarly(i);
    } else {
      HappensLate(i);
    }
  }

  lemma CarefulAt(i: nat)
    requires i < 15 && i != 12
    ensures Careful(Scripts(), WorldAt(i), EventAt(i))
  {
    if i < 2 {
      BuiltScript("a");
      BuiltScript("b");
    } else {
      var w := WorldAt(i);
      BothAreTimely(i);
      assert Timely(w, w.publishers[0]) && Timely(w, w.publishers[1]);
    }
  }

  lemma BothAreTimely(i: nat)
    requires 2 <= i <= 15
    ensures var w := WorldAt(i);
            |w.publishers| == 2 && w.clock == T && w.publishers[0].now == T && w.publishers[1].now == T
  {
  }

  /**
   * Every event of the run is careful except the copy of `b` onto the file that the
   * first publisher has just condemned; at the end index.html names `b` and `b` is
   * gone.
   */
  lemma AReachableRaceBreaksTheBundle() returns (ws: seq<World>, es: seq<Event>)
    ensures |es| == 15 && Run(ws, es) && Init(Scripts(), ws[0])
    ensures forall i :: 0 <= i < |es| && i != 12 ==> Careful(Scripts(), ws[i], es[i])
    ensures es[12] == Step(1, CopyAsset("b", T))
    ensures !ServedWhole(ws[15])
  {
    ws := seq(16, i requires 0 <= i => WorldAt(i));
    es := seq(15, i requires 0 <= i => EventAt(i));
    forall i | 0 <= i < 15 ensures Happens(ws[i], es[i], ws[i + 1]) {
      HappensAt(i);
    }
    forall i | 0 <= i < 15 && i != 12 ensures Careful(Scripts(), ws[i], es[i]) {
      CarefulAt(i);
    }
    IsStart(ws[0]);
    assert "b" !in ws[15].dir.assets && "b" in ws[15].dir.index.value.refs;
  }

  // ----- the delete after the flip ------------------------------------------------------

  /** The same run with the last two events exchanged: the flip, then the delete. */
  ghost function LateWorldAt(i: nat): World {
    var condemned, swept := Sweeping(AssetsOf(Kept()), {}, Some("b"), 0), Sweeping(AssetsOf(Kept()), {}, None, 1);
    if i < 14 then WorldAt(i)
    else if i == 14 then Two(Copied2().(index := Some(OneScript("b").index)), "b", condemned, Flipped(Gens()))
    else Two(Lost().(index := Some(OneScript("b").index)), "b", swept, Flipped(Gens()))
  }

  function LateEventAt(i: nat): Event {
    if i < 13 then EventAt(i) else if i == 13 then Step(1, Flip(T)) else Step(0, Remove(true))
  }

  lemma FlipThenDelete()
    ensures Happens(LateWorldAt(13), LateEventAt(13), LateWorldAt(14))
    ensures Happens(LateWorldAt(14), LateEventAt(14), LateWorldAt(15))
  {
    SecondFlips();
    FirstDeletes();
  }

  lemma SecondFlips()
    ensures var condemned := Sweeping(AssetsOf(Kept()), {}, Some("b"), 0);
            Happens(Two(Copied2(), "a", condemned, Copying(Gens(), {}, {})), Step(1, Flip(T)),
                    Two(Copied2().(index := Some(OneScript("b").index)), "b", condemned, Flipped(Gens())))
  {
  }

  lemma FirstDeletes()
    ensures var flipped, retained := Some(OneScript("b").index), AssetsOf(Kept());
            Happens(Two(Copied2().(index := flipped), "b", Sweeping(retained, {}, Some("b"), 0), Flipped(Gens())), Step(0, Remove(true)),
                    Two(Lost().(index := flipped), "b", Sweeping(retained, {}, None, 1), Flipped(Gens())))
  {
    assert Copied2().assets - {"b"} == Lost().assets;
  }

  lemma HappensLateAt(i: nat)
    requires i < 15
    ensures Happens(LateWorldAt(i), LateEventAt(i), LateWorldAt(i + 1))
  {
    if i < 13 {
      HappensAt(i);
    } else {
      FlipThenDelete();
    }
  }

  lemma ServedUntilTheDelete()
    ensures ServedWhole(LateWorldAt(14)) && !ServedWhole(LateWorldAt(15))
  {
    OnlyScript("b");
    FlatTree(OneScript("b").assets, {"b"});
    assert Need(OneScript("b")) == {"b"};
    assert "b" !in Lost().assets;
  }

  /**
   * Nothing the bundle needs is deleted before its flip, which leaves a whole bundle;
   * the delete of the file condemned before the copy comes after it and breaks the
   * bundle on display.
   */
  lemma ALateDeleteBreaksTheServedBundle() returns (ws: seq<World>, es: seq<Event>)
    ensures |es| == 15 && Run(ws, es) && Init(Scripts(), ws[0])
    ensures es[12] == Step(1, CopyAsset("b", T)) && es[13] == Step(1, Flip(T)) && es[14] == Step(0, Remove(true))
    ensures ServedWhole(ws[14]) && !ServedWhole(ws[15])
  {
    ws := seq(16, i requires 0 <= i => LateWorldAt(i));
    es := seq(15, i requires 0 <= i => LateEventAt(i));
    forall i | 0 <= i < 15 ensures Happens(ws[i], es[i], ws[i + 1]) {
      HappensLateAt(i);
    }
    IsStart(ws[0]);
    ServedUntilTheDelete();
  }
}
