/**
 * From a bundle back to rounds (scripts/board-arms.ts): `emitPairFiles` cuts the
 * replicates into consecutive groups as long as the head triple.
 */
module PairFiles {
  import opened Options
  import opened ArmValidator
  import opened ArmCollector

  /** Consecutive groups of `size`, the last one possibly shorter. */
  function GroupsOf(runs: seq<Measurement>, size: nat): seq<seq<Measurement>>
    requires size > 0
  {
    if runs == [] then []
    else if |runs| <= size then [runs]
    else [runs[..size]] + GroupsOf(runs[size..], size)
  }

  /**
   * The grouping loop. It advances by the length of the head triple, so it needs one
   * as soon as there are replicates: see `GroupingEndsExactlyWhen`.
   */
  method Triples(arms: seq<Measurement>, replicates: seq<Measurement>) returns (triples: seq<seq<Measurement>>)
    requires arms != [] || replicates == []
    ensures triples == [arms] + if arms == [] then [] else GroupsOf(replicates, |arms|)
  {
    triples := [arms];
    var i := 0;
    while i < |replicates|
      invariant 0 <= i
      invariant arms == [] ==> triples == [arms]
      invariant arms != [] ==> triples + GroupsOf(replicates[Least(i, |replicates|)..], |arms|) == [arms] + GroupsOf(replicates, |arms|)
      decreases |replicates| - i
    {
      var end := Least(i + |arms|, |replicates|);
      ghost var rest := replicates[i..];
      ghost var before := triples;
      var group := replicates[i..end];
      if arms != [] {
        assert group == rest[..end - i] && replicates[end..] == rest[end - i..];
        FirstGroup(rest, |arms|);
        assert GroupsOf(rest, |arms|) == [group] + GroupsOf(replicates[end..], |arms|);
        assert before + ([group] + GroupsOf(replicates[end..], |arms|)) == before + [group] + GroupsOf(replicates[end..], |arms|);
      }
      triples := triples + [group];
      i := i + |arms|;
    }
  }

  lemma FirstGroup(runs: seq<Measurement>, size: nat)
    requires runs != [] && size > 0
    ensures var n := Least(size, |runs|);
            GroupsOf(runs, size) == [runs[..n]] + GroupsOf(runs[n..], size)
  {
    if |runs| <= size {
      assert runs[..|runs|] == runs && runs[|runs|..] == [];
    }
  }

  function Least(a: int, b: int): int {
    if a <= b then a else b
  }

  /** After `k` turns the index stands at `k` head triples: the loop ends exactly when there is one, or nothing to cut. */
  lemma GroupingEndsExactlyWhen<T>(arms: seq<T>, replicates: seq<T>)
    ensures (exists k: nat :: IndexAfter(arms, k) >= |replicates|) <==> arms != [] || replicates == []
  {
    if arms != [] {
      IndexGrows(arms, |replicates|);
    } else {
      forall k: nat ensures IndexAfter(arms, k) == 0 {
        IndexStandsStill(arms, k);
      }
      if replicates == [] {
        assert IndexAfter(arms, 0) >= |replicates|;
      }
    }
  }

  function IndexAfter<T>(arms: seq<T>, k: nat): nat {
    if k == 0 then 0 else IndexAfter(arms, k - 1) + |arms|
  }

  lemma {:induction false} IndexGrows<T>(arms: seq<T>, k: nat)
    requires arms != []
    ensures IndexAfter(arms, k) >= k
  {
    if k > 0 {
      IndexGrows(arms, k - 1);
    }
  }

  lemma {:induction false} IndexStandsStill<T>(arms: seq<T>, k: nat)
    requires arms == []
    ensures IndexAfter(arms, k) == 0
  {
    if k > 0 {
      IndexStandsStill(arms, k - 1);
    }
  }

  /** Any JSON bundle without problems, collected or not, is cut in the end: the loop ends on whatever it holds. */
  lemma AcceptedBundlesAreCutInTheEnd(b: Bundle)
    requires forall p :: !Reported(b, p)
    ensures b.Bundle? && b.arms.Some?
    ensures exists k: nat :: IndexAfter(b.arms.value, k) >= |OrEmpty(b.replicates)|
  {
    assert !Reported(b, BundleIsNotAnObject) && !Reported(b, NoArms);
    GroupingEndsExactlyWhen(b.arms.value, OrEmpty(b.replicates));
  }

  /** The validator does not ask for `replicates`, which the emitter reads without looking: left out, they cost a bundle nothing. */
  lemma MissingReplicatesAreNoProblem(b: Bundle, p: Problem)
    requires b.Bundle? && b.replicates == Some([])
    ensures Reported(b.(replicates := None), p) <==> Reported(b, p)
  {
    var without := b.(replicates := None);
    assert OrEmpty(without.replicates) == OrEmpty(b.replicates);
    assert HeaderHas(without, p) == HeaderHas(b, p);
    if b.arms.Some? {
      var es := b.arms.value + OrEmpty(b.replicates);
      assert FlagsHave(without, es, p) == FlagsHave(b, es, p);
    }
  }

  // ----- the rounds that come back -----------------------------------------------------------

  lemma {:induction false} FlatFromTheFront(first: seq<Measurement>, rest: seq<seq<Measurement>>)
    ensures Flat([first] + rest) == first + Flat(rest)
  {
    var all := [first] + rest;
    if rest == [] {
      assert all[..0] == [];
    } else {
      FlatFromTheFront(first, rest[..|rest| - 1]);
      assert all[..|all| - 1] == [first] + rest[..|rest| - 1];
    }
  }

  /** All groups are full but the last, which is not empty. */
  predicate CutEvery(groups: seq<seq<Measurement>>, size: nat) {
    forall k :: 0 <= k < |groups| ==> 0 < |groups[k]| <= size && (k + 1 < |groups| ==> |groups[k]| == size)
  }

  /** Nothing is lost or reordered: the groups in a row are the replicates. */
  lemma {:induction false} GroupsJoinUp(runs: seq<Measurement>, size: nat)
    requires size > 0
    ensures Flat(GroupsOf(runs, size)) == runs
    ensures CutEvery(GroupsOf(runs, size), size)
    decreases |runs|
  {
    if runs == [] {
    } else if |runs| <= size {
      assert [runs][..0] == [];
    } else {
      var rest := GroupsOf(runs[size..], size);
      GroupsJoinUp(runs[size..], size);
      FlatFromTheFront(runs[..size], rest);
      assert runs == runs[..size] + runs[size..];
      forall k | 0 <= k < |rest| + 1
        ensures 0 < |([runs[..size]] + rest)[k]| <= size
        ensures k + 1 < |rest| + 1 ==> |([runs[..size]] + rest)[k]| == size
      {
        if k > 0 {
          assert ([runs[..size]] + rest)[k] == rest[k - 1];
        }
      }
    }
  }

  /** Cutting restores the rounds exactly when all but the last are as long as the first, and the last is not longer or empty. */
  lemma RegroupingRestoresTheRounds(rounds: seq<seq<Measurement>>, size: nat)
    requires size > 0
    ensures GroupsOf(Flat(rounds), size) == rounds <==> CutEvery(rounds, size)
  {
    GroupsJoinUp(Flat(rounds), size);
    if CutEvery(rounds, size) {
      CutsComeBack(rounds, size);
    }
  }

  lemma {:induction false} CutsComeBack(rounds: seq<seq<Measurement>>, size: nat)
    requires size > 0 && CutEvery(rounds, size)
    ensures GroupsOf(Flat(rounds), size) == rounds
  {
    if rounds != [] {
      var first, rest := rounds[0], rounds[1..];
      assert rounds == [first] + rest;
      FlatFromTheFront(first, rest);
      forall k | 0 <= k < |rest|
        ensures 0 < |rest[k]| <= size && (k + 1 < |rest| ==> |rest[k]| == size)
      {
        assert rest[k] == rounds[k + 1];
      }
      CutsComeBack(rest, size);
      var runs := Flat(rounds);
      if rest != [] {
        FlatFromTheFront(rest[0], rest[1..]);
        assert rest == [rest[0]] + rest[1..];
        assert |first| == size && |runs| > size;
        assert runs[..size] == first && runs[size..] == Flat(rest);
      } else {
        assert runs == first;
      }
    }
  }

  // ----- complete rounds ----------------------------------------------------------------------

  /** Every folder holds one run of each of the same arms, read in the same order. */
  predicate CompleteRounds(rounds: seq<seq<Measurement>>) {
    && rounds != [] && rounds[0] != [] && DistinctArms(rounds[0])
    && forall k :: 0 <= k < |rounds| ==> ArmsOf(rounds[k]) == ArmsOf(rounds[0])
  }

  function Own(m: Measurement, arm: Arm): seq<Measurement> {
    if m.arm == arm then [m] else []
  }

  lemma RunsByOneMore(init: seq<Measurement>, last: Measurement, arm: Arm)
    ensures RunsBy(init + [last], arm) == RunsBy(init, arm) + Own(last, arm)
  {
    assert (init + [last])[..|init|] == init;
  }

  lemma OneMoreJoined(a: seq<Measurement>, init: seq<Measurement>, last: Measurement, arm: Arm)
    requires RunsBy(a + init, arm) == RunsBy(a, arm) + RunsBy(init, arm)
    ensures RunsBy(a + (init + [last]), arm) == RunsBy(a, arm) + RunsBy(init + [last], arm)
  {
    assert a + (init + [last]) == (a + init) + [last];
    RunsByOneMore(a + init, last, arm);
    RunsByOneMore(init, last, arm);
    Regrouped(RunsBy(a, arm), RunsBy(init, arm), Own(last, arm));
  }

  lemma Regrouped<T>(x: seq<T>, y: seq<T>, z: seq<T>)
    ensures x + (y + z) == (x + y) + z
  {
  }

  lemma {:induction false} RunsByJoined(a: seq<Measurement>, b: seq<Measurement>, arm: Arm)
    ensures RunsBy(a + b, arm) == RunsBy(a, arm) + RunsBy(b, arm)
  {
    if b == [] {
      assert a + b == a && RunsBy(a, arm) + [] == RunsBy(a, arm);
    } else {
      var init, last := b[..|b| - 1], b[|b| - 1];
      RunsByJoined(a, init, arm);
      assert b == init + [last];
      OneMoreJoined(a, init, last, arm);
    }
  }

  lemma {:induction false} OneRunPerRound(ms: seq<Measurement>, arm: Arm)
    requires DistinctArms(ms)
    ensures |RunsBy(ms, arm)| == if arm in ArmsOf(ms) then 1 else 0
  {
    if ms != [] {
      var init, last := ms[..|ms| - 1], ms[|ms| - 1];
      OneRunPerRound(init, arm);
      assert ArmsOf(ms) == ArmsOf(init) + [last.arm];
      forall i | 0 <= i < |init| ensures ArmsOf(init)[i] != last.arm {
        assert ms[i] == init[i];
      }
    }
  }

  lemma {:induction false} AsManyRunsAsRounds(rounds: seq<seq<Measurement>>, arms: seq<Arm>, arm: Arm)
    requires forall k :: 0 <= k < |rounds| ==> ArmsOf(rounds[k]) == arms && DistinctArms(rounds[k])
    ensures |RunsBy(Flat(rounds), arm)| == if arm in arms then |rounds| else 0
  {
    if rounds != [] {
      var init, last := rounds[..|rounds| - 1], rounds[|rounds| - 1];
      AsManyRunsAsRounds(init, arms, arm);
      OneRunPerRound(last, arm);
      RunsByJoined(Flat(init), last, arm);
    }
  }

  lemma SameArmsStayDistinct(a: seq<Measurement>, b: seq<Measurement>)
    requires DistinctArms(a) && ArmsOf(a) == ArmsOf(b)
    ensures DistinctArms(b)
  {
    assert |ArmsOf(a)| == |a| && |ArmsOf(b)| == |b|;
    forall i, j | 0 <= i < j < |b| ensures b[i].arm != b[j].arm {
      assert ArmsOf(a)[i] == ArmsOf(b)[i] && ArmsOf(a)[j] == ArmsOf(b)[j];
    }
  }

  lemma CompleteRoundsAreEven(rounds: seq<seq<Measurement>>)
    requires CompleteRounds(rounds)
    ensures EqualRuns(Flat(rounds))
  {
    var arms := ArmsOf(rounds[0]);
    forall k | 0 <= k < |rounds| ensures DistinctArms(rounds[k]) {
      SameArmsStayDistinct(rounds[0], rounds[k]);
    }
    forall m | m in Flat(rounds) ensures |RunsBy(Flat(rounds), m.arm)| == |rounds| {
      AsManyRunsAsRounds(rounds, arms, m.arm);
      RunsByMembers(Flat(rounds), m.arm);
      assert m in RunsBy(Flat(rounds), m.arm);
    }
  }

  /**
   * A campaign of complete rounds from one tree, each run's work being the sum of its
   * parts, is collected into a bundle without problems, and the pair files cut from
   * that bundle are the rounds of the campaign.
   */
  lemma CompleteCampaignRoundTrips(rounds: seq<seq<Measurement>>, c: Collected)
    requires CompleteRounds(rounds)
    requires IsCollected(c) && c.arms == FirstRound(rounds) && c.replicates == LaterRounds(rounds)
    requires |c.baseCommit| >= 7 && |c.baseTreeSha| >= 7
    requires OneTree(AllOf(c)) && forall m :: m in AllOf(c) ==> WorkAddsUp(m)
    ensures forall p :: !Reported(AsBundle(c), p)
    ensures [c.arms] + GroupsOf(c.replicates, |c.arms|) == rounds
  {
    assert rounds == [rounds[0]] + rounds[1..];
    FlatFromTheFront(rounds[0], rounds[1..]);
    CompleteRoundsAreEven(rounds);
    CollectedIsAcceptedExactlyWhen(c);
    CompleteRoundsAreCut(rounds);
  }

  lemma CompleteRoundsAreCut(rounds: seq<seq<Measurement>>)
    requires CompleteRounds(rounds)
    ensures GroupsOf(Flat(rounds[1..]), |rounds[0]|) == rounds[1..]
  {
    forall k | 0 <= k < |rounds[1..]| ensures |rounds[1..][k]| == |rounds[0]| {
      assert |ArmsOf(rounds[k + 1])| == |rounds[k + 1]| && |ArmsOf(rounds[0])| == |rounds[0]|;
    }
    RegroupingRestoresTheRounds(rounds[1..], |rounds[0]|);
  }

  /**
   * Without complete rounds the validator can be content and the pair files still mix
   * two rounds: a folder of both arms, then one folder of each.
   */
  lemma AcceptedRoundsCanBeMixed(cli: Measurement, chat: Measurement, c: Collected)
    requires cli.arm == Cli && chat.arm == Chat && cli.sandboxTreeSha == chat.sandboxTreeSha
    requires WorkAddsUp(cli) && WorkAddsUp(chat)
    requires IsCollected(c) && c.arms == FirstRound([[cli, chat], [cli], [chat]]) && c.replicates == LaterRounds([[cli, chat], [cli], [chat]])
    requires |c.baseCommit| >= 7 && |c.baseTreeSha| >= 7
    ensures forall p :: !Reported(AsBundle(c), p)
    ensures [c.arms] + GroupsOf(c.replicates, |c.arms|) == [[cli, chat], [cli, chat]]
    ensures [[cli, chat], [cli, chat]] != [[cli, chat], [cli], [chat]]
  {
    LaterHalves(cli, chat);
    assert c.arms == [cli, chat] && AllOf(c) == [cli, chat] + [cli, chat];
    TwoRoundsAreAccepted(cli, chat, c);
    assert |[[cli, chat], [cli, chat]]| != |[[cli, chat], [cli], [chat]]|;
  }

  lemma TwoRoundsAreAccepted(cli: Measurement, chat: Measurement, c: Collected)
    requires cli.arm == Cli && chat.arm == Chat && cli.sandboxTreeSha == chat.sandboxTreeSha
    requires WorkAddsUp(cli) && WorkAddsUp(chat)
    requires IsCollected(c) && c.arms == [cli, chat] && AllOf(c) == [cli, chat] + [cli, chat]
    requires |c.baseCommit| >= 7 && |c.baseTreeSha| >= 7
    ensures forall p :: !Reported(AsBundle(c), p)
  {
    TwoEvenRounds(cli, chat);
    CollectedIsAcceptedExactlyWhen(c);
  }

  lemma LaterHalves(cli: Measurement, chat: Measurement)
    ensures LaterRounds([[cli, chat], [cli], [chat]]) == [cli, chat]
    ensures [[cli, chat]] + GroupsOf([cli, chat], 2) == [[cli, chat], [cli, chat]]
  {
    assert [[cli, chat], [cli], [chat]][1..] == [[cli], [chat]];
    assert [[cli], [chat]][..1] == [[cli]] && [[cli]][..0] == [];
    assert Flat([[cli]]) == [cli];
  }

  lemma TwoEvenRounds(cli: Measurement, chat: Measurement)
    requires cli.arm == Cli && chat.arm == Chat
    ensures EqualRuns([cli, chat] + [cli, chat])
  {
    var round := [cli, chat];
    assert ArmsOf(round) == [Cli, Chat] && Cli in ArmsOf(round) && Chat in ArmsOf(round);
    forall m: Measurement | m in round + round ensures |RunsBy(round + round, m.arm)| == 2 {
      RunsByJoined(round, round, m.arm);
      OneRunPerRound(round, m.arm);
    }
  }
}
