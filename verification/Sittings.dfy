/**
 * How a chat's messages are split into sittings (scripts/board-baseline.ts): a
 * sitting lasts until the next message comes more than thirty minutes later.
 */
module Sittings {
  import opened Options

  const EPISODE_GAP_MS: int := 1_800_000

  /** The timestamps that parse, in message order. */
  function Readable(stamps: seq<Option<int>>): seq<int> {
    if stamps == [] then []
    else
      var last := stamps[|stamps| - 1];
      Readable(stamps[..|stamps| - 1]) + if last.Some? then [last.value] else []
  }

  function Last(run: seq<int>): int
    requires run != []
  {
    run[|run| - 1]
  }

  /** The split with one more message. */
  function Longer(runs: seq<seq<int>>, t: int): seq<seq<int>> {
    if runs == [] || runs[|runs| - 1] == [] || t - Last(runs[|runs| - 1]) > EPISODE_GAP_MS then runs + [[t]]
    else runs[..|runs| - 1] + [runs[|runs| - 1] + [t]]
  }

  function SittingsOf(times: seq<int>): seq<seq<int>> {
    if times == [] then []
    else Longer(SittingsOf(times[..|times| - 1]), Last(times))
  }

  // ----- what a split into sittings is ---------------------------------------------------

  function Joined(runs: seq<seq<int>>): seq<int> {
    if runs == [] then [] else Joined(runs[..|runs| - 1]) + runs[|runs| - 1]
  }

  predicate Unbroken(run: seq<int>) {
    run != [] && forall i :: 0 < i < |run| ==> run[i] - run[i - 1] <= EPISODE_GAP_MS
  }

  predicate AllUnbroken(runs: seq<seq<int>>) {
    forall k :: 0 <= k < |runs| ==> Unbroken(runs[k])
  }

  predicate Apart(run: seq<int>, next: seq<int>) {
    run != [] && next != [] && next[0] - Last(run) > EPISODE_GAP_MS
  }

  predicate AllApart(runs: seq<seq<int>>) {
    forall k :: 0 < k < |runs| ==> Apart(runs[k - 1], runs[k])
  }

  /** The messages in order, cut into unbroken runs that cannot be joined. */
  predicate AreSittings(runs: seq<seq<int>>, times: seq<int>) {
    && Joined(runs) == times
    && AllUnbroken(runs)
    && AllApart(runs)
  }

  lemma JoinedEnds(runs: seq<seq<int>>)
    requires runs != [] && runs[|runs| - 1] != []
    ensures Joined(runs) != [] && Last(Joined(runs)) == Last(runs[|runs| - 1])
  {
  }

  lemma JoinedWith(runs: seq<seq<int>>, run: seq<int>)
    ensures Joined(runs + [run]) == Joined(runs) + run
  {
    assert (runs + [run])[..|runs|] == runs;
  }

  /** A run can be added to, or taken from, the end of a split exactly when it is unbroken and apart. */
  lemma LastRun(runs: seq<seq<int>>, run: seq<int>)
    ensures AllUnbroken(runs + [run]) && AllApart(runs + [run]) <==>
              && AllUnbroken(runs) && AllApart(runs) && Unbroken(run)
              && (runs != [] ==> Apart(runs[|runs| - 1], run))
  {
    var all := runs + [run];
    assert forall k :: 0 <= k < |runs| ==> all[k] == runs[k];
    assert all[|runs|] == run;
    if AllUnbroken(all) && AllApart(all) {
      assert forall k :: 0 < k < |runs| ==> Apart(all[k - 1], all[k]);
    }
  }

  /** A run is unbroken exactly when it is so without its last message, which comes soon enough. */
  lemma LastMessage(run: seq<int>, t: int)
    requires run != []
    ensures Unbroken(run + [t]) <==> Unbroken(run) && t - Last(run) <= EPISODE_GAP_MS
  {
    var longer := run + [t];
    assert longer[|run|] == t && longer[|run| - 1] == Last(run);
    if Unbroken(longer) {
      forall i | 0 < i < |run| ensures run[i] - run[i - 1] <= EPISODE_GAP_MS {
        assert longer[i] == run[i] && longer[i - 1] == run[i - 1];
      }
    }
  }

  /** The first message, and so the distance from the run before, does not change. */
  lemma SameStart(before: seq<int>, run: seq<int>, t: int)
    requires run != []
    ensures Apart(before, run + [t]) <==> Apart(before, run)
  {
  }

  lemma {:induction false} SplitIntoSittings(times: seq<int>)
    ensures AreSittings(SittingsOf(times), times)
  {
    if times != [] {
      var init, t := times[..|times| - 1], Last(times);
      SplitIntoSittings(init);
      assert times == init + [t];
      OneMoreMessage(SittingsOf(init), init, t);
    }
  }

  lemma OneMoreMessage(runs: seq<seq<int>>, times: seq<int>, t: int)
    requires AreSittings(runs, times)
    ensures AreSittings(Longer(runs, t), times + [t])
  {
    if runs == [] || t - Last(runs[|runs| - 1]) > EPISODE_GAP_MS {
      LastRun(runs, [t]);
      JoinedWith(runs, [t]);
    } else {
      var n := |runs| - 1;
      assert runs == runs[..n] + [runs[n]];
      LastRun(runs[..n], runs[n]);
      LastMessage(runs[n], t);
      LastRun(runs[..n], runs[n] + [t]);
      if n > 0 {
        SameStart(runs[n - 1], runs[n], t);
      }
      JoinedWith(runs[..n], runs[n]);
      JoinedWith(runs[..n], runs[n] + [t]);
    }
  }

  /** The split before the last message came. */
  function Shorter(runs: seq<seq<int>>): seq<seq<int>>
    requires runs != [] && runs[|runs| - 1] != []
  {
    var n, run := |runs| - 1, runs[|runs| - 1];
    if |run| == 1 then runs[..n] else runs[..n] + [run[..|run| - 1]]
  }

  lemma OneMessageLess(runs: seq<seq<int>>, times: seq<int>)
    requires AreSittings(runs, times) && runs != []
    ensures times != [] && AreSittings(Shorter(runs), times[..|times| - 1])
    ensures runs == Longer(Shorter(runs), Last(times))
  {
    var n := |runs| - 1;
    var run := runs[n];
    var t := Last(run);
    assert runs == runs[..n] + [run];
    LastRun(runs[..n], run);
    JoinedWith(runs[..n], run);
    if |run| == 1 {
      assert run == [t];
    } else {
      var init := run[..|run| - 1];
      assert run == init + [t];
      LastMessage(init, t);
      LastRun(runs[..n], init);
      if n > 0 {
        SameStart(runs[n - 1], init, t);
      }
      JoinedWith(runs[..n], init);
    }
  }

  /** There is only one way to do it. */
  lemma {:induction false} SittingsAreUnique(runs: seq<seq<int>>, times: seq<int>)
    requires AreSittings(runs, times)
    ensures runs == SittingsOf(times)
    decreases |times|
  {
    if runs != [] {
      OneMessageLess(runs, times);
      SittingsAreUnique(Shorter(runs), times[..|times| - 1]);
    }
  }

  // ----- counting and timing ---------------------------------------------------------------

  /** Time spent inside the runs. */
  function ActiveMs(runs: seq<seq<int>>): int {
    if runs == [] then 0
    else
      var run := runs[|runs| - 1];
      ActiveMs(runs[..|runs| - 1]) + if run == [] then 0 else Last(run) - run[0]
  }

  /** How many steps are longer than the limit, and how long those are together. */
  function Gaps(times: seq<int>): nat {
    if |times| < 2 then 0
    else Gaps(times[..|times| - 1]) + if times[|times| - 1] - times[|times| - 2] > EPISODE_GAP_MS then 1 else 0
  }

  function GapMs(times: seq<int>): int {
    if |times| < 2 then 0
    else
      var step := times[|times| - 1] - times[|times| - 2];
      GapMs(times[..|times| - 1]) + if step > EPISODE_GAP_MS then step else 0
  }

  /** One sitting more than the gaps; active time and gaps add up to the whole span. */
  lemma {:induction false} SittingsAndGapsCoverTheSpan(times: seq<int>)
    requires times != []
    ensures |SittingsOf(times)| == 1 + Gaps(times)
    ensures ActiveMs(SittingsOf(times)) + GapMs(times) == Last(times) - times[0]
  {
    var init, t := times[..|times| - 1], Last(times);
    ActiveTimeGrows(SittingsOf(init), t);
    if init != [] {
      SittingsAndGapsCoverTheSpan(init);
      LastRunEndsAtTheLastMessage(init);
    }
  }

  lemma ActiveTimeGrows(runs: seq<seq<int>>, t: int)
    ensures ActiveMs(Longer(runs, t)) == ActiveMs(runs)
            + (if Longer(runs, t) == runs + [[t]] then 0 else t - Last(runs[|runs| - 1]))
  {
    if runs == [] || runs[|runs| - 1] == [] || t - Last(runs[|runs| - 1]) > EPISODE_GAP_MS {
      assert (runs + [[t]])[..|runs|] == runs;
    } else {
      var n := |runs| - 1;
      assert |Longer(runs, t)| != |runs + [[t]]|;
      assert (runs[..n] + [runs[n] + [t]])[..n] == runs[..n];
    }
  }

  /**
   * Message by message: one that cannot be read changes nothing, one that comes within
   * thirty minutes of the last adds the time since, a later one starts a sitting and
   * adds nothing.
   */
  lemma OneMoreStamp(stamps: seq<Option<int>>, stamp: Option<int>)
    ensures Readable([]) == [] && SittingsOf([]) == [] && ActiveMs([]) == 0
    ensures stamp.None? ==> Readable(stamps + [stamp]) == Readable(stamps)
    ensures stamp.Some? ==> Readable(stamps + [stamp]) == Readable(stamps) + [stamp.value]
    ensures stamp.Some? ==>
              var before, after := Readable(stamps), Readable(stamps + [stamp]);
              if before != [] && stamp.value - before[|before| - 1] <= 1_800_000 then
                && |SittingsOf(after)| == |SittingsOf(before)|
                && ActiveMs(SittingsOf(after)) == ActiveMs(SittingsOf(before)) + (stamp.value - before[|before| - 1])
              else
                && |SittingsOf(after)| == |SittingsOf(before)| + 1
                && ActiveMs(SittingsOf(after)) == ActiveMs(SittingsOf(before))
  {
    var before, after := Readable(stamps), Readable(stamps + [stamp]);
    assert (stamps + [stamp])[..|stamps|] == stamps;
    if stamp.Some? {
      assert after == before + [stamp.value] && after[..|before|] == before;
      OneMoreReadable(before, stamp.value);
    } else {
      assert after == before + [];
    }
  }

  lemma OneMoreReadable(times: seq<int>, t: int)
    ensures var before, after := SittingsOf(times), SittingsOf(times + [t]);
            if times != [] && t - Last(times) <= EPISODE_GAP_MS then
              |after| == |before| && ActiveMs(after) == ActiveMs(before) + (t - Last(times))
            else |after| == |before| + 1 && ActiveMs(after) == ActiveMs(before)
  {
    assert (times + [t])[..|times|] == times;
    ActiveTimeGrows(SittingsOf(times), t);
    if times != [] {
      LastRunEndsAtTheLastMessage(times);
    }
  }

  /** Chronological messages never give a negative active time, and give at most the span. */
  lemma {:induction false} ActiveTimeOfAChronology(times: seq<int>)
    requires forall i :: 0 < i < |times| ==> times[i - 1] <= times[i]
    ensures 0 <= ActiveMs(SittingsOf(times))
    ensures times != [] ==> ActiveMs(SittingsOf(times)) <= Last(times) - times[0]
  {
    if times != [] {
      SittingsAndGapsCoverTheSpan(times);
      GapsAreWithinTheSpan(times);
    }
  }

  lemma {:induction false} GapsAreWithinTheSpan(times: seq<int>)
    requires times != [] && forall i :: 0 < i < |times| ==> times[i - 1] <= times[i]
    ensures 0 <= GapMs(times) <= Last(times) - times[0]
  {
    if |times| >= 2 {
      var init := times[..|times| - 1];
      assert forall i :: 0 < i < |init| ==> init[i - 1] <= init[i];
      GapsAreWithinTheSpan(init);
    }
  }

  // ----- the loop --------------------------------------------------------------------------

  lemma LastRunEndsAtTheLastMessage(times: seq<int>)
    requires times != []
    ensures var runs := SittingsOf(times);
            runs != [] && runs[|runs| - 1] != [] && Last(runs[|runs| - 1]) == Last(times)
  {
    SplitIntoSittings(times);
    JoinedEnds(SittingsOf(times));
  }

  lemma LongerSplits(runs: seq<seq<int>>, t: int)
    requires runs != [] ==> runs[|runs| - 1] != []
    ensures var next := Longer(runs, t);
            && next != [] && next[|next| - 1] != [] && Last(next[|next| - 1]) == t
            && (runs == [] || t - Last(runs[|runs| - 1]) > EPISODE_GAP_MS
                ==> |next| == |runs| + 1 && next[..|next| - 1] == runs && next[|next| - 1][0] == t)
            && (runs != [] && t - Last(runs[|runs| - 1]) <= EPISODE_GAP_MS
                ==> |next| == |runs| && next[..|next| - 1] == runs[..|runs| - 1] && next[|next| - 1][0] == runs[|runs| - 1][0])
  {
  }

  /** The loop over one chat's messages: sittings, at least one, and active time. */
  method SplitSittings(stamps: seq<Option<int>>) returns (episodes: nat, activeMs: int)
    ensures var runs := SittingsOf(Readable(stamps));
            && episodes == (if runs == [] then 1 else |runs|)
            && activeMs == ActiveMs(runs)
  {
    episodes, activeMs := 0, 0;
    var episodeStart: Option<int> := None;
    var prev: Option<int> := None;
    ghost var runs: seq<seq<int>> := [];
    for i := 0 to |stamps|
      invariant runs == SittingsOf(Readable(stamps[..i]))
      invariant episodes == |runs|
      invariant runs == [] ==> prev.None? && episodeStart.None? && activeMs == 0
      invariant runs != [] ==>
                  && runs[|runs| - 1] != []
                  && prev == Some(Last(runs[|runs| - 1])) && episodeStart == Some(runs[|runs| - 1][0])
                  && activeMs == ActiveMs(runs[..|runs| - 1])
    {
      ReadOneMore(stamps, i);
      if stamps[i].None? { continue; }
      var t := stamps[i].value;
      LongerSplits(runs, t);
      if prev.None? || t - prev.value > EPISODE_GAP_MS {
        if episodeStart.Some? && prev.Some? {
          activeMs := activeMs + (prev.value - episodeStart.value);
        }
        episodes := episodes + 1;
        episodeStart := Some(t);
      }
      prev := Some(t);
      runs := Longer(runs, t);
    }
    assert stamps[..|stamps|] == stamps;
    if episodeStart.Some? && prev.Some? {
      activeMs := activeMs + (prev.value - episodeStart.value);
    }
    if episodes < 1 {
      episodes := 1;
    }
  }

  lemma ReadOneMore(stamps: seq<Option<int>>, i: nat)
    requires i < |stamps|
    ensures var before := SittingsOf(Readable(stamps[..i]));
            SittingsOf(Readable(stamps[..i + 1])) == if stamps[i].None? then before else Longer(before, stamps[i].value)
  {
    assert stamps[..i + 1][..i] == stamps[..i];
    var before := Readable(stamps[..i]);
    var after := Readable(stamps[..i + 1]);
    if stamps[i].None? {
      assert after == before + [] == before;
    } else {
      assert after == before + [stamps[i].value];
      assert after[..|before|] == before;
    }
  }
}
