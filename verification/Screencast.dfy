/**
 * One viewer's screencast: when it is started and stopped (the closures of the
 * browser socket in server.ts, with the boot race of
 * server/browser-host-boot-race.ts). `calls` is what the browser service is asked.
 */
module Screencast {

  datatype Call = Start | Stop

  /**
   * `started`: a start was ever issued. `streamActive`: what the viewer wants.
   * `waiting`: the boot race still holds the viewer. `timerPending`: the grace
   * timer may still fire. `raceArmed`: the race's timeout callback may still run.
   */
  datatype Viewer = Viewer(
    expectsExecutor: bool, cancelled: bool, started: bool, streamActive: bool,
    waiting: bool, raceArmed: bool, timerPending: bool, calls: seq<Call>)

  /** What can happen to a viewer; `hosting` is what the host mirror answers at that moment. */
  datatype Event =
    | GraceTimer(hosting: bool)
    | RaceEnds(timedOut: bool)                    // the wait is over; its held frames follow as their own events
    | RaceTimesOut(requestedRender: bool)         // the callback behind those frames
    | SetStream(active: bool, hosting: bool)
    | CleanupBegins
    | CleanupStops                                // after the last start has settled

  function Opened(expectsExecutor: bool, waits: bool): Viewer {
    Viewer(expectsExecutor, false, false, true, waits, waits, true, [])
  }

  /** The last thing asked for this viewer is a start: frames are flowing to it. */
  predicate Streaming(v: Viewer) {
    v.calls != [] && v.calls[|v.calls| - 1] == Start
  }

  class BrowserViewer {
    var expectsExecutor: bool
    var cancelled: bool
    var started: bool
    var streamActive: bool
    var waiting: bool
    var raceArmed: bool
    var timerPending: bool
    var calls: seq<Call>

    function State(): Viewer
      reads this
    {
      Viewer(expectsExecutor, cancelled, started, streamActive, waiting, raceArmed, timerPending, calls)
    }

    constructor (executor: bool, waits: bool)
      ensures State() == Opened(executor, waits)
    {
      expectsExecutor, cancelled, started, streamActive := executor, false, false, true;
      waiting, raceArmed, timerPending, calls := waits, waits, true, [];
    }

    method StartScreencast()
      modifies this`started, this`calls
      ensures started && calls == old(calls) + [Start]
    {
      started := true;
      calls := calls + [Start];
    }

    method StopScreencast()
      modifies this`calls
      ensures calls == old(calls) + [Stop]
    {
      calls := calls + [Stop];
    }

    method OnGraceTimer(hosting: bool)
      modifies this
      ensures State() == After(old(State()), GraceTimer(hosting))
    {
      if !timerPending { return; }
      timerPending := false;
      if cancelled || expectsExecutor { return; }
      if waiting { return; }
      if hosting { return; }
      if !streamActive { return; }
      if started { return; }
      StartScreencast();
    }

    method OnRaceEnds(timedOut: bool)
      modifies this
      ensures State() == After(old(State()), RaceEnds(timedOut))
    {
      if !waiting { return; }
      waiting := false;
      raceArmed := timedOut;
    }

    method OnRaceTimesOut(requestedRender: bool)
      modifies this
      ensures State() == After(old(State()), RaceTimesOut(requestedRender))
    {
      if waiting || !raceArmed { return; }
      raceArmed := false;
      if !cancelled && streamActive && !requestedRender && !started {
        StartScreencast();
      }
    }

    method OnSetStream(active: bool, hosting: bool)
      modifies this
      ensures State() == After(old(State()), SetStream(active, hosting))
    {
      if cancelled { return; }
      if active == streamActive {
        if active && !waiting && !started {
          StartScreencast();
        }
        return;
      }
      if active && waiting {
        streamActive := true;
        return;
      }
      if active && hosting { return; }
      streamActive := active;
      if active {
        StartScreencast();
      } else {
        StopScreencast();
      }
    }

    method OnCleanupBegins()
      modifies this
      ensures State() == After(old(State()), CleanupBegins)
      ensures cancelled && !waiting && !timerPending && (old(waiting) ==> !raceArmed) && calls == old(calls)
    {
      cancelled := true;
      if waiting {
        waiting, raceArmed := false, false;
      }
      timerPending := false;
    }

    method OnCleanupStops()
      modifies this
      ensures State() == After(old(State()), CleanupStops)
    {
      if !cancelled { return; }
      StopScreencast();
    }
  }

  /** What an event does to the viewer and which call, if any, it issues. */
  function After(v: Viewer, e: Event): Viewer {
    match e
    case GraceTimer(hosting) =>
      if !v.timerPending then v
      else
        var w := v.(timerPending := false);
        if v.cancelled || v.expectsExecutor || v.waiting || hosting || !v.streamActive || v.started then w else Issue(w, Start)
    case RaceEnds(timedOut) =>
      if v.waiting then v.(waiting := false, raceArmed := timedOut) else v
    case RaceTimesOut(requestedRender) =>
      if v.waiting || !v.raceArmed then v
      else
        var w := v.(raceArmed := false);
        if v.cancelled || !v.streamActive || requestedRender || v.started then w else Issue(w, Start)
    case SetStream(active, hosting) =>
      if v.cancelled then v
      else if active == v.streamActive then
        if active && !v.waiting && !v.started then Issue(v, Start) else v
      else if active && v.waiting then v.(streamActive := true)
      else if active && hosting then v
      else Issue(v.(streamActive := active), if active then Start else Stop)
    case CleanupBegins =>
      v.(cancelled := true, waiting := false, raceArmed := v.raceArmed && !v.waiting, timerPending := false)
    case CleanupStops =>
      if v.cancelled then Issue(v, Stop) else v
  }

  function Issue(v: Viewer, c: Call): Viewer {
    v.(calls := v.calls + [c], started := v.started || c == Start)
  }

  function AfterAll(v: Viewer, es: seq<Event>): Viewer {
    if es == [] then v else After(AfterAll(v, es[..|es| - 1]), es[|es| - 1])
  }

  // ----- every interleaving ------------------------------------------------------------

  /** Between any two starts there is a stop. */
  ghost predicate StartsAreSeparated(calls: seq<Call>) {
    forall i, j :: 0 <= i < j < |calls| && calls[i] == Start && calls[j] == Start ==>
                     exists k :: i < k < j && calls[k] == Stop
  }

  /** Frames flow exactly while the viewer wants them and a start was issued, until cleanup stops them. */
  ghost predicate Inv(v: Viewer) {
    && StartsAreSeparated(v.calls)
    && (v.started <==> Start in v.calls)
    && (!v.cancelled ==> (Streaming(v) <==> v.started && v.streamActive))
    && (v.waiting ==> !v.started)
  }

  lemma OneMoreCall(calls: seq<Call>, c: Call)
    requires StartsAreSeparated(calls)
    requires c == Start && calls != [] ==> Start !in calls || calls[|calls| - 1] == Stop
    ensures StartsAreSeparated(calls + [c])
    ensures Start in calls + [c] <==> Start in calls || c == Start
    ensures (calls + [c])[|calls + [c]| - 1] == c
  {
    var all := calls + [c];
    assert all[|calls|] == c;
    forall i, j | 0 <= i < j < |all| && all[i] == Start && all[j] == Start
      ensures exists k :: i < k < j && all[k] == Stop
    {
      if j < |calls| {
        var k :| i < k < j && calls[k] == Stop;
        assert all[k] == Stop;
      } else {
        assert calls[i] == Start && calls[|calls| - 1] == Stop;
        assert all[|calls| - 1] == Stop;
      }
    }
  }

  lemma FirstStartKeepsInv(v: Viewer)
    requires Inv(v) && !v.started && !v.waiting && v.streamActive
    ensures Inv(Issue(v, Start))
  {
    OneMoreCall(v.calls, Start);
  }

  lemma TimersKeepInv(v: Viewer, e: Event)
    requires Inv(v) && (e.GraceTimer? || e.RaceEnds? || e.RaceTimesOut?)
    ensures Inv(After(v, e))
    ensures v.cancelled ==> After(v, e).cancelled && After(v, e).calls == v.calls
  {
    if After(v, e).calls != v.calls {
      var u := if e.GraceTimer? then v.(timerPending := false) else v.(raceArmed := false);
      assert After(v, e) == Issue(u, Start);
      FirstStartKeepsInv(u);
    }
  }

  lemma SetStreamKeepsInv(v: Viewer, active: bool, hosting: bool)
    requires Inv(v)
    ensures Inv(After(v, SetStream(active, hosting)))
    ensures v.cancelled ==> After(v, SetStream(active, hosting)) == v
  {
    OneMoreCall(v.calls, Stop);
    if !Streaming(v) {
      assert v.calls != [] ==> v.calls[|v.calls| - 1] == Stop;
      OneMoreCall(v.calls, Start);
    }
  }

  lemma CleanupKeepsInv(v: Viewer, e: Event)
    requires Inv(v) && (e.CleanupBegins? || e.CleanupStops?)
    ensures Inv(After(v, e))
    ensures v.cancelled ==> After(v, e).cancelled && (After(v, e).calls == v.calls || After(v, e).calls == v.calls + [Stop])
  {
    OneMoreCall(v.calls, Stop);
  }

  lemma EventKeepsInv(v: Viewer, e: Event)
    requires Inv(v)
    ensures Inv(After(v, e))
    ensures v.cancelled ==> After(v, e).cancelled && (After(v, e).calls == v.calls || After(v, e).calls == v.calls + [Stop])
  {
    match e
    case SetStream(active, hosting) => SetStreamKeepsInv(v, active, hosting);
    case CleanupBegins => CleanupKeepsInv(v, e);
    case CleanupStops => CleanupKeepsInv(v, e);
    case _ => TimersKeepInv(v, e);
  }

  /**
   * Under every interleaving of the grace timer, the end of the boot race, set_stream
   * messages and cleanup: starts are separated by stops, and while the viewer is
   * alive frames flow exactly when a start was issued and the viewer wants them.
   */
  lemma {:induction false} EveryInterleavingAlternates(expectsExecutor: bool, waits: bool, es: seq<Event>)
    ensures Inv(AfterAll(Opened(expectsExecutor, waits), es))
  {
    if es != [] {
      EveryInterleavingAlternates(expectsExecutor, waits, es[..|es| - 1]);
      EventKeepsInv(AfterAll(Opened(expectsExecutor, waits), es[..|es| - 1]), es[|es| - 1]);
    }
  }

  // ----- who gets frames, told from the events alone --------------------------------------

  /** The boot race still holds the viewer. */
  predicate Waiting(waits: bool, es: seq<Event>) {
    waits && forall e :: e in es ==> !e.RaceEnds?
  }

  /** `e` is a resume that takes: under no host, or while the viewer waits for one. */
  predicate Resumes(waits: bool, es: seq<Event>, e: Event) {
    e.SetStream? && e.active && (!e.hosting || Waiting(waits, es))
  }

  /** The viewer wants frames: after every pause came a resume that took. */
  predicate Wanted(waits: bool, es: seq<Event>) {
    forall j :: 0 <= j < |es| && es[j].SetStream? && !es[j].active ==>
      exists i :: j < i < |es| && Resumes(waits, es[..i], es[i])
  }

  /** The race ended by its timeout at `r`, and what the timeout has to do was not done yet. */
  predicate TimedOutAt(es: seq<Event>, r: nat) {
    && r < |es| && es[r] == RaceEnds(true) && (forall e :: e in es[..r] ==> !e.RaceEnds?)
    && forall e :: e in es[r + 1..] ==> !e.RaceTimesOut?
  }

  ghost predicate TimedOut(waits: bool, es: seq<Event>) {
    waits && exists r: nat :: TimedOutAt(es, r)
  }

  /** `e` asks for frames on behalf of a viewer that may have them: nobody does while the race holds it. */
  ghost predicate Asks(expectsExecutor: bool, waits: bool, es: seq<Event>, e: Event) {
    && !Waiting(waits, es)
    && match e
       case GraceTimer(hosting) => !expectsExecutor && !hosting && Wanted(waits, es) && forall d :: d in es ==> !d.GraceTimer?
       case RaceTimesOut(requestedRender) => !requestedRender && Wanted(waits, es) && TimedOut(waits, es)
       case SetStream(active, hosting) => active && (!hosting || Wanted(waits, es))
       case _ => false
  }

  ghost predicate WasAskedFor(expectsExecutor: bool, waits: bool, es: seq<Event>) {
    exists k :: 0 <= k < |es| && Asks(expectsExecutor, waits, es[..k], es[k])
  }

  lemma OneMoreWanted(waits: bool, es: seq<Event>, e: Event)
    ensures Waiting(waits, es + [e]) <==> Waiting(waits, es) && !e.RaceEnds?
    ensures Wanted(waits, es + [e]) <==> !(e.SetStream? && !e.active) && (Wanted(waits, es) || Resumes(waits, es, e))
  {
    var all, n := es + [e], |es|;
    assert all[n] == e && all[..n] == es;
    assert forall i :: 0 <= i < n ==> all[i] == es[i] && all[..i] == es[..i];
    if Wanted(waits, all) && !Resumes(waits, es, e) {
      forall j | 0 <= j < n && es[j].SetStream? && !es[j].active ensures exists i :: j < i < n && Resumes(waits, es[..i], es[i]) {
        var i :| j < i < |all| && Resumes(waits, all[..i], all[i]);
      }
    }
    if Wanted(waits, es) || Resumes(waits, es, e) {
      if !(e.SetStream? && !e.active) {
        forall j | 0 <= j < |all| && all[j].SetStream? && !all[j].active ensures exists i :: j < i < |all| && Resumes(waits, all[..i], all[i]) {
          if Resumes(waits, es, e) {
            assert Resumes(waits, all[..n], all[n]);
          } else {
            var i :| j < i < n && Resumes(waits, es[..i], es[i]);
            assert Resumes(waits, all[..i], all[i]);
          }
        }
      }
    }
  }

  lemma OneMoreTimedOut(waits: bool, es: seq<Event>, e: Event)
    ensures TimedOut(waits, es + [e]) <==> (Waiting(waits, es) && e == RaceEnds(true)) || (TimedOut(waits, es) && !e.RaceTimesOut?)
  {
    var all, n := es + [e], |es|;
    assert all[n] == e && all[..n] == es && all[n + 1..] == [];
    forall r: nat | r < n ensures TimedOutAt(all, r) <==> TimedOutAt(es, r) && !e.RaceTimesOut? {
      assert all[..r] == es[..r] && all[r + 1..] == es[r + 1..] + [e];
    }
    if waits && Waiting(waits, es) && e == RaceEnds(true) {
      assert TimedOutAt(all, n);
    }
    if TimedOut(waits, all) {
      var r: nat :| TimedOutAt(all, r);
      assert r < n ==> TimedOutAt(es, r);
    }
  }

  lemma OneMoreAsked(expectsExecutor: bool, waits: bool, es: seq<Event>, e: Event)
    ensures WasAskedFor(expectsExecutor, waits, es + [e]) <==>
              WasAskedFor(expectsExecutor, waits, es) || Asks(expectsExecutor, waits, es, e)
  {
    var all, n := es + [e], |es|;
    assert all[n] == e && all[..n] == es;
    assert forall i :: 0 <= i < n ==> all[i] == es[i] && all[..i] == es[..i];
    if k :| 0 <= k < n && Asks(expectsExecutor, waits, es[..k], es[k]) {
      assert Asks(expectsExecutor, waits, all[..k], all[k]);
    }
    if Asks(expectsExecutor, waits, es, e) {
      assert Asks(expectsExecutor, waits, all[..n], all[n]);
    }
  }

  /** Every part of a living viewer, from what happened to it. */
  ghost predicate IsToldBy(v: Viewer, expectsExecutor: bool, waits: bool, es: seq<Event>) {
    && v.expectsExecutor == expectsExecutor && !v.cancelled
    && v.waiting == Waiting(waits, es) && v.streamActive == Wanted(waits, es)
    && v.raceArmed == (Waiting(waits, es) || TimedOut(waits, es))
    && v.timerPending == (forall e :: e in es ==> !e.GraceTimer?)
    && v.started == WasAskedFor(expectsExecutor, waits, es)
  }

  /** All that the events say after one more of them. */
  lemma OneMoreEvent(expectsExecutor: bool, waits: bool, es: seq<Event>, e: Event)
    ensures Waiting(waits, es + [e]) <==> Waiting(waits, es) && !e.RaceEnds?
    ensures Wanted(waits, es + [e]) <==> !(e.SetStream? && !e.active) && (Wanted(waits, es) || Resumes(waits, es, e))
    ensures TimedOut(waits, es + [e]) <==> (Waiting(waits, es) && e == RaceEnds(true)) || (TimedOut(waits, es) && !e.RaceTimesOut?)
    ensures WasAskedFor(expectsExecutor, waits, es + [e]) <==>
              WasAskedFor(expectsExecutor, waits, es) || Asks(expectsExecutor, waits, es, e)
    ensures (forall d :: d in es + [e] ==> !d.GraceTimer?) <==> (forall d :: d in es ==> !d.GraceTimer?) && !e.GraceTimer?
  {
    OneMoreWanted(waits, es, e);
    OneMoreTimedOut(waits, es, e);
    OneMoreAsked(expectsExecutor, waits, es, e);
  }

  lemma TimersAreTold(v: Viewer, expectsExecutor: bool, waits: bool, es: seq<Event>, e: Event)
    requires IsToldBy(v, expectsExecutor, waits, es) && (e.GraceTimer? || e.RaceTimesOut?)
    ensures IsToldBy(After(v, e), expectsExecutor, waits, es + [e])
  {
    OneMoreEvent(expectsExecutor, waits, es, e);
  }

  lemma SetStreamIsTold(v: Viewer, expectsExecutor: bool, waits: bool, es: seq<Event>, e: Event)
    requires IsToldBy(v, expectsExecutor, waits, es) && e.SetStream?
    ensures IsToldBy(After(v, e), expectsExecutor, waits, es + [e])
  {
    OneMoreEvent(expectsExecutor, waits, es, e);
  }

  lemma RaceEndIsTold(v: Viewer, expectsExecutor: bool, waits: bool, es: seq<Event>, timedOut: bool)
    requires IsToldBy(v, expectsExecutor, waits, es)
    ensures IsToldBy(After(v, RaceEnds(timedOut)), expectsExecutor, waits, es + [RaceEnds(timedOut)])
  {
    OneMoreEvent(expectsExecutor, waits, es, RaceEnds(timedOut));
    var w := After(v, RaceEnds(timedOut));
    assert w == if v.waiting then v.(waiting := false, raceArmed := timedOut) else v;
    if Waiting(waits, es) {
      NotTimedOutWhileWaiting(waits, es);
    }
  }

  lemma TimedOutIsOver(es: seq<Event>, r: nat)
    requires TimedOutAt(es, r)
    ensures exists e :: e in es && e.RaceEnds?
  {
    assert es[r] in es;
  }

  lemma NotTimedOutWhileWaiting(waits: bool, es: seq<Event>)
    requires Waiting(waits, es)
    ensures !TimedOut(waits, es)
  {
    if r: nat :| TimedOutAt(es, r) {
      TimedOutIsOver(es, r);
    }
  }

  lemma EarlyStopIsTold(v: Viewer, expectsExecutor: bool, waits: bool, es: seq<Event>)
    requires IsToldBy(v, expectsExecutor, waits, es)
    ensures IsToldBy(After(v, CleanupStops), expectsExecutor, waits, es + [CleanupStops])
  {
    OneMoreEvent(expectsExecutor, waits, es, CleanupStops);
  }

  lemma OneMoreTold(v: Viewer, expectsExecutor: bool, waits: bool, es: seq<Event>, e: Event)
    requires IsToldBy(v, expectsExecutor, waits, es) && !e.CleanupBegins?
    ensures IsToldBy(After(v, e), expectsExecutor, waits, es + [e])
  {
    if e.SetStream? {
      SetStreamIsTold(v, expectsExecutor, waits, es, e);
    } else if e.GraceTimer? || e.RaceTimesOut? {
      TimersAreTold(v, expectsExecutor, waits, es, e);
    } else if e.RaceEnds? {
      RaceEndIsTold(v, expectsExecutor, waits, es, e.timedOut);
    } else {
      EarlyStopIsTold(v, expectsExecutor, waits, es);
    }
  }

  /**
   * Nobody is left without frames and nobody gets them unasked: until cleanup begins,
   * whatever came in whatever order, frames flow to a viewer exactly when it wants them
   * and somebody asked for them that might: the grace timer under no host, the race's
   * timeout, a resume.
   */
  lemma {:induction false} FramesFlowExactlyWhenAskedFor(expectsExecutor: bool, waits: bool, es: seq<Event>)
    requires CleanupBegins !in es
    ensures IsToldBy(AfterAll(Opened(expectsExecutor, waits), es), expectsExecutor, waits, es)
    ensures Streaming(AfterAll(Opened(expectsExecutor, waits), es)) <==>
              Wanted(waits, es) && WasAskedFor(expectsExecutor, waits, es)
  {
    if es != [] {
      var init, e := es[..|es| - 1], es[|es| - 1];
      assert es == init + [e];
      FramesFlowExactlyWhenAskedFor(expectsExecutor, waits, init);
      OneMoreTold(AfterAll(Opened(expectsExecutor, waits), init), expectsExecutor, waits, init, e);
    }
    EveryInterleavingAlternates(expectsExecutor, waits, es);
  }

  /** An ordinary viewer gets its frames when the grace is over, unless it paused or is hosted. */
  lemma TheGraceTimerStarts(es: seq<Event>)
    requires forall e :: e in es ==> !e.GraceTimer? && !e.CleanupBegins?
    ensures var v := AfterAll(Opened(false, false), es + [GraceTimer(false)]); Streaming(v) <==> v.streamActive
  {
    var all := es + [GraceTimer(false)];
    FramesFlowExactlyWhenAskedFor(false, false, all);
    OneMoreWanted(false, es, GraceTimer(false));
    OneMoreAsked(false, false, es, GraceTimer(false));
  }

  /** A viewer whose host did not come back gets them when the race times out, unless it paused or asked for another rendering. */
  lemma TheRaceReleases(expectsExecutor: bool, es: seq<Event>)
    requires forall e :: e in es ==> !e.RaceEnds? && !e.CleanupBegins?
    ensures Start !in AfterAll(Opened(expectsExecutor, true), es).calls
    ensures var v := AfterAll(Opened(expectsExecutor, true), es + [RaceEnds(true)] + [RaceTimesOut(false)]);
            Streaming(v) <==> v.streamActive
  {
    var released, all := es + [RaceEnds(true)], es + [RaceEnds(true)] + [RaceTimesOut(false)];
    NothingStartsWhileWaiting(expectsExecutor, es);
    FramesFlowExactlyWhenAskedFor(expectsExecutor, true, all);
    OneMoreWanted(true, es, RaceEnds(true));
    OneMoreTimedOut(true, es, RaceEnds(true));
    OneMoreWanted(true, released, RaceTimesOut(false));
    OneMoreAsked(expectsExecutor, true, released, RaceTimesOut(false));
  }

  lemma NothingStartsWhileWaiting(expectsExecutor: bool, es: seq<Event>)
    requires forall e :: e in es ==> !e.RaceEnds? && !e.CleanupBegins?
    ensures Start !in AfterAll(Opened(expectsExecutor, true), es).calls
  {
    FramesFlowExactlyWhenAskedFor(expectsExecutor, true, es);
    EveryInterleavingAlternates(expectsExecutor, true, es);
    forall k | 0 <= k < |es| ensures Waiting(true, es[..k]) {
      assert forall e :: e in es[..k] ==> e in es;
    }
  }

  /** A pause is obeyed at once, and so is a resume under no host. */
  lemma PausesAndResumesAreObeyed(expectsExecutor: bool, waits: bool, es: seq<Event>, hosting: bool)
    requires CleanupBegins !in es
    ensures var v := AfterAll(Opened(expectsExecutor, waits), es + [SetStream(false, hosting)]); !v.streamActive && !Streaming(v)
    ensures !Waiting(waits, es) ==> Streaming(AfterAll(Opened(expectsExecutor, waits), es + [SetStream(true, false)]))
  {
    FramesFlowExactlyWhenAskedFor(expectsExecutor, waits, es + [SetStream(false, hosting)]);
    OneMoreWanted(waits, es, SetStream(false, hosting));
    FramesFlowExactlyWhenAskedFor(expectsExecutor, waits, es + [SetStream(true, false)]);
    OneMoreWanted(waits, es, SetStream(true, false));
    OneMoreAsked(expectsExecutor, waits, es, SetStream(true, false));
  }

  /**
   * "No screencast under a host" holds of the grace timer and of a resume after a
   * pause; a viewer that was never started and never paused is started under a host by
   * the first resume it sends.
   */
  lemma AStartUnderAHostExactlyWhen(v: Viewer, e: Event)
    requires (e.GraceTimer? || e.SetStream?) && e.hosting
    ensures After(v, e).calls == v.calls + [Start] <==>
              e.SetStream? && e.active && v.streamActive && !v.started && !v.waiting && !v.cancelled
    ensures After(Opened(false, false), SetStream(true, true)).calls == [Start]
  {
    assert (v.calls + [Start])[|v.calls|] == Start && (v.calls + [Stop])[|v.calls|] == Stop;
    assert v.calls != v.calls + [Start];
  }

  /** No start is issued once cleanup begins: what follows is stops only. */
  lemma {:induction false} NoStartAfterCleanup(v: Viewer, es: seq<Event>)
    requires Inv(v) && v.cancelled
    ensures Inv(AfterAll(v, es)) && AfterAll(v, es).cancelled
    ensures v.calls <= AfterAll(v, es).calls
    ensures forall c :: c in AfterAll(v, es).calls[|v.calls|..] ==> c == Stop
    ensures CleanupStops in es ==> |AfterAll(v, es).calls| > |v.calls|
  {
    if es != [] {
      var before := AfterAll(v, es[..|es| - 1]);
      NoStartAfterCleanup(v, es[..|es| - 1]);
      EventKeepsInv(before, es[|es| - 1]);
      if CleanupStops in es && es[|es| - 1] != CleanupStops {
        assert CleanupStops in es[..|es| - 1];
      }
      if es[|es| - 1] == CleanupStops {
        assert AfterAll(v, es).calls == before.calls + [Stop];
      }
      assert AfterAll(v, es).calls[|v.calls|..] == before.calls[|v.calls|..] + AfterAll(v, es).calls[|before.calls|..];
    }
  }

  /** Once cleanup has run through, every start was followed by a later stop. */
  lemma EveryStartIsStopped(expectsExecutor: bool, waits: bool, before: seq<Event>, es: seq<Event>)
    requires CleanupStops in es
    ensures var v := AfterAll(After(AfterAll(Opened(expectsExecutor, waits), before), CleanupBegins), es);
            && v.calls != [] && v.calls[|v.calls| - 1] == Stop
            && forall i :: 0 <= i < |v.calls| && v.calls[i] == Start ==> exists k :: i < k < |v.calls| && v.calls[k] == Stop
  {
    EveryInterleavingAlternates(expectsExecutor, waits, before);
    var open := AfterAll(Opened(expectsExecutor, waits), before);
    EventKeepsInv(open, CleanupBegins);
    var closing := After(open, CleanupBegins);
    NoStartAfterCleanup(closing, es);
    var v := AfterAll(closing, es);
    LastOfTheTail(closing.calls, v.calls);
  }

  lemma LastOfTheTail(before: seq<Call>, calls: seq<Call>)
    requires before <= calls && |before| < |calls| && forall c :: c in calls[|before|..] ==> c == Stop
    ensures calls[|calls| - 1] == Stop
    ensures forall i :: 0 <= i < |calls| && calls[i] == Start ==> exists k :: i < k < |calls| && calls[k] == Stop
  {
    var tail := calls[|before|..];
    assert calls[|calls| - 1] == tail[|tail| - 1] && tail[|tail| - 1] in tail;
  }
}
