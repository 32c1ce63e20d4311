/**
 * The wait of a planned restart and the dispatcher's door
 * (`runDispatcherQuiescentWait` in server.ts, with its rules from
 * server/lib/quiescence.ts). A lap is one turn of its endless loop; the wait is run
 * over any finite number of them. Times are epoch milliseconds.
 */
module Quiescence {

  /** What `whatIsStillWorking` answers, and the clock at each reading of the lap. */
  datatype Lap = Lap(
    busy: bool, cards: nat, chats: nat, unadoptable: nat, lostWorkingChats: nat,
    everyTurnComesBack: bool, zeroTurns: bool,
    verdictAt: int, thresholdAt: int, noticeAt: int)

  datatype Verdict = Proceed | Wait | Expired | Defer

  datatype Outcome = Quiet | CutShort | StillWaiting

  predicate DoorOpens(lap: Lap) {
    lap.chats > 0
  }

  function UnrecoverableHolders(lap: Lap): nat {
    lap.cards + if lap.zeroTurns then lap.lostWorkingChats else lap.unadoptable
  }

  function ChatGraceMs(lap: Lap, chatCapMs: int): int {
    if UnrecoverableHolders(lap) == 0 && lap.everyTurnComesBack then 0 else chatCapMs
  }

  function VerdictOf(lap: Lap, startedAt: int, chatCapMs: int): Verdict {
    if !lap.busy then Proceed
    else if UnrecoverableHolders(lap) > 0 then Defer
    else if lap.verdictAt - startedAt < ChatGraceMs(lap, chatCapMs) then Wait
    else Expired
  }

  function NoticeAfterMs(lap: Lap, capMs: int, chatCapMs: int): int {
    if lap.cards > 0 then capMs else chatCapMs
  }

  /** `reloadHeldNotice` reads the clock again and composes nothing before the threshold. */
  predicate NoticeDue(lap: Lap, startedAt: int, capMs: int, chatCapMs: int) {
    && VerdictOf(lap, startedAt, chatCapMs) == Defer
    && lap.thresholdAt - startedAt >= NoticeAfterMs(lap, capMs, chatCapMs)
    && lap.noticeAt - startedAt >= NoticeAfterMs(lap, capMs, chatCapMs)
  }

  // ----- what the wait promises, said of the laps alone ------------------------------

  /** The dispatcher starts no card turn after lap `k`: nothing is working, or only cards are. */
  predicate ClosedAfter(lap: Lap) {
    !lap.busy || lap.chats == 0
  }

  /** The door was already closed when the look of lap `k` began. */
  predicate ClosedBefore(laps: seq<Lap>, k: nat)
    requires k <= |laps|
  {
    k == 0 || ClosedAfter(laps[k - 1])
  }

  /** The wait ends at lap `k`. */
  predicate EndsAt(laps: seq<Lap>, k: nat, startedAt: int, chatCapMs: int)
    requires k < |laps|
  {
    if laps[k].busy then VerdictOf(laps[k], startedAt, chatCapMs) == Expired else ClosedBefore(laps, k)
  }

  /** What the process shows to the rest of the world while the restart waits. */
  class RestartGate {
    /** The dispatcher's own drain token: no new card turn starts while it is set. */
    var draining: bool
    /** The heartbeat that keeps the supervisor from sending its SIGTERM. */
    var heartbeat: bool
    /** The times of the recorded held-restart notices. */
    var notices: seq<int>

    constructor ()
      ensures !draining && !heartbeat && notices == []
    {
      draining, heartbeat, notices := false, false, [];
    }

    method Drain()
      modifies this`draining
      ensures draining
    {
      draining := true;
    }

    method Undrain()
      modifies this`draining
      ensures !draining
    {
      draining := false;
    }

    /** The door follows who is holding: open exactly while a chat is. */
    method FollowTheHolders(lap: Lap, doorClosed: bool) returns (closed: bool)
      requires doorClosed == draining
      modifies this`draining
      ensures closed == draining && (draining <==> lap.chats == 0)
    {
      closed := doorClosed;
      if DoorOpens(lap) && doorClosed {
        Undrain();
        closed := false;
      } else if !DoorOpens(lap) && !doorClosed {
        Drain();
        closed := true;
      }
    }

    /** A deferral is declared at once; a person is called once, after the long cap for a card and the chats' one otherwise. */
    method Defers(lap: Lap, noticed: bool, startedAt: int, capMs: int, chatCapMs: int) returns (called: bool)
      requires VerdictOf(lap, startedAt, chatCapMs) == Defer
      modifies this`heartbeat, this`notices
      ensures heartbeat && (called <==> noticed || NoticeDue(lap, startedAt, capMs, chatCapMs))
      ensures notices == if called && !noticed then old(notices) + [lap.noticeAt] else old(notices)
    {
      heartbeat := true;
      called := noticed;
      if !noticed && lap.thresholdAt - startedAt >= NoticeAfterMs(lap, capMs, chatCapMs) {
        if lap.noticeAt - startedAt >= NoticeAfterMs(lap, capMs, chatCapMs) {
          called := true;
          notices := notices + [lap.noticeAt];
        }
      }
    }

    /**
     * One wait. It ends at the first lap where it may: at a look that found nothing
     * working and began with the door already closed, or at an expiry. A card, or a
     * chat whose turn would not come back, is never cut: it raises the heartbeat and
     * the wait goes on. The dispatcher is left drained in the first case; in the second
     * the door stays as the last look left it, open exactly when a chat was holding.
     */
    method RunWait(startedAt: int, capMs: int, chatCapMs: int, laps: seq<Lap>) returns (outcome: Outcome, ended: nat)
      modifies this
      ensures ended <= |laps| && (outcome == StillWaiting <==> ended == |laps|)
      ensures forall k :: 0 <= k < ended ==> !EndsAt(laps, k, startedAt, chatCapMs)
      ensures outcome != StillWaiting ==> EndsAt(laps, ended, startedAt, chatCapMs)
      ensures outcome == Quiet ==> !laps[ended].busy && ClosedBefore(laps, ended) && draining && !heartbeat
      ensures outcome == CutShort ==>
                && laps[ended].busy && laps[ended].cards == 0
                && (if laps[ended].zeroTurns then laps[ended].lostWorkingChats else laps[ended].unadoptable) == 0
                && laps[ended].verdictAt - startedAt >= (if laps[ended].everyTurnComesBack then 0 else chatCapMs)
                && (draining <==> laps[ended].chats == 0)
      ensures outcome == StillWaiting ==> (draining <==> ClosedBefore(laps, ended))
      ensures outcome != Quiet ==>
                (heartbeat <==> old(heartbeat)
                                || exists k :: 0 <= k < ended && laps[k].busy
                                     && (laps[k].cards > 0 || (if laps[k].zeroTurns then laps[k].lostWorkingChats else laps[k].unadoptable) > 0))
      ensures (forall k :: 0 <= k < ended ==> !NoticeDue(laps[k], startedAt, capMs, chatCapMs)) ==> notices == old(notices)
      ensures (exists k :: 0 <= k < ended && NoticeDue(laps[k], startedAt, capMs, chatCapMs)) ==>
                exists k :: 0 <= k < ended && NoticeDue(laps[k], startedAt, capMs, chatCapMs)
                            && notices == old(notices) + [laps[k].noticeAt]
                            && forall j :: 0 <= j < k ==> !NoticeDue(laps[j], startedAt, capMs, chatCapMs)
    {
      Drain();
      var noticed, doorClosed := false, true;
      ghost var first := 0;
      ended := 0;
      while ended < |laps|
        invariant ended <= |laps|
        invariant doorClosed == draining && (draining <==> ClosedBefore(laps, ended))
        invariant forall k :: 0 <= k < ended ==> !EndsAt(laps, k, startedAt, chatCapMs)
        invariant heartbeat <==> old(heartbeat)
                                 || exists k :: 0 <= k < ended && laps[k].busy
                                      && (laps[k].cards > 0 || (if laps[k].zeroTurns then laps[k].lostWorkingChats else laps[k].unadoptable) > 0)
        invariant !noticed ==> notices == old(notices) && forall k :: 0 <= k < ended ==> !NoticeDue(laps[k], startedAt, capMs, chatCapMs)
        invariant noticed ==> first < ended && NoticeDue(laps[first], startedAt, capMs, chatCapMs)
                              && notices == old(notices) + [laps[first].noticeAt]
                              && forall j :: 0 <= j < first ==> !NoticeDue(laps[j], startedAt, capMs, chatCapMs)
      {
        var lap := laps[ended];
        if !lap.busy {
          if doorClosed {
            heartbeat := false;
            return Quiet, ended;
          }
          Drain();
          doorClosed := true;
        } else {
          doorClosed := FollowTheHolders(lap, doorClosed);
          var verdict := VerdictOf(lap, startedAt, chatCapMs);
          if verdict == Defer {
            var called := Defers(lap, noticed, startedAt, capMs, chatCapMs);
            first := if called && !noticed then ended else first;
            noticed := called;
          } else if verdict == Expired {
            return CutShort, ended;
          }
        }
        ended := ended + 1;
      }
      outcome := StillWaiting;
    }
  }

  // ----- the rules, in a lap's own fields ----------------------------------------------------

  /**
   * A look that finds somebody at work ends the wait exactly when nobody would lose
   * work, a card or a chat whose turn would not come back, and the chats had their
   * minute, which none has that all come back; a look that finds nobody ends it exactly
   * when it is the first or the one before found nobody or no chat.
   */
  lemma WhenAWaitEnds(laps: seq<Lap>, k: nat, startedAt: int, chatCapMs: int)
    requires k < |laps|
    ensures laps[k].busy ==>
              (EndsAt(laps, k, startedAt, chatCapMs) <==>
                && laps[k].cards == 0
                && (if laps[k].zeroTurns then laps[k].lostWorkingChats else laps[k].unadoptable) == 0
                && laps[k].verdictAt - startedAt >= (if laps[k].everyTurnComesBack then 0 else chatCapMs))
    ensures !laps[k].busy ==>
              (EndsAt(laps, k, startedAt, chatCapMs) <==> k == 0 || !laps[k - 1].busy || laps[k - 1].chats == 0)
  {
  }

  /** A person is called for work that would be lost: after the long cap for a card, after the chats' one otherwise. */
  lemma WhenAPersonIsCalled(lap: Lap, startedAt: int, capMs: int, chatCapMs: int)
    ensures lap.busy && lap.cards > 0 ==>
              (NoticeDue(lap, startedAt, capMs, chatCapMs) <==> lap.thresholdAt - startedAt >= capMs && lap.noticeAt - startedAt >= capMs)
    ensures lap.busy && lap.cards == 0 && (if lap.zeroTurns then lap.lostWorkingChats else lap.unadoptable) > 0 ==>
              (NoticeDue(lap, startedAt, capMs, chatCapMs) <==> lap.thresholdAt - startedAt >= chatCapMs && lap.noticeAt - startedAt >= chatCapMs)
    ensures !lap.busy || (lap.cards == 0 && (if lap.zeroTurns then lap.lostWorkingChats else lap.unadoptable) == 0) ==>
              !NoticeDue(lap, startedAt, capMs, chatCapMs)
  {
  }

  // ----- what a quiet end means for the board ---------------------------------------------

  /**
   * This machine's cards: those whose work a restart would lose, lands included, and
   * those that the look leaves out, because they are parked on the server's own checks
   * with no command running or because their turn comes back after a restart.
   */
  datatype Cards = Cards(holding: set<nat>, aside: set<nat>)

  datatype Change =
    | Starts(id: nat)       // the dispatcher starts a turn; a drained one does not
    | Joins(id: nat)        // a land is queued, or a surviving turn is adopted: no drain prevents it
    | StepsAside(id: nat)   // its delivery only waits on the checks, or its turn now survives a restart
    | CountsAgain(id: nat)  // a check command of its delivery starts running, or its turn no longer survives one
    | Ends(id: nat)

  function AfterChange(c: Cards, change: Change): Cards {
    match change
    case Starts(id) => Cards(c.holding + {id}, c.aside - {id})
    case Joins(id) => Cards(c.holding + {id}, c.aside - {id})
    case StepsAside(id) => if id in c.holding then Cards(c.holding - {id}, c.aside + {id}) else c
    case CountsAgain(id) => if id in c.aside then Cards(c.holding + {id}, c.aside - {id}) else c
    case Ends(id) => Cards(c.holding - {id}, c.aside - {id})
  }

  function AfterChanges(c: Cards, changes: seq<Change>): Cards {
    if changes == [] then c else AfterChange(AfterChanges(c, changes[..|changes| - 1]), changes[|changes| - 1])
  }

  /** A card is counted or left out, never both. */
  lemma {:induction false} ACardIsInOnePlace(c: Cards, changes: seq<Change>)
    requires c.holding !! c.aside
    ensures AfterChanges(c, changes).holding !! AfterChanges(c, changes).aside
  {
    if changes != [] {
      ACardIsInOnePlace(c, changes[..|changes| - 1]);
    }
  }

  /** `id` started or joined, and did not end since. */
  ghost predicate IsThereSince(changes: seq<Change>, i: nat, id: nat) {
    && i < |changes| && changes[i] in {Starts(id), Joins(id)}
    && forall j :: i < j < |changes| ==> changes[j] != Ends(id)
  }

  /** A card is at work, counted or not, exactly when it started or joined, or was at work at first, and did not end since. */
  lemma {:induction false} AtWorkExactlyWhen(c: Cards, changes: seq<Change>, id: nat)
    ensures id in AfterChanges(c, changes).holding + AfterChanges(c, changes).aside <==>
              (exists i: nat :: IsThereSince(changes, i, id)) || (id in c.holding + c.aside && Ends(id) !in changes)
  {
    if changes != [] {
      var n := |changes| - 1;
      var init, last := changes[..n], changes[n];
      AtWorkExactlyWhen(c, init, id);
      forall i: nat | i < n ensures IsThereSince(changes, i, id) <==> IsThereSince(init, i, id) && last != Ends(id) {
        assert forall j :: 0 <= j < n ==> init[j] == changes[j];
      }
      assert Ends(id) in changes <==> Ends(id) in init || last == Ends(id);
      if last in {Starts(id), Joins(id)} {
        assert IsThereSince(changes, n, id);
      }
      if i: nat :| IsThereSince(init, i, id) {
        assert last != Ends(id) ==> IsThereSince(changes, i, id);
      }
    }
  }

  /** What happens to the cards during one lap, before and after the look reads them. */
  datatype Meanwhile = Meanwhile(beforeRead: seq<Change>, afterRead: seq<Change>)

  /** The cards when lap `k` begins. */
  function CardsAt(c: Cards, env: seq<Meanwhile>, k: nat): Cards
    requires k <= |env|
    decreases k, 0
  {
    if k == 0 then c else AfterChanges(CardsRead(c, env, k - 1), env[k - 1].afterRead)
  }

  /** The cards that the look of lap `k` reads. */
  function CardsRead(c: Cards, env: seq<Meanwhile>, k: nat): Cards
    requires k < |env|
    decreases k, 1
  {
    AfterChanges(CardsAt(c, env, k), env[k].beforeRead)
  }

  predicate NoStarts(changes: seq<Change>) {
    forall c :: c in changes ==> !c.Starts?
  }

  /** A drained dispatcher starts no card, and a look that finds nothing working read no card that holds. */
  ghost predicate Obeys(laps: seq<Lap>, c: Cards, env: seq<Meanwhile>) {
    && |env| == |laps|
    && (forall k :: 0 <= k < |laps| && ClosedBefore(laps, k) ==> NoStarts(env[k].beforeRead) && NoStarts(env[k].afterRead))
    && (forall k :: 0 <= k < |laps| && !laps[k].busy ==> CardsRead(c, env, k).holding == {})
  }

  /** The change makes `id` hold. */
  predicate Begins(c: Cards, change: Change, id: nat) {
    change == Starts(id) || change == Joins(id) || (change == CountsAgain(id) && id in c.aside)
  }

  predicate LetsGo(change: Change, id: nat) {
    change == StepsAside(id) || change == Ends(id)
  }

  /** The change at `i` makes `id` hold, and nothing after it lets it go. */
  predicate HoldsFrom(c: Cards, changes: seq<Change>, i: nat, id: nat) {
    && i < |changes| && Begins(AfterChanges(c, changes[..i]), changes[i], id)
    && forall j :: i < j < |changes| ==> !LetsGo(changes[j], id)
  }

  lemma HoldsOneChangeMore(c: Cards, changes: seq<Change>, id: nat, i: nat)
    requires changes != [] && i < |changes| - 1
    ensures HoldsFrom(c, changes, i, id) <==> HoldsFrom(c, changes[..|changes| - 1], i, id) && !LetsGo(changes[|changes| - 1], id)
  {
    var init := changes[..|changes| - 1];
    assert init[..i] == changes[..i];
    assert forall j :: 0 <= j < |init| ==> init[j] == changes[j];
  }

  /** Where nobody held at first, a card holds exactly since some change that lasted. */
  lemma {:induction false} HoldingSinceAChange(c: Cards, changes: seq<Change>, id: nat)
    requires c.holding == {}
    ensures id in AfterChanges(c, changes).holding <==> exists i: nat :: HoldsFrom(c, changes, i, id)
  {
    if changes != [] {
      var n := |changes| - 1;
      var init, last := changes[..n], changes[n];
      HoldingSinceAChange(c, init, id);
      forall i: nat | i < n ensures HoldsFrom(c, changes, i, id) <==> HoldsFrom(c, init, i, id) && !LetsGo(last, id) {
        HoldsOneChangeMore(c, changes, id, i);
      }
      if id in AfterChanges(c, changes).holding {
        if Begins(AfterChanges(c, init), last, id) {
          assert HoldsFrom(c, changes, n, id);
        } else {
          var i: nat :| HoldsFrom(c, init, i, id);
          assert HoldsFrom(c, changes, i, id);
        }
      }
      if i: nat :| HoldsFrom(c, changes, i, id) {
        if i < n {
          assert HoldsFrom(c, init, i, id);
        }
      }
    }
  }

  /**
   * A wait that ends quietly ends with a card holding if and only if, after its last
   * look read the cards, that card counts again (its checks started running, or its
   * turn would no longer come back) or joined (a land, an adopted turn) and did not end
   * or step aside since. In particular no card that the dispatcher started, before or
   * meanwhile, holds.
   */
  lemma WhoHoldsAtAQuietEnd(laps: seq<Lap>, c: Cards, env: seq<Meanwhile>, startedAt: int, chatCapMs: int, k: nat, id: nat)
    requires Obeys(laps, c, env) && k < |laps| && !laps[k].busy && EndsAt(laps, k, startedAt, chatCapMs)
    ensures id in CardsAt(c, env, k + 1).holding <==>
              exists i: nat :: HoldsFrom(CardsRead(c, env, k), env[k].afterRead, i, id) && env[k].afterRead[i] in {Joins(id), CountsAgain(id)}
  {
    var read, after := CardsRead(c, env, k), env[k].afterRead;
    HoldingSinceAChange(read, after, id);
    forall i: nat | HoldsFrom(read, after, i, id) ensures after[i] in {Joins(id), CountsAgain(id)} {
      assert after[i] in after;
    }
  }

  /** So nobody holds at a quiet end when no card counts again or joins after the read. */
  lemma NobodyHoldsUnlessOneCountsAgainOrJoins(laps: seq<Lap>, c: Cards, env: seq<Meanwhile>, startedAt: int, chatCapMs: int, k: nat)
    requires Obeys(laps, c, env) && k < |laps| && !laps[k].busy && EndsAt(laps, k, startedAt, chatCapMs)
    requires forall change :: change in env[k].afterRead ==> !change.Joins? && !change.CountsAgain?
    ensures CardsAt(c, env, k + 1).holding == {}
  {
    var holding := CardsAt(c, env, k + 1).holding;
    if id :| id in holding {
      WhoHoldsAtAQuietEnd(laps, c, env, startedAt, chatCapMs, k, id);
      assert false;
    }
  }

  /** A card left out by the last look that counts again behind it holds when the wait ends, the door closed all along. */
  lemma ACardLeftOutCanHoldAtAQuietEnd(quiet: Lap, id: nat, startedAt: int, chatCapMs: int) returns (env: seq<Meanwhile>)
    requires !quiet.busy
    ensures Obeys([quiet], Cards({}, {id}), env) && EndsAt([quiet], 0, startedAt, chatCapMs)
    ensures CardsAt(Cards({}, {id}), env, 1).holding == {id}
  {
    env := [Meanwhile([], [CountsAgain(id)])];
    assert [CountsAgain(id)][..0] == [];
    assert CardsRead(Cards({}, {id}), env, 0) == Cards({}, {id});
  }

  /** What the extra look is for: a quiet look behind an open door can miss a card that the dispatcher starts. */
  lemma AQuietLookBehindAnOpenDoorCanMissACard(busy: Lap, quiet: Lap, id: nat) returns (env: seq<Meanwhile>)
    requires busy.busy && busy.chats > 0 && !quiet.busy
    ensures Obeys([busy, quiet], Cards({}, {}), env) && CardsAt(Cards({}, {}), env, 2).holding == {id}
    ensures env[1].afterRead == [Starts(id)]
    ensures forall startedAt, chatCapMs :: !EndsAt([busy, quiet], 1, startedAt, chatCapMs)
  {
    env := [Meanwhile([], []), Meanwhile([], [Starts(id)])];
    assert CardsAt(Cards({}, {}), env, 1) == Cards({}, {});
    assert [Starts(id)][..0] == [];
    assert CardsRead(Cards({}, {}), env, 1) == Cards({}, {});
  }
}
