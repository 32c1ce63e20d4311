/**
 * Sessions held at boot until each one is decided, and the pass that re-adopts or
 * ends what the broker kept alive (server.ts: the boot holds, `reattachSurvivors`
 * and the chain behind it).
 */
module BootHolds {
  import opened Options

  type Key = string

  /** What the startup sweep found: alive in the broker, ended while down, mid-turn rows. */
  datatype Boot = Boot(live: set<Key>, endedWhileDown: set<Key>, midTurn: set<Key>)

  /** The two hold sets, the ledger's "boot" flags, and every lowering of a flag so far. */
  datatype Holds = Holds(broker: set<Key>, resume: set<Key>, flags: set<Key>, lowered: multiset<Key>)

  function AtBoot(b: Boot): Holds {
    var broker := b.live + b.endedWhileDown * b.midTurn;
    Holds(broker, b.midTurn - broker, broker + (b.midTurn - broker), multiset{})
  }

  datatype Event =
    | PassEnds(adopted: set<Key>)      // the reattach pass returned or threw
    | LegEnds(sk: Key)                 // an adopted turn's reattach leg is over
    | Decided(resuming: set<Key>)      // the resume sweep decided about its sessions
    | ResendStarted(sk: Key)
    | ChainEnds                        // the boot chain settled, failed or not

  /** Which held sessions an event frees. */
  function Freed(h: Holds, e: Event): set<Key> {
    match e
    case PassEnds(adopted) => h.broker - adopted
    case LegEnds(sk) => {sk} * (h.broker + h.resume)
    case Decided(resuming) => h.resume - resuming
    case ResendStarted(sk) => {sk} * (h.broker + h.resume)
    case ChainEnds => h.broker + h.resume
  }

  function After(h: Holds, e: Event): Holds {
    var freed := Freed(h, e);
    Holds(h.broker - freed, h.resume - freed, h.flags - freed, h.lowered + multiset(freed))
  }

  function AfterAll(h: Holds, es: seq<Event>): Holds {
    if es == [] then h else After(AfterAll(h, es[..|es| - 1]), es[|es| - 1])
  }

  lemma SingleRelease(h: Holds, e: Event)
    requires (e.LegEnds? || e.ResendStarted?) && h.broker !! h.resume
    ensures After(h, e) == if e.sk in h.broker + h.resume
                           then Holds(h.broker - {e.sk}, h.resume - {e.sk}, h.flags - {e.sk}, h.lowered + multiset{e.sk})
                           else h
  {
    assert Freed(h, e) == if e.sk in h.broker + h.resume then {e.sk} else {};
    assert multiset({e.sk}) == multiset{e.sk};
  }

  class BootLedger {
    var brokerHolds: set<Key>
    var resumeHolds: set<Key>
    var flags: set<Key>
    var lowered: multiset<Key>

    function State(): Holds
      reads this
    {
      Holds(brokerHolds, resumeHolds, flags, lowered)
    }

    constructor (b: Boot)
      ensures State() == AtBoot(b)
    {
      var broker := b.live + (set sk | sk in b.endedWhileDown && sk in b.midTurn);
      var resume := set sk | sk in b.midTurn && sk !in broker;
      brokerHolds, resumeHolds, lowered := broker, resume, multiset{};
      flags := broker + resume;
    }

    /** Lowers the flag of a held session; a session that is not held keeps whatever flag it has. */
    method ReleaseBootHold(sk: Key)
      modifies this
      ensures State() == if sk in old(brokerHolds + resumeHolds)
                         then Holds(old(brokerHolds) - {sk}, if sk in old(brokerHolds) then old(resumeHolds) else old(resumeHolds) - {sk},
                                    old(flags) - {sk}, old(lowered) + multiset{sk})
                         else old(State())
    {
      if sk in brokerHolds {
        brokerHolds := brokerHolds - {sk};
      } else if sk in resumeHolds {
        resumeHolds := resumeHolds - {sk};
      } else {
        return;
      }
      flags := flags - {sk};
      lowered := lowered + multiset{sk};
    }

    /** The loops that release a whole snapshot of the holds, one session at a time. */
    method ReleaseAll(which: set<Key>)
      requires brokerHolds !! resumeHolds && which <= brokerHolds + resumeHolds
      modifies this
      ensures State() == Holds(old(brokerHolds) - which, old(resumeHolds) - which, old(flags) - which, old(lowered) + multiset(which))
    {
      var left := which;
      while left != {}
        invariant left <= which
        invariant brokerHolds == old(brokerHolds) - (which - left) && resumeHolds == old(resumeHolds) - (which - left)
        invariant flags == old(flags) - (which - left) && lowered == old(lowered) + multiset(which - left)
        decreases left
      {
        var sk :| sk in left;
        ReleaseBootHold(sk);
        left := left - {sk};
        assert which - left == (which - left - {sk}) + {sk};
      }
      assert which - left == which;
    }

    /** Every event of the boot does to the ledger what `After` says. */
    method Handle(e: Event)
      requires brokerHolds !! resumeHolds
      modifies this
      ensures State() == After(old(State()), e)
    {
      match e {
        case PassEnds(adopted) =>
          ReleaseAll(brokerHolds - adopted);
        case Decided(resuming) =>
          ReleaseAll(resumeHolds - resuming);
        case ChainEnds =>
          ReleaseAll(brokerHolds + resumeHolds);
        case _ =>
          SingleRelease(State(), e);
          ReleaseBootHold(e.sk);
      }
    }
  }

  // ----- every reachable boot state ------------------------------------------------------

  /** Flags are up exactly for the two disjoint sets; whoever started held is held or was freed exactly once. */
  ghost predicate Consistent(b: Boot, h: Holds) {
    && h.broker !! h.resume && h.flags == h.broker + h.resume
    && h.broker <= AtBoot(b).broker && h.resume <= AtBoot(b).resume
    && multiset(h.flags) + h.lowered == multiset(AtBoot(b).flags)
  }

  lemma EventKeepsConsistent(b: Boot, h: Holds, e: Event)
    requires Consistent(b, h)
    ensures Consistent(b, After(h, e))
  {
    var freed := Freed(h, e);
    assert freed <= h.flags;
    assert multiset(h.flags - freed) + multiset(freed) == multiset(h.flags);
  }

  lemma {:induction false} EveryBootStateIsConsistent(b: Boot, es: seq<Event>)
    ensures Consistent(b, AfterAll(AtBoot(b), es))
    ensures b.midTurn <= AtBoot(b).flags
  {
    if es != [] {
      EveryBootStateIsConsistent(b, es[..|es| - 1]);
      EventKeepsConsistent(b, AfterAll(AtBoot(b), es[..|es| - 1]), es[|es| - 1]);
    }
  }

  /** No flag is ever lowered twice, and one is lowered only for a session that started held. */
  lemma EachFlagIsLoweredAtMostOnce(b: Boot, es: seq<Event>, sk: Key)
    ensures var h := AfterAll(AtBoot(b), es);
            h.lowered[sk] == (if sk in AtBoot(b).flags && sk !in h.flags then 1 else 0)
  {
    EveryBootStateIsConsistent(b, es);
    var h := AfterAll(AtBoot(b), es);
    assert (multiset(h.flags) + h.lowered)[sk] == multiset(AtBoot(b).flags)[sk];
  }

  /** `e` lets `sk` go; `inBroker` says in which of the two sets it started. */
  predicate LetsGo(e: Event, sk: Key, inBroker: bool) {
    match e
    case PassEnds(adopted) => inBroker && sk !in adopted
    case LegEnds(k) => k == sk
    case Decided(resuming) => !inBroker && sk !in resuming
    case ResendStarted(k) => k == sk
    case ChainEnds => true
  }

  lemma HeldThroughOneEvent(b: Boot, h: Holds, e: Event, sk: Key)
    requires Consistent(b, h)
    ensures sk in After(h, e).flags <==> sk in h.flags && !LetsGo(e, sk, sk in h.broker)
    ensures sk in After(h, e).flags ==> (sk in After(h, e).broker <==> sk in h.broker)
  {
  }

  /** A session is held exactly until the first event that lets it go. */
  lemma {:induction false} HeldUntilLetGo(b: Boot, es: seq<Event>, sk: Key)
    requires sk in AtBoot(b).flags
    ensures sk in AfterAll(AtBoot(b), es).flags <==> forall e :: e in es ==> !LetsGo(e, sk, sk in AtBoot(b).broker)
    ensures sk in AfterAll(AtBoot(b), es).flags ==> (sk in AfterAll(AtBoot(b), es).broker <==> sk in AtBoot(b).broker)
  {
    if es != [] {
      var before, e := es[..|es| - 1], es[|es| - 1];
      HeldUntilLetGo(b, before, sk);
      EveryBootStateIsConsistent(b, before);
      HeldThroughOneEvent(b, AfterAll(AtBoot(b), before), e, sk);
      assert forall x :: x in es <==> x in before || x == e;
    }
  }

  /**
   * The whole ledger, from what startup found and what happened since: a session is
   * held exactly when the broker kept it or it was mid-turn, its leg, its resend and
   * the chain are still to come, and its own decision did not leave it out, which is
   * the pass's for what the broker kept or saw ending and the resume sweep's for the
   * others. The flag of a session is lowered once, when it is let go.
   */
  lemma HeldExactlyWhen(b: Boot, es: seq<Event>, sk: Key)
    ensures sk in AfterAll(AtBoot(b), es).flags <==>
              && (sk in b.live || sk in b.midTurn)
              && LegEnds(sk) !in es && ResendStarted(sk) !in es && ChainEnds !in es
              && (if sk in b.live || sk in b.endedWhileDown
                  then forall adopted :: PassEnds(adopted) in es ==> sk in adopted
                  else forall resuming :: Decided(resuming) in es ==> sk in resuming)
    ensures AfterAll(AtBoot(b), es).lowered[sk] ==
            if (sk in b.live || sk in b.midTurn) && sk !in AfterAll(AtBoot(b), es).flags then 1 else 0
  {
    EveryBootStateIsConsistent(b, es);
    EachFlagIsLoweredAtMostOnce(b, es, sk);
    if sk in AtBoot(b).flags {
      HeldUntilLetGo(b, es, sk);
      NobodyLetsGo(es, sk, sk in AtBoot(b).broker);
    }
  }

  lemma NobodyLetsGo(es: seq<Event>, sk: Key, inBroker: bool)
    ensures (forall e :: e in es ==> !LetsGo(e, sk, inBroker)) <==>
              && LegEnds(sk) !in es && ResendStarted(sk) !in es && ChainEnds !in es
              && (if inBroker then forall adopted :: PassEnds(adopted) in es ==> sk in adopted
                  else forall resuming :: Decided(resuming) in es ==> sk in resuming)
  {
    assert forall e :: e in es && LetsGo(e, sk, inBroker) ==>
        e == LegEnds(sk) || e == ResendStarted(sk) || e == ChainEnds
        || (inBroker && e.PassEnds? && sk !in e.adopted) || (!inBroker && e.Decided? && sk !in e.resuming);
  }

  /** Whatever happens around it, the end of the pass frees every broker session it did not adopt. */
  lemma NonAdoptedAreFreeAfterThePass(b: Boot, es: seq<Event>, adopted: set<Key>)
    requires PassEnds(adopted) in es
    ensures AfterAll(AtBoot(b), es).broker <= adopted
    ensures forall sk :: sk in b.live && sk !in adopted ==> sk !in AfterAll(AtBoot(b), es).flags
  {
    EveryBootStateIsConsistent(b, es);
    forall sk | sk in AtBoot(b).broker && sk !in adopted
      ensures sk !in AfterAll(AtBoot(b), es).flags
    {
      HeldUntilLetGo(b, es, sk);
      assert LetsGo(PassEnds(adopted), sk, true);
    }
  }

  /** Past the boot chain nobody is held, and every flag raised at boot was lowered exactly once. */
  lemma NobodyIsHeldPastTheChain(b: Boot, es: seq<Event>)
    requires ChainEnds in es
    ensures AfterAll(AtBoot(b), es).flags == {}
    ensures AfterAll(AtBoot(b), es).lowered == multiset(AtBoot(b).flags)
  {
    EveryBootStateIsConsistent(b, es);
    forall sk | sk in AtBoot(b).flags ensures sk !in AfterAll(AtBoot(b), es).flags {
      HeldUntilLetGo(b, es, sk);
      assert LetsGo(ChainEnds, sk, sk in AtBoot(b).broker);
    }
  }

  /**
   * An adopted session the startup list had seen keeps its hold past the pass until
   * its own leg, its own resend or the chain; the resume sweep's decision is not its
   * business.
   */
  lemma AdoptedBrokerSessionKeepsItsHold(b: Boot, es: seq<Event>, sk: Key)
    requires sk in AtBoot(b).broker && forall e :: e in es && e.PassEnds? ==> sk in e.adopted
    requires LegEnds(sk) !in es && ResendStarted(sk) !in es && ChainEnds !in es
    ensures sk in AfterAll(AtBoot(b), es).flags
  {
    HeldUntilLetGo(b, es, sk);
  }

  /**
   * An adopted session that startup held for the resume instead (the broker did not
   * answer the first list) loses its hold to that decision before its leg is over.
   */
  lemma AdoptedResumeSessionIsFreedByTheDecision(b: Boot, sk: Key, adopted: set<Key>, resuming: set<Key>)
    requires sk in b.midTurn && sk !in b.live && sk !in b.endedWhileDown && sk in adopted
    ensures sk in AfterAll(AtBoot(b), [PassEnds(adopted)]).flags
    ensures sk in AfterAll(AtBoot(b), [PassEnds(adopted), Decided(resuming)]).flags <==> sk in resuming
  {
    HeldUntilLetGo(b, [PassEnds(adopted)], sk);
    HeldUntilLetGo(b, [PassEnds(adopted), Decided(resuming)], sk);
    assert Decided(resuming) in [PassEnds(adopted), Decided(resuming)];
  }
}
