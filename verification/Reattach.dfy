/**
 * The pass that gives every session the broker kept its fate (`reattachSurvivors`
 * in server.ts): adopt the turns that go on, end the children nobody needs, leave
 * alone whatever is claimed or in doubt. The collaborators it asks are arbitrary.
 */
module Reattach {
  import opened Options

  type Key = string

  /** `topic:` children carry their session key as id; a native turn runs under `native:<key>`. */
  datatype BrokerId = Chat(key: Key) | NativeTurn(key: Key) | Other(name: string)

  datatype Session = Session(id: BrokerId, alive: bool)

  datatype Topic = Gone | Archived | Open

  /** `Unknown` is also what a probe that throws, or a missing provider, amounts to. */
  datatype TurnState = TurnOpen | Idle | Unknown

  /** Every answer the pass may get. `claims` is `None` when the claim query fails. */
  datatype World = World(
    bridgeEnabled: bool, sessions: Option<seq<Session>>, claims: Option<set<Key>>,
    nativeDetached: bool, endedWhileDown: set<Key>, midTurn: set<Key>,
    topic: Key -> Topic, brokerSays: Key -> TurnState,
    turnProcessAlive: Key -> bool, ownsSession: Key -> bool)

  datatype Fate = Adopt(id: BrokerId) | Kill(id: BrokerId)

  predicate ListedChat(s: Session) {
    s.alive && s.id.Chat?
  }

  predicate ListedNative(w: World, s: Session) {
    s.id.NativeTurn? && w.nativeDetached && (s.alive || (s.id.key in w.endedWhileDown && s.id.key in w.midTurn))
  }

  predicate Claimed(w: World, sk: Key) {
    w.claims.Some? && sk in w.claims.value
  }

  ghost predicate DistinctIds(sessions: seq<Session>) {
    forall i, j :: 0 <= i < j < |sessions| ==> sessions[i].id != sessions[j].id
  }

  /** What the pass promises about a turn it re-adopts. */
  predicate ShouldAdopt(w: World, s: Session) {
    && !s.id.Other? && !Claimed(w, s.id.key)
    && if s.id.NativeTurn? then ListedNative(w, s) && w.topic(s.id.key) == Open
       else ListedChat(s) && w.topic(s.id.key) == Open
            && (s.id.key in w.midTurn || w.brokerSays(s.id.key) == TurnOpen)
  }

  /** And about a child it ends. */
  predicate ShouldKill(w: World, s: Session) {
    && !s.id.Other? && !Claimed(w, s.id.key)
    && if s.id.NativeTurn? then ListedNative(w, s) && w.topic(s.id.key) != Open
       else
         && ListedChat(s) && !w.turnProcessAlive(s.id.key)
         && (w.topic(s.id.key) == Open ==>
               s.id.key !in w.midTurn && w.brokerSays(s.id.key) == Idle && !w.ownsSession(s.id.key))
  }

  class ReattachPass {
    var fates: seq<Fate>
    var adopted: set<Key>

    constructor ()
      ensures fates == [] && adopted == {}
    {
      fates, adopted := [], {};
    }

    /** One native turn: its own process, or what that process left when it ended. */
    method DecideNative(w: World, s: Session)
      requires ListedNative(w, s)
      modifies this
      ensures fates == old(fates) + if ShouldAdopt(w, s) then [Adopt(s.id)] else if ShouldKill(w, s) then [Kill(s.id)] else []
      ensures adopted == old(adopted) + if ShouldAdopt(w, s) then {s.id.key} else {}
    {
      if Claimed(w, s.id.key) { return; }
      if w.topic(s.id.key) != Open {
        fates := fates + [Kill(s.id)];
        return;
      }
      adopted := adopted + {s.id.key};
      fates := fates + [Adopt(s.id)];
    }

    /** One live chat child. */
    method DecideChat(w: World, s: Session)
      requires ListedChat(s)
      modifies this
      ensures fates == old(fates) + if ShouldAdopt(w, s) then [Adopt(s.id)] else if ShouldKill(w, s) then [Kill(s.id)] else []
      ensures adopted == old(adopted) + if ShouldAdopt(w, s) then {s.id.key} else {}
    {
      if Claimed(w, s.id.key) { return; }
      var adoptable := w.topic(s.id.key) == Open;
      var says := Unknown;
      if adoptable && s.id.key !in w.midTurn {
        says := w.brokerSays(s.id.key);
        if says == Unknown { return; }
      }
      if adoptable && (s.id.key in w.midTurn || says == TurnOpen) {
        adopted := adopted + {s.id.key};
        fates := fates + [Adopt(s.id)];
        return;
      }
      if w.turnProcessAlive(s.id.key) { return; }
      if adoptable && w.ownsSession(s.id.key) { return; }
      fates := fates + [Kill(s.id)];
    }

    /**
     * The whole pass, or as much of it as ran before something threw: the two counts
     * are how many sessions each loop looked at. Every listed id gets at most one
     * fate, and gets one exactly when it should.
     */
    method ReattachSurvivors(w: World, natives: nat, chats: nat)
      requires fates == [] && adopted == {}
      requires w.sessions.Some? ==>
                 forall i, j :: 0 <= i < j < |w.sessions.value| ==> w.sessions.value[i].id != w.sessions.value[j].id
      modifies this
      ensures !w.bridgeEnabled || w.sessions.None? || w.claims.None? ==> fates == []
      ensures forall f :: f in fates ==>
                exists s :: w.sessions.Some? && s in w.sessions.value && s.id == f.id && (if f.Adopt? then ShouldAdopt(w, s) else ShouldKill(w, s))
      ensures w.bridgeEnabled && w.sessions.Some? && w.claims.Some? && natives >= |w.sessions.value| && chats >= |w.sessions.value| ==>
                forall s :: s in w.sessions.value && s.id.Chat? ==>
                  && (Adopt(s.id) in fates <==>
                        && s.alive && s.id.key !in w.claims.value && w.topic(s.id.key) == Open
                        && (s.id.key in w.midTurn || w.brokerSays(s.id.key) == TurnOpen))
                  && (Kill(s.id) in fates <==>
                        && s.alive && s.id.key !in w.claims.value && !w.turnProcessAlive(s.id.key)
                        && (w.topic(s.id.key) != Open
                            || (s.id.key !in w.midTurn && w.brokerSays(s.id.key) == Idle && !w.ownsSession(s.id.key))))
      ensures w.bridgeEnabled && w.sessions.Some? && w.claims.Some? && natives >= |w.sessions.value| ==>
                forall s :: s in w.sessions.value && s.id.NativeTurn? ==>
                  ((if w.topic(s.id.key) == Open then Adopt(s.id) else Kill(s.id)) in fates <==>
                     && w.nativeDetached && s.id.key !in w.claims.value
                     && (s.alive || (s.id.key in w.endedWhileDown && s.id.key in w.midTurn)))
      ensures forall f :: f in fates && f.id.NativeTurn? ==> (f.Adopt? <==> w.topic(f.id.key) == Open)
      ensures forall i, j :: 0 <= i < j < |fates| ==> fates[i].id != fates[j].id
      ensures forall f :: f in fates ==> !f.id.Other? && !Claimed(w, f.id.key)
      ensures forall f :: f in fates && f.Kill? && f.id.Chat? && w.topic(f.id.key) == Open ==>
                f.id.key !in w.midTurn && w.brokerSays(f.id.key) == Idle
      ensures forall k :: k in adopted <==> Adopt(Chat(k)) in fates || Adopt(NativeTurn(k)) in fates
    {
      if !w.bridgeEnabled || w.sessions.None? || w.claims.None? { return; }
      var sessions := w.sessions.value;
      DecideNatives(w, if natives < |sessions| then natives else |sessions|);
      if natives >= |sessions| {
        DecideChats(w, if chats < |sessions| then chats else |sessions|);
      }
      AdoptedOnce(fates);
    }

    /** The loop over native turns, as far as it got. */
    method DecideNatives(w: World, count: nat)
      requires fates == [] && adopted == {} && w.sessions.Some? && DistinctIds(w.sessions.value) && count <= |w.sessions.value|
      modifies this
      ensures Decided(w, w.sessions.value, count, 0, fates) && adopted == AdoptedBy(fates)
    {
      for i := 0 to count
        invariant Decided(w, w.sessions.value, i, 0, fates) && adopted == AdoptedBy(fates)
      {
        var s := w.sessions.value[i];
        ghost var before := fates;
        if ListedNative(w, s) {
          DecideNative(w, s);
        }
        AdoptedGrows(before, fates);
        OneMoreDecided(w, w.sessions.value, i, 0, before, fates);
      }
    }

    /** The loop over live chat children, as far as it got. */
    method DecideChats(w: World, count: nat)
      requires w.sessions.Some? && DistinctIds(w.sessions.value) && count <= |w.sessions.value|
      requires Decided(w, w.sessions.value, |w.sessions.value|, 0, fates) && adopted == AdoptedBy(fates)
      modifies this
      ensures Decided(w, w.sessions.value, |w.sessions.value|, count, fates) && adopted == AdoptedBy(fates)
    {
      for i := 0 to count
        invariant Decided(w, w.sessions.value, |w.sessions.value|, i, fates) && adopted == AdoptedBy(fates)
      {
        var s := w.sessions.value[i];
        ghost var before := fates;
        if ListedChat(s) {
          DecideChat(w, s);
        }
        AdoptedGrows(before, fates);
        OneMoreDecided(w, w.sessions.value, |w.sessions.value|, i, before, fates);
      }
    }
  }

  lemma AdoptedOnce(fates: seq<Fate>)
    requires forall f :: f in fates ==> !f.id.Other?
    ensures forall k :: k in AdoptedBy(fates) <==> Adopt(Chat(k)) in fates || Adopt(NativeTurn(k)) in fates
  {
    forall k ensures k in AdoptedBy(fates) <==> Adopt(Chat(k)) in fates || Adopt(NativeTurn(k)) in fates {
      if k in AdoptedBy(fates) {
        var f :| f in fates && f.Adopt? && !f.id.Other? && f.id.key == k;
        assert f == Adopt(Chat(k)) || f == Adopt(NativeTurn(k));
      }
    }
  }

  function AdoptedBy(fates: seq<Fate>): set<Key> {
    set f | f in fates && f.Adopt? && !f.id.Other? :: f.id.key
  }

  lemma AdoptedGrows(before: seq<Fate>, fates: seq<Fate>)
    requires before == fates || (|fates| == |before| + 1 && fates == before + [fates[|before|]])
    ensures fates == before ==> AdoptedBy(fates) == AdoptedBy(before)
    ensures fates != before ==> var f := fates[|before|];
              AdoptedBy(fates) == AdoptedBy(before) + if f.Adopt? && !f.id.Other? then {f.id.key} else {}
  {
    if fates != before {
      var f := fates[|before|];
      assert f in fates && forall g :: g in fates <==> g in before || g == f;
    }
  }

  /** The fates after the first `natives` sessions of the first loop and `chats` of the second. */
  ghost predicate Decided(w: World, sessions: seq<Session>, natives: nat, chats: nat, fates: seq<Fate>)
    requires natives <= |sessions| && chats <= |sessions|
  {
    && (forall f :: f in fates ==>
          exists i :: 0 <= i < |sessions| && sessions[i].id == f.id
                      && (if f.Adopt? then ShouldAdopt(w, sessions[i]) else ShouldKill(w, sessions[i]))
                      && (if f.id.NativeTurn? then i < natives else i < chats))
    && (forall i :: 0 <= i < |sessions| && (if sessions[i].id.NativeTurn? then i < natives else sessions[i].id.Chat? && i < chats) ==>
          && (ShouldAdopt(w, sessions[i]) ==> Adopt(sessions[i].id) in fates)
          && (ShouldKill(w, sessions[i]) ==> Kill(sessions[i].id) in fates))
    && (forall i, j :: 0 <= i < j < |fates| ==> fates[i].id != fates[j].id)
  }

  lemma OneMoreDecided(w: World, sessions: seq<Session>, natives: nat, chats: nat, before: seq<Fate>, fates: seq<Fate>)
    requires DistinctIds(sessions) && natives <= |sessions| && chats <= |sessions|
    requires Decided(w, sessions, natives, chats, before)
    requires (natives < |sessions| && chats == 0) || (natives == |sessions| && chats < |sessions|)
    requires var s := sessions[if natives < |sessions| then natives else chats];
             var listed := if natives < |sessions| then ListedNative(w, s) else ListedChat(s);
             fates == before + if listed && ShouldAdopt(w, s) then [Adopt(s.id)] else if listed && ShouldKill(w, s) then [Kill(s.id)] else []
    ensures if natives < |sessions| then Decided(w, sessions, natives + 1, 0, fates) else Decided(w, sessions, natives, chats + 1, fates)
  {
  }
}
