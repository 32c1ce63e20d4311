/**
 * The off-disk copy of the nightly snapshot and its receipt
 * (scripts/backup-offsite.ts). The upload is not atomic, the process may die between
 * any two effects, and the receipt is trusted later without the network.
 */
module OffsiteBackup {
  import opened Options

  type Bytes = string

  /** A digest that two different contents never share. */
  datatype Digest = Sha256(of: Bytes)

  /** `topics-<sun|mon|tue|wed|thu|fri|sat>.db.zst`, by the weekday's number. */
  datatype Slot = Slot(weekday: nat)

  datatype Receipt = Receipt(name: string, slot: Slot, bytes: nat, sha256: Digest, at: int)

  /** Local snapshots, the receipt beside them, and the remote slots. */
  datatype Stores = Stores(local: map<string, Bytes>, receipt: Option<Receipt>, remote: map<Slot, Bytes>)

  const MAX_AGE_DAYS: real := 2.0
  const DAY_MS: int := 86_400_000

  /** The slot of a local day, counted from a Sunday: one per weekday. */
  function OffsiteSlot(localDay: nat): Slot {
    Slot(localDay % 7)
  }

  // ----- one copy -------------------------------------------------------------------

  /** What the outside does to one copy. `slotAfter` is whatever an upload, whole or cut, leaves in the slot. */
  datatype Night = Night(
    name: string, at: int, localDay: nat,
    sameMachine: bool, sshAnswers: bool,
    uploadOk: bool, slotAfter: Option<Bytes>, readBackOk: bool,
    effectsBeforeDeath: nat)

  datatype Outcome =
    | Copied(receipt: Receipt)
    | DestinationIsThisMachine
    | NoSshAnswer
    | UploadFailed
    | ReadBackFailed
    | CopyDiffers
    | Died

  function WithSlot(remote: map<Slot, Bytes>, slot: Slot, content: Option<Bytes>): map<Slot, Bytes> {
    if content.Some? then remote[slot := content.value] else remote - {slot}
  }

  function ReceiptFor(s: Stores, n: Night): Receipt
    requires n.name in s.local
  {
    var content := s.local[n.name];
    Receipt(n.name, OffsiteSlot(n.localDay), |content|, Sha256(content), n.at)
  }

  /** A read-back that comes home with what the slot holds, equal to the local snapshot. */
  predicate ReadBackMatches(s: Stores, n: Night) {
    n.uploadOk && n.readBackOk && n.name in s.local && n.slotAfter == Some(s.local[n.name])
  }

  /** The stores after a night's copy, wherever it stopped. */
  function AfterNight(s: Stores, n: Night): Stores {
    if n.sameMachine || !n.sshAnswers || n.effectsBeforeDeath == 0 then s
    else if n.effectsBeforeDeath == 1 then s.(receipt := None)
    else s.(receipt := if n.effectsBeforeDeath >= 3 && ReadBackMatches(s, n) then Some(ReceiptFor(s, n)) else None,
            remote := WithSlot(s.remote, OffsiteSlot(n.localDay), n.slotAfter))
  }

  class OffsiteCopier {
    var local: map<string, Bytes>
    var receipt: Option<Receipt>
    var remote: map<Slot, Bytes>

    function State(): Stores
      reads this
    {
      Stores(local, receipt, remote)
    }

    constructor (snapshots: map<string, Bytes>)
      ensures State() == Stores(snapshots, None, map[])
    {
      local, receipt, remote := snapshots, None, map[];
    }

    /**
     * One nightly copy: the old receipt goes before the first byte is sent, and the
     * new one appears only after the bytes were seen coming back.
     */
    method CopyOffsite(n: Night) returns (outcome: Outcome)
      modifies this`receipt, this`remote
      ensures State() == AfterNight(old(State()), n)
      ensures outcome.Copied? <==> !n.sameMachine && n.sshAnswers && n.uploadOk && n.readBackOk && n.effectsBeforeDeath >= 3
                                   && n.name in local && n.slotAfter == Some(local[n.name])
      ensures outcome.Copied? ==>
                && receipt == Some(Receipt(n.name, Slot(n.localDay % 7), |local[n.name]|, Sha256(local[n.name]), n.at)) == Some(outcome.receipt)
                && remote == old(remote)[Slot(n.localDay % 7) := local[n.name]]
      ensures n.sameMachine || !n.sshAnswers ==> State() == old(State()) && outcome == if n.sameMachine then DestinationIsThisMachine else NoSshAnswer
      ensures !n.sameMachine && n.sshAnswers && n.effectsBeforeDeath > 0 && !outcome.Copied? ==> receipt == None
      ensures !n.sameMachine && n.sshAnswers && n.effectsBeforeDeath <= 1 ==> outcome == Died && remote == old(remote)
      ensures !n.sameMachine && n.sshAnswers && n.effectsBeforeDeath >= 2 ==>
                && remote == (if n.slotAfter.Some? then old(remote)[Slot(n.localDay % 7) := n.slotAfter.value] else old(remote) - {Slot(n.localDay % 7)})
                && (outcome == UploadFailed <==> !n.uploadOk)
                && (outcome == ReadBackFailed <==> n.uploadOk && (!n.readBackOk || n.slotAfter.None?))
    {
      if n.sameMachine { return DestinationIsThisMachine; }
      if !n.sshAnswers { return NoSshAnswer; }
      var slot := OffsiteSlot(n.localDay);
      if n.effectsBeforeDeath == 0 { return Died; }
      receipt := None;
      if n.effectsBeforeDeath == 1 { return Died; }
      remote := WithSlot(remote, slot, n.slotAfter);
      if !n.uploadOk { return UploadFailed; }
      if !n.readBackOk || slot !in remote { return ReadBackFailed; }
      var cameBack := remote[slot];
      if n.name !in local || Sha256(cameBack) != Sha256(local[n.name]) { return CopyDiffers; }
      if n.effectsBeforeDeath == 2 { return Died; }
      var content := local[n.name];
      var written := Receipt(n.name, slot, |content|, Sha256(content), n.at);
      receipt := Some(written);
      outcome := Copied(written);
    }
  }

  // ----- every run ---------------------------------------------------------------------

  datatype Event =
    | Copy(night: Night)
    | Snapshot(name: string, content: Bytes)   // a snapshot written or rewritten
    | Prune(name: string)

  function AfterEvent(s: Stores, e: Event): Stores {
    match e
    case Copy(n) => AfterNight(s, n)
    case Snapshot(name, content) => s.(local := s.local[name := content])
    case Prune(name) => s.(local := s.local - {name})
  }

  function AfterAll(s: Stores, es: seq<Event>): Stores {
    if es == [] then s else AfterEvent(AfterAll(s, es[..|es| - 1]), es[|es| - 1])
  }

  /** The receipt speaks of bytes that are in the slot it names. */
  predicate ReceiptIsTrue(s: Stores) {
    s.receipt.Some? ==> s.receipt.value.slot in s.remote && Sha256(s.remote[s.receipt.value.slot]) == s.receipt.value.sha256
  }

  /**
   * In every reachable state, an upload cut halfway on any night included, a receipt
   * on disk means the slot it names holds bytes with the receipt's hash.
   */
  lemma {:induction false} ReceiptIsAlwaysTrue(s: Stores, es: seq<Event>)
    requires ReceiptIsTrue(s)
    ensures ReceiptIsTrue(AfterAll(s, es))
  {
    if es != [] {
      ReceiptIsAlwaysTrue(s, es[..|es| - 1]);
    }
  }

  datatype Check = Verified(receipt: Receipt) | NoReceipt | OtherDay | SnapshotMissing | SnapshotChanged | TooOld

  /** The check of the receipt, which never contacts the remote. */
  function VerifyOffsite(local: map<string, Bytes>, receipt: Option<Receipt>, latest: string, now: int): Check {
    if receipt.None? then NoReceipt
    else
      var r := receipt.value;
      if r.name != latest then OtherDay
      else if latest !in local then SnapshotMissing
      else if Sha256(local[latest]) != r.sha256 then SnapshotChanged
      else if (now - r.at) as real / DAY_MS as real > MAX_AGE_DAYS then TooOld
      else Verified(r)
  }

  /**
   * Checking the receipt is as good as reading the remote: in any state reached by
   * copies, cut or whole, and by snapshots rewritten or pruned, it succeeds exactly
   * when a receipt names the newest snapshot, its slot holds that snapshot's bytes
   * and the copy is at most two days old.
   */
  lemma VerifyingEqualsReadingTheRemote(s: Stores, es: seq<Event>, latest: string, now: int)
    requires ReceiptIsTrue(s)
    ensures var t := AfterAll(s, es);
            VerifyOffsite(t.local, t.receipt, latest, now).Verified? <==>
              && t.receipt.Some? && t.receipt.value.name == latest && latest in t.local
              && t.receipt.value.slot in t.remote && t.remote[t.receipt.value.slot] == t.local[latest]
              && now - t.receipt.value.at <= 172_800_000
  {
    ReceiptIsAlwaysTrue(s, es);
  }

  /** No receipt vouches for a snapshot that was pruned, or rewritten with other bytes, after the last copy. */
  lemma APrunedOrRewrittenSnapshotIsRefused(s: Stores, es: seq<Event>, name: string, content: Bytes, now: int)
    requires ReceiptIsTrue(s)
    ensures var t := AfterAll(s, es + [Prune(name)]);
            !VerifyOffsite(t.local, t.receipt, name, now).Verified? && t.receipt == AfterAll(s, es).receipt
    ensures var was, t := AfterAll(s, es), AfterAll(s, es + [Snapshot(name, content)]);
            was.receipt.Some? && was.receipt.value.slot in was.remote && was.remote[was.receipt.value.slot] != content ==>
              !VerifyOffsite(t.local, t.receipt, name, now).Verified?
  {
    ReceiptIsAlwaysTrue(s, es);
    assert (es + [Prune(name)])[..|es|] == es && (es + [Snapshot(name, content)])[..|es|] == es;
  }

  /** A receipt that is refused is refused for the first thing that is wrong with it. */
  lemma WhatARefusalMeans(local: map<string, Bytes>, r: Receipt, latest: string, now: int)
    ensures VerifyOffsite(local, None, latest, now) == NoReceipt
    ensures VerifyOffsite(local, Some(r), latest, now) == OtherDay <==> r.name != latest
    ensures VerifyOffsite(local, Some(r), latest, now) == SnapshotMissing <==> r.name == latest && latest !in local
    ensures VerifyOffsite(local, Some(r), latest, now) == SnapshotChanged <==>
              r.name == latest && latest in local && Sha256(local[latest]) != r.sha256
    ensures VerifyOffsite(local, Some(r), latest, now) == TooOld <==>
              r.name == latest && latest in local && Sha256(local[latest]) == r.sha256 && now - r.at > 172_800_000
  {
  }

  // ----- one week of history --------------------------------------------------------------

  /** A night on which everything works. */
  function GoodNight(name: string, content: Bytes, at: int, localDay: nat): Night {
    Night(name, at, localDay, false, true, true, Some(content), true, 3)
  }

  /** One local day: its snapshot and the time of its copy. */
  datatype Day = Day(name: string, content: Bytes, at: int)

  function AfterGoodDay(s: Stores, localDay: nat, day: Day): Stores {
    AfterNight(AfterEvent(s, Snapshot(day.name, day.content)), GoodNight(day.name, day.content, day.at, localDay))
  }

  /** One snapshot and one successful copy on each of `|days|` consecutive local days. */
  function GoodRun(start: nat, days: seq<Day>): Stores {
    if days == [] then Stores(map[], None, map[])
    else AfterGoodDay(GoodRun(start, days[..|days| - 1]), start + |days| - 1, days[|days| - 1])
  }

  /** The slot of each night of a run that starts on local day `start`. */
  function NightSlots(start: nat): nat -> Slot {
    (d: nat) => OffsiteSlot(start + d)
  }

  /** Two nights at most a week apart share a slot exactly when a whole week separates them. */
  ghost predicate Weekly(slotOf: nat -> Slot) {
    forall d: nat, e: nat :: d < e <= d + 7 ==> (slotOf(d) == slotOf(e) <==> e == d + 7)
  }

  lemma WeekdaysRepeat(d: nat, e: nat)
    requires d < e <= d + 7
    ensures OffsiteSlot(d) == OffsiteSlot(e) <==> e == d + 7
  {
    assert e % 7 == (d % 7 + (e - d)) % 7;
  }

  lemma SlotsAreWeekly(start: nat)
    ensures Weekly(NightSlots(start))
  {
    var slotOf := NightSlots(start);
    forall d: nat, e: nat | d < e <= d + 7
      ensures slotOf(d) == slotOf(e) <==> e == d + 7
    {
      WeekdaysRepeat(start + d, start + e);
    }
  }

  /** After `n` nights, night `d` is one of the last seven. */
  predicate Held(n: nat, d: nat) {
    d < n <= d + 7
  }

  /** The slots of the last seven of `n` nights. */
  ghost function WeekSlots(slotOf: nat -> Slot, n: nat): set<Slot> {
    set d: nat | d < n && Held(n, d) :: slotOf(d)
  }

  /** The remote is the last seven nights and nothing else. */
  ghost predicate IsTheLastWeek(remote: map<Slot, Bytes>, slotOf: nat -> Slot, days: seq<Day>) {
    && remote.Keys == WeekSlots(slotOf, |days|)
    && forall d: nat :: d < |days| && Held(|days|, d) ==> slotOf(d) in remote && remote[slotOf(d)] == days[d].content
  }

  lemma OneMoreSlot(slotOf: nat -> Slot, n: nat)
    requires Weekly(slotOf)
    ensures WeekSlots(slotOf, n + 1) == WeekSlots(slotOf, n) + {slotOf(n)}
  {
    assert Held(n + 1, n);
    forall slot | slot in WeekSlots(slotOf, n)
      ensures slot in WeekSlots(slotOf, n + 1)
    {
      var d: nat :| d < n && Held(n, d) && slot == slotOf(d);
      if d + 7 == n {
        assert slotOf(d) == slotOf(n);
      } else {
        assert Held(n + 1, d);
      }
    }
    forall slot | slot in WeekSlots(slotOf, n + 1) && slot != slotOf(n)
      ensures slot in WeekSlots(slotOf, n)
    {
      var d: nat :| d < n + 1 && Held(n + 1, d) && slot == slotOf(d);
      assert Held(n, d);
    }
  }

  lemma OneMoreNight(remote: map<Slot, Bytes>, slotOf: nat -> Slot, days: seq<Day>, day: Day)
    requires Weekly(slotOf) && IsTheLastWeek(remote, slotOf, days)
    ensures IsTheLastWeek(remote[slotOf(|days|) := day.content], slotOf, days + [day])
  {
    var n := |days|;
    OneMoreSlot(slotOf, n);
    forall d: nat | d < n && Held(n + 1, d)
      ensures slotOf(d) in remote && slotOf(d) != slotOf(n) && remote[slotOf(d)] == days[d].content
    {
      assert Held(n, d);
    }
  }

  lemma {:induction false} WeekSize(slotOf: nat -> Slot, n: nat)
    requires Weekly(slotOf)
    ensures |WeekSlots(slotOf, n)| == if n < 7 then n else 7
  {
    if n > 0 {
      WeekSize(slotOf, n - 1);
      OneMoreSlot(slotOf, n - 1);
      var before := WeekSlots(slotOf, n - 1);
      if n > 7 {
        assert Held(n - 1, n - 8) && slotOf(n - 8) in before;
      } else {
        assert slotOf(n - 1) !in before;
      }
    }
  }

  /**
   * With one successful copy per consecutive local day the remote holds exactly the
   * last seven snapshots (all of them when fewer), each in its own slot until the
   * same weekday comes round.
   */
  lemma SevenDaysOfHistory(start: nat, days: seq<Day>)
    ensures IsTheLastWeek(GoodRun(start, days).remote, NightSlots(start), days)
    ensures |WeekSlots(NightSlots(start), |days|)| == if |days| < 7 then |days| else 7
    ensures |GoodRun(start, days).remote| == if |days| < 7 then |days| else 7
  {
    SlotsAreWeekly(start);
    WeekSize(NightSlots(start), |days|);
    GoodRunHoldsAWeek(start, NightSlots(start), days);
    assert |GoodRun(start, days).remote| == |GoodRun(start, days).remote.Keys|;
  }

  /** Each of the last seven days, in the slot of its weekday. */
  lemma EachOfTheLastSevenDays(start: nat, days: seq<Day>, d: nat)
    requires d < |days| <= d + 7
    ensures var slot := Slot((start + d) % 7);
            slot in GoodRun(start, days).remote && GoodRun(start, days).remote[slot] == days[d].content
  {
    SevenDaysOfHistory(start, days);
    SlotOfTheDay(start, d);
    ADayOfTheWeek(GoodRun(start, days).remote, NightSlots(start), days, d, (start + d) % 7);
  }

  lemma SlotOfTheDay(start: nat, d: nat)
    ensures NightSlots(start)(d) == Slot((start + d) % 7)
  {
    assert NightSlots(start)(d) == OffsiteSlot(start + d);
  }

  lemma ADayOfTheWeek(remote: map<Slot, Bytes>, slotOf: nat -> Slot, days: seq<Day>, d: nat, weekday: nat)
    requires IsTheLastWeek(remote, slotOf, days) && d < |days| <= d + 7 && slotOf(d) == Slot(weekday)
    ensures Slot(weekday) in remote && remote[Slot(weekday)] == days[d].content
  {
    assert Held(|days|, d);
  }

  lemma {:induction false} GoodRunHoldsAWeek(start: nat, slotOf: nat -> Slot, days: seq<Day>)
    requires Weekly(slotOf) && forall d: nat :: slotOf(d) == OffsiteSlot(start + d)
    ensures IsTheLastWeek(GoodRun(start, days).remote, slotOf, days)
  {
    if days == [] {
      NothingYet(slotOf);
    } else {
      var past, day := days[..|days| - 1], days[|days| - 1];
      GoodRunHoldsAWeek(start, slotOf, past);
      assert past + [day] == days;
      OneMoreGoodNight(start, slotOf, past, day);
    }
  }

  lemma NothingYet(slotOf: nat -> Slot)
    ensures IsTheLastWeek(map[], slotOf, [])
  {
  }

  lemma OneMoreGoodNight(start: nat, slotOf: nat -> Slot, past: seq<Day>, day: Day)
    requires Weekly(slotOf) && slotOf(|past|) == OffsiteSlot(start + |past|)
    requires IsTheLastWeek(GoodRun(start, past).remote, slotOf, past)
    ensures IsTheLastWeek(GoodRun(start, past + [day]).remote, slotOf, past + [day])
  {
    OneMoreNight(GoodRun(start, past).remote, slotOf, past, day);
    OneMoreGoodDay(start, past, day);
  }

  lemma OneMoreGoodDay(start: nat, past: seq<Day>, day: Day)
    ensures GoodRun(start, past + [day]).remote == GoodRun(start, past).remote[OffsiteSlot(start + |past|) := day.content]
  {
    var days := past + [day];
    assert days[..|days| - 1] == past;
    assert GoodRun(start, days) == AfterGoodDay(GoodRun(start, past), start + |past|, day);
    CopiesWhenNothingFails(GoodRun(start, past), start + |past|, day);
  }

  lemma CopiesWhenNothingFails(s: Stores, localDay: nat, day: Day)
    ensures AfterGoodDay(s, localDay, day).local == s.local[day.name := day.content]
    ensures AfterGoodDay(s, localDay, day).remote == s.remote[OffsiteSlot(localDay) := day.content]
    ensures AfterGoodDay(s, localDay, day).receipt == Some(Receipt(day.name, OffsiteSlot(localDay), |day.content|, Sha256(day.content), day.at))
  {
    assert ReadBackMatches(AfterEvent(s, Snapshot(day.name, day.content)), GoodNight(day.name, day.content, day.at, localDay));
  }

  /** The events of a run of good nights. */
  function GoodEvents(start: nat, days: seq<Day>): seq<Event> {
    if days == [] then []
    else
      var day := days[|days| - 1];
      GoodEvents(start, days[..|days| - 1])
      + [Snapshot(day.name, day.content), Copy(GoodNight(day.name, day.content, day.at, start + |days| - 1))]
  }

  /** A run of good nights is a run like any other. */
  lemma {:induction false} AGoodRunIsARun(start: nat, days: seq<Day>)
    ensures GoodRun(start, days) == AfterAll(Stores(map[], None, map[]), GoodEvents(start, days))
    ensures ReceiptIsTrue(GoodRun(start, days))
  {
    if days != [] {
      var past, es := days[..|days| - 1], GoodEvents(start, days);
      AGoodRunIsARun(start, past);
      assert es[..|es| - 1][..|es| - 2] == GoodEvents(start, past) && es[..|es| - 2] == GoodEvents(start, past);
      assert AfterAll(Stores(map[], None, map[]), es[..|es| - 1]) == AfterEvent(GoodRun(start, past), es[|es| - 2]);
    }
    ReceiptIsAlwaysTrue(Stores(map[], None, map[]), GoodEvents(start, days));
  }

  /** After a run of good nights the check of the receipt passes for two days, then fails. */
  lemma AGoodRunVerifies(start: nat, days: seq<Day>, now: int)
    requires days != []
    ensures var last := days[|days| - 1];
            VerifyOffsite(GoodRun(start, days).local, GoodRun(start, days).receipt, last.name, now).Verified? <==> now - last.at <= 172_800_000
  {
    CopiesWhenNothingFails(GoodRun(start, days[..|days| - 1]), start + |days| - 1, days[|days| - 1]);
  }

  // ----- the wait for ssh ----------------------------------------------------------------

  /** ssh reached the host and ran the command: anything but 255 and a timeout. */
  predicate SshAnswered(status: Option<int>) {
    status.Some? && status.value != 255
  }

  datatype SshWait = Answered(tries: nat) | GaveUp(tries: nat)

  function CeilDiv(a: nat, b: nat): nat
    requires b > 0
  {
    (a + b - 1) / b
  }

  /**
   * Probes until one answers or the deadline passes. `probe(k)` is the exit of the
   * k-th try and `clock(k)` the time after it; every pause moves the clock on by at
   * least `everyMs`.
   */
  method WaitForSsh(waitMs: nat, everyMs: nat, startedAt: int, probe: nat -> Option<int>, clock: nat -> int) returns (r: SshWait)
    requires everyMs > 0
    requires forall k: nat :: k >= 1 ==> clock(k) >= startedAt + (k - 1) * everyMs
    ensures 1 <= r.tries <= CeilDiv(waitMs, everyMs) + 1 && (r.tries - 2) * everyMs < waitMs
    ensures forall k: nat :: 1 <= k < r.tries ==> probe(k) in {None, Some(255)} && clock(k) < startedAt + waitMs
    ensures r.Answered? <==> probe(r.tries) !in {None, Some(255)}
    ensures r.GaveUp? ==> clock(r.tries) >= startedAt + waitMs
  {
    var deadline := startedAt + waitMs;
    var tries: nat := 0;
    while true
      invariant tries <= CeilDiv(waitMs, everyMs) && (tries - 1) * everyMs < waitMs
      invariant forall k: nat :: 1 <= k <= tries ==> !SshAnswered(probe(k)) && clock(k) < deadline
      decreases CeilDiv(waitMs, everyMs) + 1 - tries
    {
      tries := tries + 1;
      if SshAnswered(probe(tries)) { return Answered(tries); }
      if clock(tries) >= deadline { return GaveUp(tries); }
      TriesAreBounded(waitMs, everyMs, tries);
    }
  }

  lemma TimesKeepsOrder(a: nat, b: nat, c: nat)
    requires a <= b
    ensures a * c <= b * c
  {
  }

  lemma TriesAreBounded(waitMs: nat, everyMs: nat, tries: nat)
    requires everyMs > 0 && tries >= 1 && (tries - 1) * everyMs < waitMs
    ensures tries <= CeilDiv(waitMs, everyMs)
  {
    var c := CeilDiv(waitMs, everyMs);
    assert waitMs <= c * everyMs;
    if tries > c {
      TimesKeepsOrder(c, tries - 1, everyMs);
      assert false;
    }
  }
}
