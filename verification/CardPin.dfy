/**
 Changing, unblocking and activating PINs as runs against a card with try counters (`card_pin.rs`,
 bound to a serial by `service.rs`).
 */
module CardPin {

  import opened Octets
  import opened PinRules

  // ----- What goes over the wire -----

  /** What the safety properties look at: serial reads, and the commands that can change a card. */
  datatype Event =
    | SerialRead(serial: Option<string>)
    | ChangedPin(slot: PinSlot, done: bool)
    | VerifiedPuk(done: bool)
    | ResetPin(slot: PinSlot, carriesPuk: bool, done: bool)
  {
    predicate Modifies() {
      !SerialRead?
    }

    predicate SetsPin() {
      ChangedPin? || ResetPin?
    }
  }

  /** The PINs a log sets, whatever the answers. */
  function SlotsOf(log: seq<Event>): set<PinSlot> {
    set k | 0 <= k < |log| && log[k].SetsPin() :: log[k].slot
  }

  lemma SlotsOfAppend(log: seq<Event>, e: Event)
    ensures SlotsOf(log + [e]) == SlotsOf(log) + if e.SetsPin() then {e.slot} else {}
  {
    var longer := log + [e];
    forall slot | slot in SlotsOf(log) + if e.SetsPin() then {e.slot} else {}
      ensures slot in SlotsOf(longer)
    {
      if slot in SlotsOf(log) {
        var k :| 0 <= k < |log| && log[k].SetsPin() && log[k].slot == slot;
        assert longer[k] == log[k];
      } else {
        assert longer[|log|] == e;
      }
    }
  }

  /** Every command that could change the card was answered with success. */
  ghost predicate AllDone(log: seq<Event>) {
    forall k :: 0 <= k < |log| && log[k].Modifies() ==> log[k].done
  }

  /** After a command that was not answered with success, no other that could change the card. */
  ghost predicate StopsOnFailure(log: seq<Event>) {
    forall i, j :: 0 <= i < j < |log| && log[i].Modifies() && log[j].Modifies() ==> log[i].done
  }

  ghost predicate NothingSent(log: seq<Event>) {
    forall k :: 0 <= k < |log| ==> !log[k].Modifies()
  }

  lemma StopsAfter(log: seq<Event>, e: Event)
    requires AllDone(log)
    ensures StopsOnFailure(log + [e])
    ensures e.Modifies() ==> (AllDone(log + [e]) <==> e.done)
    ensures !e.Modifies() ==> AllDone(log + [e])
  {
    var longer := log + [e];
    assert longer[|log|] == e;
  }

  /** How far the serial check reaches at the end of a log. */
  datatype Guard = Unguarded | Armed | PukAccepted | Violated

  function GuardAfter(log: seq<Event>, expected: string): Guard {
    if log == [] then Unguarded
    else
      var before := GuardAfter(log[..|log| - 1], expected);
      if before.Violated? then Violated
      else
        match log[|log| - 1]
        case SerialRead(serial) => if serial == Some(expected) then Armed else Unguarded
        case ChangedPin(_, _) => if before.Armed? then Unguarded else Violated
        case VerifiedPuk(done) => if !before.Armed? then Violated else if done then PukAccepted else Unguarded
        case ResetPin(_, carriesPuk, _) =>
          if (if carriesPuk then before.Armed? else before.PukAccepted?) then Unguarded else Violated
  }

  lemma GuardOfAppend(log: seq<Event>, e: Event, expected: string)
    ensures GuardAfter(log + [e], expected)
      == var before := GuardAfter(log, expected);
         if before.Violated? then Violated
         else
           match e
           case SerialRead(serial) => if serial == Some(expected) then Armed else Unguarded
           case ChangedPin(_, _) => if before.Armed? then Unguarded else Violated
           case VerifiedPuk(done) =>
             if !before.Armed? then Violated else if done then PukAccepted else Unguarded
           case ResetPin(_, carriesPuk, _) =>
             if (if carriesPuk then before.Armed? else before.PukAccepted?) then Unguarded else Violated
  {
    assert (log + [e])[..|log|] == log;
  }

  /** The serial read at `j` is the expected one and nothing after it up to `i` modifies the card. */
  predicate ReadJustBefore(log: seq<Event>, expected: string, j: nat, i: nat) {
    j < i <= |log| && log[j] == SerialRead(Some(expected)) && forall k :: j < k < i ==> !log[k].Modifies()
  }

  /** An armed log ends with a matching serial read and no modifying command behind it. */
  lemma {:induction false} ArmedMeans(log: seq<Event>, expected: string)
    ensures GuardAfter(log, expected).Armed?
      ==> exists j: nat :: ReadJustBefore(log, expected, j, |log|)
    ensures GuardAfter(log, expected).PukAccepted?
      ==> |log| > 0 && log[|log| - 1] == VerifiedPuk(true)
  {
    if GuardAfter(log, expected).Armed? {
      assert ReadJustBefore(log, expected, |log| - 1, |log|);
    }
  }

  /**
   A log that never breaks the guard: every modifying command follows a read of the expected serial with
   no modifying command in between, or is the reset right behind the accepted PUK it depends on.
   */
  lemma {:induction false} GuardMeans(log: seq<Event>, expected: string, i: nat)
    requires !GuardAfter(log, expected).Violated? && i < |log| && log[i].Modifies()
    ensures (exists j: nat :: ReadJustBefore(log, expected, j, i))
            || (i > 0 && log[i - 1] == VerifiedPuk(true) && log[i].ResetPin? && !log[i].carriesPuk)
    decreases |log|
  {
    var init := log[..|log| - 1];
    if i < |init| {
      GuardMeans(init, expected, i);
      if j: nat :| ReadJustBefore(init, expected, j, i) {
        assert ReadJustBefore(log, expected, j, i);
      }
    } else {
      ArmedMeans(init, expected);
      if j: nat :| ReadJustBefore(init, expected, j, |init|) {
        assert ReadJustBefore(log, expected, j, i);
      }
    }
  }

  // ----- What one command may do to a card -----

  /** No try is lost from a last two, and none of a last one. */
  predicate SparesOne(before: CredentialState, after: CredentialState) {
    (before.tries >= 2 ==> after.tries >= 2) && (before.tries == 1 ==> after.tries >= 1)
  }

  predicate Spares(before: Counters, after: Counters) {
    SparesOne(before.pin1, after.pin1) && SparesOne(before.pin2, after.pin2) && SparesOne(before.puk, after.puk)
  }

  lemma SparesChains(a: Counters, b: Counters, c: Counters)
    requires Spares(a, b) && Spares(b, c)
    ensures Spares(a, c)
  {
  }

  function Lost(before: CredentialState, after: CredentialState): nat {
    if after.tries < before.tries then before.tries - after.tries else 0
  }

  /** Tries lost over the three credentials together. */
  function Spent(before: Counters, after: Counters): nat {
    Lost(before.pin1, after.pin1) + Lost(before.pin2, after.pin2) + Lost(before.puk, after.puk)
  }

  /** A command that presents a credential: nothing is lost when it is accepted or the credential is exhausted. */
  ghost predicate CommandMay(before: Counters, after: Counters, presented: Credential, accepted: bool) {
    && (forall c :: c != presented ==> after.Of(c).tries >= before.Of(c).tries)
    && after.Of(presented).tries + 1 >= before.Of(presented).tries
    && (accepted || before.Of(presented).Exhausted() ==> after.Of(presented).tries >= before.Of(presented).tries)
  }

  lemma CommandSpares(before: Counters, after: Counters, presented: Credential, accepted: bool)
    requires CommandMay(before, after, presented, accepted)
    ensures Spent(before, after) <= 1 && (accepted ==> Spent(before, after) == 0)
    ensures MaySpend(before.Of(presented)) ==> Spares(before, after)
  {
    assert before.pin1 == before.Of(PinOf(Pin1)) && after.pin1 == after.Of(PinOf(Pin1));
    assert before.pin2 == before.Of(PinOf(Pin2)) && after.pin2 == after.Of(PinOf(Pin2));
    assert before.puk == before.Of(Puk) && after.puk == after.Of(Puk);
    match presented {
      case PinOf(Pin1) =>
      case PinOf(Pin2) =>
      case Puk =>
    }
  }

  class Card {
    /** The PKCS#15 serial this card publishes. */
    const serial: string
    var counters: Counters

    constructor (serial: string, counters: Counters)
      ensures this.serial == serial && this.counters == counters
    {
      this.serial := serial;
      this.counters := counters;
    }

    /** A try lost, or counters raised, as the card pleases within what one command may do. */
    method Respond(presented: Credential) returns (accepted: bool)
      modifies this
      ensures CommandMay(old(counters), counters, presented, accepted)
    {
      accepted := *;
      var raised: Counters := *;
      var loses: bool := *;
      var mayLose := loses && !accepted && !counters.Of(presented).Exhausted();
      counters := Counters(After(PinOf(Pin1), presented, raised.pin1, mayLose),
                           After(PinOf(Pin2), presented, raised.pin2, mayLose),
                           After(Puk, presented, raised.puk, mayLose));
    }

    function After(c: Credential, presented: Credential, raised: CredentialState, loses: bool): CredentialState
      reads this
    {
      var now := counters.Of(c);
      if loses && c == presented && now.tries > 0 then CredentialState(now.tries - 1, raised.invalidated)
      else if raised.tries >= now.tries then raised
      else CredentialState(now.tries, raised.invalidated)
    }
  }

  // ----- The card transport -----

  datatype LengthRange = LengthRange(min: nat, max: nat)

  datatype CardPinLengths = CardPinLengths(pin1: LengthRange, pin2: LengthRange, puk: LengthRange) {
    predicate AcceptsPin(slot: PinSlot, count: nat) {
      var range := if slot == Pin1 then pin1 else pin2;
      range.min <= count <= range.max
    }

    predicate AcceptsPuk(count: nat) {
      puk.min <= count <= puk.max
    }
  }

  /** An entered code. */
  type Digits = octets

  predicate AllDigits(code: Digits) {
    forall b :: b in code ==> 0x30 <= b <= 0x39
  }

  datatype CardPinError =
    | NotOpened
    | SelectFailed
    | TransportFailed
    | SerialUnavailable
    | SessionRevoked
    | NoScheme
    | PinPolicy
    | ActivationLengthMismatch
    | CardLooksUnactivated(slot: PinSlot, probe: Option<PinStatus>)
    | RetryFloor(refusal: Refusal)
    | ActivationEntriesMismatch(pin1Awaits: bool, pin2Awaits: bool)

  /** An exclusive connection to whichever card is in the reader; a read can always fail. */
  class Transport {
    const card: Card
    var log: seq<Event>
    /** Tries lost to this connection's commands. */
    ghost var spent: nat

    constructor (card: Card)
      ensures this.card == card && log == [] && spent == 0
    {
      this.card := card;
      log := [];
      spent := 0;
    }

    /** Everything a run may touch. */
    ghost function Repr(): set<object> {
      {this, card}
    }

    method SelectApplication() returns (ok: bool)
    {
      ok := *;
    }

    /** Token information: a failed read, or the serial when the card publishes one. */
    method ReadTokenInfo() returns (token: Option<Option<string>>)
      modifies this`log
      ensures log == old(log) + [SerialRead(if token.Some? then token.value else None)]
      ensures token.Some? && token.value.Some? ==> token.value.value == card.serial
    {
      var fails: bool, publishes: bool := *, *;
      token := if fails then None else Some(if publishes then Some(card.serial) else None);
      log := log + [SerialRead(if token.Some? then token.value else None)];
    }

    method ReadLengths() returns (lengths: Option<CardPinLengths>)
    {
      lengths := *;
    }

    method ProbePin(slot: PinSlot) returns (status: Option<PinStatus>)
      ensures status.Some? ==> HonestPinStatus(card.counters.Of(PinOf(slot)), status.value)
    {
      status := *;
      if status.Some? && !HonestPinStatus(card.counters.Of(PinOf(slot)), status.value) {
        status := None;
      }
    }

    method ProbePuk() returns (status: Option<PukStatus>)
      ensures status.Some? ==> HonestPukStatus(card.counters.puk, status.value)
    {
      status := *;
      if status.Some? && !HonestPukStatus(card.counters.puk, status.value) {
        status := None;
      }
    }

    method ReadChangedFlag(slot: PinSlot) returns (changed: Option<bool>)
    {
      changed := *;
    }

    /** An answer to a command; it can get lost after the card has acted. */
    method AnswerFor(accepted: bool) returns (outcome: Option<Outcome>)
      ensures outcome == Some(Done) ==> accepted
    {
      outcome := *;
      if outcome == Some(Done) && !accepted {
        outcome := None;
      }
    }

    method TransmitChangePin(slot: PinSlot) returns (outcome: Option<Outcome>)
      modifies this, card
      ensures CommandMay(old(card.counters), card.counters, PinOf(slot), outcome == Some(Done))
      ensures log == old(log) + [ChangedPin(slot, outcome == Some(Done))]
      ensures spent == old(spent) + Spent(old(card.counters), card.counters)
    {
      ghost var before := card.counters;
      var accepted := card.Respond(PinOf(slot));
      outcome := AnswerFor(accepted);
      log := log + [ChangedPin(slot, outcome == Some(Done))];
      spent := spent + Spent(before, card.counters);
    }

    method TransmitResetWithPuk(slot: PinSlot) returns (outcome: Option<Outcome>)
      modifies this, card
      ensures CommandMay(old(card.counters), card.counters, Puk, outcome == Some(Done))
      ensures log == old(log) + [ResetPin(slot, true, outcome == Some(Done))]
      ensures spent == old(spent) + Spent(old(card.counters), card.counters)
    {
      ghost var before := card.counters;
      var accepted := card.Respond(Puk);
      outcome := AnswerFor(accepted);
      log := log + [ResetPin(slot, true, outcome == Some(Done))];
      spent := spent + Spent(before, card.counters);
    }

    /** The organizational card's own verification of the PUK. */
    method TransmitVerifyPuk() returns (outcome: Option<Outcome>)
      modifies this, card
      ensures CommandMay(old(card.counters), card.counters, Puk, outcome == Some(Done))
      ensures log == old(log) + [VerifiedPuk(outcome == Some(Done))]
      ensures spent == old(spent) + Spent(old(card.counters), card.counters)
    {
      ghost var before := card.counters;
      var accepted := card.Respond(Puk);
      outcome := AnswerFor(accepted);
      log := log + [VerifiedPuk(outcome == Some(Done))];
      spent := spent + Spent(before, card.counters);
    }

    /** The reset that carries only a new PIN presents no credential, so there is no try to lose. */
    method TransmitResetWithoutPuk(slot: PinSlot) returns (outcome: Option<Outcome>)
      modifies this, card
      ensures Spent(old(card.counters), card.counters) == 0
      ensures log == old(log) + [ResetPin(slot, false, outcome == Some(Done))]
      ensures spent == old(spent)
    {
      var raised: Counters := *;
      card.counters := Counters(card.After(PinOf(Pin1), Puk, raised.pin1, false),
                                card.After(PinOf(Pin2), Puk, raised.pin2, false),
                                card.After(Puk, Puk, raised.puk, false));
      outcome := *;
      log := log + [ResetPin(slot, false, outcome == Some(Done))];
    }
  }

  lemma NothingSpentSpares(before: Counters, after: Counters)
    requires Spent(before, after) == 0
    ensures Spares(before, after)
  {
  }

  // ----- Steps shared by the flows -----

  /** The read of the serial that every modifying command needs behind it. */
  method ReVerifySession(t: Transport, bound: string) returns (r: Result<(), CardPinError>)
    requires !GuardAfter(t.log, bound).Violated?
    modifies t`log
    ensures r.Ok? ==> GuardAfter(t.log, bound).Armed?
    ensures r.Err? ==> r.error == SessionRevoked
    ensures !GuardAfter(t.log, bound).Violated?
    ensures AllDone(old(t.log)) ==> AllDone(t.log)
    ensures NothingSent(old(t.log)) ==> NothingSent(t.log)
    ensures SlotsOf(t.log) == SlotsOf(old(t.log))
  {
    ghost var before := t.log;
    var token := t.ReadTokenInfo();
    SlotsOfAppend(before, SerialRead(if token.Some? then token.value else None));
    GuardOfAppend(before, SerialRead(if token.Some? then token.value else None), bound);
    if token.None? || token.value.None? || token.value.value != bound {
      return Err(SessionRevoked);
    }
    return Ok(());
  }

  method ProbePinActivation(t: Transport, scheme: ActivationScheme, slot: PinSlot)
    returns (status: Option<PinStatus>, verdict: PinActivation)
    ensures status.Some? ==> HonestPinStatus(t.card.counters.Of(PinOf(slot)), status.value)
  {
    status := t.ProbePin(slot);
    var changed := t.ReadChangedFlag(slot);
    verdict := Judge(scheme, changed, status);
  }

  /** The status of a PIN that does not await its activation. */
  method RequireActivated(t: Transport, scheme: ActivationScheme, slot: PinSlot)
    returns (r: Result<PinStatus, CardPinError>)
    ensures r.Ok? ==> HonestPinStatus(t.card.counters.Of(PinOf(slot)), r.value)
    ensures r.Err? ==> r.error.CardLooksUnactivated? && r.error.slot == slot
  {
    var probe, verdict := ProbePinActivation(t, scheme, slot);
    if verdict == Activated && probe.Some? {
      return Ok(probe.value);
    }
    return Err(CardLooksUnactivated(slot, probe));
  }

  /** Reads the PUK's counter and applies its floor, before anything presents the PUK. */
  method PukRetryFloor(t: Transport) returns (r: Result<(), CardPinError>)
    ensures r.Ok? ==> MaySpend(t.card.counters.puk)
  {
    var status := t.ProbePuk();
    if status.None? {
      return Err(TransportFailed);
    }
    FloorsSpareLastTries(t.card.counters.puk, Pin1, NoInfo, status.value);
    match CheckPukRetryFloor(status.value) {
      case Err(refusal) => return Err(RetryFloor(refusal));
      case Ok(_) => return Ok(());
    }
  }

  /** What the methods that send promise about the log, the counters and the tries. */
  twostate predicate SentSafely(t: Transport, bound: string, new r: Result<Outcome, CardPinError>)
    reads t, t.card
  {
    && Spares(old(t.card.counters), t.card.counters)
    && !GuardAfter(t.log, bound).Violated?
    && StopsOnFailure(t.log)
    && t.spent <= old(t.spent) + (if r == Ok(Done) then 0 else 1)
    && (r == Ok(Done) ==> AllDone(t.log))
    && (r.Err? ==> r.error == PinPolicy || r.error == TransportFailed)
    && (r == Err(PinPolicy) ==> t.log == old(t.log))
  }

  /** CHANGE REFERENCE DATA, after the local check of both codes. */
  method SendChangePin(t: Transport, lengths: CardPinLengths, slot: PinSlot, current: Digits, newPin: Digits,
                       ghost bound: string)
    returns (r: Result<Outcome, CardPinError>)
    requires GuardAfter(t.log, bound).Armed? && AllDone(t.log) && MaySpend(t.card.counters.Of(PinOf(slot)))
    modifies t, t.card
    ensures SentSafely(t, bound, r)
    ensures r != Err(PinPolicy) ==> t.log == old(t.log) + [ChangedPin(slot, r == Ok(Done))]
    ensures SlotsOf(t.log) <= SlotsOf(old(t.log)) + {slot}
  {
    if !AllDigits(current) || !lengths.AcceptsPin(slot, |current|) {
      return Err(PinPolicy);
    }
    if !AllDigits(newPin) || !lengths.AcceptsPin(slot, |newPin|) {
      return Err(PinPolicy);
    }
    ghost var before, log := t.card.counters, t.log;
    var outcome := t.TransmitChangePin(slot);
    CommandSpares(before, t.card.counters, PinOf(slot), outcome == Some(Done));
    GuardOfAppend(log, ChangedPin(slot, outcome == Some(Done)), bound);
    StopsAfter(log, ChangedPin(slot, outcome == Some(Done)));
    SlotsOfAppend(log, ChangedPin(slot, outcome == Some(Done)));
    if outcome.None? {
      return Err(TransportFailed);
    }
    return Ok(outcome.value);
  }

  method SendCitizenReset(t: Transport, slot: PinSlot, ghost bound: string) returns (r: Result<Outcome, CardPinError>)
    requires GuardAfter(t.log, bound).Armed? && AllDone(t.log) && MaySpend(t.card.counters.puk)
    modifies t, t.card
    ensures SentSafely(t, bound, r)
    ensures r != Err(PinPolicy)
    ensures t.log == old(t.log) + [ResetPin(slot, true, r == Ok(Done))]
    ensures SlotsOf(t.log) == SlotsOf(old(t.log)) + {slot}
  {
    ghost var before, log := t.card.counters, t.log;
    var outcome := t.TransmitResetWithPuk(slot);
    CommandSpares(before, t.card.counters, Puk, outcome == Some(Done));
    GuardOfAppend(log, ResetPin(slot, true, outcome == Some(Done)), bound);
    StopsAfter(log, ResetPin(slot, true, outcome == Some(Done)));
    SlotsOfAppend(log, ResetPin(slot, true, outcome == Some(Done)));
    return if outcome.Some? then Ok(outcome.value) else Err(TransportFailed);
  }

  /** The PUK verified as its own object; only an accepted one lets the reset go out. */
  method SendOrganizationalReset(t: Transport, slot: PinSlot, ghost bound: string)
    returns (r: Result<Outcome, CardPinError>)
    requires GuardAfter(t.log, bound).Armed? && AllDone(t.log) && MaySpend(t.card.counters.puk)
    modifies t, t.card
    ensures SentSafely(t, bound, r)
    ensures r != Err(PinPolicy)
    ensures t.log == old(t.log) + [VerifiedPuk(false)]
            || t.log == old(t.log) + [VerifiedPuk(true)] + [ResetPin(slot, false, r == Ok(Done))]
    ensures SlotsOf(t.log) <= SlotsOf(old(t.log)) + {slot}
  {
    ghost var before, log := t.card.counters, t.log;
    var verified := t.TransmitVerifyPuk();
    ghost var between, verification := t.card.counters, VerifiedPuk(verified == Some(Done));
    CommandSpares(before, between, Puk, verified == Some(Done));
    GuardOfAppend(log, verification, bound);
    StopsAfter(log, verification);
    SlotsOfAppend(log, verification);
    if verified != Some(Done) {
      return if verified.Some? then Ok(verified.value) else Err(TransportFailed);
    }
    var outcome := t.TransmitResetWithoutPuk(slot);
    NothingSpentSpares(between, t.card.counters);
    SparesChains(before, between, t.card.counters);
    GuardOfAppend(log + [verification], ResetPin(slot, false, outcome == Some(Done)), bound);
    StopsAfter(log + [verification], ResetPin(slot, false, outcome == Some(Done)));
    SlotsOfAppend(log + [verification], ResetPin(slot, false, outcome == Some(Done)));
    return if outcome.Some? then Ok(outcome.value) else Err(TransportFailed);
  }

  /** RESET RETRY COUNTER in the card's numbering, after the local check of both codes. */
  method SendResetRetryCounter(t: Transport, lengths: CardPinLengths, numbering: Numbering, slot: PinSlot,
                               puk: Digits, newPin: Digits, ghost bound: string)
    returns (r: Result<Outcome, CardPinError>)
    requires GuardAfter(t.log, bound).Armed? && AllDone(t.log) && MaySpend(t.card.counters.puk)
    modifies t, t.card
    ensures SentSafely(t, bound, r)
    ensures r != Err(PinPolicy) && numbering == Citizen
      ==> t.log == old(t.log) + [ResetPin(slot, true, r == Ok(Done))]
    ensures r != Err(PinPolicy) && numbering != Citizen
      ==> t.log == old(t.log) + [VerifiedPuk(false)]
          || t.log == old(t.log) + [VerifiedPuk(true)] + [ResetPin(slot, false, r == Ok(Done))]
    ensures SlotsOf(t.log) <= SlotsOf(old(t.log)) + {slot}
  {
    if !AllDigits(puk) || !lengths.AcceptsPuk(|puk|) {
      return Err(PinPolicy);
    }
    if !AllDigits(newPin) || !lengths.AcceptsPin(slot, |newPin|) {
      return Err(PinPolicy);
    }
    if numbering == Citizen {
      r := SendCitizenReset(t, slot, bound);
    } else {
      r := SendOrganizationalReset(t, slot, bound);
    }
  }

  // ----- The sessions and the three flows -----

  /** What the first connection learned: the serial, the numbering and the activation scheme. */
  datatype CardContext = CardContext(boundSerial: string, numbering: Numbering, scheme: ActivationScheme)

  ghost function Touched(link: Transport?): set<object> {
    if link == null then {} else link.Repr()
  }

  /** Reads only: application, serial, numbering, and the certificate date that decides the scheme. */
  method EstablishCardSession(link: Transport?) returns (r: Result<CardContext, CardPinError>)
    modifies if link == null then {} else {link}
    ensures link != null ==> link.spent == old(link.spent)
  {
    if link == null {
      return Err(NotOpened);
    }
    var selected := link.SelectApplication();
    if !selected {
      return Err(SelectFailed);
    }
    var token := link.ReadTokenInfo();
    if token.None? {
      return Err(TransportFailed);
    }
    if token.value.None? {
      return Err(SerialUnavailable);
    }
    var numbering: Numbering, validFromCutover: Option<bool> := *, *;
    match numbering {
      case Organizational =>
        return Ok(CardContext(token.value.value, numbering, ActivationCodeIsPuk));
      case Citizen =>
        if validFromCutover.None? {
          return Err(NoScheme);
        }
        var scheme := if validFromCutover.value then PresetActivationPin else ActivationCodeIsPuk;
        return Ok(CardContext(token.value.value, numbering, scheme));
    }
  }

  /** A connection as opening leaves it: nothing sent. */
  predicate Unused(link: Transport?)
    reads link
  {
    link == null || link.log == []
  }

  /** What every flow promises about the connection it worked on. */
  twostate predicate Safe(link: Transport?, bound: string)
    reads if link == null then {} else {link, link.card}
  {
    link == null
    || (&& Spares(old(link.card.counters), link.card.counters)
        && !GuardAfter(link.log, bound).Violated?
        && StopsOnFailure(link.log)
        && link.spent <= old(link.spent) + 1)
  }

  method OpenAndVerify(link: Transport?, bound: string) returns (r: Result<CardPinLengths, CardPinError>)
    requires Unused(link)
    modifies if link == null then {} else {link}
    ensures r.Ok? ==> link != null
    ensures link != null ==> !GuardAfter(link.log, bound).Violated? && link.spent == old(link.spent)
    ensures link != null ==> NothingSent(link.log)
    ensures link != null ==> SlotsOf(link.log) == {}
  {
    if link == null {
      return Err(NotOpened);
    }
    assert SlotsOf([]) == {};
    var selected := link.SelectApplication();
    if !selected {
      return Err(SelectFailed);
    }
    var _ :- ReVerifySession(link, bound);
    var lengths := link.ReadLengths();
    if lengths.None? {
      return Err(TransportFailed);
    }
    return Ok(lengths.value);
  }

  /** Changing a PIN: floor, serial, one command. */
  method ChangePinFirst(link: Transport?, ctx: CardContext, slot: PinSlot, current: Digits, newPin: Digits)
    returns (r: Result<Outcome, CardPinError>)
    requires Unused(link)
    modifies Touched(link)
    ensures Safe(link, ctx.boundSerial)
    ensures link != null && r.Err? && !r.error.TransportFailed?
      ==> NothingSent(link.log)
    ensures r.Ok? ==> link != null && link.log != [] && link.log[|link.log| - 1] == ChangedPin(slot, r == Ok(Done))
    ensures link != null ==> SlotsOf(link.log) <= {slot}
  {
    var lengths :- OpenAndVerify(link, ctx.boundSerial);
    var status :- RequireActivated(link, ctx.scheme, slot);
    FloorsSpareLastTries(link.card.counters.Of(PinOf(slot)), slot, status, PukNoInfo);
    match CheckRetryFloor(PinOf(slot), status) {
      case Err(refusal) => return Err(RetryFloor(refusal));
      case Ok(_) =>
    }
    var _ :- ReVerifySession(link, ctx.boundSerial);
    r := SendChangePin(link, lengths, slot, current, newPin, ctx.boundSerial);
  }

  /** Unblocking a PIN with the PUK: activated, serial, the PUK's floor, one reset. */
  method UnblockPinFirst(link: Transport?, ctx: CardContext, slot: PinSlot, puk: Digits, newPin: Digits)
    returns (r: Result<Outcome, CardPinError>)
    requires Unused(link)
    modifies Touched(link)
    ensures Safe(link, ctx.boundSerial)
    ensures link != null && r.Err? && !r.error.TransportFailed?
      ==> NothingSent(link.log)
    ensures r.Ok? && ctx.numbering == Citizen
      ==> link != null && link.log != [] && link.log[|link.log| - 1] == ResetPin(slot, true, r == Ok(Done))
    ensures r.Ok? && ctx.numbering != Citizen
      ==> link != null && link.log != []
          && (link.log[|link.log| - 1] == VerifiedPuk(false)
              || link.log[|link.log| - 1] == ResetPin(slot, false, r == Ok(Done)))
    ensures link != null ==> SlotsOf(link.log) <= {slot}
  {
    var lengths :- OpenAndVerify(link, ctx.boundSerial);
    var _ :- RequireActivated(link, ctx.scheme, slot);
    var _ :- ReVerifySession(link, ctx.boundSerial);
    var _ :- PukRetryFloor(link);
    r := SendResetRetryCounter(link, lengths, ctx.numbering, slot, puk, newPin, ctx.boundSerial);
  }

  // ----- Activation -----

  datatype ActivationCode = Seven(digits: Digits) | Eight(digits: Digits)

  /** The typed code as the scheme takes it: a wrong length is refused before a non-digit. */
  function ActivationCodeFor(scheme: ActivationScheme, code: Digits): Result<ActivationCode, CardPinError> {
    var expected := if scheme == PresetActivationPin then 7 else 8;
    if |code| != expected then Err(ActivationLengthMismatch)
    else if !AllDigits(code) then Err(PinPolicy)
    else Ok(if scheme == PresetActivationPin then Seven(code) else Eight(code))
  }

  datatype ActivateOptions = ActivateOptions(code: Digits, newPin1: Option<Digits>, newPin2: Option<Digits>,
                                             allowReactivate: bool)

  datatype ActivateReport = ActivateReport(pin1: PinActivation, pin2: PinActivation,
                                           outcome1: Option<Outcome>, outcome2: Option<Outcome>)

  /** Every entry given has a length the card accepts in the role it is presented as. */
  predicate EntryFits(lengths: CardPinLengths, code: ActivationCode, slot: PinSlot, entry: Option<Digits>) {
    match entry
    case None => true
    case Some(newPin) =>
      && (if code.Seven? then lengths.AcceptsPin(slot, |code.digits|) else lengths.AcceptsPuk(|code.digits|))
      && lengths.AcceptsPin(slot, |newPin|)
  }

  /** One PIN set: changed from the preset PIN behind its last-tries rule, or reset behind the PUK's floor. */
  method ActivateSlotSetup(t: Transport, lengths: CardPinLengths, numbering: Numbering, slot: PinSlot,
                           code: ActivationCode, newPin: Digits, ghost bound: string)
    returns (r: Result<Outcome, CardPinError>)
    requires GuardAfter(t.log, bound).Armed? && AllDone(t.log)
    modifies t, t.card
    ensures Spares(old(t.card.counters), t.card.counters)
    ensures !GuardAfter(t.log, bound).Violated? && StopsOnFailure(t.log)
    ensures t.spent <= old(t.spent) + if r == Ok(Done) then 0 else 1
    ensures r == Ok(Done) ==> AllDone(t.log)
    ensures SlotsOf(t.log) <= SlotsOf(old(t.log)) + {slot}
  {
    match code {
      case Seven(_) =>
        var status := t.ProbePin(slot);
        if status.None? {
          return Err(TransportFailed);
        }
        FloorsSpareLastTries(t.card.counters.Of(PinOf(slot)), slot, status.value, PukNoInfo);
        match CheckActivationLastTries(PinOf(slot), status.value) {
          case Err(refusal) => return Err(RetryFloor(refusal));
          case Ok(_) =>
        }
        r := SendChangePin(t, lengths, slot, code.digits, newPin, bound);
      case Eight(_) =>
        var _ :- PukRetryFloor(t);
        r := SendResetRetryCounter(t, lengths, numbering, slot, code.digits, newPin, bound);
    }
  }

  /** A serial read and one PIN set, when an entry for it was given. */
  method VerifyAndSetUp(t: Transport, lengths: CardPinLengths, numbering: Numbering, slot: PinSlot,
                        code: ActivationCode, entry: Option<Digits>, bound: string)
    returns (r: Result<Option<Outcome>, CardPinError>)
    requires !GuardAfter(t.log, bound).Violated? && AllDone(t.log)
    modifies t, t.card
    ensures Spares(old(t.card.counters), t.card.counters)
    ensures !GuardAfter(t.log, bound).Violated? && StopsOnFailure(t.log)
    ensures t.spent <= old(t.spent) + if r == Ok(Some(Done)) || r == Ok(None) then 0 else 1
    ensures r == Ok(Some(Done)) || r == Ok(None) ==> AllDone(t.log)
    ensures r.Ok? ==> (r.value.Some? <==> entry.Some?)
    ensures SlotsOf(t.log) <= SlotsOf(old(t.log)) + if entry.Some? then {slot} else {}
  {
    if entry.None? {
      return Ok(None);
    }
    var _ :- ReVerifySession(t, bound);
    var outcome :- ActivateSlotSetup(t, lengths, numbering, slot, code, entry.value, bound);
    return Ok(Some(outcome));
  }

  /** The PINs an activation was given new codes for. */
  function Entered(options: ActivateOptions): set<PinSlot> {
    (if options.newPin1.Some? then {Pin1} else {}) + if options.newPin2.Some? then {Pin2} else {}
  }

  /**
   Activation: both PINs judged, the entries matched against what awaits, then each PIN entered set in
   turn; anything but success at PIN1 ends the run before PIN2.
   */
  method ActivateFirst(link: Transport?, ctx: CardContext, options: ActivateOptions)
    returns (r: Result<ActivateReport, CardPinError>)
    requires Unused(link)
    modifies Touched(link)
    ensures Safe(link, ctx.boundSerial)
    ensures link != null ==> SlotsOf(link.log) <= Entered(options)
    ensures r.Ok? && r.value.outcome1.Some? && r.value.outcome1 != Some(Done) ==> r.value.outcome2.None?
    ensures r.Ok? && r.value.outcome1.Some? ==> options.newPin1.Some?
    ensures r.Ok? && r.value.outcome2.Some? ==> options.newPin2.Some?
    ensures r.Ok? && !options.allowReactivate
      ==> && (r.value.outcome1.Some? ==> r.value.pin1.AwaitsActivation?)
          && (r.value.outcome2.Some? ==> r.value.pin2.AwaitsActivation?)
  {
    var code :- ActivationCodeFor(ctx.scheme, options.code);
    var lengths :- OpenAndVerify(link, ctx.boundSerial);
    var _, pin1 := ProbePinActivation(link, ctx.scheme, Pin1);
    var _, pin2 := ProbePinActivation(link, ctx.scheme, Pin2);
    if !options.allowReactivate && pin1.Activated? && pin2.Activated? {
      return Ok(ActivateReport(pin1, pin2, None, None));
    }
    var targets := ActivationTargets(pin1, pin2, options.newPin1.Some?, options.newPin2.Some?,
                                     options.allowReactivate);
    if targets.None? {
      return Err(ActivationEntriesMismatch(pin1.AwaitsActivation?, pin2.AwaitsActivation?));
    }
    if !EntryFits(lengths, code, Pin1, options.newPin1) || !EntryFits(lengths, code, Pin2, options.newPin2) {
      return Err(PinPolicy);
    }
    ghost var before := link.card.counters;
    var outcome1 :- VerifyAndSetUp(link, lengths, ctx.numbering, Pin1, code, options.newPin1, ctx.boundSerial);
    if outcome1.Some? && outcome1 != Some(Done) {
      return Ok(ActivateReport(pin1, pin2, outcome1, None));
    }
    ghost var between := link.card.counters;
    var outcome2 := VerifyAndSetUp(link, lengths, ctx.numbering, Pin2, code, options.newPin2, ctx.boundSerial);
    SparesChains(before, between, link.card.counters);
    if outcome2.Err? {
      return Err(outcome2.error);
    }
    return Ok(ActivateReport(pin1, pin2, outcome1, outcome2.value));
  }
}
