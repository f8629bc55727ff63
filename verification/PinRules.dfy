/**
 The rules PIN management decides by: the retry floors, who awaits activation, and what an
 activation sets (`pin_retry_risk.rs`, `activation.rs`, `card_pin.rs`).
 */
module PinRules {

  import opened Octets

  datatype PinSlot = Pin1 | Pin2

  datatype Credential = PinOf(slot: PinSlot) | Puk

  datatype Numbering = Citizen | Organizational

  datatype ActivationScheme = ActivationCodeIsPuk | PresetActivationPin

  datatype PinStatus = Verified | Remaining(tries: nat) | NoInfo | Locked | OtherWord(word: nat)

  datatype PukStatus = PukRemaining(tries: nat) | PukNoInfo | PukLocked | PukInvalidated | PukOtherWord(word: nat)

  datatype Refusal =
    | TriesBelowFloor(credential: Credential, tries: nat)
    | Blocked(credential: Credential)
    | CounterUnreadable(credential: Credential)

  const TRY_LIMIT: nat := 5
  const FLOOR: nat := 3

  // ----- What a card keeps, and what its answers may say -----

  /** One credential on a card: tries left, and whether its use counter has invalidated it. */
  datatype CredentialState = CredentialState(tries: nat, invalidated: bool) {
    /** The card answers for itself and spends nothing. */
    predicate Exhausted() {
      tries == 0 || invalidated
    }
  }

  datatype Counters = Counters(pin1: CredentialState, pin2: CredentialState, puk: CredentialState) {
    function Of(c: Credential): CredentialState {
      match c
      case PinOf(Pin1) => pin1
      case PinOf(Pin2) => pin2
      case Puk => puk
    }
  }

  /** A PIN status a card in this state may answer; an answer without a counter is always possible. */
  predicate HonestPinStatus(state: CredentialState, status: PinStatus) {
    match status
    case Verified => state.tries == TRY_LIMIT
    case Remaining(tries) => state.tries == tries
    case Locked => state.Exhausted()
    case NoInfo => true
    case OtherWord(_) => true
  }

  predicate HonestPukStatus(state: CredentialState, status: PukStatus) {
    match status
    case PukRemaining(tries) => state.tries == tries
    case PukLocked => state.Exhausted()
    case PukInvalidated => state.Exhausted()
    case PukNoInfo => true
    case PukOtherWord(_) => true
  }

  // ----- The retry floors -----

  function CheckRetryFloor(credential: Credential, status: PinStatus): Result<(), Refusal> {
    match status
    case Verified => if credential.PinOf? then Ok(()) else Err(CounterUnreadable(credential))
    case Remaining(tries) =>
      if tries > TRY_LIMIT then Err(CounterUnreadable(credential))
      else if tries >= FLOOR then Ok(())
      else if tries == 0 && credential.Puk? then Ok(())
      else Err(TriesBelowFloor(credential, tries))
    case Locked => if credential.Puk? then Ok(()) else Err(Blocked(credential))
    case NoInfo => Err(CounterUnreadable(credential))
    case OtherWord(_) => Err(CounterUnreadable(credential))
  }

  function CheckPukRetryFloor(status: PukStatus): Result<(), Refusal> {
    var asPin := match status
      case PukRemaining(tries) => Remaining(tries)
      case PukNoInfo => NoInfo
      case PukLocked => Locked
      case PukInvalidated => Locked
      case PukOtherWord(word) => OtherWord(word);
    CheckRetryFloor(Puk, asPin)
  }

  function CheckActivationLastTries(credential: Credential, status: PinStatus): Result<(), Refusal> {
    match status
    case Remaining(tries) =>
      if tries > TRY_LIMIT then Err(CounterUnreadable(credential))
      else if tries == 2 || tries == 1 then Err(TriesBelowFloor(credential, tries))
      else Ok(())
    case Verified => Ok(())
    case Locked => Ok(())
    case NoInfo => Err(CounterUnreadable(credential))
    case OtherWord(_) => Err(CounterUnreadable(credential))
  }

  /** One more try can be spent without touching the last two, or none can be spent at all. */
  predicate MaySpend(state: CredentialState) {
    state.tries >= FLOOR || state.Exhausted()
  }

  /** All three floors serve a credential only where a wrong code cannot take a last try. */
  lemma FloorsSpareLastTries(state: CredentialState, slot: PinSlot, pin: PinStatus, puk: PukStatus)
    ensures HonestPinStatus(state, pin) && CheckRetryFloor(PinOf(slot), pin).Ok? ==> state.tries >= FLOOR
    ensures HonestPinStatus(state, pin) && CheckActivationLastTries(PinOf(slot), pin).Ok? ==> MaySpend(state)
    ensures HonestPukStatus(state, puk) && CheckPukRetryFloor(puk).Ok? ==> MaySpend(state)
  {
  }

  /** A readable PUK counter is served exactly at five, four, three and none; a PIN's not at none. */
  lemma FloorsServeExactly(tries: nat, slot: PinSlot)
    ensures CheckPukRetryFloor(PukRemaining(tries)).Ok? <==> tries in {0, 3, 4, 5}
    ensures CheckRetryFloor(PinOf(slot), Remaining(tries)).Ok? <==> tries in {3, 4, 5}
    ensures CheckActivationLastTries(PinOf(slot), Remaining(tries)).Ok? <==> tries in {0, 3, 4, 5}
  {
  }

  // ----- Activation -----

  datatype PinActivation = AwaitsActivation | Activated

  function Judge(scheme: ActivationScheme, changed: Option<bool>, status: Option<PinStatus>): PinActivation {
    match changed
    case Some(true) => Activated
    case Some(false) => AwaitsActivation
    case None =>
      if scheme == ActivationCodeIsPuk && (status == Some(Locked) || status == Some(Remaining(0)))
      then AwaitsActivation else Activated
  }

  /** Which PINs an activation sets. */
  function ActivationTargets(pin1: PinActivation, pin2: PinActivation, entered1: bool, entered2: bool,
                             allowReactivate: bool): Option<(bool, bool)> {
    var matches := entered1 == pin1.AwaitsActivation? && entered2 == pin2.AwaitsActivation?;
    if (entered1 || entered2) && (allowReactivate || matches) then Some((entered1, entered2)) else None
  }

  datatype Outcome = Done | WrongCode(tries: nat) | CodeLocked | Invalidated | LengthError | OtherOutcome(word: nat)
}
