/** The service's operations, bound to the displayed serial, in any order on any cards (`service.rs`). */
module CardRuns {

  import opened Octets
  import opened PinRules
  import opened CardPin

  datatype Operation =
    | Change(slot: PinSlot, current: Digits, newPin: Digits)
    | Unblock(slot: PinSlot, puk: Digits, newPin: Digits)
    | Activate(options: ActivateOptions)

  /** One user action: the displayed serial, and the connections its two openings of the reader give. */
  datatype Request = Request(expected: string, session: Transport?, work: Transport?, operation: Operation)

  /** The displayed card is still the one in the reader. */
  method EnsureSerial(expected: string, live: string) returns (r: Result<(), CardPinError>)
    ensures r == if expected == live then Ok(()) else Err(SessionRevoked)
  {
    return if expected == live then Ok(()) else Err(SessionRevoked);
  }

  /** One request: session, serial, then the flow on the second connection. */
  method Serve(request: Request) returns (r: Result<(), CardPinError>)
    requires Unused(request.work) && (request.session != request.work || request.work == null)
    modifies (if request.session == null then {} else {request.session}), Touched(request.work)
    ensures Safe(request.work, request.expected)
  {
    var ctx :- EstablishCardSession(request.session);
    var _ :- EnsureSerial(request.expected, ctx.boundSerial);
    match request.operation {
      case Change(slot, current, newPin) =>
        var _ :- ChangePinFirst(request.work, ctx, slot, current, newPin);
      case Unblock(slot, puk, newPin) =>
        var _ :- UnblockPinFirst(request.work, ctx, slot, puk, newPin);
      case Activate(options) =>
        var _ :- ActivateFirst(request.work, ctx, options);
    }
    return Ok(());
  }

  ghost function Links(requests: seq<Request>): set<Transport> {
    set i | 0 <= i < |requests| && requests[i].session != null :: requests[i].session
  }

  ghost function Works(requests: seq<Request>): set<Transport> {
    set i | 0 <= i < |requests| && requests[i].work != null :: requests[i].work
  }

  ghost function Cards(requests: seq<Request>): set<Card> {
    set i | 0 <= i < |requests| && requests[i].work != null :: requests[i].work.card
  }

  /** Every opening of the reader gives a connection of its own; cards may come back at will. */
  ghost predicate OwnConnections(requests: seq<Request>) {
    && Links(requests) !! Works(requests)
    && forall i, j :: 0 <= i < j < |requests| && requests[i].work != null ==> requests[i].work != requests[j].work
  }

  /**
   A whole run: any number of changes, unblocks and activations, in any order, with any entries, on any
   cards. No counter at two or more ends below two and none at one is lost, and on every connection each
   modifying command follows a read of the displayed serial.
   */
  method ServeAll(requests: seq<Request>)
    requires OwnConnections(requests)
    requires forall i :: 0 <= i < |requests| ==> Unused(requests[i].work)
    modifies Links(requests), Works(requests), Cards(requests)
    ensures forall c :: c in Cards(requests) ==> Spares(old(c.counters), c.counters)
    ensures forall i :: 0 <= i < |requests| && requests[i].work != null
              ==> && !GuardAfter(requests[i].work.log, requests[i].expected).Violated?
                  && StopsOnFailure(requests[i].work.log)
    ensures forall i :: 0 <= i < |requests| && requests[i].work != null
              ==> requests[i].work.spent <= old(requests[i].work.spent) + 1
  {
    for k := 0 to |requests|
      invariant forall c :: c in Cards(requests) ==> Spares(old(c.counters), c.counters)
      invariant forall i :: 0 <= i < k && requests[i].work != null
                  ==> && !GuardAfter(requests[i].work.log, requests[i].expected).Violated?
                      && StopsOnFailure(requests[i].work.log)
                      && requests[i].work.spent <= old(requests[i].work.spent) + 1
      invariant forall i :: k <= i < |requests| && requests[i].work != null
                  ==> requests[i].work.log == [] && requests[i].work.spent == old(requests[i].work.spent)
    {
      var request := requests[k];
      assert request.session != null ==> request.session in Links(requests);
      assert request.work != null ==> request.work in Works(requests) && request.work.card in Cards(requests);
      label Before:
      var _ := Serve(request);
      forall c | c in Cards(requests)
        ensures Spares(old(c.counters), c.counters)
      {
        if request.work != null && c == request.work.card {
          SparesChains(old(c.counters), old@Before(c.counters), c.counters);
        }
      }
      forall i | 0 <= i < |requests| && requests[i].work != null && i != k
        ensures requests[i].work.log == old@Before(requests[i].work.log)
        ensures requests[i].work.spent == old@Before(requests[i].work.spent)
      {
        assert requests[i].work in Works(requests);
      }
    }
  }
}
