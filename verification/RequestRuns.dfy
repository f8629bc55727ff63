/**
 The pipe thread and the session thread on the request channel (`session.rs`), as a step system. Requests
 go down one channel; every answer comes back on its own request's reply channel; the pipe thread serves
 one client at a time and waits for its answer until a deadline. A step is what one thread does without
 the other seeing between, so a client can give up while its request is being signed.
 */
module RequestRuns {

  import opened Octets
  import opened Jobs

  /** A request and the client it came from; clients are numbered as they are let in. */
  datatype Ticket = Ticket(client: nat, job: Job)

  /** How a request is disposed of: by a failure, for want of a phone, or by running it. */
  datatype Disposal = Fails | NoPhoneThere | Executes(pairId: nat)

  datatype InHand = InHand(ticket: Ticket, disposal: Disposal)

  /** What became of a request; an operation that was not admitted has no outcome. */
  datatype Reply = Reply(ticket: Ticket, disposal: Disposal, outcome: Option<OperationOutcome>)

  function AnswerOf(r: Reply): SignAnswer {
    match r.disposal
    case Fails => Failed
    case NoPhoneThere => NoPhone
    case Executes(pairId) =>
      if r.ticket.job.pairId != pairId || r.outcome.None? then Failed else AnswerFor(r.outcome.value)
  }

  datatype PipePhase = Accepting | Reading(client: nat) | Awaiting(client: nat)

  datatype SessionPhase = Searching | Unpaired | SearchFailed | Draining | Pausing | Holding(pairId: nat) | Ended

  datatype State = State(
    accepted: nat,
    /** The answers formed so far, the k-th for the k-th client. */
    delivered: seq<SignAnswer>,
    /** The clients whose answer is that the deadline passed before theirs came. */
    gaveUp: set<nat>,
    pipe: PipePhase,
    /** Every request that was sent, in order. */
    sent: seq<Ticket>,
    inbox: seq<Ticket>,
    pending: Option<Ticket>,
    hand: Option<InHand>,
    replies: seq<Reply>,
    session: SessionPhase)

  datatype Action =
    // The pipe thread.
    | Accept
    | RequestRefused
    | Send(job: Job)
    | AnswerArrives(k: nat)
    | DeadlinePasses
    | ReplyChannelCloses
    // The session thread.
    | Withdrawn
    | PairingMissing
    | SearchFails
    | SearchesOn
    | GivesUp
    | NothingWaits
    | SessionReached(pairId: nat, over: bool)
    | TakesNext(forgotten: bool)
    | NothingComes
    | SessionEnds
    | Replies(outcome: Option<OperationOutcome>)

  predicate IsAnswered(s: State, client: nat) {
    exists k :: 0 <= k < |s.replies| && s.replies[k].ticket.client == client
  }

  predicate Enabled(s: State, a: Action) {
    match a
    case Accept => s.pipe.Accepting?
    case RequestRefused => s.pipe.Reading?
    case Send(_) => s.pipe.Reading?
    case AnswerArrives(k) => s.pipe.Awaiting? && k < |s.replies| && s.replies[k].ticket.client == s.pipe.client
    case DeadlinePasses => s.pipe.Awaiting?
    case ReplyChannelCloses => s.pipe.Awaiting? && s.session.Ended? && !IsAnswered(s, s.pipe.client)
    case Withdrawn => s.session.Searching? && s.hand.None?
    case PairingMissing => s.session.Searching? && s.hand.None?
    case SearchFails => s.session.Searching? && s.hand.None?
    case SearchesOn => s.session.SearchFailed? && s.pending.Some?
    case GivesUp => s.session.SearchFailed? && s.pending.Some?
    case NothingWaits => s.session.SearchFailed? && s.pending.None?
    case SessionReached(_, _) => s.session.Searching? && s.hand.None?
    case TakesNext(_) => Receives(s) && s.inbox != []
    case NothingComes => Receives(s) && !s.session.Holding? && s.inbox == []
    case SessionEnds => s.session.Holding? && s.hand.None?
    case Replies(_) => s.hand.Some?
  }

  /** The session thread is at a receive from the channel that is not behind a failed search. */
  predicate Receives(s: State) {
    s.hand.None? && (s.session.Unpaired? || s.session.Draining? || s.session.Pausing? || s.session.Holding?)
  }

  function Taken(pending: Option<Ticket>, disposal: Disposal): Option<InHand> {
    if pending.None? then None else Some(InHand(pending.value, disposal))
  }

  function Delivers(s: State, answer: SignAnswer): State {
    s.(delivered := s.delivered + [answer], pipe := Accepting)
  }

  function Next(s: State, a: Action): State
    requires Enabled(s, a)
  {
    match a
    case Accept => s.(accepted := s.accepted + 1, pipe := Reading(s.accepted))
    case RequestRefused => Delivers(s, Failed)
    case Send(job) =>
      if s.session.Ended? then Delivers(s, Failed)
      else
        var ticket := Ticket(s.pipe.client, job);
        s.(sent := s.sent + [ticket], inbox := s.inbox + [ticket], pipe := Awaiting(s.pipe.client))
    case AnswerArrives(k) => Delivers(s, AnswerOf(s.replies[k]))
    case DeadlinePasses => Delivers(s, Cancelled).(gaveUp := s.gaveUp + {s.pipe.client})
    case ReplyChannelCloses => Delivers(s, Failed)
    case Withdrawn => s.(session := Ended)
    case PairingMissing => s.(session := Unpaired, hand := Taken(s.pending, Fails), pending := None)
    case SearchFails =>
      if s.pending.None? && s.inbox != [] then
        s.(session := SearchFailed, pending := Some(s.inbox[0]), inbox := s.inbox[1..])
      else s.(session := SearchFailed)
    case SearchesOn => s.(session := Searching)
    case GivesUp => s.(session := Draining, hand := Taken(s.pending, NoPhoneThere), pending := None)
    case NothingWaits => s.(session := Pausing)
    case SessionReached(pairId, over) =>
      s.(session := Holding(pairId), hand := Taken(s.pending, if over then NoPhoneThere else Executes(pairId)),
         pending := None)
    case TakesNext(forgotten) => TakesFirst(s, forgotten)
    case NothingComes => s.(session := if s.session.Draining? then Pausing else Searching)
    case SessionEnds => s.(session := Searching)
    case Replies(outcome) =>
      s.(replies := s.replies + [Reply(s.hand.value.ticket, s.hand.value.disposal, outcome)], hand := None)
  }

  /** The first request in the channel, by where the session thread receives it. */
  function TakesFirst(s: State, forgotten: bool): State
    requires Receives(s) && s.inbox != []
  {
    var first, rest := s.inbox[0], s.inbox[1..];
    match s.session
    case Unpaired => s.(session := Searching, hand := Some(InHand(first, Fails)), inbox := rest)
    case Draining => s.(hand := Some(InHand(first, NoPhoneThere)), inbox := rest)
    case Holding(pairId) =>
      s.(hand := Some(InHand(first, if forgotten then Fails else Executes(pairId))), inbox := rest)
    case _ => s.(session := Searching, pending := Some(first), inbox := rest)
  }

  predicate Initial(s: State) {
    s == State(0, [], {}, Accepting, [], [], None, None, [], Searching)
  }

  function After(s: State, actions: seq<Action>): Option<State> {
    if actions == [] then Some(s)
    else
      var before :- After(s, actions[..|actions| - 1]);
      if Enabled(before, actions[|actions| - 1]) then Some(Next(before, actions[|actions| - 1])) else None
  }

  // ----- What every state of every run keeps -----

  function Tickets(replies: seq<Reply>): (tickets: seq<Ticket>)
    ensures |tickets| == |replies|
    ensures forall k :: 0 <= k < |tickets| ==> tickets[k] == replies[k].ticket
  {
    seq(|replies|, k requires 0 <= k < |replies| => replies[k].ticket)
  }

  /** The request the session thread has taken out of the channel and not answered, if any. */
  function Held(s: State): seq<Ticket> {
    if s.hand.Some? then [s.hand.value.ticket] else if s.pending.Some? then [s.pending.value] else []
  }

  /** Requests without an answer, in the order they were sent. */
  function Unanswered(s: State): seq<Ticket> {
    Held(s) + s.inbox
  }

  /** Each request is in one place, in the order they were sent, and one is held at most. */
  predicate InOnePlace(s: State) {
    && s.sent == Tickets(s.replies) + Unanswered(s)
    && (s.hand.Some? ==> s.pending.None?)
    && (s.session.Ended? ==> s.hand.None?)
    && (s.session.SearchFailed? ==> s.hand.None?)
    && (s.pending.Some? ==> s.session.Searching? || s.session.SearchFailed? || s.session.Ended?)
  }

  /** A client sends one request at most, and only the client being served has no answer yet. */
  predicate OneClientAtATime(s: State) {
    && (forall i, j :: 0 <= i < j < |s.sent| ==> s.sent[i].client < s.sent[j].client)
    && (forall i :: 0 <= i < |s.sent| ==> s.sent[i].client < |s.delivered| + (if s.pipe.Awaiting? then 1 else 0))
    && |s.delivered| + (if s.pipe.Accepting? then 0 else 1) == s.accepted
    && (!s.pipe.Accepting? ==> s.pipe.client == |s.delivered|)
    && (s.pipe.Awaiting? ==> s.sent != [] && s.sent[|s.sent| - 1].client == s.pipe.client)
  }

  /** A client that did not give up has its own request's answer, or the news of a failure. */
  predicate OwnAnswer(s: State, client: nat)
    requires client < |s.delivered|
  {
    if client in s.gaveUp then s.delivered[client] == Cancelled
    else
      || s.delivered[client] == Failed
      || exists k :: 0 <= k < |s.replies| && s.replies[k].ticket.client == client
                     && AnswerOf(s.replies[k]) == s.delivered[client]
  }

  /** A reply whose client has an answer and did not give up is that answer. */
  predicate ReplyCounts(s: State, r: Reply) {
    r.ticket.client < |s.delivered| && r.ticket.client !in s.gaveUp ==> s.delivered[r.ticket.client] == AnswerOf(r)
  }

  /** A request without an answer is the served client's, one whose client gave up, or dropped. */
  predicate WaitsRightly(s: State, ticket: Ticket) {
    || s.session.Ended?
    || (s.pipe.Awaiting? && ticket.client == s.pipe.client)
    || ticket.client in s.gaveUp
  }

  predicate Answers(s: State) {
    && (forall client :: client in s.gaveUp ==> client < |s.delivered|)
    && (forall client :: 0 <= client < |s.delivered| ==> OwnAnswer(s, client))
    && (forall k :: 0 <= k < |s.replies| ==> ReplyCounts(s, s.replies[k]))
    && (forall ticket :: ticket in Unanswered(s) ==> WaitsRightly(s, ticket))
  }

  predicate Invariant(s: State) {
    InOnePlace(s) && OneClientAtATime(s) && Answers(s)
  }

  lemma InvariantHoldsAtFirst(s: State)
    requires Initial(s)
    ensures Invariant(s)
  {
  }

  predicate OfPipe(a: Action) {
    a.Accept? || a.RequestRefused? || a.Send? || a.AnswerArrives? || a.DeadlinePasses? || a.ReplyChannelCloses?
  }

  lemma PipeKeepsPlaces(s: State, a: Action)
    requires InOnePlace(s) && Enabled(s, a) && OfPipe(a)
    ensures InOnePlace(Next(s, a))
  {
    if a.Send? && !s.session.Ended? {
      var ticket := Ticket(s.pipe.client, a.job);
      assert Tickets(s.replies) + (Held(s) + (s.inbox + [ticket]))
          == Tickets(s.replies) + (Held(s) + s.inbox) + [ticket];
    }
  }

  /** Short of answering, the session thread leaves the requests without an answer in their order. */
  lemma SessionMoves(s: State, a: Action)
    requires InOnePlace(s) && Enabled(s, a) && !OfPipe(a) && !a.Replies?
    ensures var next := Next(s, a);
      && InOnePlace(next)
      && Unanswered(next) == Unanswered(s)
      && next.replies == s.replies
  {
    UnansweredStay(s, a);
    hide Tickets, Unanswered;
  }

  lemma UnansweredStay(s: State, a: Action)
    requires s.hand.Some? ==> s.pending.None?
    requires s.session.SearchFailed? ==> s.hand.None?
    requires s.pending.Some? ==> s.session.Searching? || s.session.SearchFailed? || s.session.Ended?
    requires Enabled(s, a) && !OfPipe(a) && !a.Replies?
    ensures Unanswered(Next(s, a)) == Unanswered(s)
  {
    if s.inbox != [] {
      assert s.inbox == [s.inbox[0]] + s.inbox[1..];
    }
  }

  /** It answers the first of them. */
  lemma SessionReplies(s: State, outcome: Option<OperationOutcome>)
    requires InOnePlace(s) && Enabled(s, Replies(outcome))
    ensures InOnePlace(Next(s, Replies(outcome)))
    ensures Unanswered(s) == [s.hand.value.ticket] + Unanswered(Next(s, Replies(outcome)))
  {
    var next := Next(s, Replies(outcome));
    assert Tickets(next.replies) == Tickets(s.replies) + [s.hand.value.ticket];
    assert Tickets(s.replies) + ([s.hand.value.ticket] + s.inbox)
        == Tickets(s.replies) + [s.hand.value.ticket] + s.inbox;
  }

  lemma PipeKeepsClients(s: State, a: Action)
    requires OneClientAtATime(s) && Enabled(s, a) && OfPipe(a)
    ensures OneClientAtATime(Next(s, a))
  {
  }

  lemma RepliesStay(s: State, next: State, client: nat)
    requires client < |s.delivered| && OwnAnswer(s, client)
    requires s.replies <= next.replies && s.delivered <= next.delivered
    requires client in s.gaveUp <==> client in next.gaveUp
    ensures OwnAnswer(next, client)
  {
    if k :| 0 <= k < |s.replies| && s.replies[k].ticket.client == client
            && AnswerOf(s.replies[k]) == s.delivered[client] {
      assert next.replies[k] == s.replies[k];
    }
  }

  /** No two requests are of one client. */
  lemma AnsweredIsGone(s: State, k: nat, ticket: Ticket)
    requires InOnePlace(s) && OneClientAtATime(s)
    requires k < |s.replies| && ticket in Unanswered(s)
    ensures s.replies[k].ticket.client < ticket.client
  {
    var i :| 0 <= i < |Unanswered(s)| && Unanswered(s)[i] == ticket;
    assert s.sent[k] == s.replies[k].ticket;
    assert s.sent[|s.replies| + i] == ticket;
  }

  lemma PipeKeepsAnswers(s: State, a: Action)
    requires Invariant(s) && Enabled(s, a) && OfPipe(a)
    ensures Answers(Next(s, a))
  {
    var next := Next(s, a);
    forall client | 0 <= client < |next.delivered| ensures OwnAnswer(next, client) {
      if client < |s.delivered| {
        RepliesStay(s, next, client);
      } else if a.AnswerArrives? {
        assert next.replies[a.k].ticket.client == client;
      }
    }
    forall k | 0 <= k < |next.replies| ensures ReplyCounts(next, next.replies[k]) {
      assert ReplyCounts(s, s.replies[k]);
      NewAnswerIsTheReply(s, a, k);
    }
    forall ticket | ticket in Unanswered(next) ensures WaitsRightly(next, ticket) {
      if ticket in Unanswered(s) {
        assert WaitsRightly(s, ticket);
        if a.AnswerArrives? {
          AnsweredIsGone(s, a.k, ticket);
        }
      }
    }
  }

  /** What the served client gets, when its request has been answered and it does not give up. */
  lemma NewAnswerIsTheReply(s: State, a: Action, k: nat)
    requires InOnePlace(s) && OneClientAtATime(s) && Enabled(s, a) && OfPipe(a) && k < |s.replies|
    ensures s.replies[k].ticket.client == |s.delivered| && |Next(s, a).delivered| > |s.delivered|
      && |s.delivered| !in Next(s, a).gaveUp
      ==> Next(s, a).delivered[|s.delivered|] == AnswerOf(s.replies[k])
  {
    assert s.sent[k] == s.replies[k].ticket;
    if a.AnswerArrives? {
      assert s.sent[a.k] == s.replies[a.k].ticket;
    }
  }

  lemma SessionKeepsAnswers(s: State, a: Action)
    requires Invariant(s) && Enabled(s, a) && !OfPipe(a)
    ensures InOnePlace(Next(s, a)) && Answers(Next(s, a))
  {
    var next := Next(s, a);
    if a.Replies? {
      assert s.hand.value.ticket in Unanswered(s) && !s.session.Ended?;
      assert WaitsRightly(s, s.hand.value.ticket);
      SessionReplies(s, a.outcome);
    } else {
      SessionMoves(s, a);
    }
    hide InOnePlace, Unanswered, Tickets;
    forall client | 0 <= client < |next.delivered| ensures OwnAnswer(next, client) {
      RepliesStay(s, next, client);
    }
    forall k | 0 <= k < |next.replies| ensures ReplyCounts(next, next.replies[k]) {
      if k < |s.replies| {
        assert ReplyCounts(s, s.replies[k]);
      }
    }
    forall ticket | ticket in Unanswered(next) ensures WaitsRightly(next, ticket) {
      assert ticket in Unanswered(s);
      assert WaitsRightly(s, ticket);
    }
  }

  lemma SessionKeepsClients(s: State, a: Action)
    requires OneClientAtATime(s) && Enabled(s, a) && !OfPipe(a)
    ensures OneClientAtATime(Next(s, a))
  {
  }

  lemma InvariantIsKept(s: State, a: Action)
    requires Invariant(s) && Enabled(s, a)
    ensures Invariant(Next(s, a))
  {
    hide InOnePlace, OneClientAtATime, Answers, Enabled, Next;
    if OfPipe(a) {
      PipeKeepsPlaces(s, a);
      PipeKeepsClients(s, a);
      PipeKeepsAnswers(s, a);
    } else {
      SessionKeepsAnswers(s, a);
      SessionKeepsClients(s, a);
    }
  }

  lemma {:induction false} EveryRunKeepsInvariant(s: State, actions: seq<Action>)
    requires Initial(s) && After(s, actions).Some?
    ensures Invariant(After(s, actions).value)
    decreases |actions|
  {
    if actions == [] {
      InvariantHoldsAtFirst(s);
    } else {
      var init, last := actions[..|actions| - 1], actions[|actions| - 1];
      EveryRunKeepsInvariant(s, init);
      InvariantIsKept(After(s, init).value, last);
    }
  }

  // ----- What follows for requests and clients -----

  /** Every request is answered, held, or in the channel, once and in the order they were sent. */
  lemma RequestsAreConserved(s: State, actions: seq<Action>)
    requires Initial(s) && After(s, actions).Some?
    ensures var now := After(s, actions).value;
      && now.sent == Tickets(now.replies) + Held(now) + now.inbox
      && |Held(now)| == (if now.hand.Some? then 1 else 0) + (if now.pending.Some? then 1 else 0)
      && forall i, j :: 0 <= i < j < |now.sent| ==> now.sent[i].client < now.sent[j].client
  {
    EveryRunKeepsInvariant(s, actions);
    var now := After(s, actions).value;
    assert Tickets(now.replies) + (Held(now) + now.inbox) == Tickets(now.replies) + Held(now) + now.inbox;
  }

  /** Requests are disposed of in the order they were sent, none of them twice. */
  lemma RepliesInOrder(s: State, actions: seq<Action>, i: nat, j: nat)
    requires Initial(s) && After(s, actions).Some?
    requires i < j < |After(s, actions).value.replies|
    ensures var now := After(s, actions).value;
      && j < |now.sent|
      && now.replies[i].ticket == now.sent[i]
      && now.replies[i].ticket.client < now.replies[j].ticket.client
  {
    EveryRunKeepsInvariant(s, actions);
    var now := After(s, actions).value;
    assert now.sent[i] == now.replies[i].ticket && now.sent[j] == now.replies[j].ticket;
  }

  /** One answer for each client let in, but for the one being served; and an answer given stays. */
  lemma OneAnswerPerClient(s: State, actions: seq<Action>, more: seq<Action>)
    requires Initial(s) && After(s, actions + more).Some?
    ensures var now := After(s, actions);
      && now.Some?
      && |now.value.delivered| == now.value.accepted - (if now.value.pipe.Accepting? then 0 else 1)
      && now.value.delivered <= After(s, actions + more).value.delivered
  {
    DeliveredGrows(s, actions, more);
    EveryRunKeepsInvariant(s, actions);
  }

  lemma {:induction false} DeliveredGrows(s: State, actions: seq<Action>, more: seq<Action>)
    requires After(s, actions + more).Some?
    ensures After(s, actions).Some?
    ensures After(s, actions).value.delivered <= After(s, actions + more).value.delivered
    decreases |more|
  {
    if more == [] {
      assert actions + more == actions;
    } else {
      var init := more[..|more| - 1];
      assert (actions + more)[..|actions + more| - 1] == actions + init;
      DeliveredGrows(s, actions, init);
    }
  }

  /**
   A signature reaches only the client that asked for it: its own request was run once, for the pairing it
   named, and completed with this signature.
   */
  lemma SignatureIsTheClients(s: State, actions: seq<Action>, client: nat)
    requires Initial(s) && After(s, actions).Some?
    requires client < |After(s, actions).value.delivered| && After(s, actions).value.delivered[client].Signature?
    ensures var now := After(s, actions).value;
      exists k :: && 0 <= k < |now.replies|
                  && now.replies[k].ticket.client == client
                  && now.replies[k].disposal == Executes(now.replies[k].ticket.job.pairId)
                  && now.replies[k].outcome
                     == Some(Completed(SignatureResult(now.delivered[client].signature)))
                  && forall j :: 0 <= j < |now.replies| && j != k ==> now.replies[j].ticket.client != client
  {
    EveryRunKeepsInvariant(s, actions);
    var now := After(s, actions).value;
    assert OwnAnswer(now, client);
    var k :| 0 <= k < |now.replies| && now.replies[k].ticket.client == client
             && AnswerOf(now.replies[k]) == now.delivered[client];
    SignatureOnlyWhenCompleted(now.replies[k].outcome.value);
    forall j | 0 <= j < |now.replies| && j != k ensures now.replies[j].ticket.client != client {
      assert now.sent[j] == now.replies[j].ticket && now.sent[k] == now.replies[k].ticket;
    }
  }

  /** Where one request waits, no other is put. */
  lemma PendingIsNotOverwritten(s: State, actions: seq<Action>, a: Action)
    requires Initial(s) && After(s, actions).Some? && Enabled(After(s, actions).value, a)
    ensures var now := After(s, actions).value;
      && (now.pending.Some? && Next(now, a).pending.Some? ==> Next(now, a).pending == now.pending)
      && (now.pending.Some? && Next(now, a).pending.None?
          ==> Next(now, a).hand.Some? && Next(now, a).hand.value.ticket == now.pending.value)
      && (now.hand.Some? && !a.Replies? ==> Next(now, a).hand == now.hand)
  {
    EveryRunKeepsInvariant(s, actions);
  }

  /**
   While the pipe thread waits for an answer, the request is answered already or still on its way, or the
   session thread has ended and the reply channel closes; whatever else is on its way then has a client
   that was told of the deadline.
   */
  lemma AwaitedIsNotLost(s: State, actions: seq<Action>)
    requires Initial(s) && After(s, actions).Some? && After(s, actions).value.pipe.Awaiting?
    ensures var now := After(s, actions).value;
      && now.sent != []
      && now.sent[|now.sent| - 1].client == now.pipe.client
      && (IsAnswered(now, now.pipe.client) <==> now.sent[|now.sent| - 1] !in Unanswered(now))
      && (!now.session.Ended?
          ==> forall ticket :: ticket in Unanswered(now) && ticket.client != now.pipe.client
                ==> ticket.client < |now.delivered| && now.delivered[ticket.client] == Cancelled)
  {
    EveryRunKeepsInvariant(s, actions);
    var now := After(s, actions).value;
    var last := now.sent[|now.sent| - 1];
    if Unanswered(now) == [] {
      assert now.replies[|now.replies| - 1].ticket == last;
    } else {
      assert Unanswered(now)[|Unanswered(now)| - 1] == last;
      forall k | 0 <= k < |now.replies| ensures now.replies[k].ticket.client != last.client {
        AnsweredIsGone(now, k, last);
      }
    }
    forall ticket | ticket in Unanswered(now) && !now.session.Ended? && ticket.client != now.pipe.client
      ensures ticket.client < |now.delivered| && now.delivered[ticket.client] == Cancelled
    {
      assert WaitsRightly(now, ticket);
      assert OwnAnswer(now, ticket.client);
    }
  }

  /** The clients that gave up are those the pipe thread stopped waiting for. */
  lemma {:induction false} GaveUpExactly(s: State, actions: seq<Action>, client: nat)
    requires Initial(s) && After(s, actions).Some?
    ensures client in After(s, actions).value.gaveUp
      <==> exists k :: 0 <= k < |actions| && StopsWaiting(s, actions, k, client)
    decreases |actions|
  {
    if actions != [] {
      var init := actions[..|actions| - 1];
      GaveUpExactly(s, init, client);
      forall k | 0 <= k < |init| ensures StopsWaiting(s, init, k, client) == StopsWaiting(s, actions, k, client) {
        assert init[..k] == actions[..k];
      }
      assert actions[..|init|] == init;
      if client in After(s, actions).value.gaveUp && client !in After(s, init).value.gaveUp {
        assert StopsWaiting(s, actions, |init|, client);
      }
      if StopsWaiting(s, actions, |init|, client) {
        assert client in After(s, actions).value.gaveUp;
      }
    }
  }

  /** At step `k` the deadline passes while the pipe thread waits for this client's answer. */
  predicate StopsWaiting(s: State, actions: seq<Action>, k: nat, client: nat)
    requires k < |actions|
  {
    var before := After(s, actions[..k]);
    actions[k] == DeadlinePasses && before.Some? && before.value.pipe == Awaiting(client)
  }

  /**
   What a client got is what its request was answered with, for every reply of every run, unless the
   deadline passed first; so the two differ exactly when it did and the reply says anything else.
   */
  lemma AnswerIsTheReply(s: State, actions: seq<Action>, k: nat)
    requires Initial(s) && After(s, actions).Some? && k < |After(s, actions).value.replies|
    requires After(s, actions).value.replies[k].ticket.client < |After(s, actions).value.delivered|
    ensures var now := After(s, actions).value;
      var client := now.replies[k].ticket.client;
      && (client in now.gaveUp ==> now.delivered[client] == Cancelled)
      && (now.delivered[client] != AnswerOf(now.replies[k])
          <==> client in now.gaveUp && AnswerOf(now.replies[k]) != Cancelled)
  {
    EveryRunKeepsInvariant(s, actions);
    var now := After(s, actions).value;
    assert ReplyCounts(now, now.replies[k]);
    assert OwnAnswer(now, now.replies[k].ticket.client);
  }

  lemma AfterStep(s: State, actions: seq<Action>, a: Action)
    requires After(s, actions).Some? && Enabled(After(s, actions).value, a)
    ensures After(s, actions + [a]) == Some(Next(After(s, actions).value, a))
  {
    assert (actions + [a])[..|actions|] == actions;
  }

  lemma AfterNothing(s: State)
    ensures After(s, []) == Some(s)
  {
  }

  /** A deadline does not call a request back: its client can be told it is over while it is still signed. */
  lemma SignatureAfterDeadline(s: State, job: Job, signature: octets)
    requires Initial(s)
    ensures exists actions ::
      && After(s, actions).Some?
      && After(s, actions).value.delivered == [Cancelled]
      && |After(s, actions).value.replies| == 1
      && AnswerOf(After(s, actions).value.replies[0]) == Signature(signature)
      && After(s, actions).value.gaveUp == {0}
  {
    hide After;
    AfterNothing(s);
    AfterStep(s, [], Accept);
    assert [] + [Accept] == [Accept];
    var sent := [Accept] + [Send(job)];
    AfterStep(s, [Accept], Send(job));
    AfterStep(s, sent, SessionReached(job.pairId, false));
    var reached := sent + [SessionReached(job.pairId, false)];
    AfterStep(s, reached, TakesNext(false));
    var taken := reached + [TakesNext(false)];
    AfterStep(s, taken, DeadlinePasses);
    var late := taken + [DeadlinePasses];
    AfterStep(s, late, Replies(Some(Completed(SignatureResult(signature)))));
    assert After(s, late + [Replies(Some(Completed(SignatureResult(signature))))]).Some?;
  }
}
