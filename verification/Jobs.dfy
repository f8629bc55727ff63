/**
 Signature requests between the pipe and the phone (`session.rs`): where every request is, and that each
 is answered once and in the order it came. The phone's engine is nondeterministic, and requests may
 arrive at every channel operation.
 */
module Jobs {

  import opened Octets

  datatype SignAnswer =
    | Signature(signature: octets)
    | Failed
    | NoPhone
    | Denied
    | Busy
    | Rejected
    | Cancelled
    | Lost

  datatype Job = Job(pairId: nat, request: octets)

  datatype Answered = Answered(job: Job, answer: SignAnswer)

  datatype Received = Got(job: Job) | Nothing | Disconnected

  // ----- What the engine's outcome means for the browser -----

  datatype ResultError = UserCancelled | BusyError | OtherError

  datatype OperationResult = SignatureResult(signature: octets) | OtherResult

  datatype OperationOutcome =
    | Completed(result: OperationResult)
    | OutcomeRejected(error: ResultError)
    | OutcomeRefused(error: ResultError)
    | OutcomeCancelled
    | OutcomeLost

  function AnswerFor(outcome: OperationOutcome): SignAnswer {
    match outcome
    case Completed(SignatureResult(signature)) => Signature(signature)
    case Completed(OtherResult) => Failed
    case OutcomeRejected(UserCancelled) => Denied
    case OutcomeRefused(BusyError) => Busy
    case OutcomeRejected(_) => Rejected
    case OutcomeRefused(_) => Rejected
    case OutcomeCancelled => Cancelled
    case OutcomeLost => Lost
  }

  /** Only a completed signature becomes a signature. */
  lemma SignatureOnlyWhenCompleted(outcome: OperationOutcome)
    ensures AnswerFor(outcome).Signature?
      <==> outcome.Completed? && outcome.result.SignatureResult?
    ensures AnswerFor(outcome).Signature? ==> AnswerFor(outcome).signature == outcome.result.signature
  {
  }

  function Requests(answered: seq<Answered>): (jobs: seq<Job>)
    ensures |jobs| == |answered|
    ensures forall k :: 0 <= k < |jobs| ==> jobs[k] == answered[k].job
  {
    seq(|answered|, k requires 0 <= k < |answered| => answered[k].job)
  }

  function AsSeq(pending: Option<Job>): seq<Job> {
    match pending
    case None => []
    case Some(job) => [job]
  }

  /** The session thread with its end of the request channel. */
  class SessionThread {
    /** Every request that ever came in, in order. */
    ghost var arrived: seq<Job>
    var queue: seq<Job>
    var pending: Option<Job>
    var answered: seq<Answered>

    constructor ()
      ensures Conserved() && arrived == [] && pending.None?
    {
      arrived, queue, pending, answered := [], [], None, [];
    }

    /** Each request is in exactly one place: answered, pending or queued, in the order it arrived. */
    ghost predicate Conserved()
      reads this
    {
      arrived == Requests(answered) + AsSeq(pending) + queue
    }

    /** Nothing that was answered or had arrived is forgotten or changed. */
    twostate predicate Continues()
      reads this
    {
      old(answered) <= answered && old(arrived) <= arrived
    }

    /** Requests the pipe sends meanwhile. */
    method Arrive()
      requires Conserved()
      modifies `queue, `arrived
      ensures Conserved() && Continues()
    {
      var more: seq<Job> := *;
      ghost var front := Requests(answered) + AsSeq(pending);
      assert front + queue + more == front + (queue + more);
      queue := queue + more;
      arrived := arrived + more;
    }

    method TryRecv(pipeGone: bool) returns (r: Received)
      requires Conserved()
      modifies `queue, `arrived
      ensures Continues()
      ensures r.Got? ==> arrived == Requests(answered) + AsSeq(pending) + [r.job] + queue
      ensures !r.Got? ==> Conserved() && queue == []
    {
      Arrive();
      if queue == [] {
        return if pipeGone then Disconnected else Nothing;
      }
      r := Got(queue[0]);
      ghost var front := Requests(answered) + AsSeq(pending);
      assert front + [queue[0]] + queue[1..] == front + queue;
      queue := queue[1..];
    }

    /** A receive that waits a while; what came in between is queued behind. */
    method RecvTimeout(pipeGone: bool) returns (r: Received)
      requires Conserved()
      modifies `queue, `arrived
      ensures Continues()
      ensures r.Got? ==> arrived == Requests(answered) + AsSeq(pending) + [r.job] + queue
      ensures !r.Got? ==> Conserved()
    {
      r := TryRecv(pipeGone);
    }

    method Answer(job: Job, answer: SignAnswer)
      requires arrived == Requests(answered) + [job] + AsSeq(pending) + queue
      modifies `answered
      ensures Conserved()
      ensures answered == old(answered) + [Answered(job, answer)]
    {
      ghost var before := answered;
      answered := answered + [Answered(job, answer)];
      assert Requests(answered) == Requests(before) + [job];
    }

    /** The pending request leaves its place. */
    method TakePending() returns (job: Option<Job>)
      requires Conserved()
      modifies `pending
      ensures pending.None? && job == old(pending)
      ensures arrived == Requests(answered) + AsSeq(job) + queue
    {
      job := pending;
      pending := None;
    }

    /** A request becomes pending; its place must be free. */
    method SetPending(job: Job)
      requires pending.None?
      requires arrived == Requests(answered) + [job] + queue
      modifies `pending
      ensures Conserved() && pending == Some(job)
    {
      pending := Some(job);
    }

    /** One job run as a browser authentication and answered. */
    method Sign(job: Job, pairId: nat)
      requires pending.None?
      requires arrived == Requests(answered) + [job] + queue
      modifies `answered
      ensures Conserved() && |answered| == |old(answered)| + 1 && old(answered) <= answered
      ensures job.pairId != pairId ==> answered[|answered| - 1].answer == Failed
    {
      assert Requests(answered) + [job] + AsSeq(pending) + queue == Requests(answered) + [job] + queue;
      if job.pairId != pairId {
        Answer(job, Failed);
        return;
      }
      var admitted: bool, outcome: OperationOutcome := *, *;
      Answer(job, if admitted then AnswerFor(outcome) else Failed);
    }

    /** Holding an open session: every job that arrives is answered before the next is received. */
    method HoldSession(pairId: nat) returns (pipeThere: bool)
      requires Conserved() && pending.None?
      modifies `queue, `arrived, `answered
      ensures Conserved() && Continues()
    {
      var rounds: nat := *;
      while rounds > 0
        invariant Conserved() && pending.None? && Continues()
      {
        var pipeGone: bool := *;
        var received := TryRecv(pipeGone);
        match received {
          case Got(job) =>
            assert Requests(answered) + AsSeq(pending) + [job] + queue == Requests(answered) + [job] + queue;
            var forgotten: bool := *;
            if forgotten {
              assert Requests(answered) + [job] + AsSeq(pending) + queue == Requests(answered) + [job] + queue;
              Answer(job, Failed);
            } else {
              Sign(job, pairId);
            }
          case Nothing =>
          case Disconnected =>
            return false;
        }
        rounds := rounds - 1;
      }
      return true;
    }

    /** The waiting request and every one queued behind it get no phone. */
    method AnswerAllNoPhone(waiting: Job)
      requires pending.None?
      requires arrived == Requests(answered) + [waiting] + queue
      modifies `queue, `arrived, `answered
      ensures Conserved() && Continues()
      ensures forall k :: |old(answered)| <= k < |answered| ==> answered[k].answer == NoPhone
      ensures |answered| > |old(answered)|
    {
      assert Requests(answered) + [waiting] + AsSeq(pending) + queue == Requests(answered) + [waiting] + queue;
      Answer(waiting, NoPhone);
      var rounds: nat := *;
      while rounds > 0
        invariant Conserved() && pending.None? && Continues() && |answered| > |old(answered)|
        invariant forall k :: |old(answered)| <= k < |answered| ==> answered[k].answer == NoPhone
      {
        var received := TryRecv(false);
        if !received.Got? {
          return;
        }
        assert Requests(answered) + [received.job] + AsSeq(pending) + queue
            == Requests(answered) + AsSeq(pending) + [received.job] + queue;
        Answer(received.job, NoPhone);
        rounds := rounds - 1;
      }
    }

    /** After a search that found no session; `goesOn` when the agent keeps searching. */
    method AfterFailedSearch() returns (goesOn: bool)
      requires Conserved()
      modifies `queue, `arrived, `answered, `pending
      ensures Conserved() && Continues()
    {
      if pending.None? {
        var received := TryRecv(false);
        if received.Got? {
          assert Requests(answered) + AsSeq(pending) + [received.job] + queue
              == Requests(answered) + [received.job] + queue;
          SetPending(received.job);
        }
      }
      var searchOver: bool, windowOver: bool := *, *;
      var waiting := TakePending();
      match waiting {
        case Some(job) =>
          if !searchOver && !windowOver {
            SetPending(job);
            return true;
          }
          AnswerAllNoPhone(job);
        case None =>
          assert Requests(answered) + AsSeq(None) + queue == Requests(answered) + AsSeq(pending) + queue;
      }
      var pipeGone: bool := *;
      var received := RecvTimeout(pipeGone);
      match received {
        case Got(job) =>
          assert Requests(answered) + AsSeq(pending) + [job] + queue == Requests(answered) + [job] + queue;
          SetPending(job);
        case Nothing =>
        case Disconnected =>
          return false;
      }
      return true;
    }

    /** No usable pairing: the waiting request fails, and so does the next that comes. */
    method WithoutPairing() returns (goesOn: bool)
      requires Conserved()
      modifies `queue, `arrived, `answered, `pending
      ensures Conserved() && Continues() && pending.None?
    {
      var waiting := TakePending();
      if waiting.Some? {
        assert Requests(answered) + [waiting.value] + AsSeq(pending) + queue
            == Requests(answered) + AsSeq(waiting) + queue;
        Answer(waiting.value, Failed);
      } else {
        assert Requests(answered) + AsSeq(waiting) + queue == Requests(answered) + AsSeq(pending) + queue;
      }
      var pipeGone: bool := *;
      var received := RecvTimeout(pipeGone);
      match received {
        case Got(job) =>
          assert Requests(answered) + [job] + AsSeq(pending) + queue
              == Requests(answered) + AsSeq(pending) + [job] + queue;
          Answer(job, Failed);
        case Nothing =>
        case Disconnected =>
          return false;
      }
      return true;
    }

    /** A reached session: the waiting request first, then whatever arrives while it is held. */
    method WithSession(pairId: nat) returns (pipeThere: bool)
      requires Conserved()
      modifies `queue, `arrived, `answered, `pending
      ensures Conserved() && Continues() && pending.None?
    {
      var waiting := TakePending();
      match waiting {
        case Some(job) =>
          var ended: bool := *;
          if ended {
            assert Requests(answered) + [job] + AsSeq(pending) + queue == Requests(answered) + AsSeq(waiting) + queue;
            Answer(job, NoPhone);
          } else {
            Sign(job, pairId);
          }
        case None =>
          assert Requests(answered) + AsSeq(waiting) + queue == Requests(answered) + AsSeq(pending) + queue;
      }
      pipeThere := HoldSession(pairId);
    }

    /**
     The session thread over a whole run, until the agent withdraws or the pipe is gone. What was answered
     is the requests in the order they came; what is left, the pending one and then the queue, is dropped.
     */
    method ServePhone() returns (dropped: seq<Job>)
      requires Conserved() && pending.None?
      modifies this
      ensures arrived == Requests(answered) + dropped
      ensures Continues()
      ensures pending.None? && queue == []
    {
      var rounds: nat := *;
      var goesOn := true;
      while rounds > 0 && goesOn
        invariant Conserved() && Continues()
      {
        var paired: bool, reached: bool, withdrawn: bool, pairId: nat := *, *, *, *;
        if !paired {
          goesOn := WithoutPairing();
        } else if reached {
          goesOn := WithSession(pairId);
        } else if withdrawn {
          goesOn := false;
        } else {
          goesOn := AfterFailedSearch();
        }
        rounds := rounds - 1;
      }
      dropped := AsSeq(pending) + queue;
      assert Requests(answered) + (AsSeq(pending) + queue) == Requests(answered) + AsSeq(pending) + queue;
      pending, queue := None, [];
    }
  }
}
