/**
 * The worker pool: a sender, a fixed number of workers, and a consumer, joined by two bounded channels.
 *
 * The goroutines are modelled as one state machine over their steps, so every interleaving is a sequence of steps.
 * A response carries the request it answers; the real channel does not, and nothing here branches on that tag.
 */
module WorkerPool {
  import opened Collections

  /** What executing one request yields: ExecFn's result, or its error and no result. */
  datatype Response<+E> = Done(result: E) | Failed(error: string)

  datatype Answer<+Q, +E> = Answer(request: Q, response: Response<E>)

  datatype Worker<+Q, +E> = Idle | Executing(request: Q) | Answering(answer: Answer<Q, E>) | Exited

  datatype Pool<Q, E> = Pool(
    concurrency: nat,
    unsent: seq<Q>,               // what SendRequests has still to send
    requestsClosed: bool,
    requests: seq<Q>,             // the buffered request channel
    workers: seq<Worker<Q, E>>,
    responses: seq<Answer<Q, E>>, // the buffered response channel
    responsesClosed: bool,
    received: seq<Answer<Q, E>>,  // what the consumer has read
    cancelled: bool)

  /** ExecFn as a function of the request and of whether the context was already cancelled when it ended. */
  type ExecFn<!Q, !E> = (Q, bool) -> Response<E>

  datatype Step =
    | Send                  // SendRequests puts the next request on the channel
    | CloseRequests         // SendRequests closes the channel
    | Take(w: nat)          // a worker receives a request
    | Execute(w: nat)       // request.execute(ctx) returns
    | Respond(w: nat)       // the worker sends the response
    | Leave(w: nat)         // the worker saw the closed and drained request channel
    | LeaveCancelled(w: nat) // the worker saw the cancelled context
    | CloseResponses        // Run's wg.Wait() returned
    | Receive               // the consumer's range loop reads a response
    | Cancel                // the context is cancelled

  function New<Q, E>(concurrency: nat, requests: seq<Q>): Pool<Q, E> {
    Pool(concurrency, requests, false, [], seq(concurrency, _ => Idle), [], false, [], false)
  }

  predicate Enabled<Q(==), E(==)>(s: Pool<Q, E>, step: Step) {
    match step
    case Send => s.unsent != [] && !s.requestsClosed && |s.requests| < s.concurrency
    case CloseRequests => s.unsent == [] && !s.requestsClosed
    case Take(w) => w < |s.workers| && s.workers[w].Idle? && s.requests != []
    case Execute(w) => w < |s.workers| && s.workers[w].Executing?
    case Respond(w) => w < |s.workers| && s.workers[w].Answering? && |s.responses| < s.concurrency
    case Leave(w) => w < |s.workers| && s.workers[w].Idle? && s.requests == [] && s.requestsClosed
    case LeaveCancelled(w) => w < |s.workers| && s.workers[w].Idle? && s.cancelled
    case CloseResponses => !s.responsesClosed && forall w :: w in s.workers ==> w.Exited?
    case Receive => s.responses != []
    case Cancel => !s.cancelled
  }

  function Apply<Q(==), E(==)>(s: Pool<Q, E>, step: Step, exec: ExecFn<Q, E>): Pool<Q, E>
    requires Enabled(s, step)
  {
    match step
    case Send => s.(unsent := s.unsent[1..], requests := s.requests + [s.unsent[0]])
    case CloseRequests => s.(requestsClosed := true)
    case Take(w) => s.(workers := s.workers[w := Executing(s.requests[0])], requests := s.requests[1..])
    case Execute(w) =>
      var request := s.workers[w].request;
      s.(workers := s.workers[w := Answering(Answer(request, exec(request, s.cancelled)))])
    case Respond(w) => s.(workers := s.workers[w := Idle], responses := s.responses + [s.workers[w].answer])
    case Leave(w) => s.(workers := s.workers[w := Exited])
    case LeaveCancelled(w) => s.(workers := s.workers[w := Exited])
    case CloseResponses => s.(responsesClosed := true)
    case Receive => s.(responses := s.responses[1..], received := s.received + [s.responses[0]])
    case Cancel => s.(cancelled := true)
  }

  /** The state after a schedule, or None when some step of it was not possible. */
  function After<Q(==), E(==)>(s: Pool<Q, E>, schedule: seq<Step>, exec: ExecFn<Q, E>): Option<Pool<Q, E>>
    decreases |schedule|
  {
    if schedule == [] then Some(s)
    else if Enabled(s, schedule[0]) then After(Apply(s, schedule[0], exec), schedule[1..], exec)
    else None
  }

  /** The consumer's range loop over the responses has ended. */
  predicate Finished<Q(==), E(==)>(s: Pool<Q, E>) {
    s.responsesClosed && s.responses == []
  }

  /** The state s is reached from a new pool by the schedule. */
  ghost predicate Reaches<Q, E>(
      concurrency: nat, requests: seq<Q>, schedule: seq<Step>, exec: ExecFn<Q, E>, s: Pool<Q, E>)
  {
    concurrency >= 1 && After(New(concurrency, requests), schedule, exec) == Some(s)
  }

  /** ExecFn mapped over the requests. */
  function Expected<Q, E>(requests: seq<Q>, exec: ExecFn<Q, E>): seq<Response<E>> {
    seq(|requests|, i requires 0 <= i < |requests| => exec(requests[i], false))
  }

  // ---------- conservation and channel safety

  function RequestOf<Q, E>(a: Answer<Q, E>): Q { a.request }

  function ResponseOf<Q, E>(a: Answer<Q, E>): Response<E> { a.response }

  /** The request a worker holds. */
  function Held<Q, E>(w: Worker<Q, E>): multiset<Q> {
    match w
    case Executing(r) => multiset{r}
    case Answering(a) => multiset{a.request}
    case _ => multiset{}
  }

  function InFlight<Q, E>(workers: seq<Worker<Q, E>>): multiset<Q> { Gather(workers, Held) }

  function Answered<Q, E>(answers: seq<Answer<Q, E>>): multiset<Q> { multiset(Map(RequestOf, answers)) }

  /** Every request, wherever it is: unsent, buffered, with a worker, or answered. */
  function Whereabouts<Q, E>(s: Pool<Q, E>): multiset<Q> {
    multiset(s.unsent) + multiset(s.requests) + InFlight(s.workers) + Answered(s.responses) + Answered(s.received)
  }

  lemma AnsweredPush<Q, E>(answers: seq<Answer<Q, E>>, a: Answer<Q, E>)
    ensures Answered(answers + [a]) == Answered(answers) + multiset{a.request}
  {
    MapPush(RequestOf, answers, a);
  }

  lemma AnsweredPop<Q, E>(answers: seq<Answer<Q, E>>)
    requires answers != []
    ensures Answered(answers) == multiset{answers[0].request} + Answered(answers[1..])
  {
    MapPop(RequestOf, answers);
  }

  lemma SendConserves<Q, E>(s: Pool<Q, E>, exec: ExecFn<Q, E>)
    requires Enabled(s, Send)
    ensures Whereabouts(Apply(s, Send, exec)) == Whereabouts(s)
  {
    var t := Apply(s, Send, exec);
    BagPop(s.unsent);
    assert multiset(t.requests) == multiset(s.requests) + multiset{s.unsent[0]};
    Moves(multiset(s.unsent), multiset(s.requests), multiset(t.unsent), multiset(t.requests), multiset{s.unsent[0]});
  }

  lemma TakeConserves<Q, E>(s: Pool<Q, E>, w: nat, exec: ExecFn<Q, E>)
    requires Enabled(s, Take(w))
    ensures Whereabouts(Apply(s, Take(w), exec)) == Whereabouts(s)
  {
    var t := Apply(s, Take(w), exec);
    BagPop(s.requests);
    GatherGain(s.workers, w, t.workers[w], Held);
    MovesWithin(multiset(s.unsent), multiset(s.requests), InFlight(s.workers), multiset(t.requests),
      InFlight(t.workers), multiset{s.requests[0]});
  }

  lemma RespondConserves<Q, E>(s: Pool<Q, E>, w: nat, exec: ExecFn<Q, E>)
    requires Enabled(s, Respond(w))
    ensures Whereabouts(Apply(s, Respond(w), exec)) == Whereabouts(s)
  {
    var t := Apply(s, Respond(w), exec);
    AnsweredPush(s.responses, s.workers[w].answer);
    GatherLose(s.workers, w, t.workers[w], Held);
    MovesWithin(multiset(s.unsent) + multiset(s.requests), InFlight(s.workers), Answered(s.responses),
      InFlight(t.workers), Answered(t.responses),
      multiset{s.workers[w].answer.request});
  }

  lemma ReceiveConserves<Q, E>(s: Pool<Q, E>, exec: ExecFn<Q, E>)
    requires Enabled(s, Receive)
    ensures Whereabouts(Apply(s, Receive, exec)) == Whereabouts(s)
  {
    var t := Apply(s, Receive, exec);
    AnsweredPop(s.responses);
    AnsweredPush(s.received, s.responses[0]);
    MovesWithin(multiset(s.unsent) + multiset(s.requests) + InFlight(s.workers), Answered(s.responses),
      Answered(s.received), Answered(t.responses), Answered(t.received), multiset{s.responses[0].request});
  }

  lemma ExecuteConserves<Q, E>(s: Pool<Q, E>, w: nat, exec: ExecFn<Q, E>)
    requires Enabled(s, Execute(w))
    ensures Whereabouts(Apply(s, Execute(w), exec)) == Whereabouts(s)
  {
    var t := Apply(s, Execute(w), exec);
    GatherSame(s.workers, w, t.workers[w], Held);
    assert InFlight(t.workers) == InFlight(s.workers);
  }

  lemma LeaveConserves<Q, E>(s: Pool<Q, E>, step: Step, exec: ExecFn<Q, E>)
    requires (step.Leave? || step.LeaveCancelled?) && Enabled(s, step)
    ensures Whereabouts(Apply(s, step, exec)) == Whereabouts(s)
  {
    var t := Apply(s, step, exec);
    GatherSame(s.workers, step.w, t.workers[step.w], Held);
    assert InFlight(t.workers) == InFlight(s.workers);
  }

  /** No step loses, invents or swaps a request. */
  lemma StepConserves<Q, E>(s: Pool<Q, E>, step: Step, exec: ExecFn<Q, E>)
    requires Enabled(s, step)
    ensures Whereabouts(Apply(s, step, exec)) == Whereabouts(s)
  {
    match step
    case Send => SendConserves(s, exec);
    case Take(w) => TakeConserves(s, w, exec);
    case Execute(w) => ExecuteConserves(s, w, exec);
    case Respond(w) => RespondConserves(s, w, exec);
    case Leave(w) => LeaveConserves(s, step, exec);
    case LeaveCancelled(w) => LeaveConserves(s, step, exec);
    case Receive => ReceiveConserves(s, exec);
    case _ =>
  }

  ghost predicate Correct<Q, E>(a: Answer<Q, E>, exec: ExecFn<Q, E>, cancelled: bool) {
    a.response == exec(a.request, false) || (cancelled && a.response == exec(a.request, true))
  }

  /** The channels keep their bounds and are closed only by whoever can no longer write to them. */
  ghost predicate ChannelInv<Q, E>(s: Pool<Q, E>) {
    && |s.workers| == s.concurrency >= 1
    && |s.requests| <= s.concurrency && |s.responses| <= s.concurrency
    && (s.requestsClosed ==> s.unsent == [])
    && (s.responsesClosed ==> forall i :: 0 <= i < |s.workers| ==> s.workers[i].Exited?)
    && (!s.cancelled ==>
          forall i :: 0 <= i < |s.workers| && s.workers[i].Exited? ==> s.requestsClosed && s.requests == [])
  }

  ghost predicate AnswerInv<Q, E>(s: Pool<Q, E>, exec: ExecFn<Q, E>) {
    && (forall i :: 0 <= i < |s.workers| && s.workers[i].Answering? ==> Correct(s.workers[i].answer, exec, s.cancelled))
    && (forall i :: 0 <= i < |s.responses| ==> Correct(s.responses[i], exec, s.cancelled))
    && (forall i :: 0 <= i < |s.received| ==> Correct(s.received[i], exec, s.cancelled))
  }

  lemma StepKeepsChannels<Q, E>(s: Pool<Q, E>, step: Step, exec: ExecFn<Q, E>)
    requires ChannelInv(s) && Enabled(s, step)
    ensures ChannelInv(Apply(s, step, exec))
  {
    if step.CloseResponses? {
      forall i | 0 <= i < |s.workers| ensures s.workers[i].Exited? { assert s.workers[i] in s.workers; }
    }
  }

  lemma StepKeepsAnswers<Q, E>(s: Pool<Q, E>, step: Step, exec: ExecFn<Q, E>)
    requires AnswerInv(s, exec) && Enabled(s, step)
    ensures AnswerInv(Apply(s, step, exec), exec)
  {
  }

  lemma {:induction false} RunKeepsWhereabouts<Q, E>(
      s: Pool<Q, E>, schedule: seq<Step>, exec: ExecFn<Q, E>, t: Pool<Q, E>)
    requires After(s, schedule, exec) == Some(t)
    ensures Whereabouts(t) == Whereabouts(s)
    decreases |schedule|
  {
    if schedule == [] {
    } else {
      StepConserves(s, schedule[0], exec);
      RunKeepsWhereabouts(Apply(s, schedule[0], exec), schedule[1..], exec, t);
    }
  }

  lemma {:induction false} RunKeepsChannels<Q, E>(s: Pool<Q, E>, schedule: seq<Step>, exec: ExecFn<Q, E>, t: Pool<Q, E>)
    requires ChannelInv(s) && After(s, schedule, exec) == Some(t)
    ensures ChannelInv(t) && t.concurrency == s.concurrency
    decreases |schedule|
  {
    if schedule == [] {
    } else {
      StepKeepsChannels(s, schedule[0], exec);
      RunKeepsChannels(Apply(s, schedule[0], exec), schedule[1..], exec, t);
    }
  }

  lemma {:induction false} RunKeepsAnswers<Q, E>(s: Pool<Q, E>, schedule: seq<Step>, exec: ExecFn<Q, E>, t: Pool<Q, E>)
    requires AnswerInv(s, exec) && After(s, schedule, exec) == Some(t)
    ensures AnswerInv(t, exec)
    decreases |schedule|
  {
    if schedule == [] {
    } else {
      StepKeepsAnswers(s, schedule[0], exec);
      RunKeepsAnswers(Apply(s, schedule[0], exec), schedule[1..], exec, t);
    }
  }

  lemma ReachedState<Q, E>(
      concurrency: nat, requests: seq<Q>, schedule: seq<Step>, exec: ExecFn<Q, E>, s: Pool<Q, E>)
    requires Reaches(concurrency, requests, schedule, exec, s)
    ensures ChannelInv(s) && AnswerInv(s, exec) && Whereabouts(s) == multiset(requests) && s.concurrency == concurrency
  {
    var start: Pool<Q, E> := New(concurrency, requests);
    GatherEmpty(start.workers, Held);
    RunKeepsChannels(start, schedule, exec, s);
    RunKeepsAnswers(start, schedule, exec, s);
    RunKeepsWhereabouts(start, schedule, exec, s);
  }

  lemma {:induction false} EachHoldsOne<Q, E>(workers: seq<Worker<Q, E>>)
    ensures |InFlight(workers)| <= |workers|
  {
    if workers == [] {
    } else {
      EachHoldsOne(workers[1..]);
      assert InFlight(workers) == Held(workers[0]) + InFlight(workers[1..]);
    }
  }

  /**
   * In every state of every run nothing is lost or duplicated; and once responses is closed, no worker can be about
   * to send on it.
   */
  lemma RunConserves<Q, E>(
      concurrency: nat, requests: seq<Q>, schedule: seq<Step>, exec: ExecFn<Q, E>, s: Pool<Q, E>)
    requires Reaches(concurrency, requests, schedule, exec, s)
    ensures Whereabouts(s) == multiset(requests)
    ensures Answered(s.received) <= multiset(requests)
    ensures s.responsesClosed ==> forall w :: w in s.workers ==> w.Exited?
    ensures |s.requests| <= concurrency && |s.responses| <= concurrency && |InFlight(s.workers)| <= concurrency
  {
    ReachedState(concurrency, requests, schedule, exec, s);
    EachHoldsOne(s.workers);
  }

  /**
   * A finished run that was never cancelled delivers exactly one response per request: the received responses are a
   * permutation of ExecFn mapped over the requests, whatever the interleaving.
   */
  lemma FinishedRunAnswersAll<Q, E>(
      concurrency: nat, requests: seq<Q>, schedule: seq<Step>, exec: ExecFn<Q, E>, s: Pool<Q, E>)
    requires Reaches(concurrency, requests, schedule, exec, s)
    requires Finished(s) && !s.cancelled
    ensures Answered(s.received) == multiset(requests)
    ensures multiset(Map(ResponseOf, s.received)) == multiset(Expected(requests, exec))
  {
    ReachedState(concurrency, requests, schedule, exec, s);
    assert s.workers[0].Exited?;
    GatherEmpty(s.workers, Held);
    var answered := Map(RequestOf, s.received);
    var f := r => exec(r, false);
    MapKeepsPermutation(f, answered, requests);
    assert Map(f, requests) == Expected(requests, exec);
    assert Map(ResponseOf, s.received) == Map(f, answered);
  }

  /**
   * On any run, cancelled or not, every response received answers a request of the batch with what ExecFn returned
   * for it, and only a cancelled run can contain an answer given after the cancellation.
   */
  lemma ReceivedAnswersAreCorrect<Q, E>(
      concurrency: nat, requests: seq<Q>, schedule: seq<Step>, exec: ExecFn<Q, E>, s: Pool<Q, E>, i: nat)
    requires Reaches(concurrency, requests, schedule, exec, s) && i < |s.received|
    ensures s.received[i].request in requests
    ensures s.received[i].response == exec(s.received[i].request, false)
      || (s.cancelled && s.received[i].response == exec(s.received[i].request, true))
  {
    ReachedState(concurrency, requests, schedule, exec, s);
    assert Correct(s.received[i], exec, s.cancelled);
    assert Map(RequestOf, s.received)[i] in Answered(s.received);
    assert s.received[i].request in Whereabouts(s);
  }

  // ---------- progress

  function Weight<Q, E>(w: Worker<Q, E>): nat {
    match w
    case Idle => 1
    case Executing(_) => 4
    case Answering(_) => 3
    case Exited => 0
  }

  /** How many steps can still be taken. */
  function Remaining<Q, E>(s: Pool<Q, E>): nat {
    5 * |s.unsent| + 4 * |s.requests| + Total(s.workers, Weight) + |s.responses|
    + (if s.requestsClosed then 0 else 1) + (if s.responsesClosed then 0 else 1) + (if s.cancelled then 0 else 1)
  }

  /** Every step, whichever goroutine takes it, uses up exactly one. */
  lemma StepUsesOne<Q, E>(s: Pool<Q, E>, step: Step, exec: ExecFn<Q, E>)
    requires Enabled(s, step)
    ensures Remaining(Apply(s, step, exec)) == Remaining(s) - 1
  {
    if step.Take? || step.Execute? || step.Respond? || step.Leave? || step.LeaveCancelled? {
      TotalUpdate(s.workers, step.w, Apply(s, step, exec).workers[step.w], Weight);
    }
  }

  lemma {:induction false} RunUsesItsLength<Q, E>(s: Pool<Q, E>, schedule: seq<Step>, exec: ExecFn<Q, E>, t: Pool<Q, E>)
    requires After(s, schedule, exec) == Some(t)
    ensures |schedule| + Remaining(t) == Remaining(s)
    decreases |schedule|
  {
    if schedule == [] {
    } else {
      StepUsesOne(s, schedule[0], exec);
      RunUsesItsLength(Apply(s, schedule[0], exec), schedule[1..], exec, t);
    }
  }

  /** While the consumer has not finished, somebody can move, and the context need not be cancelled for it. */
  lemma SomebodyCanMove<Q, E>(s: Pool<Q, E>) returns (step: Step)
    requires ChannelInv(s) && !Finished(s)
    ensures Enabled(s, step) && !step.Cancel?
  {
    if s.responses != [] {
      return Receive;
    }
    if w :| 0 <= w < |s.workers| && !s.workers[w].Exited? {
      match s.workers[w]
      case Executing(_) => return Execute(w);
      case Answering(_) => return Respond(w);
      case Idle =>
        if s.cancelled { return LeaveCancelled(w); }
        if s.requests != [] { return Take(w); }
        if s.requestsClosed { return Leave(w); }
        return if s.unsent != [] then Send else CloseRequests;
    }
    return CloseResponses;
  }

  /**
   * The consumer's range loop ends on every run: no run is longer than 5 steps a request plus one a worker plus 3,
   * and a run that cannot go on without a cancellation has finished.
   */
  lemma EveryRunEnds<Q, E>(
      concurrency: nat, requests: seq<Q>, schedule: seq<Step>, exec: ExecFn<Q, E>, s: Pool<Q, E>)
    requires Reaches(concurrency, requests, schedule, exec, s)
    ensures |schedule| <= 5 * |requests| + concurrency + 3
    ensures (forall step: Step :: Enabled(s, step) ==> step.Cancel?) ==> Finished(s)
  {
    var start: Pool<Q, E> := New(concurrency, requests);
    TotalConstant(start.workers, 1, Weight);
    RunUsesItsLength(start, schedule, exec, s);
    ReachedState(concurrency, requests, schedule, exec, s);
    if !Finished(s) {
      var step := SomebodyCanMove(s);
    }
  }

  /** From every reachable state the pool can go on to finish, with no cancellation on the way. */
  lemma {:induction false} CanFinish<Q, E>(s: Pool<Q, E>, exec: ExecFn<Q, E>)
      returns (schedule: seq<Step>, t: Pool<Q, E>)
    requires ChannelInv(s)
    ensures After(s, schedule, exec) == Some(t) && Finished(t) && t.cancelled == s.cancelled
    decreases Remaining(s)
  {
    if Finished(s) {
      return [], s;
    }
    var step := SomebodyCanMove(s);
    StepUsesOne(s, step, exec);
    StepKeepsChannels(s, step, exec);
    schedule, t := CanFinish(Apply(s, step, exec), exec);
    schedule := [step] + schedule;
  }

  /** Every uncancelled run of one batch takes the same number of steps to finish. */
  lemma UncancelledRunsTakeEquallyLong<Q, E>(
      concurrency: nat, requests: seq<Q>, schedule: seq<Step>, exec: ExecFn<Q, E>, s: Pool<Q, E>)
    requires Reaches(concurrency, requests, schedule, exec, s)
    requires Finished(s) && !s.cancelled
    ensures |schedule| == 5 * |requests| + concurrency + 2
  {
    var start: Pool<Q, E> := New(concurrency, requests);
    TotalConstant(start.workers, 1, Weight);
    RunUsesItsLength(start, schedule, exec, s);
    ReachedState(concurrency, requests, schedule, exec, s);
    assert s.workers[0].Exited?;
    TotalConstant(s.workers, 0, Weight);
  }
}
