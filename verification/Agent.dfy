/**
 * The cloud agent's command pipeline: the request and response buffers of pkg/agent/agent.go, which outlive the
 * connections, and the workers and the stream of one connection after the other.
 */
module Agent {
  import opened Collections

  const HEALTHCHECK := "healthcheck"
  const BUFFER_SIZE_PER_WORKER: nat := 5

  datatype Command = Command(messageId: string, verb: string, url: string, body: string)

  datatype Response = Response(messageId: string, status: int, headers: map<string, seq<string>>, body: string)

  /** How URLs are parsed, as an error if they are bad, and what the request handler answers. */
  datatype Server = Server(
    urlError: string -> Option<string>, handle: Command -> (int, map<string, seq<string>>, string))

  function ExecuteCommand(cmd: Command, server: Server): Response {
    if cmd.url == HEALTHCHECK then Response(cmd.messageId, 0, map[], "")
    else if server.urlError(cmd.url).Some? then
      Response(cmd.messageId, 400, map[], "bad command url: " + server.urlError(cmd.url).value)
    else
      var (status, headers, body) := server.handle(cmd);
      Response(cmd.messageId, status, headers, body)
  }

  /** A command in the order in which it was put into the request buffer; the number tells equal commands apart. */
  datatype Item = Item(number: nat, command: Command)

  datatype Answer = Answer(item: Item, response: Response)

  datatype Worker = Idle | Executing(item: Item) | Holding(answer: Answer) | Stopped

  datatype Sender = Waiting | Sending(answer: Answer) | Down

  datatype Agent = Agent(
    placed: seq<Item>,            // every command ever put into the request buffer
    requests: seq<Item>,          // the request buffer
    workers: seq<Worker>,
    responses: seq<Answer>,       // the response buffer
    sender: Sender,
    cancelled: bool,              // the context of the current connection
    connection: nat,
    executed: seq<Item>,          // every execution that was carried out
    handed: seq<Answer>,          // every response that was handed to a stream
    sent: seq<Answer>,
    failed: seq<Answer>,          // lost because sending them failed
    dropped: seq<Answer>)         // lost because a worker saw the cancelled context

  datatype Step =
    | Place(command: Command)  // the receiver puts a command into the request buffer
    | Take(w: nat)
    | Execute(w: nat)
    | Enqueue(w: nat)          // the worker puts its response into the response buffer
    | Drop(w: nat)             // the worker sees the cancelled context instead
    | StopWorker(w: nat)
    | HandOver                 // the sender takes a response and hands it to the stream
    | Sent
    | SendFails                // an error, a timeout, or the cancelled context
    | StopSender
    | Cancel
    | Reconnect                // everybody has stopped, and the next connection begins

  function New(workerCount: nat): Agent {
    Agent([], [], seq(workerCount, _ => Idle), [], Waiting, false, 0, [], [], [], [], [])
  }

  function Capacity(s: Agent): nat { BUFFER_SIZE_PER_WORKER * |s.workers| }

  predicate Enabled(s: Agent, step: Step) {
    match step
    case Place(_) => |s.requests| < Capacity(s)
    case Take(w) => w < |s.workers| && s.workers[w].Idle? && s.requests != []
    case Execute(w) => w < |s.workers| && s.workers[w].Executing?
    case Enqueue(w) => w < |s.workers| && s.workers[w].Holding? && |s.responses| < Capacity(s)
    case Drop(w) => w < |s.workers| && s.workers[w].Holding? && s.cancelled
    case StopWorker(w) => w < |s.workers| && s.workers[w].Idle? && s.cancelled
    case HandOver => s.sender.Waiting? && s.responses != []
    case Sent => s.sender.Sending?
    case SendFails => s.sender.Sending?
    case StopSender => s.sender.Waiting? && s.cancelled
    case Cancel => !s.cancelled
    case Reconnect => s.cancelled && s.sender.Down? && forall w :: w in s.workers ==> w.Stopped?
  }

  function Apply(s: Agent, step: Step, server: Server): Agent
    requires Enabled(s, step)
  {
    match step
    case Place(command) =>
      var item := Item(|s.placed|, command);
      s.(placed := s.placed + [item], requests := s.requests + [item])
    case Take(w) => s.(workers := s.workers[w := Executing(s.requests[0])], requests := s.requests[1..])
    case Execute(w) =>
      var item := s.workers[w].item;
      s.(workers := s.workers[w := Holding(Answer(item, ExecuteCommand(item.command, server)))],
         executed := s.executed + [item])
    case Enqueue(w) => s.(workers := s.workers[w := Idle], responses := s.responses + [s.workers[w].answer])
    case Drop(w) => s.(workers := s.workers[w := Stopped], dropped := s.dropped + [s.workers[w].answer])
    case StopWorker(w) => s.(workers := s.workers[w := Stopped])
    case HandOver =>
      s.(sender := Sending(s.responses[0]), responses := s.responses[1..], handed := s.handed + [s.responses[0]])
    case Sent => s.(sender := Waiting, sent := s.sent + [s.sender.answer])
    case SendFails => s.(sender := Down, failed := s.failed + [s.sender.answer], cancelled := true)
    case StopSender => s.(sender := Down)
    case Cancel => s.(cancelled := true)
    case Reconnect =>
      s.(workers := seq(|s.workers|, _ => Idle), sender := Waiting, cancelled := false, connection := s.connection + 1)
  }

  function After(s: Agent, run: seq<Step>, server: Server): Option<Agent>
    decreases |run|
  {
    if run == [] then Some(s)
    else if Enabled(s, run[0]) then After(Apply(s, run[0], server), run[1..], server)
    else None
  }

  // ---------- where the commands are

  function ItemOf(a: Answer): Item { a.item }

  function Items(answers: seq<Answer>): multiset<Item> { multiset(Map(ItemOf, answers)) }

  function Pending(w: Worker): multiset<Item> {
    match w
    case Executing(item) => multiset{item}
    case _ => multiset{}
  }

  function Finished(w: Worker): multiset<Item> {
    match w
    case Holding(a) => multiset{a.item}
    case _ => multiset{}
  }

  /** Queued or being executed. */
  function Unexecuted(s: Agent): multiset<Item> { multiset(s.requests) + Gather(s.workers, Pending) }

  /** Answered, the response with its worker or in the response buffer. */
  function Answered(s: Agent): multiset<Item> { Gather(s.workers, Finished) + Items(s.responses) }

  function InSender(s: Agent): multiset<Item> {
    if s.sender.Sending? then multiset{s.sender.answer.item} else multiset{}
  }

  /** Handed to a stream: being sent, sent, or lost in sending. */
  function HandedOver(s: Agent): multiset<Item> { InSender(s) + Items(s.sent) + Items(s.failed) }

  ghost predicate PlacedInv(s: Agent) {
    && (forall i | 0 <= i < |s.placed| :: s.placed[i].number == i)
    && Unexecuted(s) + multiset(s.executed) == multiset(s.placed)
  }

  ghost predicate ExecutedInv(s: Agent) {
    Answered(s) + Items(s.handed) + Items(s.dropped) == multiset(s.executed)
  }

  ghost predicate HandedInv(s: Agent) { HandedOver(s) == Items(s.handed) }

  ghost predicate Faithful(a: Answer, server: Server) { a.response == ExecuteCommand(a.item.command, server) }

  ghost predicate AllFaithful(s: Agent, server: Server) {
    && (forall i | 0 <= i < |s.workers| && s.workers[i].Holding? :: Faithful(s.workers[i].answer, server))
    && (forall i | 0 <= i < |s.responses| :: Faithful(s.responses[i], server))
    && (s.sender.Sending? ==> Faithful(s.sender.answer, server))
    && (forall i | 0 <= i < |s.handed| :: Faithful(s.handed[i], server))
  }

  lemma AllIdle(workers: seq<Worker>)
    requires forall w | w in workers :: w.Idle? || w.Stopped?
    ensures Gather(workers, Pending) == multiset{} && Gather(workers, Finished) == multiset{}
  {
    GatherEmpty(workers, Pending);
    GatherEmpty(workers, Finished);
  }

  lemma TakeMoves(s: Agent, w: nat, server: Server)
    requires Enabled(s, Take(w))
    ensures var t := Apply(s, Take(w), server);
      Unexecuted(t) == Unexecuted(s) && Gather(t.workers, Finished) == Gather(s.workers, Finished)
  {
    var t := Apply(s, Take(w), server);
    BagPop(s.requests);
    GatherGain(s.workers, w, t.workers[w], Pending);
    GatherSame(s.workers, w, t.workers[w], Finished);
    Moves(multiset(s.requests), Gather(s.workers, Pending), multiset(t.requests), Gather(t.workers, Pending),
      multiset{s.requests[0]});
  }

  lemma EnqueueMoves(s: Agent, w: nat, server: Server)
    requires Enabled(s, Enqueue(w))
    ensures var t := Apply(s, Enqueue(w), server);
      Answered(t) == Answered(s) && Gather(t.workers, Pending) == Gather(s.workers, Pending)
  {
    var t := Apply(s, Enqueue(w), server);
    GatherSame(s.workers, w, t.workers[w], Pending);
    GatherLose(s.workers, w, t.workers[w], Finished);
    MapPush(ItemOf, s.responses, s.workers[w].answer);
    Moves(Gather(s.workers, Finished), Items(s.responses), Gather(t.workers, Finished), Items(t.responses),
      multiset{s.workers[w].answer.item});
  }

  lemma ReconnectMoves(s: Agent, server: Server)
    requires Enabled(s, Reconnect)
    ensures var t := Apply(s, Reconnect, server);
      && Gather(t.workers, Pending) == Gather(s.workers, Pending)
      && Gather(t.workers, Finished) == Gather(s.workers, Finished)
  {
    AllIdle(s.workers);
    AllIdle(Apply(s, Reconnect, server).workers);
  }

  /** What a worker holds back when it stops or drops: nothing pending. */
  lemma PendingUntouched(s: Agent, step: Step, server: Server)
    requires Enabled(s, step) && (step.Drop? || step.StopWorker?)
    ensures Gather(Apply(s, step, server).workers, Pending) == Gather(s.workers, Pending)
  {
    GatherSame(s.workers, step.w, Stopped, Pending);
  }

  lemma UnexecutedChanges(s: Agent, step: Step, server: Server)
    requires Enabled(s, step)
    ensures var t := Apply(s, step, server);
      match step
      case Place(_) => Unexecuted(t) == Unexecuted(s) + multiset{t.placed[|s.placed|]}
      case Execute(w) => Unexecuted(t) + multiset{s.workers[w].item} == Unexecuted(s)
      case _ => Unexecuted(t) == Unexecuted(s)
  {
    var t := Apply(s, step, server);
    match step
    case Place(_) => assert multiset(t.requests) == multiset(s.requests) + multiset{t.placed[|s.placed|]};
    case Take(w) => TakeMoves(s, w, server);
    case Execute(w) => GatherLose(s.workers, w, t.workers[w], Pending);
    case Enqueue(w) => EnqueueMoves(s, w, server);
    case Drop(w) => PendingUntouched(s, step, server);
    case StopWorker(w) => PendingUntouched(s, step, server);
    case Reconnect => ReconnectMoves(s, server);
    case _ =>
  }

  lemma ResponseTaken(s: Agent)
    requires s.responses != []
    ensures Gather(s.workers, Finished) + Items(s.responses[1..]) + multiset{s.responses[0].item} == Answered(s)
  {
    MapPop(ItemOf, s.responses);
  }

  lemma AnsweredChanges(s: Agent, step: Step, server: Server)
    requires Enabled(s, step)
    ensures var t := Apply(s, step, server);
      match step
      case Execute(w) => Answered(t) == Answered(s) + multiset{s.workers[w].item}
      case Drop(w) => Answered(t) + multiset{s.workers[w].answer.item} == Answered(s)
      case HandOver => Answered(t) + multiset{s.responses[0].item} == Answered(s)
      case _ => Answered(t) == Answered(s)
  {
    var t := Apply(s, step, server);
    match step
    case Take(w) => TakeMoves(s, w, server);
    case Execute(w) =>
      GatherGain(s.workers, w, t.workers[w], Finished);
      AddLeft(Gather(s.workers, Finished), Items(s.responses), multiset{s.workers[w].item});
    case Enqueue(w) => EnqueueMoves(s, w, server);
    case Drop(w) =>
      GatherLose(s.workers, w, t.workers[w], Finished);
      AddLeft(Gather(t.workers, Finished), Items(s.responses), multiset{s.workers[w].answer.item});
    case StopWorker(w) => GatherSame(s.workers, w, t.workers[w], Finished);
    case HandOver => ResponseTaken(s);
    case Reconnect => ReconnectMoves(s, server);
    case _ =>
  }

  lemma HandedOverChanges(s: Agent, step: Step, server: Server)
    requires Enabled(s, step)
    ensures var t := Apply(s, step, server);
      HandedOver(t) == HandedOver(s) + (if step.HandOver? then multiset{s.responses[0].item} else multiset{})
  {
    match step
    case Sent => MapPush(ItemOf, s.sent, s.sender.answer);
    case SendFails => MapPush(ItemOf, s.failed, s.sender.answer);
    case _ =>
  }

  lemma StepKeepsPlaced(s: Agent, step: Step, server: Server)
    requires PlacedInv(s) && Enabled(s, step)
    ensures PlacedInv(Apply(s, step, server))
  {
    var t := Apply(s, step, server);
    UnexecutedChanges(s, step, server);
    match step
    case Place(_) => assert multiset(t.placed) == multiset(s.placed) + multiset{t.placed[|s.placed|]};
    case Execute(w) => assert multiset(t.executed) == multiset(s.executed) + multiset{s.workers[w].item};
    case _ =>
  }

  lemma StepKeepsExecuted(s: Agent, step: Step, server: Server)
    requires ExecutedInv(s) && Enabled(s, step)
    ensures ExecutedInv(Apply(s, step, server))
  {
    var t := Apply(s, step, server);
    AnsweredChanges(s, step, server);
    match step
    case Execute(w) =>
      var item := multiset{s.workers[w].item};
      assert multiset(t.executed) == multiset(s.executed) + item;
      AddLeft(Answered(s), Items(s.handed), item);
      AddLeft(Answered(s) + Items(s.handed), Items(s.dropped), item);
    case Drop(w) =>
      MapPush(ItemOf, s.dropped, s.workers[w].answer);
      AddLeft(Answered(t), Items(s.handed), multiset{s.workers[w].answer.item});
      Moves(Answered(s) + Items(s.handed), Items(s.dropped), Answered(t) + Items(s.handed), Items(t.dropped),
        multiset{s.workers[w].answer.item});
    case HandOver =>
      MapPush(ItemOf, s.handed, s.responses[0]);
      Moves(Answered(s), Items(s.handed), Answered(t), Items(t.handed), multiset{s.responses[0].item});
    case _ =>
  }

  lemma StepKeepsHanded(s: Agent, step: Step, server: Server)
    requires HandedInv(s) && Enabled(s, step)
    ensures HandedInv(Apply(s, step, server))
  {
    HandedOverChanges(s, step, server);
    if step.HandOver? {
      MapPush(ItemOf, s.handed, s.responses[0]);
    }
  }

  lemma StepKeepsFaithful(s: Agent, step: Step, server: Server)
    requires AllFaithful(s, server) && Enabled(s, step)
    ensures AllFaithful(Apply(s, step, server), server)
  {
  }

  ghost predicate Inv(s: Agent, server: Server) {
    PlacedInv(s) && ExecutedInv(s) && HandedInv(s) && AllFaithful(s, server)
  }

  lemma StepKeepsInv(s: Agent, step: Step, server: Server)
    requires Inv(s, server) && Enabled(s, step)
    ensures Inv(Apply(s, step, server), server)
  {
    StepKeepsPlaced(s, step, server);
    StepKeepsExecuted(s, step, server);
    StepKeepsHanded(s, step, server);
    StepKeepsFaithful(s, step, server);
  }

  lemma {:induction false} RunKeepsInv(s: Agent, run: seq<Step>, server: Server, t: Agent)
    requires Inv(s, server) && After(s, run, server) == Some(t)
    ensures Inv(t, server)
    decreases |run|
  {
    if run == [] {
    } else {
      StepKeepsInv(s, run[0], server);
      RunKeepsInv(Apply(s, run[0], server), run[1..], server, t);
    }
  }

  lemma ReachedState(workerCount: nat, run: seq<Step>, server: Server, s: Agent)
    requires After(New(workerCount), run, server) == Some(s)
    ensures Inv(s, server)
  {
    AllIdle(New(workerCount).workers);
    RunKeepsInv(New(workerCount), run, server, s);
  }

  lemma {:induction false} NumberedOnce(items: seq<Item>, item: Item)
    requires forall i | 0 <= i < |items| :: items[i].number == i
    ensures multiset(items)[item] <= 1
  {
    if items == [] {
    } else {
      var n := |items| - 1;
      assert items == items[..n] + [items[n]];
      NumberedOnce(items[..n], item);
      assert forall i | 0 <= i < n :: items[..n][i] != items[n];
    }
  }

  /**
   * Over any number of connections, every command ever buffered is in exactly one place: queued or being executed,
   * answered and waiting, in the sender, sent, lost in sending, or dropped by a cancelled worker.
   */
  lemma EveryCommandIsSomewhere(workerCount: nat, run: seq<Step>, server: Server, s: Agent)
    requires After(New(workerCount), run, server) == Some(s)
    ensures Unexecuted(s) + Answered(s) + InSender(s) + Items(s.sent) + Items(s.failed) + Items(s.dropped)
      == multiset(s.placed)
  {
    ReachedState(workerCount, run, server, s);
  }

  /** Every command is executed at most once, and at most one response to it is ever handed to a stream. */
  lemma AtMostOnce(workerCount: nat, run: seq<Step>, server: Server, s: Agent, item: Item)
    requires After(New(workerCount), run, server) == Some(s)
    ensures multiset(s.executed)[item] <= 1 && Items(s.handed)[item] <= multiset(s.executed)[item]
    ensures item in multiset(s.executed) ==> item in s.placed
  {
    ReachedState(workerCount, run, server, s);
    NumberedOnce(s.placed, item);
    assert multiset(s.executed)[item] <= multiset(s.placed)[item];
    assert Items(s.handed)[item] <= multiset(s.executed)[item];
  }

  /** Every response handed to a stream is the answer to its command, under the command's message id. */
  lemma ResponsesMatch(workerCount: nat, run: seq<Step>, server: Server, s: Agent, i: nat)
    requires After(New(workerCount), run, server) == Some(s) && i < |s.handed|
    ensures s.handed[i].item in s.placed
    ensures var command, response := s.handed[i].item.command, s.handed[i].response;
      && response.messageId == command.messageId
      && if command.url == HEALTHCHECK then response.status == 0 && response.headers == map[] && response.body == ""
         else if server.urlError(command.url).Some? then
           && response.status == 400 && response.headers == map[]
           && response.body == "bad command url: " + server.urlError(command.url).value
         else (response.status, response.headers, response.body) == server.handle(command)
  {
    ReachedState(workerCount, run, server, s);
    assert Faithful(s.handed[i], server);
    assert Map(ItemOf, s.handed)[i] in Items(s.handed);
    assert s.handed[i].item in multiset(s.executed);
    assert s.handed[i].item in multiset(s.placed);
  }

  /** Both buffers are bounded, and the commands in the first are the last ones placed, in their order. */
  ghost predicate BuffersInv(s: Agent, workerCount: nat) {
    && |s.workers| == workerCount
    && |s.requests| <= BUFFER_SIZE_PER_WORKER * workerCount && |s.responses| <= BUFFER_SIZE_PER_WORKER * workerCount
    && |s.requests| <= |s.placed| && s.requests == s.placed[|s.placed| - |s.requests|..]
  }

  lemma StepKeepsBuffers(s: Agent, step: Step, server: Server, workerCount: nat)
    requires BuffersInv(s, workerCount) && Enabled(s, step)
    ensures BuffersInv(Apply(s, step, server), workerCount)
  {
    match step
    case Place(_) => assert |s.requests| < Capacity(s);
    case Enqueue(_) => assert |s.responses| < Capacity(s);
    case _ =>
  }

  lemma StepKeepsOrder(s: Agent, step: Step, server: Server)
    requires Enabled(s, step)
    ensures var t := Apply(s, step, server); s.handed + s.responses <= t.handed + t.responses
  {
    if step.HandOver? {
      assert s.responses == [s.responses[0]] + s.responses[1..];
    }
  }

  /** Commands are taken in the order in which they came, and responses handed over in the order of the buffer. */
  lemma {:induction false} BuffersKeepOrder(s: Agent, run: seq<Step>, server: Server, t: Agent, workerCount: nat)
    requires BuffersInv(s, workerCount) && After(s, run, server) == Some(t)
    ensures BuffersInv(t, workerCount) && s.handed + s.responses <= t.handed + t.responses
    decreases |run|
  {
    if run == [] {
    } else {
      var next := Apply(s, run[0], server);
      StepKeepsBuffers(s, run[0], server, workerCount);
      StepKeepsOrder(s, run[0], server);
      BuffersKeepOrder(next, run[1..], server, t, workerCount);
    }
  }

  /** Nobody has stopped on a connection that was not cancelled. */
  ghost predicate AliveInv(s: Agent) {
    !s.cancelled ==> !s.sender.Down? && forall w | w in s.workers :: !w.Stopped?
  }

  lemma {:induction false} RunKeepsAlive(s: Agent, run: seq<Step>, server: Server, t: Agent)
    requires AliveInv(s) && After(s, run, server) == Some(t)
    ensures AliveInv(t) && |t.workers| == |s.workers|
    decreases |run|
  {
    if run == [] {
    } else {
      RunKeepsAlive(Apply(s, run[0], server), run[1..], server, t);
    }
  }

  /**
   * On a connection that was not cancelled nobody waits for ever: as long as some command was neither sent nor lost, a
   * worker or the sender can take a step with it.
   */
  lemma SomebodyCanMove(workerCount: nat, run: seq<Step>, server: Server, s: Agent) returns (step: Step)
    requires workerCount > 0 && After(New(workerCount), run, server) == Some(s) && !s.cancelled
    requires Unexecuted(s) + Answered(s) + InSender(s) != multiset{}
    ensures Enabled(s, step) && (step.Take? || step.Execute? || step.Enqueue? || step.HandOver? || step.Sent?)
  {
    RunKeepsAlive(New(workerCount), run, server, s);
    if s.sender.Sending? {
      return Sent;
    }
    if s.responses != [] {
      return HandOver;
    }
    if w :| 0 <= w < |s.workers| && s.workers[w].Executing? {
      return Execute(w);
    }
    if w :| 0 <= w < |s.workers| && s.workers[w].Holding? {
      return Enqueue(w);
    }
    assert forall w | w in s.workers :: w.Idle?;
    AllIdle(s.workers);
    assert s.requests != [];
    assert s.workers[0] in s.workers;
    return Take(0);
  }

  function SendFailures(run: seq<Step>): nat {
    if run == [] then 0 else (if run[0].SendFails? then 1 else 0) + SendFailures(run[1..])
  }

  ghost predicate Cancels(run: seq<Step>) { exists step | step in run :: step.Cancel? || step.SendFails? }

  /** Losses have causes: one response per failed send, and dropped ones only after a cancellation. */
  lemma {:induction false} LossesHaveCauses(s: Agent, run: seq<Step>, server: Server, t: Agent)
    requires After(s, run, server) == Some(t)
    ensures |t.failed| == |s.failed| + SendFailures(run)
    ensures !s.cancelled && !Cancels(run) ==> t.dropped == s.dropped && !t.cancelled && t.connection == s.connection
    decreases |run|
  {
    if run == [] {
    } else {
      LossesHaveCauses(Apply(s, run[0], server), run[1..], server, t);
      assert run[0] in run && forall step | step in run[1..] :: step in run;
    }
  }

  lemma {:induction false} NoCancelNoFailure(run: seq<Step>)
    requires !Cancels(run)
    ensures SendFailures(run) == 0
  {
    if run == [] {
    } else {
      assert run[0] in run && forall step | step in run[1..] :: step in run;
      NoCancelNoFailure(run[1..]);
    }
  }

  /** On a connection that is never cancelled and never fails to send, nothing is lost. */
  lemma NothingLostWithoutCancellation(workerCount: nat, run: seq<Step>, server: Server, s: Agent)
    requires After(New(workerCount), run, server) == Some(s) && !Cancels(run)
    ensures Unexecuted(s) + Answered(s) + InSender(s) + Items(s.sent) == multiset(s.placed)
  {
    LossesHaveCauses(New(workerCount), run, server, s);
    NoCancelNoFailure(run);
    EveryCommandIsSomewhere(workerCount, run, server, s);
  }
}
