/** One batch of a test suite: executeTestStep and delayWithAbortionCheck of pkg/scheduler/testsuite_scheduler.go. */
module TestSuiteStep {
  import opened Collections
  import opened Executions
  import WorkerPool

  const DEFAULT_CONCURRENCY_LEVEL: nat := 10
  const NO_HANDLER := "can't find handler for execution step type: '<nil>'"

  datatype Parsed = Duration(length: int) | Unparsable(error: string)

  /** time.ParseDuration. */
  type Parser = string -> Parsed

  /** The id a new execution gets when entry i has none. */
  type NewIds = nat -> string

  datatype TestRequest = TestRequest(test: string, id: string)

  type RunTest = WorkerPool.ExecFn<TestRequest, Execution>

  // ---------- what the first loop does with one entry

  function RequestFor(e: Entry): Option<TestRequest> {
    if e.step.Some? && TypeOf(e.step.value) == ExecuteTest && e.execution.Some?
    then Some(TestRequest(e.step.value.test, e.execution.value.id))
    else None
  }

  function DelayOf(e: Entry, parse: Parser): int {
    if e.step.Some? && TypeOf(e.step.value) == Delay && parse(e.step.value.delay).Duration?
    then parse(e.step.value.delay).length
    else 0
  }

  function Prepared(e: Entry, parse: Parser, newId: string): Entry {
    if e.step.None? then e
    else match TypeOf(e.step.value)
         case ExecuteTest => e
         case Delay =>
           var delay := parse(e.step.value.delay);
           if delay.Unparsable? then e.Err(delay.error, newId) else e
         case NoType => e.Err(NO_HANDLER, newId)
  }

  function RequestsOf(entries: seq<Entry>): seq<TestRequest> {
    if entries == [] then []
    else
      var n := |entries| - 1;
      RequestsOf(entries[..n]) + (if RequestFor(entries[n]).Some? then [RequestFor(entries[n]).value] else [])
  }

  function LongestDelay(entries: seq<Entry>, parse: Parser): nat {
    if entries == [] then 0
    else
      var n := |entries| - 1;
      var before := LongestDelay(entries[..n], parse);
      if DelayOf(entries[n], parse) > before then DelayOf(entries[n], parse) else before
  }

  lemma PrefixOneMore(entries: seq<Entry>, i: nat, parse: Parser)
    requires i < |entries|
    ensures RequestsOf(entries[..i + 1]) ==
      RequestsOf(entries[..i]) + (if RequestFor(entries[i]).Some? then [RequestFor(entries[i]).value] else [])
    ensures var before := LongestDelay(entries[..i], parse);
      LongestDelay(entries[..i + 1], parse) ==
        (if DelayOf(entries[i], parse) > before then DelayOf(entries[i], parse) else before)
  {
    assert entries[..i + 1][..i] == entries[..i];
  }

  lemma {:induction false} LongestIsMaximum(entries: seq<Entry>, parse: Parser)
    ensures forall i | 0 <= i < |entries| :: DelayOf(entries[i], parse) <= LongestDelay(entries, parse)
    ensures LongestDelay(entries, parse) > 0 ==>
      exists i :: 0 <= i < |entries| && DelayOf(entries[i], parse) == LongestDelay(entries, parse)
  {
    if entries == [] {
    } else {
      var n := |entries| - 1;
      LongestIsMaximum(entries[..n], parse);
      if i :| 0 <= i < n && DelayOf(entries[..n][i], parse) == LongestDelay(entries[..n], parse) {
        assert DelayOf(entries[i], parse) == LongestDelay(entries[..n], parse);
      }
      forall i | 0 <= i < n ensures DelayOf(entries[i], parse) <= LongestDelay(entries[..n], parse) {
        assert entries[..n][i] == entries[i];
      }
    }
  }

  /** No delay of the batch is longer, and there is one that long unless it is zero. */
  lemma LongestDelayIsMaximum(entries: seq<Entry>, parse: Parser)
    ensures forall i | 0 <= i < |entries| && entries[i].step.Some? ::
      var step := entries[i].step.value;
      step.test == "" && step.delay != "" && parse(step.delay).Duration? ==>
        parse(step.delay).length <= LongestDelay(entries, parse)
    ensures LongestDelay(entries, parse) > 0 ==>
      exists i :: 0 <= i < |entries| && entries[i].step.Some? &&
        var step := entries[i].step.value;
        step.test == "" && step.delay != "" && parse(step.delay) == Duration(LongestDelay(entries, parse))
  {
    LongestIsMaximum(entries, parse);
    forall i | 0 <= i < |entries| ensures DelayOf(entries[i], parse) <= LongestDelay(entries, parse) {}
    if LongestDelay(entries, parse) > 0 {
      var i :| 0 <= i < |entries| && DelayOf(entries[i], parse) == LongestDelay(entries, parse);
      assert entries[i].step.Some?;
    }
  }

  method PrepareStep(entries: array<Entry>, parse: Parser, newIds: NewIds)
    returns (requests: seq<TestRequest>, duration: nat)
    modifies entries
    ensures forall i :: 0 <= i < entries.Length ==> entries[i] == Prepared(old(entries[i]), parse, newIds(i))
    ensures requests == RequestsOf(old(entries[..]))
    ensures duration == LongestDelay(old(entries[..]), parse)
  {
    requests, duration := [], 0;
    for i := 0 to entries.Length
      invariant forall j :: 0 <= j < i ==> entries[j] == Prepared(old(entries[j]), parse, newIds(j))
      invariant forall j :: i <= j < entries.Length ==> entries[j] == old(entries[j])
      invariant requests == RequestsOf(old(entries[..])[..i])
      invariant duration == LongestDelay(old(entries[..])[..i], parse)
    {
      PrefixOneMore(old(entries[..]), i, parse);
      var e := entries[i];
      if e.step.None? { continue; }
      match TypeOf(e.step.value) {
        case ExecuteTest =>
          if e.execution.None? { continue; }
          requests := requests + [TestRequest(e.step.value.test, e.execution.value.id)];
        case Delay =>
          match parse(e.step.value.delay) {
            case Unparsable(error) => entries[i] := e.Err(error, newIds(i));
            case Duration(delay) =>
              if delay > duration {
                duration := delay;
              }
          }
        case NoType => entries[i] := e.Err(NO_HANDLER, newIds(i));
      }
    }
    assert old(entries[..])[..entries.Length] == old(entries[..]);
  }

  // ---------- the delay

  /** One delay entry once the longest delay is over, or once the delay was aborted. */
  function Delayed(e: Entry, duration: nat, aborted: bool, parse: Parser, newId: string): Entry {
    if e.step.None? || e.step.value.delay == "" || !e.HasResult() then e
    else if !aborted then e.WithStatus(Passed)
    else match parse(e.step.value.delay)
         case Unparsable(error) => e.Err(error, newId)
         case Duration(delay) => e.WithStatus(if delay < duration then Passed else Aborted)
  }

  method DelayWithAbortionCheck(
      entries: array<Entry>, duration: nat, aborted: bool, parse: Parser, newIds: NewIds)
    modifies entries
    ensures forall i :: 0 <= i < entries.Length ==>
      entries[i] == Delayed(old(entries[i]), duration, aborted, parse, newIds(i))
  {
    for i := 0 to entries.Length
      invariant forall j :: 0 <= j < i ==> entries[j] == Delayed(old(entries[j]), duration, aborted, parse, newIds(j))
      invariant forall j :: i <= j < entries.Length ==> entries[j] == old(entries[j])
    {
      var e := entries[i];
      if e.step.Some? && e.step.value.delay != "" && e.HasResult() {
        if !aborted {
          entries[i] := e.WithStatus(Passed);
        } else {
          match parse(e.step.value.delay)
          case Unparsable(error) => entries[i] := e.Err(error, newIds(i));
          case Duration(delay) =>
            if delay < duration {
              entries[i] := e.WithStatus(Passed);
            } else {
              entries[i] := e.WithStatus(Aborted);
            }
        }
      }
    }
  }

  // ---------- joining the responses

  type TestResponse = WorkerPool.Response<Execution>

  /** The execution a response carries; an error leaves it zero. */
  function Carried(r: TestResponse): Execution {
    match r
    case Done(result) => result
    case Failed(_) => ZERO_EXECUTION
  }

  function ResultsById(responses: seq<TestResponse>): map<string, Execution> {
    if responses == [] then map[]
    else
      var n := |responses| - 1;
      ResultsById(responses[..n])[Carried(responses[n]).id := Carried(responses[n])]
  }

  function Joined(e: Entry, results: map<string, Execution>): Entry {
    if e.execution.Some? && e.execution.value.id in results
    then e.(execution := Some(results[e.execution.value.id]))
    else e
  }

  method JoinResponses(entries: array<Entry>, responses: seq<TestResponse>)
    modifies entries
    ensures forall i :: 0 <= i < entries.Length ==> entries[i] == Joined(old(entries[i]), ResultsById(responses))
  {
    var results: map<string, Execution> := map[];
    for k := 0 to |responses|
      invariant results == ResultsById(responses[..k])
    {
      assert responses[..k + 1][..k] == responses[..k];
      var result := Carried(responses[k]);
      results := results[result.id := result];
    }
    assert responses[..|responses|] == responses;
    for i := 0 to entries.Length
      invariant forall j :: 0 <= j < i ==> entries[j] == Joined(old(entries[j]), results)
      invariant forall j :: i <= j < entries.Length ==> entries[j] == old(entries[j])
    {
      if entries[i].execution.None? { continue; }
      var id := entries[i].execution.value.id;
      if id in results {
        entries[i] := entries[i].(execution := Some(results[id]));
      }
    }
  }

  // ---------- the whole batch

  /** Entry i before the responses are joined in. */
  function Ready(entries: seq<Entry>, i: nat, delayAborted: bool, parse: Parser, newIds: NewIds): Entry
    requires i < |entries|
  {
    var e := Prepared(entries[i], parse, newIds(i));
    var duration := LongestDelay(entries, parse);
    if duration != 0 then Delayed(e, duration, delayAborted, parse, newIds(i)) else e
  }

  function AllReady(entries: seq<Entry>, delayAborted: bool, parse: Parser, newIds: NewIds): seq<Entry> {
    seq(|entries|, i requires 0 <= i < |entries| => Ready(entries, i, delayAborted, parse, newIds))
  }

  /**
   * An entry of no type, or whose delay does not parse, has failed with that error, on a new execution if it had none.
   * Only beside a delay that runs its course does the one with the delay that does not parse pass.
   */
  lemma ErrorsAreRecorded(entries: seq<Entry>, i: nat, delayAborted: bool, parse: Parser, newIds: NewIds)
    requires i < |entries| && entries[i].step.Some? && entries[i].step.value.test == ""
    requires entries[i].step.value.delay == "" || parse(entries[i].step.value.delay).Unparsable?
    ensures var before, step := entries[i].execution, entries[i].step.value;
      var id := if before.Some? then before.value.id else newIds(i);
      var output := if before.Some? && before.value.result.Some? then before.value.result.value.output else "";
      var error := if step.delay == "" then NO_HANDLER else parse(step.delay).error;
      var status := if step.delay != "" && LongestDelay(entries, parse) > 0 && !delayAborted then Passed else Failed;
      Ready(entries, i, delayAborted, parse, newIds) ==
        Entry(Some(step), Some(Execution(id, Some(ExecutionResult(status, error, output)))))
  {
  }

  /**
   * Any other entry with a result that has a delay, beside a positive longest one: of the parsable ones only those that
   * are not shorter are aborted with it. Nothing but its result changes.
   */
  lemma DelayOutcome(entries: seq<Entry>, i: nat, delayAborted: bool, parse: Parser, newIds: NewIds)
    requires i < |entries| && entries[i].step.Some? && entries[i].step.value.delay != ""
    requires entries[i].step.value.test != "" || parse(entries[i].step.value.delay).Duration?
    requires entries[i].execution.Some? && entries[i].execution.value.result.Some? && LongestDelay(entries, parse) > 0
    ensures var execution, delay := entries[i].execution.value, parse(entries[i].step.value.delay);
      var r := execution.result.value;
      Ready(entries, i, delayAborted, parse, newIds) ==
        Entry(entries[i].step, Some(Execution(execution.id, Some(
          if !delayAborted then ExecutionResult(Passed, r.errorMessage, r.output)
          else if delay.Unparsable? then ExecutionResult(Failed, delay.error, r.output)
          else if delay.length < LongestDelay(entries, parse) then ExecutionResult(Passed, r.errorMessage, r.output)
          else ExecutionResult(Aborted, r.errorMessage, r.output)))))
  {
  }

  /** All the others stay as they are. */
  lemma StaysAsItIs(entries: seq<Entry>, i: nat, delayAborted: bool, parse: Parser, newIds: NewIds)
    requires i < |entries|
    requires entries[i].step.Some? ==>
      var step := entries[i].step.value;
      && (step.test == "" ==> step.delay != "" && parse(step.delay).Duration?)
      && (step.delay == "" || LongestDelay(entries, parse) == 0
          || entries[i].execution.None? || entries[i].execution.value.result.None?)
    ensures Ready(entries, i, delayAborted, parse, newIds) == entries[i]
  {
  }

  /** The entry takes the outcome of its own run, unless it has none or its run errored or answered for another id. */
  function WithOwnOutcome(e: Entry, request: Option<TestRequest>, run: RunTest): Entry {
    if request.Some? && run(request.value, false).Done? && run(request.value, false).result.id == request.value.id
    then e.(execution := Some(run(request.value, false).result))
    else e
  }

  /** A batch after its run: every entry with its own outcome. */
  function StepOutcome(
      entries: seq<Entry>, delayAborted: bool, parse: Parser, newIds: NewIds, run: RunTest): seq<Entry>
  {
    seq(|entries|, i requires 0 <= i < |entries| =>
      WithOwnOutcome(Ready(entries, i, delayAborted, parse, newIds), RequestFor(entries[i]), run))
  }

  ghost predicate HasId(e: Entry, id: string) { e.execution.Some? && e.execution.value.id == id }

  /** The executions of a batch have distinct ids, none of them empty. */
  ghost predicate IdsIdentify(ready: seq<Entry>) {
    forall i, id | 0 <= i < |ready| && HasId(ready[i], id) ::
      id != "" && forall j | 0 <= j < |ready| && HasId(ready[j], id) :: i == j
  }

  /** No run answers with the id of another entry of the batch. */
  ghost predicate RunKeepsToItsId(r: TestRequest, ready: seq<Entry>, run: RunTest) {
    run(r, false).Done? ==>
      forall i | 0 <= i < |ready| && HasId(ready[i], run(r, false).result.id) :: run(r, false).result.id == r.id
  }

  ghost predicate RunsKeepToTheirIds(requests: seq<TestRequest>, ready: seq<Entry>, run: RunTest) {
    forall r | r in requests :: RunKeepsToItsId(r, ready, run)
  }

  lemma {:induction false} RequestsComeFromEntries(entries: seq<Entry>, r: TestRequest)
    ensures r in RequestsOf(entries) <==> exists i :: 0 <= i < |entries| && RequestFor(entries[i]) == Some(r)
  {
    if entries == [] {
    } else {
      var n := |entries| - 1;
      RequestsComeFromEntries(entries[..n], r);
      if i :| 0 <= i < n && RequestFor(entries[..n][i]) == Some(r) {
        assert RequestFor(entries[i]) == Some(r);
      }
      if i :| 0 <= i <= n && RequestFor(entries[i]) == Some(r) {
        assert i < n ==> RequestFor(entries[..n][i]) == Some(r);
      }
    }
  }

  /** Looking an id up in the joined results finds a response that carries it, if there is one. */
  lemma {:induction false} ResultsByIdLookup(responses: seq<TestResponse>, id: string)
    ensures id in ResultsById(responses) <==> exists r :: r in responses && Carried(r).id == id
    ensures id in ResultsById(responses) ==>
      exists r :: r in responses && Carried(r).id == id && ResultsById(responses)[id] == Carried(r)
  {
    if responses == [] {
    } else {
      var n := |responses| - 1;
      ResultsByIdLookup(responses[..n], id);
      assert responses == responses[..n] + [responses[n]];
    }
  }

  ghost predicate SameIds(entries: seq<Entry>, ready: seq<Entry>) {
    |entries| == |ready| && forall i | 0 <= i < |entries| && RequestFor(entries[i]).Some? ::
      HasId(ready[i], RequestFor(entries[i]).value.id)
  }

  /** A response that carries entry i's id can only be the one of entry i's own run. */
  lemma CarriedIdIsOwn(entries: seq<Entry>, ready: seq<Entry>, i: nat, k: nat, run: RunTest)
    requires i < |entries| && k < |RequestsOf(entries)|
    requires SameIds(entries, ready) && IdsIdentify(ready) && RunsKeepToTheirIds(RequestsOf(entries), ready, run)
    requires HasId(ready[i], Carried(run(RequestsOf(entries)[k], false)).id)
    ensures RequestFor(entries[i]) == Some(RequestsOf(entries)[k])
    ensures run(RequestsOf(entries)[k], false).Done?
    ensures run(RequestsOf(entries)[k], false).result.id == RequestsOf(entries)[k].id
  {
    var r := RequestsOf(entries)[k];
    assert r in RequestsOf(entries);
    assert RunKeepsToItsId(r, ready, run);
    RequestsComeFromEntries(entries, r);
    var j :| 0 <= j < |entries| && RequestFor(entries[j]) == Some(r);
    assert HasId(ready[j], r.id);
  }

  /**
   * Joining any permutation of the runs' responses gives every entry its own run's outcome, and leaves alone the
   * entries whose run errored and those that are not tests.
   */
  lemma JoinIgnoresTheOrder(
      entries: seq<Entry>, ready: seq<Entry>, responses: seq<TestResponse>, i: nat, run: RunTest)
    requires i < |entries|
    requires SameIds(entries, ready) && IdsIdentify(ready) && RunsKeepToTheirIds(RequestsOf(entries), ready, run)
    requires multiset(responses) == multiset(WorkerPool.Expected(RequestsOf(entries), run))
    ensures Joined(ready[i], ResultsById(responses)) == WithOwnOutcome(ready[i], RequestFor(entries[i]), run)
  {
    if ready[i].execution.Some? {
      var id := ready[i].execution.value.id;
      var requests := RequestsOf(entries);
      var answers := WorkerPool.Expected(requests, run);
      ResultsByIdLookup(responses, id);
      if id in ResultsById(responses) {
        var resp :| resp in responses && Carried(resp).id == id && ResultsById(responses)[id] == Carried(resp);
        assert resp in multiset(answers);
        var k :| 0 <= k < |answers| && answers[k] == resp;
        CarriedIdIsOwn(entries, ready, i, k, run);
      } else if RequestFor(entries[i]).Some? {
        var own := RequestFor(entries[i]).value;
        RequestsComeFromEntries(entries, own);
        var k :| 0 <= k < |requests| && requests[k] == own;
        assert HasId(ready[i], own.id);
        assert answers[k] in multiset(answers);
        assert run(own, false) in responses;
      }
    }
  }

  /** Preparing an entry or ending its delay keeps the id of the execution it has. */
  lemma ReadyKeepsIds(entries: seq<Entry>, delayAborted: bool, parse: Parser, newIds: NewIds)
    ensures SameIds(entries, AllReady(entries, delayAborted, parse, newIds))
  {
  }

  function ConcurrencyLevel(requested: nat): nat {
    if requested != 0 then requested else DEFAULT_CONCURRENCY_LEVEL
  }

  /** No more tests of a batch run at once than were requested, or than ten if nothing was. */
  lemma NoMoreAtOnce(
      entries: seq<Entry>, requestedConcurrency: nat, schedule: seq<WorkerPool.Step>, run: RunTest,
      pool: WorkerPool.Pool<TestRequest, Execution>)
    requires WorkerPool.After(
      WorkerPool.New(ConcurrencyLevel(requestedConcurrency), RequestsOf(entries)), schedule, run) == Some(pool)
    ensures |WorkerPool.InFlight(pool.workers)| <= if requestedConcurrency == 0 then 10 else requestedConcurrency
  {
    WorkerPool.RunConserves(ConcurrencyLevel(requestedConcurrency), RequestsOf(entries), schedule, run, pool);
  }

  /** The schedule takes a pool with these requests to its end, with no cancellation. */
  predicate RunsToTheEnd(requests: seq<TestRequest>, concurrency: nat, run: RunTest, schedule: seq<WorkerPool.Step>) {
    var end := WorkerPool.After(WorkerPool.New(concurrency, requests), schedule, run);
    end.Some? && WorkerPool.Finished(end.value) && !end.value.cancelled
  }

  lemma JoinGivesOutcome(
      entries: seq<Entry>, ready: seq<Entry>, responses: seq<TestResponse>, delayAborted: bool, parse: Parser,
      newIds: NewIds, run: RunTest)
    requires ready == AllReady(entries, delayAborted, parse, newIds)
    requires IdsIdentify(ready) && RunsKeepToTheirIds(RequestsOf(entries), ready, run)
    requires multiset(responses) == multiset(WorkerPool.Expected(RequestsOf(entries), run))
    ensures forall i | 0 <= i < |entries| ::
      Joined(ready[i], ResultsById(responses)) == StepOutcome(entries, delayAborted, parse, newIds, run)[i]
  {
    ReadyKeepsIds(entries, delayAborted, parse, newIds);
    forall i | 0 <= i < |entries|
      ensures Joined(ready[i], ResultsById(responses)) == WithOwnOutcome(ready[i], RequestFor(entries[i]), run)
    {
      JoinIgnoresTheOrder(entries, ready, responses, i, run);
    }
  }

  lemma NoRequestsNoOutcomes(entries: seq<Entry>, delayAborted: bool, parse: Parser, newIds: NewIds, run: RunTest)
    requires RequestsOf(entries) == []
    ensures StepOutcome(entries, delayAborted, parse, newIds, run) == AllReady(entries, delayAborted, parse, newIds)
  {
    forall i | 0 <= i < |entries| ensures RequestFor(entries[i]).None? {
      if RequestFor(entries[i]).Some? {
        RequestsComeFromEntries(entries, RequestFor(entries[i]).value);
      }
    }
  }

  /** The schedule takes the pool to its end, cancelled or not. */
  predicate Ends(requests: seq<TestRequest>, concurrency: nat, run: RunTest, schedule: seq<WorkerPool.Step>) {
    var end := WorkerPool.After(WorkerPool.New(concurrency, requests), schedule, run);
    end.Some? && WorkerPool.Finished(end.value)
  }

  /** What the consumer has read from the pool under the schedule. */
  function ReadUnder(requests: seq<TestRequest>, concurrency: nat, run: RunTest, schedule: seq<WorkerPool.Step>)
    : seq<TestResponse>
  {
    var end := WorkerPool.After(WorkerPool.New(concurrency, requests), schedule, run);
    if end.None? then [] else Map(WorkerPool.ResponseOf, end.value.received)
  }

  /** If nothing was cancelled, that is a permutation of the runs' responses. */
  lemma ReadsPermutation(
      requests: seq<TestRequest>, concurrency: nat, run: RunTest, schedule: seq<WorkerPool.Step>)
    requires concurrency >= 1 && RunsToTheEnd(requests, concurrency, run, schedule)
    ensures multiset(ReadUnder(requests, concurrency, run, schedule)) == multiset(WorkerPool.Expected(requests, run))
  {
    var pool := WorkerPool.After(WorkerPool.New(concurrency, requests), schedule, run).value;
    WorkerPool.FinishedRunAnswersAll(concurrency, requests, schedule, run, pool);
  }

  /** A batch after its run under the schedule, whatever the ids. */
  function EndedUnder(
      entries: seq<Entry>, requestedConcurrency: nat, run: RunTest, schedule: seq<WorkerPool.Step>,
      delayAborted: bool, parse: Parser, newIds: NewIds): seq<Entry>
  {
    var ready := AllReady(entries, delayAborted, parse, newIds);
    if RequestsOf(entries) == [] then ready
    else
      var responses := ReadUnder(RequestsOf(entries), ConcurrencyLevel(requestedConcurrency), run, schedule);
      seq(|entries|, i requires 0 <= i < |entries| => Joined(ready[i], ResultsById(responses)))
  }

  /** Ids tell the executions of the batch apart, runs keep to them, and the schedule ends uncancelled. */
  ghost predicate Orderly(
      entries: seq<Entry>, requestedConcurrency: nat, run: RunTest, schedule: seq<WorkerPool.Step>,
      delayAborted: bool, parse: Parser, newIds: NewIds)
  {
    var ready := AllReady(entries, delayAborted, parse, newIds);
    && IdsIdentify(ready) && RunsKeepToTheirIds(RequestsOf(entries), ready, run)
    && (RequestsOf(entries) != [] ==>
          RunsToTheEnd(RequestsOf(entries), ConcurrencyLevel(requestedConcurrency), run, schedule))
  }

  /** Then the schedule does not matter. */
  lemma ScheduleDoesNotMatter(
      entries: seq<Entry>, requestedConcurrency: nat, run: RunTest, schedule: seq<WorkerPool.Step>,
      delayAborted: bool, parse: Parser, newIds: NewIds)
    requires Orderly(entries, requestedConcurrency, run, schedule, delayAborted, parse, newIds)
    ensures EndedUnder(entries, requestedConcurrency, run, schedule, delayAborted, parse, newIds)
      == StepOutcome(entries, delayAborted, parse, newIds, run)
  {
    var requests, concurrency := RequestsOf(entries), ConcurrencyLevel(requestedConcurrency);
    if requests == [] {
      NoRequestsNoOutcomes(entries, delayAborted, parse, newIds, run);
    } else {
      var ready := AllReady(entries, delayAborted, parse, newIds);
      ReadsPermutation(requests, concurrency, run, schedule);
      JoinGivesOutcome(
        entries, ready, ReadUnder(requests, concurrency, run, schedule), delayAborted, parse, newIds, run);
    }
  }

  /** executeTestStep, with the worker pool following any schedule to its end. */
  method ExecuteTestStep(
      entries: array<Entry>, requestedConcurrency: nat, run: RunTest, schedule: seq<WorkerPool.Step>,
      delayAborted: bool, parse: Parser, newIds: NewIds)
    requires RequestsOf(entries[..]) != [] ==>
      Ends(RequestsOf(entries[..]), ConcurrencyLevel(requestedConcurrency), run, schedule)
    modifies entries
    ensures entries[..] ==
      EndedUnder(old(entries[..]), requestedConcurrency, run, schedule, delayAborted, parse, newIds)
    ensures Orderly(old(entries[..]), requestedConcurrency, run, schedule, delayAborted, parse, newIds) ==>
      entries[..] == StepOutcome(old(entries[..]), delayAborted, parse, newIds, run)
  {
    ghost var was := entries[..];
    var requests, duration := PrepareStep(entries, parse, newIds);
    if duration != 0 {
      DelayWithAbortionCheck(entries, duration, delayAborted, parse, newIds);
    }
    assert entries[..] == AllReady(was, delayAborted, parse, newIds);
    if |requests| != 0 {
      JoinResponses(entries, ReadUnder(requests, ConcurrencyLevel(requestedConcurrency), run, schedule));
    }
    ghost var ended := EndedUnder(was, requestedConcurrency, run, schedule, delayAborted, parse, newIds);
    assert entries[..] == ended;
    if Orderly(was, requestedConcurrency, run, schedule, delayAborted, parse, newIds) {
      ScheduleDoesNotMatter(was, requestedConcurrency, run, schedule, delayAborted, parse, newIds);
    }
  }
}
