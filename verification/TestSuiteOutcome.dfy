/** A whole test suite run with its batches as executeTestStep runs them. */
module TestSuiteOutcome {
  import opened Collections
  import opened Executions
  import opened TestSuiteRun
  import Batches = TestSuiteStep
  import WorkerPool

  /** What decides about a batch besides its entries. */
  datatype Conditions = Conditions(
    requestedConcurrency: nat, run: Batches.RunTest, schedule: seq<WorkerPool.Step>, delayAborted: bool,
    parse: Batches.Parser, newIds: Batches.NewIds)

  /** The conditions of each batch, by its number. */
  type Circumstances = nat -> Conditions

  /** What executeTestStep makes of each batch. */
  function ExecuteWith(circumstances: Circumstances): ExecuteStep {
    (i: nat, entries: seq<Entry>) =>
      var c := circumstances(i);
      Batches.EndedUnder(entries, c.requestedConcurrency, c.run, c.schedule, c.delayAborted, c.parse, c.newIds)
  }

  /** The ids of the batch tell its executions apart once it is marked as running, and its run ends uncancelled. */
  ghost predicate Suits(b: Batch, c: Conditions) {
    Batches.Orderly(
      SetStatus(b.entries, Running), c.requestedConcurrency, c.run, c.schedule, c.delayAborted, c.parse, c.newIds)
  }

  /** An entry of an executed batch at the end of the run. */
  function FinalEntry(b: Batch, j: nat, c: Conditions): Entry
    requires j < |b.entries|
  {
    var ready := Batches.Ready(SetStatus(b.entries, Running), j, c.delayAborted, c.parse, c.newIds);
    Batches.WithOwnOutcome(ready, Batches.RequestFor(b.entries[j]), c.run)
  }

  /** Whatever the schedules, a run makes of an entry what its own run made of it. */
  lemma FinalEntries(b: Batch, i: nat, j: nat, circumstances: Circumstances)
    requires j < |b.entries| && Suits(b, circumstances(i))
    ensures |Executed(b, i, ExecuteWith(circumstances)).entries| == |b.entries|
    ensures Executed(b, i, ExecuteWith(circumstances)).entries[j] == FinalEntry(b, j, circumstances(i))
  {
    var c, entries := circumstances(i), SetStatus(b.entries, Running);
    Batches.ScheduleDoesNotMatter(
      entries, c.requestedConcurrency, c.run, c.schedule, c.delayAborted, c.parse, c.newIds);
    assert Batches.RequestFor(entries[j]) == Batches.RequestFor(b.entries[j]);
    var outcome := Batches.StepOutcome(entries, c.delayAborted, c.parse, c.newIds, c.run);
    assert Executed(b, i, ExecuteWith(circumstances)).entries == outcome;
  }

  /** The run of the entry's test answers, and for the entry's own execution. */
  predicate HasOwnOutcome(e: Entry, run: Batches.RunTest) {
    && e.step.Some? && e.step.value.test != "" && e.execution.Some?
    && var answer := run(Batches.TestRequest(e.step.value.test, e.execution.value.id), false);
       answer.Done? && answer.result.id == e.execution.value.id
  }

  /** That is the execution of the entry in the end. */
  lemma OwnOutcomeIsTaken(b: Batch, i: nat, j: nat, circumstances: Circumstances)
    requires j < |b.entries| && Suits(b, circumstances(i)) && HasOwnOutcome(b.entries[j], circumstances(i).run)
    ensures var e, entries := b.entries[j], Executed(b, i, ExecuteWith(circumstances)).entries;
      var answer := circumstances(i).run(Batches.TestRequest(e.step.value.test, e.execution.value.id), false);
      |entries| == |b.entries| && entries[j] == Entry(e.step, Some(answer.result))
  {
    FinalEntries(b, i, j, circumstances);
  }

  /** Without an outcome of its own, because the run errored or answered for another execution, it is left running. */
  lemma TestIsLeftRunning(b: Batch, i: nat, j: nat, circumstances: Circumstances)
    requires j < |b.entries| && Suits(b, circumstances(i)) && !HasOwnOutcome(b.entries[j], circumstances(i).run)
    requires b.entries[j].step.Some? && b.entries[j].step.value.test != "" && b.entries[j].step.value.delay == ""
    requires b.entries[j].execution.Some? && b.entries[j].execution.value.result.Some?
    ensures var e, entries := b.entries[j], Executed(b, i, ExecuteWith(circumstances)).entries;
      var r := e.execution.value.result.value;
      && |entries| == |b.entries|
      && entries[j] == Entry(
           e.step, Some(Execution(e.execution.value.id, Some(ExecutionResult(Running, r.errorMessage, r.output)))))
  {
    FinalEntries(b, i, j, circumstances);
  }

  lemma {:induction false} MarkingKeepsDelays(entries: seq<Entry>, status: Status, parse: Batches.Parser)
    ensures Batches.LongestDelay(SetStatus(entries, status), parse) == Batches.LongestDelay(entries, parse)
  {
    if entries == [] {
    } else {
      var n := |entries| - 1;
      MarkingKeepsDelays(entries[..n], status, parse);
      assert SetStatus(entries, status)[..n] == SetStatus(entries[..n], status);
    }
  }

  /**
   * Which entries of an executed batch have failed in the end: tests whose own run failed, steps of no type, delays
   * that do not parse unless a longer one ran its course, and what has no result at all.
   */
  predicate EndsFailed(b: Batch, j: nat, c: Conditions)
    requires j < |b.entries|
  {
    var e := b.entries[j];
    if HasOwnOutcome(e, c.run) then
      var answer := c.run(Batches.TestRequest(e.step.value.test, e.execution.value.id), false);
      answer.result.result.None? || answer.result.result.value.status == Failed
    else if e.step.Some? && e.step.value.test == "" && e.step.value.delay == "" then true
    else if e.step.Some? && e.step.value.test == "" && c.parse(e.step.value.delay).Unparsable? then
      Batches.LongestDelay(b.entries, c.parse) == 0 || c.delayAborted
    else if e.execution.None? || e.execution.value.result.None? then true
    else
      && e.step.Some? && e.step.value.test != "" && e.step.value.delay != ""
      && c.parse(e.step.value.delay).Unparsable? && Batches.LongestDelay(b.entries, c.parse) > 0 && c.delayAborted
  }

  lemma FinallyFailedIff(b: Batch, j: nat, c: Conditions)
    requires j < |b.entries|
    ensures FinalEntry(b, j, c).IsFailed() <==> EndsFailed(b, j, c)
  {
    MarkingKeepsDelays(b.entries, Running, c.parse);
  }

  /** A batch has a failed entry in the end exactly when it has one of these. */
  lemma BatchFailsIff(b: Batch, i: nat, circumstances: Circumstances)
    requires Suits(b, circumstances(i))
    ensures AnyFailed(Executed(b, i, ExecuteWith(circumstances)).entries) <==>
      exists j :: 0 <= j < |b.entries| && EndsFailed(b, j, circumstances(i))
  {
    var entries := Executed(b, i, ExecuteWith(circumstances)).entries;
    assert |entries| == |b.entries|;
    forall j | 0 <= j < |b.entries| ensures entries[j].IsFailed() <==> EndsFailed(b, j, circumstances(i)) {
      FinalEntries(b, i, j, circumstances);
      FinallyFailedIff(b, j, circumstances(i));
    }
    if e :| e in entries && e.IsFailed() {
      var j :| 0 <= j < |entries| && entries[j] == e;
    }
    if j :| 0 <= j < |b.entries| && EndsFailed(b, j, circumstances(i)) {
      assert entries[j] in entries;
    }
  }

  ghost predicate NoEntryFails(batches: seq<Batch>, circumstances: Circumstances) {
    forall i, j | 0 <= i < |batches| && 0 <= j < |batches[i].entries| :: !EndsFailed(batches[i], j, circumstances(i))
  }

  /** A suite ends as passed exactly when every batch ran and was saved and no entry failed in the end. */
  lemma PassedIff(batches: seq<Batch>, turns: seq<Turn>, circumstances: Circumstances, k: nat)
    requires |batches| == |turns| && CutAt(batches, turns, ExecuteWith(circumstances), k)
    requires forall i | 0 <= i < k :: Suits(batches[i], circumstances(i))
    ensures FinalStatus(batches, turns, ExecuteWith(circumstances), k) == SuitePassed <==>
      k == |batches| && (forall i | 0 <= i < |turns| :: turns[i].saved) && NoEntryFails(batches, circumstances)
  {
    var execute := ExecuteWith(circumstances);
    PassedMeansAllRanAndPassed(batches, turns, execute, k);
    forall i | 0 <= i < k
      ensures AnyFailed(Executed(batches[i], i, execute).entries) <==>
        exists j :: 0 <= j < |batches[i].entries| && EndsFailed(batches[i], j, circumstances(i))
    {
      BatchFailsIff(batches[i], i, circumstances);
    }
  }

  /**
   * A batch that ran with a step of no type, or with a delay that does not parse and no delay that ran its course, ends
   * a suite that ran to its end as failed.
   */
  lemma BrokenStepFailsTheSuite(
      batches: seq<Batch>, turns: seq<Turn>, circumstances: Circumstances, k: nat, i: nat, j: nat)
    requires |batches| == |turns| && CutAt(batches, turns, ExecuteWith(circumstances), k)
    requires i < k && Suits(batches[i], circumstances(i)) && j < |batches[i].entries|
    requires var step, c := batches[i].entries[j].step, circumstances(i);
      && step.Some? && step.value.test == ""
      && (step.value.delay != "" ==>
            && c.parse(step.value.delay).Unparsable?
            && (Batches.LongestDelay(batches[i].entries, c.parse) == 0 || c.delayAborted))
    ensures FinalStatus(batches, turns, ExecuteWith(circumstances), k) ==
      if k == |batches| then SuiteFailed
      else if exists t: nat :: TakenLastAt(turns, t, TimedOut) then SuiteTimeout
      else SuiteAborted
  {
    var execute := ExecuteWith(circumstances);
    BatchFailsIff(batches[i], i, circumstances);
    assert EndsFailed(batches[i], j, circumstances(i));
    FinalStatusMeaning(batches, turns, execute, k);
    assert CountsAsFailed(batches[i], i, turns[i], execute);
  }
}
