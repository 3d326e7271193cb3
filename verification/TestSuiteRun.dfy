/** A whole test suite run: runSteps of pkg/scheduler/testsuite_scheduler.go. */
module TestSuiteRun {
  import opened Collections
  import opened Executions

  datatype Batch = Batch(entries: seq<Entry>, stopOnFailure: bool)

  /** The two bus events that stop a suite. */
  datatype StopEvent = AbortRequested | TimedOut

  datatype SuiteStatus = SuiteRunning | SuiteAborting | SuiteAborted | SuiteTimeout | SuiteFailed | SuitePassed

  datatype EndEvent = EndAborted | EndTimeout | EndFailed | EndSuccess

  /** What executeTestStep makes of batch i. */
  type ExecuteStep = (nat, seq<Entry>) -> seq<Entry>

  /** What the outside world does while batch i has its turn: an event waiting for the select, and the later save. */
  datatype Turn = Turn(event: Option<StopEvent>, saved: bool)

  function SetStatus(entries: seq<Entry>, status: Status): seq<Entry> {
    seq(|entries|, j requires 0 <= j < |entries| => entries[j].WithStatus(status))
  }

  predicate AnyFailed(entries: seq<Entry>) { exists e :: e in entries && e.IsFailed() }

  /** The batch after its steps ran. */
  function Executed(b: Batch, i: nat, execute: ExecuteStep): Batch {
    b.(entries := execute(i, SetStatus(b.entries, Running)))
  }

  /** The batch when it never gets to run. */
  function Cancelled(b: Batch): Batch {
    b.(entries := SetStatus(b.entries, Aborted))
  }

  /** Once executed, the batch keeps later ones from running. Nothing is stopped when the save failed. */
  predicate Stops(b: Batch, i: nat, turn: Turn, execute: ExecuteStep) {
    turn.saved && b.stopOnFailure && AnyFailed(Executed(b, i, execute).entries)
  }

  /** The batch counts as failed: a step of it failed, or its outcome could not be saved. */
  predicate CountsAsFailed(b: Batch, i: nat, turn: Turn, execute: ExecuteStep) {
    !turn.saved || AnyFailed(Executed(b, i, execute).entries)
  }

  /** Batch i may not run: an event was waiting at its turn, or the batch before it stops the suite. */
  predicate Cuts(batches: seq<Batch>, turns: seq<Turn>, execute: ExecuteStep, i: nat)
    requires i < |batches| == |turns|
  {
    turns[i].event.Some? || (i > 0 && Stops(batches[i - 1], i - 1, turns[i - 1], execute))
  }

  /** Exactly the first k batches run. */
  ghost predicate CutAt(batches: seq<Batch>, turns: seq<Turn>, execute: ExecuteStep, k: nat)
    requires |batches| == |turns|
  {
    && k <= |batches|
    && (forall i :: 0 <= i < k ==> !Cuts(batches, turns, execute, i))
    && (k < |batches| ==> Cuts(batches, turns, execute, k))
  }

  /** No event waits for a batch that runs, and none but the last of them stops the suite; the next one is held up. */
  lemma CutMeaning(batches: seq<Batch>, turns: seq<Turn>, execute: ExecuteStep, k: nat)
    requires |batches| == |turns| && CutAt(batches, turns, execute, k)
    ensures forall i | 0 <= i < k :: turns[i].event.None?
    ensures forall i | 0 <= i && i + 1 < k ::
      !(turns[i].saved && batches[i].stopOnFailure && AnyFailed(Executed(batches[i], i, execute).entries))
    ensures k < |batches| ==>
      || turns[k].event.Some?
      || (k > 0 && turns[k - 1].saved && batches[k - 1].stopOnFailure
          && AnyFailed(Executed(batches[k - 1], k - 1, execute).entries))
  {
    forall i | 0 <= i < k ensures turns[i].event.None? {
      assert !Cuts(batches, turns, execute, i);
    }
    forall i | 0 <= i && i + 1 < k ensures !Stops(batches[i], i, turns[i], execute) {
      assert !Cuts(batches, turns, execute, i + 1);
    }
  }

  /** The last event the loop took off the channel. */
  function LastEvent(turns: seq<Turn>): Option<StopEvent> {
    if turns == [] then None
    else
      var n := |turns| - 1;
      if turns[n].event.Some? then turns[n].event else LastEvent(turns[..n])
  }

  /** The event was taken at turn i, and none after that. */
  ghost predicate TakenLastAt(turns: seq<Turn>, i: nat, e: StopEvent) {
    i < |turns| && turns[i].event == Some(e) && forall j | i < j < |turns| :: turns[j].event.None?
  }

  lemma NoEventAtTheEnd(turns: seq<Turn>, turn: Turn, i: nat, e: StopEvent)
    requires turn.event.None?
    ensures TakenLastAt(turns + [turn], i, e) <==> TakenLastAt(turns, i, e)
  {
    var more := turns + [turn];
    if TakenLastAt(more, i, e) {
      forall j | i < j < |turns| ensures turns[j].event.None? { assert more[j].event.None?; }
    }
  }

  /** The event that counts is the last one taken. */
  lemma {:induction false} LastEventMeaning(turns: seq<Turn>, e: StopEvent)
    ensures LastEvent(turns) == Some(e) <==> exists i: nat :: TakenLastAt(turns, i, e)
  {
    if turns == [] {
    } else {
      var n := |turns| - 1;
      assert turns == turns[..n] + [turns[n]];
      if turns[n].event.None? {
        LastEventMeaning(turns[..n], e);
        forall i: nat ensures TakenLastAt(turns, i, e) <==> TakenLastAt(turns[..n], i, e) {
          NoEventAtTheEnd(turns[..n], turns[n], i, e);
        }
      } else {
        assert turns[n].event == Some(e) ==> TakenLastAt(turns, n, e);
      }
    }
  }

  /** One of the first k batches counts as failed. */
  ghost predicate FailureSeen(batches: seq<Batch>, turns: seq<Turn>, execute: ExecuteStep, k: nat)
    requires k <= |batches| == |turns|
  {
    exists i | 0 <= i < k :: CountsAsFailed(batches[i], i, turns[i], execute)
  }

  /** The status a run ends with. */
  ghost function FinalStatus(batches: seq<Batch>, turns: seq<Turn>, execute: ExecuteStep, k: nat): SuiteStatus
    requires k <= |batches| == |turns|
  {
    if k < |batches| then (if LastEvent(turns) == Some(TimedOut) then SuiteTimeout else SuiteAborted)
    else if FailureSeen(batches, turns, execute, k) then SuiteFailed
    else SuitePassed
  }

  /** What a run ends with, by the last event taken and by the batches that ran. */
  lemma FinalStatusMeaning(batches: seq<Batch>, turns: seq<Turn>, execute: ExecuteStep, k: nat)
    requires k <= |batches| == |turns|
    ensures FinalStatus(batches, turns, execute, k) ==
      if k < |batches| && (exists i: nat :: TakenLastAt(turns, i, TimedOut)) then SuiteTimeout
      else if k < |batches| then SuiteAborted
      else if exists i | 0 <= i < k :: !turns[i].saved || AnyFailed(Executed(batches[i], i, execute).entries)
      then SuiteFailed
      else SuitePassed
  {
    LastEventMeaning(turns, TimedOut);
  }

  lemma AbortIsIdempotent(entries: seq<Entry>)
    ensures SetStatus(SetStatus(entries, Aborted), Aborted) == SetStatus(entries, Aborted)
  {
  }

  method MarkEntries(entries: seq<Entry>, status: Status) returns (marked: seq<Entry>)
    ensures marked == SetStatus(entries, status)
    ensures |marked| == |entries| && forall j | 0 <= j < |entries| ::
      var before := entries[j].execution;
      if before.None? || before.value.result.None? then marked[j] == entries[j]
      else
        var r := before.value.result.value;
        marked[j] == Entry(entries[j].step,
          Some(Execution(before.value.id, Some(ExecutionResult(status, r.errorMessage, r.output)))))
  {
    marked := entries;
    for j := 0 to |entries|
      invariant |marked| == |entries|
      invariant forall l :: 0 <= l < j ==> marked[l] == entries[l].WithStatus(status)
      invariant forall l :: j <= l < |entries| ==> marked[l] == entries[l]
    {
      if marked[j].HasResult() {
        marked := marked[j := marked[j].WithStatus(status)];
      }
    }
  }

  /** The abort branch, which marks the entries twice. */
  method AbortBatch(b: Batch) returns (r: Batch)
    ensures r == Cancelled(b)
  {
    var entries := MarkEntries(b.entries, Aborted);
    AbortIsIdempotent(b.entries);
    entries := MarkEntries(entries, Aborted);
    r := b.(entries := entries);
  }

  /** Looks for a failed step of an executed batch, up to the first one when it stops the suite. */
  method CheckFailures(b: Batch) returns (failed: bool, cancel: bool)
    ensures failed == AnyFailed(b.entries)
    ensures cancel == (b.stopOnFailure && AnyFailed(b.entries))
  {
    failed, cancel := false, false;
    for j := 0 to |b.entries|
      invariant failed == AnyFailed(b.entries[..j])
      invariant !cancel && !(b.stopOnFailure && failed)
    {
      assert b.entries[..j + 1] == b.entries[..j] + [b.entries[j]];
      if b.entries[j].IsFailed() {
        failed := true;
        if b.stopOnFailure {
          cancel := true;
          assert b.entries[j] in b.entries;
          return;
        }
      }
    }
    assert b.entries[..|b.entries|] == b.entries;
  }

  /** A batch that gets to run: when its outcome cannot be saved, its failures are not looked for. */
  method ExecuteBatch(b: Batch, i: nat, turn: Turn, execute: ExecuteStep)
    returns (r: Batch, failed: bool, cancel: bool)
    ensures r == Executed(b, i, execute)
    ensures failed == CountsAsFailed(b, i, turn, execute) && cancel == Stops(b, i, turn, execute)
  {
    var started := MarkEntries(b.entries, Running);
    r := b.(entries := execute(i, started));
    if !turn.saved {
      return r, true, false;
    }
    failed, cancel := CheckFailures(r);
  }

  /** The end of runSteps: the final status and the one event that tells of it. */
  method Conclude(aborting: bool, abortionStatus: Option<StopEvent>, hasFailedSteps: bool)
    returns (status: SuiteStatus, sent: seq<EndEvent>)
    ensures aborting ==> status == (if abortionStatus == Some(TimedOut) then SuiteTimeout else SuiteAborted)
    ensures !aborting ==> status == (if hasFailedSteps then SuiteFailed else SuitePassed)
    ensures sent == match status
      case SuiteTimeout => [EndTimeout]
      case SuiteAborted => [EndAborted]
      case SuiteFailed => [EndFailed]
      case _ => [EndSuccess]
  {
    sent := [];
    if aborting {
      if abortionStatus == Some(TimedOut) {
        sent := sent + [EndTimeout];
        status := SuiteTimeout;
      } else {
        sent := sent + [EndAborted];
        status := SuiteAborted;
      }
    } else if hasFailedSteps {
      status := SuiteFailed;
      sent := sent + [EndFailed];
    } else {
      status := SuitePassed;
      sent := sent + [EndSuccess];
    }
  }

  /** Of the first i batches, those before this one were executed and the others aborted; the rest is untouched. */
  ghost predicate RanUpTo(was: seq<Batch>, now: seq<Batch>, execute: ExecuteStep, i: nat, executed: nat) {
    && |now| == |was| && executed <= i <= |was|
    && (forall j :: 0 <= j < executed ==> now[j] == Executed(was[j], j, execute))
    && (forall j :: executed <= j < i ==> now[j] == Cancelled(was[j]))
    && (forall j :: i <= j < |was| ==> now[j] == was[j])
  }

  /** None of the batches executed was held up, and the one after them was, if it has had its turn. */
  ghost predicate DecidedUpTo(batches: seq<Batch>, turns: seq<Turn>, execute: ExecuteStep, i: nat, executed: nat)
    requires executed <= i <= |batches| == |turns|
  {
    && (forall j :: 0 <= j < executed ==> !Cuts(batches, turns, execute, j))
    && (executed < i ==> Cuts(batches, turns, execute, executed))
  }

  lemma RunsNext(was: seq<Batch>, now: seq<Batch>, execute: ExecuteStep, i: nat)
    requires RanUpTo(was, now, execute, i, i) && i < |was|
    ensures now[i] == was[i]
    ensures RanUpTo(was, now[i := Executed(was[i], i, execute)], execute, i + 1, i + 1)
  {
  }

  lemma DecidedNext(batches: seq<Batch>, turns: seq<Turn>, execute: ExecuteStep, i: nat, executed: nat)
    requires executed <= i < |batches| == |turns| && DecidedUpTo(batches, turns, execute, i, executed)
    ensures executed == i ==>
      if Cuts(batches, turns, execute, i) then DecidedUpTo(batches, turns, execute, i + 1, i)
      else
        && DecidedUpTo(batches, turns, execute, i + 1, i + 1)
        && (FailureSeen(batches, turns, execute, i + 1) <==>
              FailureSeen(batches, turns, execute, i) || CountsAsFailed(batches[i], i, turns[i], execute))
    ensures executed < i ==> DecidedUpTo(batches, turns, execute, i + 1, executed)
  {
  }

  lemma AbortsNext(was: seq<Batch>, now: seq<Batch>, execute: ExecuteStep, i: nat, executed: nat)
    requires RanUpTo(was, now, execute, i, executed) && i < |was|
    ensures now[i] == was[i]
    ensures RanUpTo(was, now[i := Cancelled(was[i])], execute, i + 1, executed)
  {
  }

  /** The loop of runSteps. */
  method RunBatches(batches: array<Batch>, turns: seq<Turn>, execute: ExecuteStep)
    returns (status: SuiteStatus, abortionStatus: Option<StopEvent>, hasFailedSteps: bool, executed: nat)
    requires |turns| == batches.Length
    modifies batches
    ensures CutAt(old(batches[..]), turns, execute, executed)
    ensures forall i :: 0 <= i < executed ==> batches[i] == Executed(old(batches[i]), i, execute)
    ensures forall i :: executed <= i < batches.Length ==> batches[i] == Cancelled(old(batches[i]))
    ensures status == if executed < batches.Length then SuiteAborting else SuiteRunning
    ensures abortionStatus == LastEvent(turns)
    ensures hasFailedSteps <==> FailureSeen(old(batches[..]), turns, execute, executed)
  {
    ghost var was := batches[..];
    var cancelSteps := false;
    status, abortionStatus, hasFailedSteps, executed := SuiteRunning, None, false, 0;
    for i := 0 to batches.Length
      invariant RanUpTo(was, batches[..], execute, i, executed)
      invariant DecidedUpTo(was, turns, execute, i, executed)
      invariant status == if executed < i then SuiteAborting else SuiteRunning
      invariant cancelSteps <==> executed < i || (i > 0 && Stops(was[i - 1], i - 1, turns[i - 1], execute))
      invariant hasFailedSteps <==> FailureSeen(was, turns, execute, executed)
      invariant abortionStatus == LastEvent(turns[..i])
    {
      assert turns[..i + 1][..i] == turns[..i];
      if turns[i].event.Some? {
        abortionStatus := turns[i].event;
        cancelSteps := true;
      }
      assert cancelSteps <==> executed < i || Cuts(was, turns, execute, i);
      DecidedNext(was, turns, execute, i, executed);
      if cancelSteps {
        status := SuiteAborting;
        var aborted := AbortBatch(batches[i]);
        AbortsNext(was, batches[..], execute, i, executed);
        batches[i] := aborted;
        continue;
      }
      var b, failed, cancel := ExecuteBatch(batches[i], i, turns[i], execute);
      RunsNext(was, batches[..], execute, i);
      batches[i] := b;
      executed := executed + 1;
      hasFailedSteps := hasFailedSteps || failed;
      cancelSteps := cancel;
    }
    assert turns[..batches.Length] == turns;
  }

  /**
   * Runs the batches in order. The executed ones are a prefix, which ends where an event waits or behind a failed one
   * that stops on failure. Every later one is aborted: its entries with a result get that status and keep all else, and
   * the others stay as they are. Exactly one end event is sent, of the kind of the final status.
   */
  method RunSteps(batches: array<Batch>, turns: seq<Turn>, execute: ExecuteStep)
    returns (status: SuiteStatus, sent: seq<EndEvent>, executed: nat)
    requires |turns| == batches.Length
    modifies batches
    ensures CutAt(old(batches[..]), turns, execute, executed)
    ensures forall i | 0 <= i < executed :: turns[i].event.None?
    ensures forall i | 0 <= i && i + 1 < executed ::
      !(turns[i].saved && batches[i].stopOnFailure && AnyFailed(batches[i].entries))
    ensures executed < batches.Length ==>
      || turns[executed].event.Some?
      || (executed > 0 && turns[executed - 1].saved && batches[executed - 1].stopOnFailure
          && AnyFailed(batches[executed - 1].entries))
    ensures forall i :: 0 <= i < executed ==> batches[i] == Executed(old(batches[i]), i, execute)
    ensures forall i | executed <= i < batches.Length ::
      batches[i].stopOnFailure == old(batches[i]).stopOnFailure && |batches[i].entries| == |old(batches[i]).entries|
    ensures forall i, j | executed <= i < batches.Length && 0 <= j < |old(batches[i]).entries| ::
      var before, after := old(batches[i]).entries[j], batches[i].entries[j];
      if before.execution.None? || before.execution.value.result.None? then after == before
      else
        var r := before.execution.value.result.value;
        after == Entry(before.step,
          Some(Execution(before.execution.value.id, Some(ExecutionResult(Aborted, r.errorMessage, r.output)))))
    ensures status == FinalStatus(old(batches[..]), turns, execute, executed)
    ensures sent == [EndTimeout] <==> status == SuiteTimeout
    ensures sent == [EndAborted] <==> status == SuiteAborted
    ensures sent == [EndFailed] <==> status == SuiteFailed
    ensures sent == [EndSuccess] <==> status == SuitePassed
    ensures |sent| == 1
  {
    ghost var was := batches[..];
    var abortionStatus, hasFailedSteps;
    status, abortionStatus, hasFailedSteps, executed := RunBatches(batches, turns, execute);
    CutMeaning(was, turns, execute, executed);
    status, sent := Conclude(status == SuiteAborting, abortionStatus, hasFailedSteps);
  }

  /**
   * A suite ends Passed only if every batch ran, every outcome was saved and no step failed; and a failing
   * stop-on-failure batch does not make the suite Aborted unless some batch comes after it.
   */
  lemma PassedMeansAllRanAndPassed(batches: seq<Batch>, turns: seq<Turn>, execute: ExecuteStep, k: nat)
    requires |batches| == |turns| && CutAt(batches, turns, execute, k)
    ensures FinalStatus(batches, turns, execute, k) == SuitePassed <==>
      k == |batches| && forall i :: 0 <= i < |batches| ==> !CountsAsFailed(batches[i], i, turns[i], execute)
    ensures FinalStatus(batches, turns, execute, k) in {SuiteAborted, SuiteTimeout} <==>
      exists i :: 0 <= i < |batches| && Cuts(batches, turns, execute, i)
  {
  }
}
