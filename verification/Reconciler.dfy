/** The reconciler of suites left running: ProcessTestSuites of pkg/reconciler/reconciler.go. */
module Reconciler {
  import opened Collections
  import opened Executions

  const ABNORMALLY_TERMINATED := "test execution was abnormally terminated"

  datatype SuiteStatus = SuiteRunning | SuitePassed | SuiteFailed | SuiteAborted | SuiteTimeout

  datatype Suite = Suite(status: SuiteStatus, steps: seq<seq<Entry>>)

  /** What the result repository answers for an id. A missing document is an execution without a result. */
  datatype Lookup = LookupFailed | NoDocuments | Stored(result: Option<ExecutionResult>)

  type Results = string -> Lookup

  /** The stored result of the entry's execution, when the entry counts: a test with an execution that has one. */
  function ResultOf(e: Entry, results: Results): Option<ExecutionResult> {
    if e.step.Some? && TypeOf(e.step.value) == ExecuteTest && e.execution.Some? && results(e.execution.value.id).Stored?
    then results(e.execution.value.id).result
    else None
  }

  predicate IsUnreadable(e: Entry, results: Results) {
    && e.step.Some? && TypeOf(e.step.value) == ExecuteTest
    && e.execution.Some? && results(e.execution.value.id).LookupFailed?
  }

  predicate IsActive(e: Entry, results: Results) {
    var r := ResultOf(e, results);
    r.Some? && (r.value.IsRunning() || r.value.IsQueued())
  }

  predicate IsStopped(e: Entry, results: Results) {
    var r := ResultOf(e, results);
    r.Some? && (r.value.IsAborted() || r.value.IsTimeout())
  }

  predicate HasFailed(e: Entry, results: Results) {
    var r := ResultOf(e, results);
    r.Some? && r.value.IsFailed()
  }

  /** Only what the repository has stored under the execution of a test counts. */
  lemma WhatCounts(e: Entry, results: Results, r: ExecutionResult)
    ensures ResultOf(e, results) == Some(r) <==>
      && e.step.Some? && e.step.value.test != "" && e.execution.Some?
      && results(e.execution.value.id) == Stored(Some(r))
    ensures IsUnreadable(e, results) <==>
      e.step.Some? && e.step.value.test != "" && e.execution.Some? && results(e.execution.value.id) == LookupFailed
    ensures ResultOf(e, results) == Some(r) ==>
      && (IsActive(e, results) <==> r.status in {Running, Queued})
      && (IsStopped(e, results) <==> r.status in {Aborted, Timeout})
      && (HasFailed(e, results) <==> r.status == Failed)
    ensures ResultOf(e, results).None? ==>
      !IsActive(e, results) && !IsStopped(e, results) && !HasFailed(e, results)
  {
  }

  /** The entries of a suite in the order in which they are looked at. */
  function Flat(steps: seq<seq<Entry>>): seq<Entry> {
    if steps == [] then [] else Flat(steps[..|steps| - 1]) + steps[|steps| - 1]
  }

  /** What a look at the entries finds out. */
  datatype Finding = Undecided(failed: bool) | StillActive | Unreadable | Ended(status: SuiteStatus)

  /** Looking at one more entry. */
  function Look(found: Finding, e: Entry, results: Results): Finding {
    if !found.Undecided? then found
    else if IsUnreadable(e, results) then Unreadable
    else if IsActive(e, results) then StillActive
    else if IsStopped(e, results) then
      Ended(if ResultOf(e, results).value.IsAborted() then SuiteAborted else SuiteTimeout)
    else Undecided(found.failed || HasFailed(e, results))
  }

  function LookAt(entries: seq<Entry>, results: Results): Finding {
    if entries == [] then Undecided(false)
    else Look(LookAt(entries[..|entries| - 1], results), entries[|entries| - 1], results)
  }

  lemma LookNext(before: seq<Entry>, entries: seq<Entry>, j: nat, results: Results)
    requires j < |entries|
    ensures LookAt(before + entries[..j + 1], results) ==
      Look(LookAt(before + entries[..j], results), entries[j], results)
  {
    var seen := before + entries[..j + 1];
    assert seen[..|seen| - 1] == before + entries[..j];
  }

  lemma {:induction false} LookAtAppend(a: seq<Entry>, b: seq<Entry>, results: Results)
    requires !LookAt(a, results).Undecided?
    ensures LookAt(a + b, results) == LookAt(a, results)
  {
    if b == [] {
      assert a + b == a;
    } else {
      assert (a + b)[..|a + b| - 1] == a + b[..|b| - 1];
      LookAtAppend(a, b[..|b| - 1], results);
    }
  }

  lemma {:induction false} FlatPrefix(steps: seq<seq<Entry>>, i: nat)
    requires i <= |steps|
    ensures Flat(steps[..i]) <= Flat(steps)
  {
    if i < |steps| {
      assert steps[..|steps| - 1][..i] == steps[..i];
      FlatPrefix(steps[..|steps| - 1], i);
    } else {
      assert steps[..i] == steps;
    }
  }

  lemma TheRestDoesNotMatter(steps: seq<seq<Entry>>, i: nat, j: nat, results: Results)
    requires i < |steps| && j < |steps[i]|
    requires !LookAt(Flat(steps[..i]) + steps[i][..j + 1], results).Undecided?
    ensures LookAt(Flat(steps), results) == LookAt(Flat(steps[..i]) + steps[i][..j + 1], results)
  {
    var seen := Flat(steps[..i]) + steps[i][..j + 1];
    assert steps[..i + 1][..i] == steps[..i];
    assert seen <= Flat(steps[..i + 1]);
    FlatPrefix(steps, i + 1);
    assert Flat(steps) == seen + Flat(steps)[|seen|..];
    LookAtAppend(seen, Flat(steps)[|seen|..], results);
  }

  /** The look goes on with the next entry, and ends there if that decides. */
  lemma LookOn(steps: seq<seq<Entry>>, i: nat, j: nat, results: Results)
    requires i < |steps| && j < |steps[i]|
    ensures var before := Flat(steps[..i]);
      var found := Look(LookAt(before + steps[i][..j], results), steps[i][j], results);
      && LookAt(before + steps[i][..j + 1], results) == found
      && (!found.Undecided? ==> LookAt(Flat(steps), results) == found)
  {
    LookNext(Flat(steps[..i]), steps[i], j, results);
    if !LookAt(Flat(steps[..i]) + steps[i][..j + 1], results).Undecided? {
      TheRestDoesNotMatter(steps, i, j, results);
    }
  }

  /** What the inner loop does about one entry. */
  method InspectEntry(e: Entry, results: Results, failed: bool) returns (found: Finding)
    ensures found == Look(Undecided(failed), e, results)
  {
    found := Undecided(failed);
    if e.step.Some? && TypeOf(e.step.value) == ExecuteTest && e.execution.Some? {
      var exec := results(e.execution.value.id);
      if exec.LookupFailed? {
        return Unreadable;
      }
      if exec.NoDocuments? || exec.result.None? {
        return;
      }
      var result := exec.result.value;
      if result.IsRunning() || result.IsQueued() {
        return StillActive;
      }
      if result.IsFailed() {
        return Undecided(true);
      }
      if result.IsAborted() {
        return Ended(SuiteAborted);
      }
      if result.IsTimeout() {
        return Ended(SuiteTimeout);
      }
    }
  }

  /** The two loops over the steps, with their labelled exits. */
  method Inspect(suite: Suite, results: Results) returns (found: Finding)
    ensures found == LookAt(Flat(suite.steps), results)
  {
    var failed := false;
    for i := 0 to |suite.steps|
      invariant LookAt(Flat(suite.steps[..i]), results) == Undecided(failed)
    {
      var entries := suite.steps[i];
      ghost var before := Flat(suite.steps[..i]);
      assert suite.steps[..i + 1][..i] == suite.steps[..i];
      assert before + entries[..0] == before;
      for j := 0 to |entries|
        invariant LookAt(before + entries[..j], results) == Undecided(failed)
      {
        LookOn(suite.steps, i, j, results);
        found := InspectEntry(entries[j], results, failed);
        if !found.Undecided? {
          return;
        }
        failed := found.failed;
      }
      assert entries[..|entries|] == entries;
    }
    assert suite.steps[..|suite.steps|] == suite.steps;
    return Undecided(failed);
  }

  function MapStatus(status: SuiteStatus): Status {
    match status
    case SuiteRunning => Running
    case SuitePassed => Passed
    case SuiteFailed => Failed
    case SuiteAborted => Aborted
    case SuiteTimeout => Timeout
  }

  /** An embedded execution that still looks running gets the suite's status. */
  function Settled(e: Entry, status: SuiteStatus): Entry {
    if e.execution.Some? && e.execution.value.IsRunning()
    then
      var result := ExecutionResult(MapStatus(status), ABNORMALLY_TERMINATED, "");
      e.(execution := Some(e.execution.value.(result := Some(result))))
    else e
  }

  function SettledAll(entries: seq<Entry>, status: SuiteStatus): seq<Entry> {
    seq(|entries|, j requires 0 <= j < |entries| => Settled(entries[j], status))
  }

  /** The suite with its status, and with its embedded executions settled. */
  function Finished(suite: Suite, status: SuiteStatus): Suite {
    Suite(status, seq(|suite.steps|, i requires 0 <= i < |suite.steps| => SettledAll(suite.steps[i], status)))
  }

  /** The status a suite is given, unless it is left alone. */
  function Decision(found: Finding): Option<SuiteStatus> {
    match found
    case Undecided(failed) => Some(if failed then SuiteFailed else SuitePassed)
    case Ended(status) => Some(status)
    case _ => None
  }

  method Settle(suite: Suite, status: SuiteStatus) returns (r: Suite)
    ensures r == Finished(suite, status)
  {
    r := suite.(status := status);
    for i := 0 to |suite.steps|
      invariant r.status == status && |r.steps| == |suite.steps|
      invariant forall k | 0 <= k < i :: r.steps[k] == SettledAll(suite.steps[k], status)
      invariant forall k | i <= k < |suite.steps| :: r.steps[k] == suite.steps[k]
    {
      var entries := suite.steps[i];
      for j := 0 to |entries|
        invariant |entries| == |suite.steps[i]|
        invariant forall l | 0 <= l < j :: entries[l] == Settled(suite.steps[i][l], status)
        invariant forall l | j <= l < |entries| :: entries[l] == suite.steps[i][l]
      {
        if entries[j].execution.Some? && entries[j].execution.value.IsRunning() {
          entries := entries[j := Settled(entries[j], status)];
        }
      }
      r := r.(steps := r.steps[i := entries]);
    }
  }

  // ---------- all suites

  /** Whether the context is cancelled before a suite, and whether the suite's update succeeds. */
  datatype Turn = Turn(cancelled: bool, updated: bool)

  /**
   * Each suite before the first error or cancellation is left alone or stored with its decided status; from there on,
   * everything stays as it is.
   */
  method ProcessTestSuites(stored: array<Suite>, results: Results, turns: seq<Turn>) returns (processed: nat)
    requires |turns| == stored.Length
    modifies stored
    ensures processed <= stored.Length
    ensures forall i | 0 <= i < processed ::
      var found := LookAt(Flat(old(stored[i]).steps), results);
      && !turns[i].cancelled && !found.Unreadable?
      && if found.StillActive? then stored[i] == old(stored[i])
         else turns[i].updated && stored[i] == Finished(old(stored[i]), Decision(found).value)
    ensures processed < stored.Length ==>
      var found := LookAt(Flat(old(stored[processed]).steps), results);
      turns[processed].cancelled || found.Unreadable? || (!found.StillActive? && !turns[processed].updated)
    ensures forall i | processed <= i < stored.Length :: stored[i] == old(stored[i])
  {
    for i := 0 to stored.Length
      invariant forall k | 0 <= k < i ::
        var found := LookAt(Flat(old(stored[k]).steps), results);
        && !turns[k].cancelled && !found.Unreadable?
        && if found.StillActive? then stored[k] == old(stored[k])
           else turns[k].updated && stored[k] == Finished(old(stored[k]), Decision(found).value)
      invariant forall k | i <= k < stored.Length :: stored[k] == old(stored[k])
    {
      if turns[i].cancelled {
        return i;
      }
      var found := Inspect(stored[i], results);
      if found.Unreadable? {
        return i;
      }
      if found.StillActive? {
        continue;
      }
      var suite := Settle(stored[i], Decision(found).value);
      if !turns[i].updated {
        return i;
      }
      stored[i] := suite;
    }
    return stored.Length;
  }

  // ---------- what the decision means

  /** The look ends at this entry. */
  predicate IsDeciding(e: Entry, results: Results) {
    IsUnreadable(e, results) || IsActive(e, results) || IsStopped(e, results)
  }

  /** The look ends at entry i, the first at which it can. */
  ghost predicate Decides(entries: seq<Entry>, results: Results, i: nat) {
    i < |entries| && IsDeciding(entries[i], results) && forall j | 0 <= j < i :: !IsDeciding(entries[j], results)
  }

  lemma {:induction false} LookMeaning(entries: seq<Entry>, results: Results)
    ensures var found := LookAt(entries, results);
      if found.Undecided? then
        && (forall i | 0 <= i < |entries| :: !IsDeciding(entries[i], results))
        && (found.failed <==> exists i :: 0 <= i < |entries| && HasFailed(entries[i], results))
      else exists i: nat :: Decides(entries, results, i) && found == Look(Undecided(false), entries[i], results)
  {
    if entries == [] {
    } else {
      var n := |entries| - 1;
      var before := entries[..n];
      LookMeaning(before, results);
      if LookAt(before, results).Undecided? {
        assert forall i | 0 <= i < n :: before[i] == entries[i];
        if IsDeciding(entries[n], results) {
          assert Decides(entries, results, n);
        }
      } else {
        var i: nat :|
          Decides(before, results, i) && LookAt(before, results) == Look(Undecided(false), before[i], results);
        assert Decides(entries, results, i);
      }
    }
  }

  /** A running or queued test comes before every aborted or timed-out one. */
  ghost predicate ActiveFirst(entries: seq<Entry>, results: Results, i: nat) {
    i < |entries| && IsActive(entries[i], results) && forall j | 0 <= j < i :: !IsStopped(entries[j], results)
  }

  ghost predicate AllReadable(entries: seq<Entry>, results: Results) {
    forall j | 0 <= j < |entries| :: !IsUnreadable(entries[j], results)
  }

  /** Provided every id can be read, a suite is left alone exactly when an active test comes before any stopped one. */
  lemma LeftAloneIff(entries: seq<Entry>, results: Results)
    requires AllReadable(entries, results)
    ensures Decision(LookAt(entries, results)).None? <==> exists i: nat :: ActiveFirst(entries, results, i)
  {
    var found := LookAt(entries, results);
    LookMeaning(entries, results);
    if found.Undecided? {
      forall i: nat ensures !ActiveFirst(entries, results, i) {
        if i < |entries| { assert !IsDeciding(entries[i], results); }
      }
    } else {
      var i: nat :| Decides(entries, results, i) && found == Look(Undecided(false), entries[i], results);
      if IsActive(entries[i], results) {
        assert ActiveFirst(entries, results, i);
      } else {
        forall k: nat ensures !ActiveFirst(entries, results, k) {
          if k < i { assert !IsDeciding(entries[k], results); }
        }
      }
    }
  }

  /** The suite takes the status of the first aborted or timed-out test that no active test precedes. */
  lemma FirstStopDecides(entries: seq<Entry>, results: Results, i: nat)
    requires AllReadable(entries, results) && i < |entries| && IsStopped(entries[i], results)
    requires forall j | 0 <= j < i :: !IsStopped(entries[j], results) && !IsActive(entries[j], results)
    ensures Decision(LookAt(entries, results)) ==
      Some(if ResultOf(entries[i], results).value.IsAborted() then SuiteAborted else SuiteTimeout)
  {
    var found := LookAt(entries, results);
    LookMeaning(entries, results);
    assert IsDeciding(entries[i], results);
    var k: nat :| Decides(entries, results, k) && found == Look(Undecided(false), entries[k], results);
    assert k == i;
  }

  /** With no active and no stopped test, the suite failed if any test did, and passed if none did. */
  lemma OtherwiseFailedOrPassed(entries: seq<Entry>, results: Results)
    requires AllReadable(entries, results)
    requires forall j | 0 <= j < |entries| :: !IsStopped(entries[j], results) && !IsActive(entries[j], results)
    ensures Decision(LookAt(entries, results)) ==
      Some(if exists i :: 0 <= i < |entries| && HasFailed(entries[i], results) then SuiteFailed else SuitePassed)
  {
    LookMeaning(entries, results);
  }

  /** No suite is given the status running. */
  lemma {:induction false} DecisionIsFinal(entries: seq<Entry>, results: Results)
    ensures Decision(LookAt(entries, results)) != Some(SuiteRunning)
  {
    if entries == [] {
    } else {
      DecisionIsFinal(entries[..|entries| - 1], results);
    }
  }

  /**
   * A suite that gets a status embeds no execution that looks running: each of these has the suite's status now, and
   * an error. All the others are as they were.
   */
  lemma NothingLooksRunning(suite: Suite, results: Results, i: nat, j: nat)
    requires Decision(LookAt(Flat(suite.steps), results)).Some? && i < |suite.steps| && j < |suite.steps[i]|
    ensures var status := Decision(LookAt(Flat(suite.steps), results)).value;
      var settled := Finished(suite, status);
      && settled.status == status != SuiteRunning
      && |settled.steps| == |suite.steps| && |settled.steps[i]| == |suite.steps[i]|
      && var before, after := suite.steps[i][j], settled.steps[i][j];
         if before.execution.Some? && (before.execution.value.result.Some? ==>
              before.execution.value.result.value.status == Running)
         then
           after == Entry(before.step, Some(Execution(before.execution.value.id, Some(ExecutionResult(
             if status == SuitePassed then Passed
             else if status == SuiteFailed then Failed
             else if status == SuiteAborted then Aborted
             else Timeout,
             ABNORMALLY_TERMINATED, "")))))
         else after == before
  {
    DecisionIsFinal(Flat(suite.steps), results);
  }
}
