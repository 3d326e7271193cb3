/**
 * How the outcome of one test execution reaches its stored result: stopExecution, Abort, Timeout and the deferred
 * stop of updateResultsFromPod in pkg/executor/client/job.go, and checkExecutionPodStatus in pkg/triggers/watcher.go.
 */
module JobOutcome {
  import opened Collections
  import opened Executions

  const EXPECTED_FAILURE := "\nTest run was expected to fail, and it failed as expected"

  const REVERSED := "\nTest run was expected to fail, the result will be reversed"

  const ABORTED_MANUALLY := "\nTest run was aborted manually."

  const TIMED_OUT := "\nTest run was aborted due to timeout."

  /** A result in memory, which several owners may share. */
  class Result {
    var value: ExecutionResult

    constructor (value: ExecutionResult)
      ensures this.value == value
    {
      this.value := value;
    }
  }

  /** An execution in memory. */
  class Run {
    var result: Result

    constructor (result: Result)
      ensures this.result == result
    {
      this.result := result;
    }
  }

  /** Which repository operations of one stopExecution fail, leaving the stored execution as it is. */
  datatype Faults = Faults(get: bool, end: bool, update: bool)

  const HEALTHY := Faults(false, false, false)

  /** What an update leaves: the new status, and the error messages one below the other. */
  function Merged(stored: ExecutionResult, result: ExecutionResult): ExecutionResult {
    var separator := if stored.errorMessage != "" && result.errorMessage != "" then "\n" else "";
    result.(errorMessage := stored.errorMessage + separator + result.errorMessage, output := "")
  }

  /** The stored result of the execution; its output is kept apart. */
  class Repository {
    var stored: ExecutionResult
    var output: string

    constructor (stored: ExecutionResult)
      ensures this.stored == stored && output == ""
    {
      this.stored, output := stored, "";
    }

    method UpdateResult(result: ExecutionResult)
      modifies this
      ensures stored == Merged(old(stored), result) && output == result.output
    {
      var errorMessage := stored.errorMessage;
      if errorMessage != "" && result.errorMessage != "" {
        errorMessage := errorMessage + "\n";
      }
      stored := result.(errorMessage := errorMessage + result.errorMessage, output := "");
      output := result.output;
    }
  }

  /** Aborted and timed-out executions are over for good. */
  predicate IsSealed(r: ExecutionResult) { r.IsAborted() || r.IsTimeout() }

  /** A negative test passes by failing and fails otherwise. */
  function Reversed(r: ExecutionResult): ExecutionResult {
    if r.IsFailed() then r.(status := Passed, output := r.output + EXPECTED_FAILURE)
    else r.(status := Failed, output := r.output + REVERSED)
  }

  /** The result that stopExecution hands to the repository. */
  function Stopped(r: ExecutionResult, isNegativeTest: bool, passedErr: Option<string>): ExecutionResult {
    var r1 := if isNegativeTest then Reversed(r) else r;
    var r2 := if passedErr.Some? then r1.Err(passedErr.value) else r1;
    if r2.IsAborted() then r2.(output := r2.output + ABORTED_MANUALLY)
    else if r2.IsTimeout() then r2.(output := r2.output + TIMED_OUT)
    else r2
  }

  /** The stored result after one stopExecution. */
  function AfterStop(
      stored: ExecutionResult, r: ExecutionResult, isNegativeTest: bool, passedErr: Option<string>, faults: Faults)
    : ExecutionResult
  {
    if IsSealed(stored) || faults.get || faults.end || faults.update then stored
    else Merged(stored, Stopped(r, isNegativeTest, passedErr))
  }

  /** The error messages one below the other. */
  function Below(upper: string, lower: string): (joined: string)
    ensures lower == "" ==> joined == upper
    ensures upper == "" ==> joined == lower
    ensures upper != "" && lower != "" ==> joined == upper + "\n" + lower
  {
    upper + (if upper == "" || lower == "" then "" else "\n") + lower
  }

  /**
   * What one stopExecution stores. An aborted or timed-out execution stays, and so does any if the repository fails. A
   * positive test is stored with the status its runner gave it, a negative one with the reverse; an error makes both
   * fail, and replaces the runner's message.
   */
  lemma StoredByStop(
      stored: ExecutionResult, r: ExecutionResult, isNegativeTest: bool, passedErr: Option<string>, faults: Faults)
    ensures AfterStop(stored, r, isNegativeTest, passedErr, faults) ==
      if stored.status in {Aborted, Timeout} || faults != HEALTHY then stored
      else if passedErr.Some? then ExecutionResult(Failed, Below(stored.errorMessage, passedErr.value), "")
      else
        ExecutionResult(
          if !isNegativeTest then r.status else if r.status == Failed then Passed else Failed,
          Below(stored.errorMessage, r.errorMessage), "")
  {
  }

  /** The stored output after one stopExecution. */
  function OutputAfterStop(
      stored: ExecutionResult, output: string, r: ExecutionResult, isNegativeTest: bool, passedErr: Option<string>,
      faults: Faults)
    : string
  {
    if IsSealed(stored) || faults.get || faults.end || faults.update then output
    else Stopped(r, isNegativeTest, passedErr).output
  }

  /** The runner's output is stored, followed by a remark if the outcome was reversed, and by one on a seal. */
  lemma OutputIsKept(
      stored: ExecutionResult, output: string, r: ExecutionResult, isNegativeTest: bool, passedErr: Option<string>,
      faults: Faults)
    ensures OutputAfterStop(stored, output, r, isNegativeTest, passedErr, faults) ==
      if stored.status in {Aborted, Timeout} || faults != HEALTHY then output
      else if isNegativeTest && r.status == Failed then r.output + EXPECTED_FAILURE
      else if isNegativeTest then r.output + REVERSED
      else if passedErr.None? && r.status == Aborted then r.output + ABORTED_MANUALLY
      else if passedErr.None? && r.status == Timeout then r.output + TIMED_OUT
      else r.output
  {
  }

  /** Correct whether the given result is the execution's own or another object. */
  method StopExecution(
      repository: Repository, execution: Run, result: Result, isNegativeTest: bool, passedErr: Option<string>,
      faults: Faults)
    modifies repository, execution, execution.result, result
    ensures repository.stored == AfterStop(old(repository.stored), old(result.value), isNegativeTest, passedErr, faults)
    ensures repository.output == OutputAfterStop(
      old(repository.stored), old(repository.output), old(result.value), isNegativeTest, passedErr, faults)
    ensures IsSealed(old(repository.stored)) ==>
      execution.result == old(execution.result) && result.value == old(result.value)
    ensures repository.stored != old(repository.stored) ==> execution.result == result
  {
    if faults.get {
      return;
    }
    var saved := repository.stored;
    if saved.IsAborted() || saved.IsTimeout() {
      return;
    }
    if isNegativeTest {
      if result.value.IsFailed() {
        execution.result.value := execution.result.value.(status := Passed);
        result.value := result.value.(status := Passed, output := result.value.output + EXPECTED_FAILURE);
      } else {
        execution.result.value := execution.result.value.(status := Failed);
        result.value := result.value.(status := Failed, output := result.value.output + REVERSED);
      }
    }
    if faults.end {
      return;
    }
    if passedErr.Some? {
      result.value := result.value.Err(passedErr.value);
    }
    if result.value.IsAborted() {
      result.value := result.value.(output := result.value.output + ABORTED_MANUALLY);
    } else if result.value.IsTimeout() {
      result.value := result.value.(output := result.value.output + TIMED_OUT);
    }
    execution.result := result;
    if faults.update {
      return;
    }
    repository.UpdateResult(result.value);
  }

  // ---------- the callers

  /** AbortJob: a job that cannot be deleted yields a failed result instead of an aborted one. */
  function AbortResult(deleteError: Option<string>): ExecutionResult {
    if deleteError.Some? then ExecutionResult(Failed, "", deleteError.value) else ExecutionResult(Aborted, "", "")
  }

  method Abort(repository: Repository, execution: Run, deleteError: Option<string>, faults: Faults)
    returns (result: Result)
    modifies repository, execution, execution.result
    ensures repository.stored == AfterStop(old(repository.stored), AbortResult(deleteError), false, None, faults)
    ensures repository.output == OutputAfterStop(
      old(repository.stored), old(repository.output), AbortResult(deleteError), false, None, faults)
  {
    result := new Result(AbortResult(deleteError));
    StopExecution(repository, execution, result, false, None, faults);
  }

  method TimeOut(repository: Repository, faults: Faults)
    modifies repository
    ensures repository.stored ==
      AfterStop(old(repository.stored), ExecutionResult(Timeout, "", ""), false, None, faults)
    ensures repository.output == OutputAfterStop(
      old(repository.stored), old(repository.output), ExecutionResult(Timeout, "", ""), false, None, faults)
  {
    var own := new Result(repository.stored);
    var execution := new Run(own);
    var result := new Result(ExecutionResult(Timeout, "", ""));
    StopExecution(repository, execution, result, false, None, faults);
  }

  /** The deferred stop: the result is the execution's own, as the runner output or an earlier error left it. */
  method StopAfterPod(repository: Repository, execution: Run, isNegativeTest: bool, err: Option<string>, faults: Faults)
    modifies repository, execution, execution.result
    ensures repository.stored ==
      AfterStop(old(repository.stored), old(execution.result.value), isNegativeTest, err, faults)
    ensures repository.output == OutputAfterStop(
      old(repository.stored), old(repository.output), old(execution.result.value), isNegativeTest, err, faults)
  {
    StopExecution(repository, execution, execution.result, isNegativeTest, err, faults);
  }

  datatype Pod = Pod(failed: bool, errorMessage: string)

  /** The error message of the first failed pod. */
  function FailureOf(pods: seq<Pod>): string {
    if pods == [] then ""
    else if pods[0].failed then pods[0].errorMessage
    else FailureOf(pods[1..])
  }

  /** The stored result after a look at the execution's pods. */
  function AfterPodCheck(stored: ExecutionResult, message: string, updateFails: bool): ExecutionResult {
    if (stored.IsRunning() || stored.IsQueued()) && message != "" && !updateFails then
      var separator := if stored.errorMessage != "" then "\n" else "";
      Merged(stored, stored.(status := Failed, errorMessage := stored.errorMessage + separator + message))
    else stored
  }

  /** The message is that of the first failed pod, and there is none exactly if that has none or no pod failed. */
  lemma {:induction false} FirstFailedPod(pods: seq<Pod>, k: nat)
    requires k <= |pods| && (forall i | 0 <= i < k :: !pods[i].failed) && (k < |pods| ==> pods[k].failed)
    ensures FailureOf(pods) == if k < |pods| then pods[k].errorMessage else ""
    decreases |pods|
  {
    if pods == [] || pods[0].failed {
    } else {
      FirstFailedPod(pods[1..], k - 1);
    }
  }

  /**
   * An active execution fails once a pod failed with a message. The update joins a message to the stored one that
   * contains that already, so an earlier message is then stored twice.
   */
  lemma StoredByPodCheck(stored: ExecutionResult, message: string, updateFails: bool)
    ensures AfterPodCheck(stored, message, updateFails) ==
      if stored.status !in {Running, Queued} || message == "" || updateFails then stored
      else ExecutionResult(Failed, Below(stored.errorMessage, Below(stored.errorMessage, message)), "")
  {
    if stored.errorMessage != "" {
      Regroup(stored.errorMessage, "\n", message);
    }
  }

  method CheckExecutionPodStatus(repository: Repository, pods: seq<Pod>, updateFails: bool)
    modifies repository
    ensures repository.stored == AfterPodCheck(old(repository.stored), FailureOf(pods), updateFails)
  {
    var result := repository.stored;
    if result.IsRunning() || result.IsQueued() {
      var errorMessage := "";
      for i := 0 to |pods|
        invariant errorMessage == "" && FailureOf(pods[i..]) == FailureOf(pods)
      {
        if pods[i].failed {
          errorMessage := pods[i].errorMessage;
          break;
        }
      }
      if errorMessage != "" {
        result := result.(status := Failed);
        if result.errorMessage != "" {
          result := result.(errorMessage := result.errorMessage + "\n");
        }
        result := result.(errorMessage := result.errorMessage + errorMessage);
        if !updateFails {
          repository.UpdateResult(result);
        }
      }
    }
  }

  // ---------- the writers that do not look first

  function AfterUnread(stored: ExecutionResult, result: ExecutionResult, updateFails: bool): ExecutionResult {
    if updateFails then stored else Merged(stored, result)
  }

  /**
   * The scheduler stores whatever the executor returned for an execution, and the container executor what its pod left,
   * without having read what is stored.
   */
  method StoreUnread(repository: Repository, result: ExecutionResult, updateFails: bool)
    modifies repository
    ensures repository.stored == AfterUnread(old(repository.stored), result, updateFails)
    ensures repository.output == if updateFails then old(repository.output) else result.output
  {
    if !updateFails {
      repository.UpdateResult(result);
    }
  }

  function AfterGivingUp(stored: ExecutionResult, message: string, updateFails: bool): ExecutionResult {
    if stored.IsRunning() && !updateFails then ExecutionResult(Failed, message, "") else stored
  }

  /** The reconciler gives up an execution that is left running, and replaces its whole result. */
  method GiveUp(repository: Repository, message: string, updateFails: bool)
    modifies repository
    ensures repository.stored == AfterGivingUp(old(repository.stored), message, updateFails)
    ensures repository.output ==
      if old(repository.stored).IsRunning() && !updateFails then "" else old(repository.output)
  {
    if repository.stored.IsRunning() && !updateFails {
      repository.stored, repository.output := ExecutionResult(Failed, message, ""), "";
    }
  }

  // ---------- every order of whole calls

  /** The writers of one stored result, each taken as one atomic step. */
  datatype Event =
    | PodFinished(result: ExecutionResult, isNegativeTest: bool, err: Option<string>, faults: Faults)
    | AbortCalled(deleteError: Option<string>, faults: Faults)
    | TimeoutCalled(faults: Faults)
    | PodsChecked(pods: seq<Pod>, updateFails: bool)
    | StoredUnread(result: ExecutionResult, updateFails: bool)
    | GivenUp(message: string, updateFails: bool)

  function After(stored: ExecutionResult, e: Event): ExecutionResult {
    match e
    case PodFinished(r, negative, err, faults) => AfterStop(stored, r, negative, err, faults)
    case AbortCalled(deleteError, faults) => AfterStop(stored, AbortResult(deleteError), false, None, faults)
    case TimeoutCalled(faults) => AfterStop(stored, ExecutionResult(Timeout, "", ""), false, None, faults)
    case PodsChecked(pods, updateFails) => AfterPodCheck(stored, FailureOf(pods), updateFails)
    case StoredUnread(r, updateFails) => AfterUnread(stored, r, updateFails)
    case GivenUp(message, updateFails) => AfterGivingUp(stored, message, updateFails)
  }

  /** What the other calls store, each in a repository that works. The error of a failed deletion is output only. */
  lemma StoredByOthers(
      stored: ExecutionResult, output: string, deleteError: string, r: ExecutionResult, message: string)
    ensures After(stored, AbortCalled(None, HEALTHY)) ==
      if stored.status in {Aborted, Timeout} then stored else ExecutionResult(Aborted, stored.errorMessage, "")
    ensures After(stored, AbortCalled(Some(deleteError), HEALTHY)) ==
      if stored.status in {Aborted, Timeout} then stored else ExecutionResult(Failed, stored.errorMessage, "")
    ensures stored.status !in {Aborted, Timeout} ==>
      && OutputAfterStop(stored, output, AbortResult(None), false, None, HEALTHY) == ABORTED_MANUALLY
      && OutputAfterStop(stored, output, AbortResult(Some(deleteError)), false, None, HEALTHY) == deleteError
    ensures After(stored, TimeoutCalled(HEALTHY)) ==
      if stored.status in {Aborted, Timeout} then stored else ExecutionResult(Timeout, stored.errorMessage, "")
    ensures After(stored, StoredUnread(r, false)) ==
      ExecutionResult(r.status, Below(stored.errorMessage, r.errorMessage), "")
    ensures After(stored, GivenUp(message, false)) ==
      if stored.status == Running then ExecutionResult(Failed, message, "") else stored
  {
  }

  function AfterAll(stored: ExecutionResult, events: seq<Event>): ExecutionResult
    decreases |events|
  {
    if events == [] then stored else AfterAll(After(stored, events[0]), events[1..])
  }

  /** A writer that does not look first gets its result stored. */
  predicate StoresUnread(e: Event) { e.StoredUnread? && !e.updateFails }

  /** All the writers that store without looking first would leave this result as it is. */
  ghost predicate NoneDisturbs(stored: ExecutionResult, events: seq<Event>) {
    forall e | e in events && StoresUnread(e) :: Merged(stored, e.result) == stored
  }

  /** The result stays the same all along. */
  ghost predicate StaysThroughout(stored: ExecutionResult, events: seq<Event>) {
    forall k: nat | k <= |events| :: AfterAll(stored, events[..k]) == stored
  }

  lemma FirstEvent(stored: ExecutionResult, events: seq<Event>, k: nat)
    requires 1 <= k <= |events|
    ensures AfterAll(stored, events[..k]) == AfterAll(After(stored, events[0]), events[1..][..k - 1])
  {
    assert events[..k][1..] == events[1..][..k - 1];
  }

  /** A stored abort or timeout stays exactly when no writer that does not look first stores something else. */
  lemma {:induction false} SealedStays(stored: ExecutionResult, events: seq<Event>)
    requires IsSealed(stored)
    ensures StaysThroughout(stored, events) <==> NoneDisturbs(stored, events)
    decreases |events|
  {
    if events == [] {
    } else {
      var next, rest := After(stored, events[0]), events[1..];
      assert events == [events[0]] + rest;
      FirstEvent(stored, events, 1);
      assert rest[..0] == [];
      if next == stored {
        SealedStays(stored, rest);
        forall k: nat | 1 <= k <= |events|
          ensures AfterAll(stored, events[..k]) == AfterAll(stored, rest[..k - 1])
        {
          FirstEvent(stored, events, k);
        }
        assert forall k: nat | k <= |rest| :: AfterAll(stored, rest[..k]) == AfterAll(stored, events[..k + 1]);
      } else {
        assert AfterAll(stored, events[..1]) != stored;
      }
    }
  }

  /** The result is aborted or timed out all along. */
  ghost predicate SealedThroughout(stored: ExecutionResult, events: seq<Event>) {
    forall k: nat | k <= |events| :: IsSealed(AfterAll(stored, events[..k]))
  }

  /** It stays one of the two exactly when the writers that do not look first store nothing else. */
  lemma {:induction false} SealedThroughoutIff(stored: ExecutionResult, events: seq<Event>)
    requires IsSealed(stored)
    ensures SealedThroughout(stored, events) <==> forall e | e in events && StoresUnread(e) :: IsSealed(e.result)
    decreases |events|
  {
    if events == [] {
    } else {
      var next, rest := After(stored, events[0]), events[1..];
      assert events == [events[0]] + rest;
      FirstEvent(stored, events, 1);
      assert rest[..0] == [];
      if IsSealed(next) {
        SealedThroughoutIff(next, rest);
        forall k: nat | 1 <= k <= |events|
          ensures AfterAll(stored, events[..k]) == AfterAll(next, rest[..k - 1])
        {
          FirstEvent(stored, events, k);
        }
        assert forall k: nat | k <= |rest| :: AfterAll(next, rest[..k]) == AfterAll(stored, events[..k + 1]);
      } else {
        assert !IsSealed(AfterAll(stored, events[..1]));
      }
    }
  }

  lemma {:induction false} AfterAllSplits(stored: ExecutionResult, first: seq<Event>, second: seq<Event>)
    ensures AfterAll(stored, first + second) == AfterAll(AfterAll(stored, first), second)
    decreases |first|
  {
    if first == [] {
      assert first + second == second;
    } else {
      assert (first + second)[1..] == first[1..] + second;
      AfterAllSplits(After(stored, first[0]), first[1..], second);
    }
  }

  /**
   * In whatever order whole calls come, the first abort or timeout that gets stored stays stored, unless a writer that
   * does not look first stores something else later.
   */
  lemma FirstSealWins(stored: ExecutionResult, first: seq<Event>, second: seq<Event>)
    requires IsSealed(AfterAll(stored, first))
    ensures (forall k: nat | k <= |second| :: AfterAll(stored, first + second[..k]) == AfterAll(stored, first))
      <==> NoneDisturbs(AfterAll(stored, first), second)
  {
    var sealed := AfterAll(stored, first);
    SealedStays(sealed, second);
    forall k: nat | k <= |second| ensures AfterAll(stored, first + second[..k]) == AfterAll(sealed, second[..k]) {
      AfterAllSplits(stored, first, second[..k]);
    }
  }

  /** The abort is stored, the pod's stop sees it and backs off, and then the scheduler stores the pod's outcome. */
  lemma SchedulerOverwritesAbort(r: ExecutionResult)
    requires !IsSealed(r)
    ensures var running := ExecutionResult(Running, "", "");
      var calls := [AbortCalled(None, HEALTHY), PodFinished(r, false, None, HEALTHY), StoredUnread(r, false)];
      && AfterAll(running, calls[..1]).IsAborted() && AfterAll(running, calls[..2]).IsAborted()
      && AfterAll(running, calls).status == r.status
  {
    var running := ExecutionResult(Running, "", "");
    var abort, pod, unread := AbortCalled(None, HEALTHY), PodFinished(r, false, None, HEALTHY), StoredUnread(r, false);
    var calls := [abort, pod, unread];
    assert calls[..1] == [abort] && calls[..2] == [abort, pod];
    assert [abort][1..] == [] && [abort, pod][1..] == [pod] && [pod][1..] == [];
    assert calls[1..] == [pod, unread] && [pod, unread][1..] == [unread] && [unread][1..] == [];
    var sealed := After(running, abort);
    assert After(sealed, pod) == sealed;
    assert AfterAll(sealed, [pod]) == AfterAll(sealed, []) == sealed;
    assert AfterAll(running, calls) == AfterAll(sealed, [pod, unread]) == AfterAll(sealed, [unread]);
    assert AfterAll(sealed, [unread]) == AfterAll(After(sealed, unread), []);
  }

  /** The reconciler replaces a running result whose error message its own does not extend. */
  predicate DropsMessage(stored: ExecutionResult, e: Event) {
    e.GivenUp? && stored.IsRunning() && !e.updateFails && !(stored.errorMessage <= e.message)
  }

  /** Every writer but the reconciler only extends the error message. */
  lemma MessageIsExtendedIff(stored: ExecutionResult, e: Event)
    ensures stored.errorMessage <= After(stored, e).errorMessage <==> !DropsMessage(stored, e)
  {
  }

  /** So unless an execution that is left running with a message is given up, no error message is ever lost. */
  lemma {:induction false} ErrorMessagesAccumulate(stored: ExecutionResult, events: seq<Event>)
    requires forall k: nat | k < |events| :: !DropsMessage(AfterAll(stored, events[..k]), events[k])
    ensures stored.errorMessage <= AfterAll(stored, events).errorMessage
    decreases |events|
  {
    if events == [] {
    } else {
      var next, rest := After(stored, events[0]), events[1..];
      assert events[..0] == [];
      MessageIsExtendedIff(stored, events[0]);
      forall k: nat | k < |rest| ensures !DropsMessage(AfterAll(next, rest[..k]), rest[k]) {
        FirstEvent(stored, events, k + 1);
        assert rest[k] == events[k + 1];
      }
      ErrorMessagesAccumulate(next, rest);
    }
  }

  /**
   * A negative test that was not aborted or timed out before is stored as Passed exactly when its runner result failed
   * and no error was passed along; otherwise as Failed.
   */
  lemma NegativeTestPassesByFailing(stored: ExecutionResult, r: ExecutionResult, err: Option<string>)
    requires !IsSealed(stored)
    ensures After(stored, PodFinished(r, true, err, HEALTHY)).IsPassed() <==> r.IsFailed() && err.None?
    ensures After(stored, PodFinished(r, true, err, HEALTHY)).IsFailed() <==> !(r.IsFailed() && err.None?)
  {
  }

  /**
   * The only way a run seals an execution is an abort, a timeout, a sealed runner result of a positive test, or a
   * sealed result that was stored without looking first.
   */
  lemma {:induction false} SealsComeFrom(stored: ExecutionResult, events: seq<Event>)
    requires !IsSealed(stored) && IsSealed(AfterAll(stored, events))
    ensures exists i :: 0 <= i < |events| && match events[i]
      case PodFinished(r, negative, err, _) => IsSealed(r) && !negative && err.None?
      case AbortCalled(deleteError, _) => deleteError.None?
      case TimeoutCalled(_) => true
      case PodsChecked(_, _) => false
      case StoredUnread(r, updateFails) => IsSealed(r) && !updateFails
      case GivenUp(_, _) => false
    decreases |events|
  {
    if !IsSealed(After(stored, events[0])) {
      SealsComeFrom(After(stored, events[0]), events[1..]);
    }
  }
}
