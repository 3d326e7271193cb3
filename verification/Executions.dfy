/** Test executions and their results, as pkg/api/v1/testkube declares them. */
module Executions {
  import opened Collections

  datatype Status = Queued | Running | Passed | Failed | Aborted | Timeout

  datatype ExecutionResult = ExecutionResult(status: Status, errorMessage: string, output: string) {
    predicate IsRunning() { status == Running }
    predicate IsQueued() { status == Queued }
    predicate IsPassed() { status == Passed }
    predicate IsFailed() { status == Failed }
    predicate IsAborted() { status == Aborted }
    predicate IsTimeout() { status == Timeout }

    function Err(error: string): ExecutionResult {
      this.(status := Failed, errorMessage := error)
    }
  }

  /** A missing result answers every question with yes, as the status methods of Execution do for nil. */
  datatype Execution = Execution(id: string, result: Option<ExecutionResult>) {
    predicate IsFailed() { result.None? || result.value.IsFailed() }
    predicate IsRunning() { result.None? || result.value.IsRunning() }
    predicate IsQueued() { result.None? || result.value.IsQueued() }
    predicate IsTimeout() { result.None? || result.value.IsTimeout() }

    function Err(error: string): Execution {
      var r := if result.Some? then result.value else ExecutionResult(Failed, "", "");
      this.(result := Some(r.Err(error)))
    }

    function WithStatus(status: Status): Execution {
      if result.None? then this else this.(result := Some(result.value.(status := status)))
    }
  }

  /** Go's zero Execution, which a failed response carries. */
  const ZERO_EXECUTION := Execution("", None)

  datatype Step = Step(test: string, delay: string)

  datatype StepType = ExecuteTest | Delay | NoType

  function TypeOf(step: Step): StepType {
    if step.test != "" then ExecuteTest else if step.delay != "" then Delay else NoType
  }

  /** One entry of a batch: a step and the execution that stands for it. */
  datatype Entry = Entry(step: Option<Step>, execution: Option<Execution>) {
    predicate IsFailed() { execution.None? || execution.value.IsFailed() }

    predicate HasResult() { execution.Some? && execution.value.result.Some? }

    function WithStatus(status: Status): Entry {
      if HasResult() then this.(execution := Some(execution.value.WithStatus(status))) else this
    }

    /** Records an error, on a new failed execution with the given id when there is none. */
    function Err(error: string, newId: string): Entry {
      var e := if execution.Some? then execution.value
               else Execution(newId, Some(ExecutionResult(Failed, error, "")));
      this.(execution := Some(e.Err(error)))
    }
  }
}
