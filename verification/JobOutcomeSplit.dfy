/**
 * The writers of one stored result as they really interleave: most read the execution, decide, and then update the
 * result, which is itself a find and an update. The scheduler and the container executor only update, and the
 * reconciler replaces what it read. An operation that fails is one that is never taken.
 */
module JobOutcomeSplit {
  import opened Collections
  import opened Executions
  import opened JobOutcome

  /** Where a writer stands. */
  datatype Stage =
    | Waiting                             // about to read the execution
    | Decided(result: ExecutionResult)    // about to find the error message stored so far
    | Composed(result: ExecutionResult)   // about to write
    | Ended

  function JudgedStop(
      stored: ExecutionResult, r: ExecutionResult, isNegativeTest: bool, passedErr: Option<string>, faults: Faults)
    : Stage
  {
    if IsSealed(stored) || faults.get || faults.end || faults.update then Ended
    else Decided(Stopped(r, isNegativeTest, passedErr))
  }

  /** Where a writer goes on once it has read this. */
  function Judged(stored: ExecutionResult, e: Event): Stage
    requires !e.StoredUnread?
  {
    match e
    case PodFinished(r, negative, err, faults) => JudgedStop(stored, r, negative, err, faults)
    case AbortCalled(deleteError, faults) => JudgedStop(stored, AbortResult(deleteError), false, None, faults)
    case TimeoutCalled(faults) => JudgedStop(stored, ExecutionResult(Timeout, "", ""), false, None, faults)
    case PodsChecked(pods, updateFails) =>
      var message := FailureOf(pods);
      if (stored.IsRunning() || stored.IsQueued()) && message != "" && !updateFails then
        var separator := if stored.errorMessage != "" then "\n" else "";
        Decided(stored.(status := Failed, errorMessage := stored.errorMessage + separator + message))
      else Ended
    case GivenUp(message, updateFails) =>
      if stored.IsRunning() && !updateFails then Composed(ExecutionResult(Failed, message, "")) else Ended
  }

  datatype Writer = Writer(event: Event, stage: Stage) {
    /** The writer does not read any more, and is going to write. */
    predicate InFlight() { stage.Decided? || stage.Composed? }
  }

  /** A writer that does not look first is in flight at once. */
  function Called(e: Event): Writer {
    Writer(e, if !e.StoredUnread? then Waiting else if e.updateFails then Ended else Decided(e.result))
  }

  datatype State = State(stored: ExecutionResult, writers: seq<Writer>)

  datatype Step = Call(event: Event) | Read(w: nat) | Find(w: nat) | Write(w: nat)

  predicate Enabled(s: State, step: Step) {
    match step
    case Call(_) => true
    case Read(w) => w < |s.writers| && s.writers[w].stage.Waiting? && !s.writers[w].event.StoredUnread?
    case Find(w) => w < |s.writers| && s.writers[w].stage.Decided?
    case Write(w) => w < |s.writers| && s.writers[w].stage.Composed?
  }

  /** Moves a writer to another stage. */
  function Advance(s: State, w: nat, stage: Stage): State
    requires w < |s.writers|
  {
    s.(writers := s.writers[w := s.writers[w].(stage := stage)])
  }

  function Apply(s: State, step: Step): State
    requires Enabled(s, step)
  {
    match step
    case Call(event) => s.(writers := s.writers + [Called(event)])
    case Read(w) => Advance(s, w, Judged(s.stored, s.writers[w].event))
    case Find(w) => Advance(s, w, Composed(Merged(s.stored, s.writers[w].stage.result)))
    case Write(w) => Advance(s, w, Ended).(stored := s.writers[w].stage.result)
  }

  function Reached(s: State, run: seq<Step>): Option<State>
    decreases |run|
  {
    if run == [] then Some(s)
    else if Enabled(s, run[0]) then Reached(Apply(s, run[0]), run[1..])
    else None
  }

  function Start(stored: ExecutionResult): State { State(stored, []) }

  lemma ReachedFirst(s: State, run: seq<Step>)
    requires run != [] && Enabled(s, run[0])
    ensures Reached(s, run) == Reached(Apply(s, run[0]), run[1..])
  {
  }

  // ---------- one writer on its own

  /** What is left to do from a stage on. */
  function RestOf(stage: Stage, w: nat): seq<Step> {
    match stage
    case Decided(_) => [Find(w), Write(w)]
    case Composed(_) => [Write(w)]
    case _ => []
  }

  lemma RestIsTaken(s: State, w: nat) returns (u: State)
    requires w < |s.writers| && !s.writers[w].stage.Waiting?
    ensures Reached(s, RestOf(s.writers[w].stage, w)) == Some(u)
    ensures u.writers == s.writers[w := s.writers[w].(stage := Ended)]
    ensures u.stored == match s.writers[w].stage
      case Decided(r) => Merged(s.stored, r)
      case Composed(r) => r
      case _ => s.stored
  {
    assert [Find(w), Write(w)][1..] == [Write(w)] && [Write(w)][1..] == [];
    if s.writers[w].stage.Decided? {
      var s1 := Apply(s, Find(w));
      ReachedFirst(s, [Find(w), Write(w)]);
      ReachedFirst(s1, [Write(w)]);
      u := Apply(s1, Write(w));
    } else if s.writers[w].stage.Composed? {
      ReachedFirst(s, [Write(w)]);
      u := Apply(s, Write(w));
    } else {
      u := s;
    }
    assert u.writers == s.writers[w := s.writers[w].(stage := Ended)];
  }

  /** A call whose operations nobody comes between is the atomic one. */
  lemma AloneIsAtomic(s: State, e: Event) returns (run: seq<Step>, u: State)
    ensures Reached(s, run) == Some(u) && u == State(After(s.stored, e), s.writers + [Writer(e, Ended)])
  {
    var w, s1 := |s.writers|, Apply(s, Call(e));
    if e.StoredUnread? {
      run := RestOf(s1.writers[w].stage, w);
      u := RestIsTaken(s1, w);
    } else {
      var s2 := Apply(s1, Read(w));
      var rest := RestOf(s2.writers[w].stage, w);
      assert !Judged(s.stored, e).Waiting?;
      u := RestIsTaken(s2, w);
      run := [Read(w)] + rest;
      assert run[1..] == rest;
      ReachedFirst(s1, run);
      assert u.writers == s1.writers[w := Writer(e, Ended)];
    }
    var all := [Call(e)] + run;
    assert all[1..] == run;
    ReachedFirst(s, all);
    run := all;
  }

  // ---------- when a sealed result is overwritten

  lemma {:induction false} InFlightHasReadFrom(s: State, run: seq<Step>, u: State, w: nat)
    requires Reached(s, run) == Some(u) && w < |u.writers| && u.writers[w].InFlight()
    ensures u.writers[w].event.StoredUnread? || Read(w) in run || (w < |s.writers| && s.writers[w].InFlight())
    ensures w < |s.writers| ==> u.writers[w].event == s.writers[w].event
    decreases |run|
  {
    if run == [] {
    } else {
      assert run == [run[0]] + run[1..];
      InFlightHasReadFrom(Apply(s, run[0]), run[1..], u, w);
    }
  }

  lemma {:induction false} EventsStay(s: State, run: seq<Step>, u: State, w: nat)
    requires Reached(s, run) == Some(u) && w < |s.writers|
    ensures w < |u.writers| && u.writers[w].event == s.writers[w].event
    decreases |run|
  {
    if run == [] {
    } else {
      EventsStay(Apply(s, run[0]), run[1..], u, w);
    }
  }

  /** Who reads an abort or timeout gives up, so only those who do not look first get in flight. */
  lemma OnlyUnreadGetInFlight(s: State, step: Step)
    requires IsSealed(s.stored) && Enabled(s, step) && !step.Write?
    ensures var next := Apply(s, step);
      && next.stored == s.stored
      && forall w | 0 <= w < |next.writers| && next.writers[w].InFlight() ::
           next.writers[w].event.StoredUnread? || (w < |s.writers| && s.writers[w].InFlight())
  {
  }

  /** So whoever writes first was in flight already, or does not look first. */
  lemma {:induction false} FirstWriter(s: State, run: seq<Step>, u: State) returns (w: nat)
    requires IsSealed(s.stored) && Reached(s, run) == Some(u) && exists w: nat :: Write(w) in run
    ensures Write(w) in run && w < |u.writers|
    ensures u.writers[w].event.StoredUnread? || (w < |s.writers| && s.writers[w].InFlight())
    decreases |run|
  {
    if run[0].Write? {
      assert run[0] in run;
      EventsStay(s, run, u, run[0].w);
      return run[0].w;
    }
    assert forall w: nat | Write(w) in run :: Write(w) in run[1..];
    var next := Apply(s, run[0]);
    OnlyUnreadGetInFlight(s, run[0]);
    w := FirstWriter(next, run[1..], u);
    if w < |next.writers| {
      EventsStay(next, run[1..], u, w);
    }
  }

  lemma {:induction false} NoWriteNoChange(s: State, run: seq<Step>, u: State)
    requires Reached(s, run) == Some(u) && forall w: nat :: Write(w) !in run
    ensures u.stored == s.stored
    decreases |run|
  {
    if run == [] {
    } else {
      assert run == [run[0]] + run[1..];
      assert run[0] in run;
      NoWriteNoChange(Apply(s, run[0]), run[1..], u);
    }
  }

  /** The writer did not have to see the abort or timeout: it does not look first, or looked before that. */
  ghost predicate MissedTheSeal(u: State, earlier: seq<Step>, w: nat) {
    w < |u.writers| && (u.writers[w].event.StoredUnread? || Read(w) in earlier)
  }

  /**
   * An aborted or timed-out result is overwritten exactly when a writer writes after that moment that read the
   * execution before it or does not read at all; otherwise it stays as it is.
   */
  lemma OverwrittenIff(stored: ExecutionResult, earlier: seq<Step>, later: seq<Step>, s: State, u: State)
    requires Reached(Start(stored), earlier) == Some(s) && IsSealed(s.stored) && Reached(s, later) == Some(u)
    ensures (exists w: nat :: Write(w) in later) <==> exists w: nat :: MissedTheSeal(u, earlier, w) && Write(w) in later
    ensures (forall w: nat | MissedTheSeal(u, earlier, w) :: Write(w) !in later) ==> u.stored == s.stored
  {
    if exists w: nat :: Write(w) in later {
      var w := FirstWriter(s, later, u);
      if w < |s.writers| && s.writers[w].InFlight() {
        InFlightHasReadFrom(Start(stored), earlier, s, w);
        EventsStay(s, later, u, w);
      }
      assert MissedTheSeal(u, earlier, w);
    } else {
      NoWriteNoChange(s, later, u);
    }
  }

  // ---------- when it can stop being sealed

  ghost predicate OnlySealedInFlight(s: State) {
    forall w | 0 <= w < |s.writers| && s.writers[w].InFlight() :: IsSealed(s.writers[w].stage.result)
  }

  /** No call in the run stores anything but an abort or timeout without looking first. */
  ghost predicate OnlySealedUnread(run: seq<Step>) {
    forall step | step in run && step.Call? && StoresUnread(step.event) :: IsSealed(step.event.result)
  }

  lemma {:induction false} StaysSealed(s: State, run: seq<Step>, u: State)
    requires IsSealed(s.stored) && OnlySealedInFlight(s) && OnlySealedUnread(run) && Reached(s, run) == Some(u)
    ensures IsSealed(u.stored)
    decreases |run|
  {
    if run == [] {
    } else {
      var next := Apply(s, run[0]);
      assert run[0] in run && forall step | step in run[1..] :: step in run;
      forall w | 0 <= w < |next.writers| && next.writers[w].InFlight() ensures IsSealed(next.writers[w].stage.result) {
        assert w < |s.writers| && s.writers[w].InFlight() ==> IsSealed(s.writers[w].stage.result);
      }
      StaysSealed(next, run[1..], u);
    }
  }

  /** A writer in flight can go on to write its result. */
  lemma InFlightCanWrite(s: State, w: nat) returns (run: seq<Step>, u: State)
    requires w < |s.writers| && s.writers[w].InFlight()
    ensures Reached(s, run) == Some(u) && u.stored.status == s.writers[w].stage.result.status
    ensures forall step | step in run :: !step.Call?
  {
    run := RestOf(s.writers[w].stage, w);
    u := RestIsTaken(s, w);
  }

  /**
   * Without a further call that stores another outcome unread, an aborted or timed-out execution can still turn into
   * another one exactly while a writer with another outcome is in flight.
   */
  lemma CanBeUnsealedIff(s: State)
    requires IsSealed(s.stored)
    ensures (exists run, u :: OnlySealedUnread(run) && Reached(s, run) == Some(u) && !IsSealed(u.stored))
      <==> !OnlySealedInFlight(s)
  {
    if OnlySealedInFlight(s) {
      forall run, u | OnlySealedUnread(run) && Reached(s, run) == Some(u) ensures IsSealed(u.stored) {
        StaysSealed(s, run, u);
      }
    } else {
      var w :| 0 <= w < |s.writers| && s.writers[w].InFlight() && !IsSealed(s.writers[w].stage.result);
      var run, u := InFlightCanWrite(s, w);
      assert OnlySealedUnread(run) && Reached(s, run) == Some(u) && !IsSealed(u.stored);
    }
  }

  /** With such a call it always can. */
  lemma UnreadAlwaysUnseals(s: State, r: ExecutionResult) returns (run: seq<Step>, u: State)
    requires !IsSealed(r)
    ensures Reached(s, run) == Some(u) && u.stored == Merged(s.stored, r) && !IsSealed(u.stored)
  {
    run, u := AloneIsAtomic(s, StoredUnread(r, false));
  }

  /** A pod's result that was read before an abort is stored after it: the execution was aborted, and ends as passed. */
  lemma PodOverwritesAbort() returns (earlier: seq<Step>, later: seq<Step>, s: State, u: State)
    ensures Reached(Start(ExecutionResult(Running, "", "")), earlier) == Some(s) && s.stored.IsAborted()
    ensures Reached(s, later) == Some(u) && u.stored.IsPassed()
    ensures Read(0) in earlier && forall w | 0 <= w < |s.writers| :: !s.writers[w].event.StoredUnread?
  {
    var start := Start(ExecutionResult(Running, "", ""));
    var pod := PodFinished(ExecutionResult(Passed, "", ""), false, None, HEALTHY);
    var s1 := Apply(start, Call(pod));
    var s2 := Apply(s1, Read(0));
    var abort;
    abort, s := AloneIsAtomic(s2, AbortCalled(None, HEALTHY));
    earlier := [Call(pod), Read(0)] + abort;
    assert earlier[1..] == [Read(0)] + abort && earlier[1..][1..] == abort;
    ReachedFirst(start, earlier);
    ReachedFirst(s1, earlier[1..]);
    assert s.writers[0].InFlight();
    later, u := InFlightCanWrite(s, 0);
  }
}
