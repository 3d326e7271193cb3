/**
 * TryAcquire as it really interleaves: its find, insert and update are separate database operations, and each call of
 * leaseStatus reads the clock again. Several callers may be between any two of these operations.
 */
module LeaseSplitStep {
  import opened Collections
  import opened Lease

  /** Where one call of TryAcquire stands. */
  datatype Stage =
    | Called                    // about to find the document
    | Missing                   // found none, about to insert
    | Found(lease: Lease)       // about to judge the found or inserted lease
    | Renewing(acquiredAt: int) // about to update
    | Updated(lease: Lease)     // about to judge the updated lease

  /** A call, and whether the stored lease named its caller at some moment since the call began. */
  datatype Call = Call(stage: Stage, named: bool)

  /** A finished call. */
  datatype Return = Return(id: string, leased: bool, named: bool)

  datatype State = State(now: int, document: Option<Lease>, calls: map<string, Call>, ended: seq<Return>)

  datatype Step =
    | Tick(to: int)
    | Begin(id: string)
    | Find(id: string, fails: bool)
    | Insert(id: string, fault: Fault)
    | Judge(id: string)
    | Update(id: string, fault: Fault)
    | Conclude(id: string)

  predicate Enabled(s: State, step: Step) {
    match step
    case Tick(to) => s.now <= to
    case Begin(id) => id !in s.calls
    case Find(id, _) => id in s.calls && s.calls[id].stage.Called?
    case Insert(id, _) => id in s.calls && s.calls[id].stage.Missing?
    case Judge(id) => id in s.calls && s.calls[id].stage.Found?
    case Update(id, _) => id in s.calls && s.calls[id].stage.Renewing? && s.document.Some?
    case Conclude(id) => id in s.calls && s.calls[id].stage.Updated?
  }

  predicate NamedBy(document: Option<Lease>, id: string, clusterId: string) {
    document.Some? && Names(document.value, id, clusterId)
  }

  /** Moves a call to its next stage. */
  function Advance(s: State, id: string, stage: Stage): State
    requires id in s.calls
  {
    s.(calls := s.calls[id := s.calls[id].(stage := stage)])
  }

  function Finish(s: State, id: string, leased: bool): State
    requires id in s.calls
  {
    s.(calls := s.calls - {id}, ended := s.ended + [Return(id, leased, s.calls[id].named)])
  }

  function Move(s: State, step: Step, clusterId: string): State
    requires Enabled(s, step)
  {
    match step
    case Tick(to) => s.(now := to)
    case Begin(id) => s.(calls := s.calls[id := Call(Called, false)])
    case Find(id, fails) =>
      if fails then Finish(s, id, false)
      else Advance(s, id, if s.document.None? then Missing else Found(s.document.value))
    case Insert(id, fault) =>
      var lease := NewLease(id, clusterId, s.now);
      // the unique _id makes the insert fail when another caller was faster
      if s.document.Some? then Finish(s, id, false)
      else if fault.WriteFails? then Finish(s.(document := if fault.applied then Some(lease) else None), id, false)
      else Advance(s.(document := Some(lease)), id, Found(lease))
    case Judge(id) =>
      var lease := s.calls[id].stage.lease;
      var status := StatusOf(lease, id, clusterId, s.now);
      if status.acquired then Finish(s, id, true)
      else if !status.renewable then Finish(s, id, false)
      else Advance(s, id, Renewing(if lease.identifier != id then s.now else lease.acquiredAt))
    case Update(id, fault) =>
      var lease := Lease(id, clusterId, s.calls[id].stage.acquiredAt, s.now);
      if fault.WriteFails? then Finish(s.(document := if fault.applied then Some(lease) else s.document), id, false)
      else Advance(s.(document := Some(lease)), id, Updated(lease))
    case Conclude(id) =>
      Finish(s, id, StatusOf(s.calls[id].stage.lease, id, clusterId, s.now).acquired)
  }

  /** After every step, each open call notes whether the stored lease names its caller. */
  function Observe(s: State, clusterId: string): State {
    s.(calls := map id | id in s.calls ::
         s.calls[id].(named := s.calls[id].named || NamedBy(s.document, id, clusterId)))
  }

  function Apply(s: State, step: Step, clusterId: string): State
    requires Enabled(s, step)
  {
    Observe(Move(s, step, clusterId), clusterId)
  }

  function After(s: State, run: seq<Step>, clusterId: string): Option<State>
    decreases |run|
  {
    if run == [] then Some(s)
    else if Enabled(s, run[0]) then After(Apply(s, run[0], clusterId), run[1..], clusterId)
    else None
  }

  function Start(now: int): State { State(now, None, map[], []) }

  // ---------- one call on its own

  /** The operations of one call that nobody else comes between. */
  function AloneRun(s: State, id: string, clusterId: string, fault: Fault): seq<Step> {
    if fault.ReadFails? then [Begin(id), Find(id, true)]
    else if s.document.None? then
      [Begin(id), Find(id, false), Insert(id, fault)] + (if fault.WriteFails? then [] else [Judge(id)])
    else if !IsExpired(s.document.value, s.now) then [Begin(id), Find(id, false), Judge(id)]
    else
      [Begin(id), Find(id, false), Judge(id), Update(id, fault)] + (if fault.WriteFails? then [] else [Conclude(id)])
  }

  /** The state u is s after one call by id, that answered this and left that document. */
  ghost predicate Answered(s: State, u: State, id: string, a: Acquisition) {
    && u.now == s.now && u.document == a.document && u.calls.Keys == s.calls.Keys
    && |u.ended| == |s.ended| + 1 && u.ended[..|s.ended|] == s.ended
    && u.ended[|s.ended|].id == id && u.ended[|s.ended|].leased == a.leased
  }

  lemma AfterFirst(s: State, run: seq<Step>, clusterId: string)
    requires run != [] && Enabled(s, run[0])
    ensures After(s, run, clusterId) == After(Apply(s, run[0], clusterId), run[1..], clusterId)
  {
  }

  lemma AfterNone(s: State, clusterId: string)
    ensures After(s, [], clusterId) == Some(s)
  {
  }

  /** The call begins and finds what there is. */
  lemma Finds(s: State, id: string, clusterId: string, rest: seq<Step>) returns (u: State)
    requires id !in s.calls
    ensures After(s, [Begin(id), Find(id, false)] + rest, clusterId) == After(u, rest, clusterId)
    ensures u.now == s.now && u.document == s.document && u.ended == s.ended && u.calls.Keys == s.calls.Keys + {id}
    ensures u.calls[id].stage == (if s.document.None? then Missing else Found(s.document.value))
  {
    var run := [Begin(id), Find(id, false)] + rest;
    var begun := Apply(s, Begin(id), clusterId);
    u := Apply(begun, Find(id, false), clusterId);
    AfterFirst(s, run, clusterId);
    assert run[1..] == [Find(id, false)] + rest;
    AfterFirst(begun, run[1..], clusterId);
    assert run[1..][1..] == rest;
  }

  lemma AloneInserts(s: State, id: string, clusterId: string, fault: Fault) returns (u: State)
    requires id !in s.calls && s.document.None? && !fault.ReadFails?
    ensures After(s, AloneRun(s, id, clusterId, fault), clusterId) == Some(u)
    ensures Answered(s, u, id, Acquire(s.document, id, clusterId, s.now, fault))
  {
    var rest := [Insert(id, fault)] + (if fault.WriteFails? then [] else [Judge(id)]);
    assert AloneRun(s, id, clusterId, fault) == [Begin(id), Find(id, false)] + rest;
    var s1 := Finds(s, id, clusterId, rest);
    u := Apply(s1, Insert(id, fault), clusterId);
    AfterFirst(s1, rest, clusterId);
    if fault.WriteFails? {
      assert rest[1..] == [];
    } else {
      assert rest[1..] == [Judge(id)] && [Judge(id)][1..] == [];
      AfterFirst(u, [Judge(id)], clusterId);
      u := Apply(u, Judge(id), clusterId);
    }
    AfterNone(u, clusterId);
  }

  lemma AloneJudges(s: State, id: string, clusterId: string, fault: Fault) returns (u: State)
    requires id !in s.calls && s.document.Some? && !IsExpired(s.document.value, s.now) && !fault.ReadFails?
    ensures After(s, AloneRun(s, id, clusterId, fault), clusterId) == Some(u)
    ensures Answered(s, u, id, Acquire(s.document, id, clusterId, s.now, fault))
  {
    assert AloneRun(s, id, clusterId, fault) == [Begin(id), Find(id, false)] + [Judge(id)];
    var s1 := Finds(s, id, clusterId, [Judge(id)]);
    assert [Judge(id)][1..] == [];
    AfterFirst(s1, [Judge(id)], clusterId);
    u := Apply(s1, Judge(id), clusterId);
    AfterNone(u, clusterId);
  }

  lemma AloneRenews(s: State, id: string, clusterId: string, fault: Fault) returns (u: State)
    requires id !in s.calls && s.document.Some? && IsExpired(s.document.value, s.now) && !fault.ReadFails?
    ensures After(s, AloneRun(s, id, clusterId, fault), clusterId) == Some(u)
    ensures Answered(s, u, id, Acquire(s.document, id, clusterId, s.now, fault))
  {
    var rest := [Judge(id), Update(id, fault)] + (if fault.WriteFails? then [] else [Conclude(id)]);
    assert AloneRun(s, id, clusterId, fault) == [Begin(id), Find(id, false)] + rest;
    var s1 := Finds(s, id, clusterId, rest);
    var s2 := Apply(s1, Judge(id), clusterId);
    AfterFirst(s1, rest, clusterId);
    u := Apply(s2, Update(id, fault), clusterId);
    AfterFirst(s2, rest[1..], clusterId);
    if fault.WriteFails? {
      assert rest[1..][1..] == [];
    } else {
      assert rest[1..][1..] == [Conclude(id)] && [Conclude(id)][1..] == [];
      AfterFirst(u, [Conclude(id)], clusterId);
      u := Apply(u, Conclude(id), clusterId);
    }
    AfterNone(u, clusterId);
  }

  /** A call whose operations nobody comes between, all at one instant, is the atomic TryAcquire. */
  lemma AloneIsAtomic(s: State, id: string, clusterId: string, fault: Fault) returns (u: State)
    requires id !in s.calls
    ensures After(s, AloneRun(s, id, clusterId, fault), clusterId) == Some(u)
    ensures Answered(s, u, id, Acquire(s.document, id, clusterId, s.now, fault))
  {
    if fault.ReadFails? {
      var run := [Begin(id), Find(id, true)];
      var s1 := Apply(s, Begin(id), clusterId);
      AfterFirst(s, run, clusterId);
      assert run[1..] == [Find(id, true)] && [Find(id, true)][1..] == [];
      AfterFirst(s1, [Find(id, true)], clusterId);
      u := Apply(s1, Find(id, true), clusterId);
      AfterNone(u, clusterId);
    } else if s.document.None? {
      u := AloneInserts(s, id, clusterId, fault);
    } else if !IsExpired(s.document.value, s.now) {
      u := AloneJudges(s, id, clusterId, fault);
    } else {
      u := AloneRenews(s, id, clusterId, fault);
    }
  }

  // ---------- grants

  ghost predicate Inv(s: State, clusterId: string) {
    && (forall id | id in s.calls && NamedBy(s.document, id, clusterId) :: s.calls[id].named)
    && (forall id | id in s.calls && s.calls[id].stage.Found? && Names(s.calls[id].stage.lease, id, clusterId) ::
          s.calls[id].named)
    && (forall id | id in s.calls && s.calls[id].stage.Updated? :: s.calls[id].named)
    && (forall r | r in s.ended && r.leased :: r.named)
  }

  lemma StepKeepsInv(s: State, step: Step, clusterId: string)
    requires Inv(s, clusterId) && Enabled(s, step)
    ensures Inv(Apply(s, step, clusterId), clusterId)
  {
  }

  lemma {:induction false} RunKeepsInv(s: State, run: seq<Step>, clusterId: string, u: State)
    requires Inv(s, clusterId) && After(s, run, clusterId) == Some(u)
    ensures Inv(u, clusterId) && (s.document.Some? ==> u.document.Some?)
    decreases |run|
  {
    if run == [] {
    } else {
      StepKeepsInv(s, run[0], clusterId);
      RunKeepsInv(Apply(s, run[0], clusterId), run[1..], clusterId, u);
    }
  }

  /**
   * Whatever the interleaving, a caller is told true only if at some moment during its call the stored lease named it,
   * and the document, once inserted, stays.
   */
  lemma EveryGrantIsJustified(
      now: int, earlier: seq<Step>, later: seq<Step>, clusterId: string, s: State, u: State)
    requires After(Start(now), earlier, clusterId) == Some(s) && After(s, later, clusterId) == Some(u)
    ensures forall r | r in u.ended && r.leased :: r.named
    ensures s.document.Some? ==> u.document.Some?
  {
    RunKeepsInv(Start(now), earlier, clusterId, s);
    RunKeepsInv(s, later, clusterId, u);
  }

  /** The n-th caller. */
  function Caller(n: nat): string { seq(n, _ => 'x') }

  lemma CallersDiffer(m: nat, n: nat)
    requires m != n
    ensures Caller(m) != Caller(n)
  {
    assert |Caller(m)| == m && |Caller(n)| == n;
  }

  /**
   * Callers 0 to n-1 have all found the lease expired, and the first k of them have been told true since, at this
   * very instant; one earlier call had put the lease there.
   */
  ghost predicate Race(s: State, n: nat, k: nat) {
    && k <= n && s.document.Some?
    && (k == 0 ==> IsExpired(s.document.value, s.now))
    && (forall i: nat | k <= i < n :: Caller(i) in s.calls && s.calls[Caller(i)].stage.Renewing?)
    && (forall i: nat | i >= n :: Caller(i) !in s.calls)
    && |s.ended| == k + 1
    && (forall j: nat | 1 <= j <= k :: s.ended[j].id == Caller(j - 1) && s.ended[j].leased)
  }

  lemma {:induction false} AfterAppend(s: State, run: seq<Step>, more: seq<Step>, clusterId: string)
    requires After(s, run, clusterId).Some?
    ensures After(s, run + more, clusterId) == After(After(s, run, clusterId).value, more, clusterId)
    decreases |run|
  {
    if run == [] {
      assert run + more == more;
    } else {
      assert (run + more)[1..] == run[1..] + more;
      AfterAppend(Apply(s, run[0], clusterId), run[1..], more, clusterId);
    }
  }

  lemma TwoSteps(s: State, a: Step, b: Step, clusterId: string)
    requires Enabled(s, a) && Enabled(Apply(s, a, clusterId), b)
    ensures After(s, [a, b], clusterId) == Some(Apply(Apply(s, a, clusterId), b, clusterId))
  {
    assert [a, b][1..] == [b] && [b][1..] == [];
    assert After(Apply(s, a, clusterId), [b], clusterId) == Some(Apply(Apply(s, a, clusterId), b, clusterId));
  }

  lemma ThreeSteps(s: State, a: Step, b: Step, c: Step, clusterId: string)
    requires Enabled(s, a) && Enabled(Apply(s, a, clusterId), b)
    requires Enabled(Apply(Apply(s, a, clusterId), b, clusterId), c)
    ensures After(s, [a, b, c], clusterId) == Some(Apply(Apply(Apply(s, a, clusterId), b, clusterId), c, clusterId))
  {
    assert [a, b, c][1..] == [b, c];
    TwoSteps(Apply(s, a, clusterId), b, c, clusterId);
  }

  /** One more caller finds the expired lease and decides to renew it. */
  lemma OneMoreFinds(s: State, n: nat, clusterId: string) returns (run: seq<Step>, u: State)
    requires Race(s, n, 0)
    ensures After(s, run, clusterId) == Some(u) && Race(u, n + 1, 0) && u.now == s.now
  {
    var id := Caller(n);
    run := [Begin(id), Find(id, false), Judge(id)];
    var s1 := Apply(s, run[0], clusterId);
    var s2 := Apply(s1, run[1], clusterId);
    u := Apply(s2, run[2], clusterId);
    ThreeSteps(s, run[0], run[1], run[2], clusterId);
    forall i: nat | i != n ensures Caller(i) != id { CallersDiffer(i, n); }
  }

  /** The next of them updates the lease, over whoever updated it before, and is told true. */
  lemma NextWins(s: State, n: nat, k: nat, clusterId: string) returns (run: seq<Step>, u: State)
    requires Race(s, n, k) && k < n
    ensures After(s, run, clusterId) == Some(u) && Race(u, n, k + 1) && u.now == s.now
  {
    var id := Caller(k);
    run := [Update(id, Healthy), Conclude(id)];
    var s1 := Apply(s, run[0], clusterId);
    u := Apply(s1, run[1], clusterId);
    TwoSteps(s, run[0], run[1], clusterId);
    forall i: nat | i != k ensures Caller(i) != id { CallersDiffer(i, k); }
  }

  lemma {:induction false} AllFind(n: nat, clusterId: string) returns (run: seq<Step>, s: State)
    ensures After(Start(0), run, clusterId) == Some(s) && Race(s, n, 0) && s.now == MAX_LEASE_DURATION + 1
  {
    if n == 0 {
      var id := "first";
      var insert := [Begin(id), Find(id, false), Insert(id, WriteFails(true))];
      var s1 := Apply(Start(0), insert[0], clusterId);
      var s2 := Apply(s1, insert[1], clusterId);
      var s3 := Apply(s2, insert[2], clusterId);
      ThreeSteps(Start(0), insert[0], insert[1], insert[2], clusterId);
      s := Apply(s3, Tick(MAX_LEASE_DURATION + 1), clusterId);
      run := insert + [Tick(MAX_LEASE_DURATION + 1)];
      AfterAppend(Start(0), insert, [Tick(MAX_LEASE_DURATION + 1)], clusterId);
      assert [Tick(MAX_LEASE_DURATION + 1)][1..] == [];
      assert s.calls == map[];
    } else {
      var before, s0 := AllFind(n - 1, clusterId);
      var more;
      more, s := OneMoreFinds(s0, n - 1, clusterId);
      run := before + more;
      AfterAppend(Start(0), before, more, clusterId);
    }
  }

  lemma {:induction false} FirstWin(n: nat, k: nat, clusterId: string) returns (run: seq<Step>, s: State)
    requires k <= n
    ensures After(Start(0), run, clusterId) == Some(s) && Race(s, n, k) && s.now == MAX_LEASE_DURATION + 1
    decreases k
  {
    if k == 0 {
      run, s := AllFind(n, clusterId);
    } else {
      var before, s0 := FirstWin(n, k - 1, clusterId);
      var more;
      more, s := NextWins(s0, n, k - 1, clusterId);
      run := before + more;
      AfterAppend(Start(0), before, more, clusterId);
    }
  }

  /** Without atomicity the lease excludes nobody: any number of callers can be told true at one instant. */
  lemma SplitStepDoesNotExclude(n: nat, clusterId: string) returns (run: seq<Step>, s: State)
    ensures After(Start(0), run, clusterId) == Some(s)
    ensures |s.ended| == n + 1 && s.now == MAX_LEASE_DURATION + 1
    ensures forall j: nat | 1 <= j <= n :: s.ended[j] == Return(Caller(j - 1), true, true)
  {
    run, s := FirstWin(n, n, clusterId);
    RunKeepsInv(Start(0), run, clusterId, s);
    forall j: nat | 1 <= j <= n ensures s.ended[j].named { assert s.ended[j] in s.ended; }
  }
}
