/**
 * The election between API-server instances: each polls the lease with an atomic TryAcquire, and its watcher starts
 * or stops the informers once the verdict reaches it over the unbuffered lease channel
 * (pkg/triggers/lease.go, watcher.go:runWatcher).
 */
module LeaseElection {
  import opened Collections
  import opened Lease

  /** A verdict of TryAcquire and when it was given. */
  datatype Verdict = Verdict(leased: bool, at: int)

  /** The last verdict its watcher acted on, and the one still on the lease channel. */
  datatype Instance = Instance(acted: Verdict, sent: Option<Verdict>) {
    predicate Running() { acted.leased }

    /** The instance runs, or will run, on a true verdict given at time t. */
    predicate Claims(t: int) { acted == Verdict(true, t) || sent == Some(Verdict(true, t)) }
  }

  /** The stored lease was inserted, or its holder became another one. */
  datatype Change = Change(at: int, from: Option<string>, to: string)

  /** The changes of holder are a record of the run, which nothing in it depends on. */
  datatype Cluster = Cluster(
    now: int, document: Option<Lease>, instances: map<string, Instance>, changes: seq<Change>)

  datatype Step =
    | Tick(to: int)                 // time passes
    | Join(id: string)              // an instance starts
    | Crash(id: string)             // an instance is gone, informers included
    | Poll(id: string, fault: Fault) // the lease checker calls TryAcquire
    | Deliver(id: string)           // the watcher receives the verdict

  /** Time may not run past the moment a live instance has acted on a newer verdict: at most d after the older one. */
  ghost predicate ChecksWithin(s: Cluster, d: int, to: int) {
    forall id, t | id in s.instances && s.instances[id].Claims(t) :: to <= t + d
  }

  ghost predicate Enabled(s: Cluster, step: Step, d: int) {
    match step
    case Tick(to) => s.now <= to && ChecksWithin(s, d, to)
    case Join(id) => id !in s.instances
    case Crash(id) => id in s.instances
    case Poll(id, _) => id in s.instances && s.instances[id].sent.None?
    case Deliver(id) => id in s.instances && s.instances[id].sent.Some?
  }

  /** What a step adds to the record. */
  function Noted(before: Option<Lease>, after: Option<Lease>, at: int): seq<Change> {
    if after.None? then []
    else if before.None? then [Change(at, None, after.value.identifier)]
    else if before.value.identifier == after.value.identifier then []
    else [Change(at, Some(before.value.identifier), after.value.identifier)]
  }

  ghost function Apply(s: Cluster, step: Step, d: int, clusterId: string): Cluster
    requires Enabled(s, step, d)
  {
    match step
    case Tick(to) => s.(now := to)
    case Join(id) => s.(instances := s.instances[id := Instance(Verdict(false, s.now), None)])
    case Crash(id) => s.(instances := s.instances - {id})
    case Poll(id, fault) =>
      var a := Acquire(s.document, id, clusterId, s.now, fault);
      var verdict := Verdict(a.leased, s.now);
      s.(document := a.document, instances := s.instances[id := s.instances[id].(sent := Some(verdict))],
         changes := s.changes + Noted(s.document, a.document, s.now))
    case Deliver(id) =>
      s.(instances := s.instances[id := Instance(s.instances[id].sent.value, None)])
  }

  ghost function After(s: Cluster, run: seq<Step>, d: int, clusterId: string): Option<Cluster>
    decreases |run|
  {
    if run == [] then Some(s)
    else if Enabled(s, run[0], d) then After(Apply(s, run[0], d, clusterId), run[1..], d, clusterId)
    else None
  }

  function Start(now: int): Cluster { Cluster(now, None, map[], []) }

  ghost predicate Reachable(s: Cluster, d: int, clusterId: string) {
    exists now, run :: After(Start(now), run, d, clusterId) == Some(s)
  }

  function Running(s: Cluster): set<string> {
    set id | id in s.instances && s.instances[id].Running()
  }

  // ---------- what AcquiredAt means

  /** The record is a chain of holders, each taking over more than a lease duration after the one before. */
  ghost predicate Chained(changes: seq<Change>) {
    forall i | 0 <= i < |changes| ::
      if i == 0 then changes[i].from == None
      else
        && changes[i].from == Some(changes[i - 1].to) && changes[i].to != changes[i - 1].to
        && changes[i].at > changes[i - 1].at + MAX_LEASE_DURATION
  }

  /** AcquiredAt is the time of the last change of holder, and the lease names who it went to. */
  ghost predicate DocumentInv(s: Cluster) {
    && (s.document.None? <==> s.changes == [])
    && Chained(s.changes)
    && (s.document.Some? ==>
          var lease, last := s.document.value, s.changes[|s.changes| - 1];
          && lease.acquiredAt <= lease.renewedAt <= s.now
          && lease.identifier == last.to && lease.acquiredAt == last.at)
  }

  lemma StepKeepsDocument(s: Cluster, step: Step, d: int, clusterId: string)
    requires DocumentInv(s) && Enabled(s, step, d)
    ensures DocumentInv(Apply(s, step, d, clusterId))
  {
  }

  lemma {:induction false} RunKeepsDocument(s: Cluster, run: seq<Step>, d: int, clusterId: string, u: Cluster)
    requires DocumentInv(s) && After(s, run, d, clusterId) == Some(u)
    ensures DocumentInv(u)
    decreases |run|
  {
    if run == [] {
    } else {
      StepKeepsDocument(s, run[0], d, clusterId);
      RunKeepsDocument(Apply(s, run[0], d, clusterId), run[1..], d, clusterId, u);
    }
  }

  // ---------- at most two at a time

  /** One claim, against the stored lease: the holder's may be fresh, any other is the previous holder's and older. */
  ghost predicate ClaimInv(s: Cluster, d: int, id: string, t: int)
    requires s.document.Some? && s.changes != []
  {
    var lease, last := s.document.value, s.changes[|s.changes| - 1];
    && t <= s.now <= t + d
    && (lease.identifier == id ==> t <= lease.renewedAt + MAX_LEASE_DURATION)
    && (lease.identifier != id ==> last.from == Some(id) && t < last.at)
  }

  ghost predicate Inv(s: Cluster, d: int, clusterId: string) {
    && DocumentInv(s)
    && (s.document.Some? ==> s.document.value.clusterId == clusterId)
    && (forall id, t | id in s.instances && s.instances[id].Claims(t) :: s.document.Some? && ClaimInv(s, d, id, t))
  }

  /** When an expired lease changes hands, the claims of anyone but its old and new holder have run out. */
  lemma PollKeepsInv(s: Cluster, id: string, fault: Fault, d: int, clusterId: string)
    requires 0 <= d <= MAX_LEASE_DURATION + 1 && Inv(s, d, clusterId) && Enabled(s, Poll(id, fault), d)
    ensures Inv(Apply(s, Poll(id, fault), d, clusterId), d, clusterId)
  {
    var u := Apply(s, Poll(id, fault), d, clusterId);
    StepKeepsDocument(s, Poll(id, fault), d, clusterId);
    forall jd, t | jd in u.instances && u.instances[jd].Claims(t) ensures u.document.Some? && ClaimInv(u, d, jd, t) {
      if s.instances[jd].Claims(t) {
        assert ClaimInv(s, d, jd, t);
      }
    }
  }

  lemma StepKeepsInv(s: Cluster, step: Step, d: int, clusterId: string)
    requires 0 <= d <= MAX_LEASE_DURATION + 1 && Inv(s, d, clusterId) && Enabled(s, step, d)
    ensures Inv(Apply(s, step, d, clusterId), d, clusterId)
  {
    if step.Poll? {
      PollKeepsInv(s, step.id, step.fault, d, clusterId);
    } else {
      var u := Apply(s, step, d, clusterId);
      StepKeepsDocument(s, step, d, clusterId);
      forall jd, t | jd in u.instances && u.instances[jd].Claims(t) ensures u.document.Some? && ClaimInv(u, d, jd, t) {
        assert s.instances[jd].Claims(t);
        assert ClaimInv(s, d, jd, t);
      }
    }
  }

  lemma {:induction false} RunKeepsInv(s: Cluster, run: seq<Step>, d: int, clusterId: string, u: Cluster)
    requires 0 <= d <= MAX_LEASE_DURATION + 1 && Inv(s, d, clusterId) && After(s, run, d, clusterId) == Some(u)
    ensures Inv(u, d, clusterId)
    decreases |run|
  {
    if run == [] {
    } else {
      StepKeepsInv(s, run[0], d, clusterId);
      RunKeepsInv(Apply(s, run[0], d, clusterId), run[1..], d, clusterId, u);
    }
  }

  /**
   * At most two instances run informers at any time. While two do, they are the present and the previous holder, and
   * the lease went from the one to the other less than d ago.
   */
  lemma BoundedOverlap(s: Cluster, d: int, clusterId: string)
    requires 0 <= d <= MAX_LEASE_DURATION + 1 && Reachable(s, d, clusterId)
    ensures |Running(s)| <= 2
    ensures |Running(s)| == 2 ==>
      && s.changes != []
      && var last := s.changes[|s.changes| - 1];
         && last.from.Some? && Running(s) == {last.from.value, last.to}
         && last.at <= s.now < last.at + d
  {
    var now, run :| After(Start(now), run, d, clusterId) == Some(s);
    RunKeepsInv(Start(now), run, d, clusterId, s);
    forall id | id in Running(s) ensures s.document.Some? && ClaimInv(s, d, id, s.instances[id].acted.at) {
      assert s.instances[id].Claims(s.instances[id].acted.at);
    }
    if Running(s) != {} {
      var some :| some in Running(s);
      var holder := s.document.value.identifier;
      if other :| other in Running(s) && other != holder {
        assert Running(s) <= {holder, other};
        SubsetIsSmaller(Running(s), {holder, other});
        if holder !in Running(s) {
          assert Running(s) == {other};
        }
      } else {
        assert Running(s) <= {holder};
        SubsetIsSmaller(Running(s), {holder});
      }
    }
  }

  // ---------- the bounds are exact

  lemma {:induction false} AfterAppend(s: Cluster, run: seq<Step>, d: int, clusterId: string, u: Cluster, step: Step)
    requires After(s, run, d, clusterId) == Some(u) && Enabled(u, step, d)
    ensures After(s, run + [step], d, clusterId) == Some(Apply(u, step, d, clusterId))
    decreases |run|
  {
    if run == [] {
      assert [step][1..] == [];
    } else {
      assert (run + [step])[1..] == run[1..] + [step];
      AfterAppend(Apply(s, run[0], d, clusterId), run[1..], d, clusterId, u, step);
    }
  }

  lemma Go(s: Cluster, step: Step, d: int, clusterId: string) returns (u: Cluster)
    requires Reachable(s, d, clusterId) && Enabled(s, step, d)
    ensures u == Apply(s, step, d, clusterId) && Reachable(u, d, clusterId)
  {
    u := Apply(s, step, d, clusterId);
    var now, run :| After(Start(now), run, d, clusterId) == Some(s);
    AfterAppend(Start(now), run, d, clusterId, s, step);
  }

  /** a has written the lease, but the reply was lost, and its last instant has come. */
  lemma AgingLease(d: int, clusterId: string) returns (s: Cluster)
    requires d >= 1
    ensures Reachable(s, d, clusterId)
    ensures s.now == MAX_LEASE_DURATION && s.document == Some(Lease("a", clusterId, 0, 0))
    ensures s.instances == map["a" := Instance(Verdict(false, 0), None), "b" := Instance(Verdict(false, 0), None)]
  {
    s := Start(0);
    assert After(s, [], d, clusterId) == Some(s);
    s := Go(s, Join("a"), d, clusterId);
    s := Go(s, Join("b"), d, clusterId);
    s := Go(s, Poll("a", WriteFails(true)), d, clusterId);
    s := Go(s, Deliver("a"), d, clusterId);
    s := Go(s, Tick(MAX_LEASE_DURATION), d, clusterId);
  }

  /** a is told true in the last instant of its lease, and b takes the lease over one nanosecond later. */
  lemma LateCheckOverlaps(d: int, clusterId: string) returns (s: Cluster)
    requires d >= 1
    ensures Reachable(s, d, clusterId)
    ensures s.now == MAX_LEASE_DURATION + 1
    ensures s.document == Some(Lease("b", clusterId, s.now, s.now))
    ensures s.instances ==
      map["a" := Instance(Verdict(true, s.now - 1), None), "b" := Instance(Verdict(true, s.now), None)]
  {
    s := AgingLease(d, clusterId);
    s := Go(s, Poll("a", Healthy), d, clusterId);
    s := Go(s, Deliver("a"), d, clusterId);
    s := Go(s, Tick(MAX_LEASE_DURATION + 1), d, clusterId);
    s := Go(s, Poll("b", Healthy), d, clusterId);
    s := Go(s, Deliver("b"), d, clusterId);
  }

  /** With checks further apart than that, a is still running when c takes the lease from b. */
  lemma SlowChecksOverlapThrice(d: int, clusterId: string) returns (s: Cluster)
    requires d >= MAX_LEASE_DURATION + 2
    ensures Reachable(s, d, clusterId) && Running(s) == {"a", "b", "c"}
  {
    s := LateCheckOverlaps(d, clusterId);
    s := Go(s, Join("c"), d, clusterId);
    s := Go(s, Tick(2 * MAX_LEASE_DURATION + 2), d, clusterId);
    s := Go(s, Poll("c", Healthy), d, clusterId);
    s := Go(s, Deliver("c"), d, clusterId);
  }

  /** At most two at a time, exactly when checks are at most one lease duration (and a nanosecond) apart. */
  lemma AtMostTwoIff(d: int, clusterId: string)
    requires d >= 0
    ensures (forall s | Reachable(s, d, clusterId) :: |Running(s)| <= 2) <==> d <= MAX_LEASE_DURATION + 1
  {
    if d <= MAX_LEASE_DURATION + 1 {
      forall s | Reachable(s, d, clusterId) ensures |Running(s)| <= 2 {
        BoundedOverlap(s, d, clusterId);
      }
    } else {
      var s := SlowChecksOverlapThrice(d, clusterId);
      assert |{"a", "b", "c"}| == 3;
    }
  }

  /** The lease never gives exclusion: any delay at all between checks lets two run. */
  lemma AtMostOneIff(d: int, clusterId: string)
    requires d >= 0
    ensures (forall s | Reachable(s, d, clusterId) :: |Running(s)| <= 1) <==> d == 0
  {
    if d == 0 {
      forall s | Reachable(s, d, clusterId) ensures |Running(s)| <= 1 {
        BoundedOverlap(s, d, clusterId);
      }
    } else {
      var s := LateCheckOverlaps(d, clusterId);
      assert Running(s) == {"a", "b"};
    }
  }

  // ---------- history of the stored lease

  /** How a later stored lease differs from an earlier one, with and without a change of holder in between. */
  ghost predicate Succeeds(before: Lease, after: Lease, changed: bool) {
    && before.renewedAt <= after.renewedAt
    && if changed then after.acquiredAt > before.renewedAt + MAX_LEASE_DURATION
       else after.identifier == before.identifier && after.acquiredAt == before.acquiredAt
  }

  lemma StepSucceeds(s: Cluster, step: Step, d: int, clusterId: string)
    requires DocumentInv(s) && s.document.Some? && Enabled(s, step, d)
    ensures var u := Apply(s, step, d, clusterId);
      s.changes <= u.changes && u.document.Some? && Succeeds(s.document.value, u.document.value, u.changes != s.changes)
  {
  }

  lemma {:induction false} LeaseHistory(s: Cluster, run: seq<Step>, d: int, clusterId: string, u: Cluster)
    requires DocumentInv(s) && s.document.Some? && After(s, run, d, clusterId) == Some(u)
    ensures DocumentInv(u) && u.document.Some? && s.changes <= u.changes
    ensures Succeeds(s.document.value, u.document.value, u.changes != s.changes)
    decreases |run|
  {
    if run == [] {
    } else {
      StepKeepsDocument(s, run[0], d, clusterId);
      StepSucceeds(s, run[0], d, clusterId);
      LeaseHistory(Apply(s, run[0], d, clusterId), run[1..], d, clusterId, u);
    }
  }

  /** Every state of the run names this holder. */
  ghost predicate HolderStays(s: Cluster, run: seq<Step>, d: int, clusterId: string, id: string)
    decreases |run|
  {
    && s.document.Some? && s.document.value.identifier == id
    && (run != [] ==>
          Enabled(s, run[0], d) && HolderStays(Apply(s, run[0], d, clusterId), run[1..], d, clusterId, id))
  }

  /** However often a holder renews its lease, AcquiredAt stays. */
  lemma {:induction false} AcquiredAtStays(
      s: Cluster, run: seq<Step>, d: int, clusterId: string, u: Cluster, id: string)
    requires DocumentInv(s) && After(s, run, d, clusterId) == Some(u) && HolderStays(s, run, d, clusterId, id)
    ensures u.document.Some? && u.document.value.acquiredAt == s.document.value.acquiredAt
    ensures u.changes == s.changes
    decreases |run|
  {
    if run == [] {
    } else {
      StepKeepsDocument(s, run[0], d, clusterId);
      StepSucceeds(s, run[0], d, clusterId);
      AcquiredAtStays(Apply(s, run[0], d, clusterId), run[1..], d, clusterId, u, id);
    }
  }

  /** The first change of holder comes more than a lease duration after any earlier renewal. */
  lemma {:induction false} FirstChangeAfterExpiry(
      s: Cluster, run: seq<Step>, d: int, clusterId: string, u: Cluster)
    requires DocumentInv(s) && s.document.Some? && After(s, run, d, clusterId) == Some(u) && u.changes != s.changes
    ensures |s.changes| < |u.changes|
    ensures u.changes[|s.changes|].at > s.document.value.renewedAt + MAX_LEASE_DURATION
    decreases |run|
  {
    var next := Apply(s, run[0], d, clusterId);
    StepKeepsDocument(s, run[0], d, clusterId);
    StepSucceeds(s, run[0], d, clusterId);
    LeaseHistory(next, run[1..], d, clusterId, u);
    if next.changes == s.changes {
      FirstChangeAfterExpiry(next, run[1..], d, clusterId, u);
    }
  }

  /**
   * AcquiredAt is when the lease last changed hands. It changes hands only more than a lease duration after it was
   * last renewed, so any two changes are more than that apart; in between, AcquiredAt does not move.
   */
  lemma HoldersChangeOnlyAfterExpiry(
      now: int, earlier: seq<Step>, later: seq<Step>, d: int, clusterId: string, s: Cluster, u: Cluster)
    requires After(Start(now), earlier, d, clusterId) == Some(s) && After(s, later, d, clusterId) == Some(u)
    requires s.document.Some?
    ensures u.document.Some? && u.document.value.acquiredAt <= u.document.value.renewedAt <= u.now
    ensures u.changes != [] && u.document.value.acquiredAt == u.changes[|u.changes| - 1].at
    ensures Chained(u.changes) && s.changes <= u.changes
    ensures if u.changes == s.changes
      then u.document.value.identifier == s.document.value.identifier
        && u.document.value.acquiredAt == s.document.value.acquiredAt
      else u.changes[|s.changes|].at > s.document.value.renewedAt + MAX_LEASE_DURATION
  {
    RunKeepsDocument(Start(now), earlier, d, clusterId, s);
    LeaseHistory(s, later, d, clusterId, u);
    if u.changes != s.changes {
      FirstChangeAfterExpiry(s, later, d, clusterId, u);
    }
  }

  // ---------- who gets the lease

  lemma {:induction false} RunKeepsCluster(s: Cluster, run: seq<Step>, d: int, clusterId: string, u: Cluster)
    requires s.document.Some? ==> s.document.value.clusterId == clusterId
    requires After(s, run, d, clusterId) == Some(u)
    ensures u.document.Some? ==> u.document.value.clusterId == clusterId
    decreases |run|
  {
    if run == [] {
    } else {
      RunKeepsCluster(Apply(s, run[0], d, clusterId), run[1..], d, clusterId, u);
    }
  }

  /** Nobody but this instance polls, and nothing goes wrong when it does. */
  ghost predicate PollsAlone(run: seq<Step>, id: string) {
    forall step | step in run && step.Poll? :: step == Poll(id, Healthy)
  }

  /** Each poll of the run is answered with true exactly if it comes after this time. */
  ghost predicate GrantedAfter(
      s: Cluster, run: seq<Step>, d: int, clusterId: string, id: string, expiry: Option<int>)
    decreases |run|
  {
    run == [] || (
      && Enabled(s, run[0], d)
      && var next := Apply(s, run[0], d, clusterId);
         && (run[0].Poll? ==>
               && id in next.instances
               && next.instances[id].sent == Some(Verdict(expiry.None? || s.now > expiry.value, s.now)))
         && GrantedAfter(next, run[1..], d, clusterId, id, expiry))
  }

  lemma {:induction false} LonePolls(
      s: Cluster, run: seq<Step>, d: int, clusterId: string, u: Cluster, id: string, expiry: Option<int>)
    requires After(s, run, d, clusterId) == Some(u) && PollsAlone(run, id)
    requires s.document.Some? ==> s.document.value.clusterId == clusterId
    requires
      if s.document.None? then expiry.None?
      else if s.document.value.identifier == id then expiry.None? || s.now > expiry.value
      else expiry == Some(s.document.value.renewedAt + MAX_LEASE_DURATION)
    ensures GrantedAfter(s, run, d, clusterId, id, expiry)
    decreases |run|
  {
    if run == [] {
    } else {
      assert run[0] in run && forall step | step in run[1..] :: step in run;
      LonePolls(Apply(s, run[0], d, clusterId), run[1..], d, clusterId, u, id, expiry);
    }
  }

  /**
   * An instance that polls alone is told true by every single poll, however often its own lease runs out in between.
   * If another one holds the lease at first, exactly the polls before that lease has expired are answered with false.
   */
  lemma LoneInstanceLeads(
      now: int, earlier: seq<Step>, later: seq<Step>, d: int, clusterId: string, s: Cluster, u: Cluster, id: string)
    requires After(Start(now), earlier, d, clusterId) == Some(s) && After(s, later, d, clusterId) == Some(u)
    requires PollsAlone(later, id)
    ensures GrantedAfter(s, later, d, clusterId, id,
      if s.document.None? || s.document.value.identifier == id then None
      else Some(s.document.value.renewedAt + MAX_LEASE_DURATION))
  {
    RunKeepsCluster(Start(now), earlier, d, clusterId, s);
    LonePolls(s, later, d, clusterId, u, id,
      if s.document.None? || s.document.value.identifier == id then None
      else Some(s.document.value.renewedAt + MAX_LEASE_DURATION));
  }
}
