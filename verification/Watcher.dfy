/** The watcher's reaction to lease verdicts: runWatcher of pkg/triggers/watcher.go, until its context ends. */
module Watcher {
  import opened Collections

  /** Making the informers of a generation and its stop channel, or closing that channel. */
  datatype Event = Started(generation: nat) | Stopped(generation: nat)

  /** Start 0, stop 0, start 1, stop 1, ...: no channel is closed twice, and each before the next is made. */
  function Alternation(n: nat): (events: seq<Event>)
    ensures |events| == n
  {
    seq(n, i requires 0 <= i < n => if i % 2 == 0 then Started(i / 2) else Stopped(i / 2))
  }

  function Last(verdicts: seq<bool>): bool {
    if verdicts == [] then false else verdicts[|verdicts| - 1]
  }

  /** How often the verdicts change, counting from not running. */
  function Changes(verdicts: seq<bool>): nat {
    if verdicts == [] then 0
    else
      var n := |verdicts| - 1;
      Changes(verdicts[..n]) + (if verdicts[n] != Last(verdicts[..n]) then 1 else 0)
  }

  predicate IsStart(e: Event) { e.Started? }

  predicate IsStop(e: Event) { e.Stopped? }

  class Watcher {
    var running: bool
    var stopChan: Option<nat>   // the channel of the latest generation
    var informers: Option<nat>  // the generation whose informers are set
    var made: nat               // how many channels were made
    var events: seq<Event>      // what happened to them

    ghost predicate Valid()
      reads this
    {
      && events == Alternation(|events|)
      && made == (|events| + 1) / 2
      && (running <==> |events| % 2 == 1)
      && stopChan == (if made == 0 then None else Some(made - 1))
      && informers == (if running then stopChan else None)
    }

    constructor ()
      ensures Valid() && !running && events == []
    {
      running, stopChan, informers, made, events := false, None, None, 0, [];
    }

    /** One verdict from the lease channel. */
    method Receive(leased: bool)
      requires Valid()
      modifies this
      ensures Valid() && running == leased
      ensures |events| == |old(events)| + (if leased != old(running) then 1 else 0)
    {
      if !leased {
        if running {
          events := events + [Stopped(stopChan.value)];
          informers := None;
          running := false;
        }
      } else {
        if !running {
          informers := Some(made);
          stopChan := Some(made);
          events := events + [Started(made)];
          made := made + 1;
          running := true;
        }
      }
    }
  }

  /**
   * For every sequence of verdicts the watcher runs exactly when the last one was true; it has started and stopped
   * once per change, generation by generation.
   */
  method Watch(verdicts: seq<bool>) returns (w: Watcher)
    ensures fresh(w) && w.Valid() && w.running == Last(verdicts)
    ensures w.events == Alternation(Changes(verdicts))
    ensures w.informers == (if Last(verdicts) then w.stopChan else None)
    ensures Last(verdicts) ==> w.stopChan == Some(Changes(verdicts) / 2)
  {
    w := new Watcher();
    for i := 0 to |verdicts|
      invariant w.Valid() && fresh(w) && w.running == Last(verdicts[..i])
      invariant |w.events| == Changes(verdicts[..i])
    {
      assert verdicts[..i + 1][..i] == verdicts[..i];
      w.Receive(verdicts[i]);
    }
    assert verdicts[..|verdicts|] == verdicts;
  }

  lemma {:induction false} AlternationCounts(n: nat)
    ensures |Filter(IsStart, Alternation(n))| == (n + 1) / 2
    ensures |Filter(IsStop, Alternation(n))| == n / 2
  {
    if n == 0 {
    } else {
      AlternationCounts(n - 1);
      var e := Alternation(n)[n - 1];
      assert Alternation(n) == Alternation(n - 1) + [e];
      FilterAppend(IsStart, Alternation(n - 1), [e]);
      FilterAppend(IsStop, Alternation(n - 1), [e]);
    }
  }

  lemma {:induction false} ChangesParity(verdicts: seq<bool>)
    ensures Changes(verdicts) % 2 == (if Last(verdicts) then 1 else 0)
  {
    if verdicts == [] {
    } else {
      ChangesParity(verdicts[..|verdicts| - 1]);
    }
  }

  /** Starts outnumber stops by one while running, and not at all otherwise. */
  lemma StartsMinusStops(verdicts: seq<bool>)
    ensures var events := Alternation(Changes(verdicts));
      |Filter(IsStart, events)| - |Filter(IsStop, events)| == (if Last(verdicts) then 1 else 0)
  {
    ChangesParity(verdicts);
    AlternationCounts(Changes(verdicts));
  }

  /**
   * No stop channel is made or closed twice, and each is closed right after the informers of its generation were
   * started.
   */
  lemma ClosedOnceAfterMade(verdicts: seq<bool>, i: nat)
    requires i < Changes(verdicts)
    ensures var events := Alternation(Changes(verdicts));
      && events[i] == (if i % 2 == 0 then Started(i / 2) else Stopped(i / 2))
      && (forall j | 0 <= j < i :: events[j] != events[i])
      && (events[i].Stopped? ==> i > 0 && events[i - 1] == Started(events[i].generation))
  {
    var events := Alternation(Changes(verdicts));
    forall j | 0 <= j < i && j % 2 == i % 2 ensures j / 2 != i / 2 {
      assert j == 2 * (j / 2) + j % 2 && i == 2 * (i / 2) + i % 2;
    }
  }
}
