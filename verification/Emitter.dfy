/**
 * Listener reconciliation: UpdateListeners of pkg/event/emitter.go over the subscription table of
 * pkg/event/bus/nats.go.
 */
module Emitter {
  import opened Collections

  datatype Listener = Listener(kind: string, name: string, metadata: map<string, string>, instance: int)

  /** CompareListeners looks at the metadata only, in both directions. */
  predicate CompareListeners(a: Listener, b: Listener) {
    && (forall key | key in a.metadata :: key in b.metadata && a.metadata[key] == b.metadata[key])
    && (forall key | key in b.metadata :: key in a.metadata && b.metadata[key] == a.metadata[key])
  }

  lemma CompareIsEquality(a: Listener, b: Listener)
    ensures CompareListeners(a, b) <==> a.metadata == b.metadata
  {
  }

  predicate KeptChar(c: char) {
    'A' <= c <= 'Z' || 'a' <= c <= 'z' || '0' <= c <= '9' || c == '.'
  }

  /** The queue a listener name stands for on the bus. */
  function ListenerName(name: string): string { Filter(KeptChar, name) }

  /** Letters, digits and dots are kept, everything else is dropped. */
  lemma ListenerNameMeaning(name: string, c: char)
    ensures ListenerName("") == ""
    ensures ListenerName(name + [c]) == ListenerName(name) +
      if 'A' <= c <= 'Z' || 'a' <= c <= 'z' || '0' <= c <= '9' || c == '.' then [c] else []
  {
    FilterAppend(KeptChar, name, [c]);
    assert [c][1..] == [];
  }

  /** One subscription object handed out by the server. */
  datatype Subscription = Subscription(queue: string, handler: Listener)

  type Live = map<string, nat>

  class NatsBus {
    var subscriptions: map<string, nat> // queue name -> the last subscription stored for it
    var handles: seq<Subscription>      // every subscription ever opened
    var drained: set<nat>               // the ones that were drained
    var calls: nat                      // how often the bus was asked to subscribe or unsubscribe

    constructor ()
      ensures subscriptions == map[] && handles == [] && drained == {} && calls == 0
    {
      subscriptions, handles, drained, calls := map[], [], {}, 0;
    }

    /** The table and the drained set refer to subscriptions that exist. */
    ghost predicate Valid()
      reads this
    {
      && (forall q | q in subscriptions :: subscriptions[q] < |handles| && handles[subscriptions[q]].queue == q)
      && (forall h | h in drained :: h < |handles|)
    }

    /** A live subscription that the table no longer refers to can never be unsubscribed. */
    ghost predicate NoneOrphaned()
      reads this
    {
      forall h | 0 <= h < |handles| && h !in drained ::
        handles[h].queue in subscriptions && subscriptions[handles[h].queue] == h
    }

    /** The live subscription of each queue, as far as the table knows. */
    ghost function Live(): map<string, nat>
      reads this
    {
      map q | q in subscriptions && subscriptions[q] !in drained :: subscriptions[q]
    }

    /** The server may refuse the subscription, which leaves the table as it was. */
    method SubscribeTopic(queueName: string, handler: Listener, accepted: bool)
      requires Valid()
      modifies this
      ensures Valid() && drained == old(drained) && calls == old(calls) + 1
      ensures accepted ==> handles == old(handles) + [Subscription(ListenerName(queueName), handler)]
      ensures accepted ==> subscriptions == old(subscriptions)[ListenerName(queueName) := |old(handles)|]
      ensures !accepted ==> handles == old(handles) && subscriptions == old(subscriptions)
    {
      calls := calls + 1;
      var queue := ListenerName(queueName);
      if accepted {
        subscriptions := subscriptions[queue := |handles|];
        handles := handles + [Subscription(queue, handler)];
      }
    }

    /** The table keeps the drained subscription. */
    method Unsubscribe(queueName: string)
      requires Valid()
      modifies this
      ensures Valid() && handles == old(handles) && subscriptions == old(subscriptions) && calls == old(calls) + 1
      ensures var q := ListenerName(queueName);
        drained == (if q in subscriptions then old(drained) + {subscriptions[q]} else old(drained))
    {
      calls := calls + 1;
      var queue := ListenerName(queueName);
      if queue in subscriptions {
        drained := drained + {subscriptions[queue]};
      }
    }
  }

  // ---------- lists of listeners

  type Key = (string, string)

  function KeyOf(l: Listener): Key { (l.kind, l.name) }

  /** The list without its duplicates: of two listeners of one kind and name, the later one. */
  function Index(listeners: seq<Listener>): map<Key, Listener> {
    if listeners == [] then map[]
    else
      var n := |listeners| - 1;
      Index(listeners[..n])[KeyOf(listeners[n]) := listeners[n]]
  }

  lemma {:induction false} IndexKeys(listeners: seq<Listener>)
    ensures forall k | k in Index(listeners) :: KeyOf(Index(listeners)[k]) == k
  {
    if listeners == [] {
    } else {
      IndexKeys(listeners[..|listeners| - 1]);
    }
  }

  /** The listener under a kind and name is the last of the list with that kind and name. */
  lemma {:induction false} IndexIsLast(listeners: seq<Listener>, kind: string, name: string, i: nat)
    requires i < |listeners| && listeners[i].kind == kind && listeners[i].name == name
    requires forall j | i < j < |listeners| :: listeners[j].kind != kind || listeners[j].name != name
    ensures (kind, name) in Index(listeners) && Index(listeners)[(kind, name)] == listeners[i]
  {
    var n := |listeners| - 1;
    if i < n {
      IndexIsLast(listeners[..n], kind, name, i);
    }
  }

  /** ... and there is none under any other. */
  lemma {:induction false} IndexHasNoOthers(listeners: seq<Listener>, kind: string, name: string)
    requires forall l | l in listeners :: l.kind != kind || l.name != name
    ensures (kind, name) !in Index(listeners)
  {
    if listeners == [] {
    } else {
      var n := |listeners| - 1;
      assert listeners[n] in listeners;
      IndexHasNoOthers(listeners[..n], kind, name);
    }
  }

  /** The queues of a list tell its listeners apart, across kinds too. */
  ghost predicate QueuesIdentify(index: map<Key, Listener>) {
    forall k, l | k in index && l in index && ListenerName(k.1) == ListenerName(l.1) :: k == l
  }

  type Nested = map<string, map<string, Listener>>

  /** The two-level map holds exactly what the index holds, and no empty inner map. */
  ghost predicate Represents(m: Nested, index: map<Key, Listener>) {
    && (forall k: Key :: k in index <==> k.0 in m && k.1 in m[k.0])
    && (forall k: Key | k in index :: index[k] == m[k.0][k.1])
    && (forall kind | kind in m :: m[kind] != map[])
  }

  lemma LookedUp(m: Nested, index: map<Key, Listener>, kind: string, name: string)
    requires Represents(m, index)
    ensures (kind, name) in index <==> kind in m && name in m[kind]
    ensures (kind, name) in index ==> index[(kind, name)] == m[kind][name]
  {
  }

  /** The loops that fill oldMap and newMap. */
  method Collect(listeners: seq<Listener>) returns (m: Nested)
    ensures Represents(m, Index(listeners))
  {
    m := map[];
    for i := 0 to |listeners|
      invariant Represents(m, Index(listeners[..i]))
    {
      assert listeners[..i + 1][..i] == listeners[..i];
      var l := listeners[i];
      if l.kind !in m {
        m := m[l.kind := map[]];
      }
      m := m[l.kind := m[l.kind][l.name := l]];
    }
    assert listeners[..|listeners|] == listeners;
  }

  function QueuesOf(keys: set<Key>): set<string> {
    set k | k in keys :: ListenerName(k.1)
  }

  function NameQueues(names: set<string>): set<string> {
    set n | n in names :: ListenerName(n)
  }

  lemma NameQueuesAdd(names: set<string>, n: string)
    ensures NameQueues(names + {n}) == NameQueues(names) + {ListenerName(n)}
  {
  }

  lemma QueuesOfUnion(a: set<Key>, b: set<Key>)
    ensures QueuesOf(a + b) == QueuesOf(a) + QueuesOf(b)
  {
  }

  lemma RemoveTwice<K, V>(m: map<K, V>, a: set<K>, b: set<K>)
    ensures m - a - b == m - (a + b)
  {
  }

  // ---------- what one call of UpdateListeners does

  /** The listener is in both lists and did not change. */
  predicate Unchanged(before: map<Key, Listener>, after: map<Key, Listener>, k: Key) {
    k in before && k in after && CompareListeners(before[k], after[k])
  }

  /** A queue's subscription is the same one, or still absent. */
  predicate SameOn(live: Live, live': Live, q: string) {
    (q in live <==> q in live') && (q in live ==> live'[q] == live[q])
  }

  /**
   * An unchanged listener keeps its subscription. Any other listener of the new list has a new one, bound to the
   * listener itself, unless the server refused it.
   */
  predicate Settled(
      before: map<Key, Listener>, after: map<Key, Listener>, accepts: set<Key>, live: Live, count: nat,
      live': Live, handles': seq<Subscription>, k: Key)
    requires k in after
  {
    var q := ListenerName(k.1);
    if Unchanged(before, after, k) then SameOn(live, live', q)
    else
      && (q in live' <==> k in accepts)
      && (q in live' ==> count <= live'[q] < |handles'| && handles'[live'[q]] == Subscription(q, after[k]))
  }

  ghost predicate AllSettled(
      before: map<Key, Listener>, after: map<Key, Listener>, accepts: set<Key>, live: Live, count: nat,
      live': Live, handles': seq<Subscription>)
  {
    forall k | k in after :: Settled(before, after, accepts, live, count, live', handles', k)
  }

  /** Every unchanged listener had a live subscription, and the server accepts every other one. */
  ghost predicate AllServed(before: map<Key, Listener>, after: map<Key, Listener>, accepts: set<Key>, live: Live) {
    forall k | k in after :: if Unchanged(before, after, k) then ListenerName(k.1) in live else k in accepts
  }

  /** The state of the starting phase once the listeners in done were dealt with. */
  ghost predicate Midway(
      before: map<Key, Listener>, after: map<Key, Listener>, accepts: set<Key>, live: Live, handles: seq<Subscription>,
      live': Live, handles': seq<Subscription>, done: set<Key>)
  {
    && handles <= handles' && done <= after.Keys
    && live'.Keys <= QueuesOf(after.Keys)
    && (forall k | k in done :: Settled(before, after, accepts, live, |handles|, live', handles', k))
    && (forall k | k in after.Keys - done :: SameOn(live, live', ListenerName(k.1)))
  }

  lemma OneMoreSettled(
      before: map<Key, Listener>, after: map<Key, Listener>, accepts: set<Key>, live: Live, handles: seq<Subscription>,
      live1: Live, handles1: seq<Subscription>, done: set<Key>, k: Key, live2: Live, handles2: seq<Subscription>)
    requires Midway(before, after, accepts, live, handles, live1, handles1, done)
    requires k in after && k !in done && QueuesIdentify(after)
    requires handles1 <= handles2 && Settled(before, after, accepts, live, |handles|, live2, handles2, k)
    requires forall q | q != ListenerName(k.1) :: SameOn(live1, live2, q)
    ensures Midway(before, after, accepts, live, handles, live2, handles2, done + {k})
  {
    forall l | l in after && l != k ensures ListenerName(l.1) != ListenerName(k.1) {}
    forall q | q in live2 ensures q in QueuesOf(after.Keys) {
      if q != ListenerName(k.1) { assert SameOn(live1, live2, q); }
    }
    forall l | l in done + {k} ensures Settled(before, after, accepts, live, |handles|, live2, handles2, l) {
      if l != k { assert SameOn(live1, live2, ListenerName(l.1)); }
    }
    forall l | l in after.Keys - (done + {k}) ensures SameOn(live, live2, ListenerName(l.1)) {
      assert SameOn(live1, live2, ListenerName(l.1));
    }
  }

  /** The listeners under their own kind and name. */
  ghost predicate WellKeyed(index: map<Key, Listener>) {
    forall k | k in index :: KeyOf(index[k]) == k
  }

  /** No live subscription uses the queue of a listener that is new. */
  ghost predicate NewQueuesAreFree(before: map<Key, Listener>, after: map<Key, Listener>, live: Live) {
    forall k | k in after && k !in before :: ListenerName(k.1) !in live
  }

  /** The list holds each of these listeners once, in some order. */
  ghost predicate Lists(list: seq<Listener>, after: map<Key, Listener>, keys: set<Key>)
  {
    keys <= after.Keys && Index(list) == (map k | k in keys :: after[k]) && |list| == |keys|
  }

  function NewIn(before: map<Key, Listener>, keys: set<Key>): set<Key> {
    set k | k in keys && k !in before
  }

  function ChangedIn(before: map<Key, Listener>, after: map<Key, Listener>, keys: set<Key>): set<Key> {
    set k | k in keys && k in before && !Unchanged(before, after, k)
  }

  /** Bus calls made for these listeners of the new list: one for a new one, two for a changed one. */
  function Cost(before: map<Key, Listener>, after: map<Key, Listener>, keys: set<Key>): nat {
    |NewIn(before, keys)| + 2 * |ChangedIn(before, after, keys)|
  }

  /** The two lists of a call of UpdateListeners, what the server accepts, and the bus before the second phase. */
  datatype Plan = Plan(
    before: map<Key, Listener>, after: map<Key, Listener>, accepts: set<Key>, live: Live, handles: seq<Subscription>,
    calls: nat)
  {
    ghost predicate Fits() {
      WellKeyed(before) && WellKeyed(after) && QueuesIdentify(after) && NewQueuesAreFree(before, after, live)
    }

    /** The second phase has dealt with the listeners in done, and has them in its result. */
    ghost predicate Reached(
        live': Live, handles': seq<Subscription>, calls': nat, result: seq<Listener>, done: set<Key>)
    {
      && Midway(before, after, accepts, live, handles, live', handles', done)
      && Lists(result, after, done) && calls' == calls + Cost(before, after, done)
    }
  }

  function WithoutKinds(index: map<Key, Listener>, kinds: set<string>): set<Key> {
    set k | k in index.Keys && k.0 !in kinds
  }

  lemma NothingDone(p: Plan, newMap: Nested)
    requires p.live.Keys <= QueuesOf(p.after.Keys) && Represents(newMap, p.after)
    ensures p.Reached(p.live, p.handles, p.calls, [], WithoutKinds(p.after, newMap.Keys))
  {
    assert WithoutKinds(p.after, newMap.Keys) == {};
    assert NewIn(p.before, {}) == {} && ChangedIn(p.before, p.after, {}) == {};
  }

  function OfKind(index: map<Key, Listener>, kind: string): set<Key> {
    set k | k in index.Keys && k.0 == kind
  }

  lemma OneKindLess(index: map<Key, Listener>, kinds: set<string>, kind: string)
    requires kind in kinds
    ensures WithoutKinds(index, kinds - {kind}) == WithoutKinds(index, kinds) + OfKind(index, kind)
  {
  }

  lemma ListsAll(list: seq<Listener>, after: map<Key, Listener>)
    requires Lists(list, after, after.Keys)
    ensures Index(list) == after && |list| == |after|
  {
    assert |after.Keys| == |after|;
  }

  /** Each live subscription has a handler with its listener's metadata. */
  ghost predicate Bound(index: map<Key, Listener>, live: Live, handles: seq<Subscription>) {
    forall k | k in index && ListenerName(k.1) in live ::
      live[ListenerName(k.1)] < |handles| && CompareListeners(handles[live[ListenerName(k.1)]].handler, index[k])
  }

  lemma StillBound(
      before: map<Key, Listener>, after: map<Key, Listener>, accepts: set<Key>, live: Live, handles: seq<Subscription>,
      live2: Live, handles2: seq<Subscription>)
    requires Bound(before, live, handles) && handles <= handles2
    requires AllSettled(before, after, accepts, live, |handles|, live2, handles2)
    ensures Bound(after, live2, handles2)
  {
    forall k | k in after && ListenerName(k.1) in live2
      ensures live2[ListenerName(k.1)] < |handles2|
      ensures CompareListeners(handles2[live2[ListenerName(k.1)]].handler, after[k])
    {
      if Unchanged(before, after, k) {
        var h := handles[live[ListenerName(k.1)]].handler;
        CompareIsEquality(h, before[k]);
        CompareIsEquality(before[k], after[k]);
        CompareIsEquality(h, after[k]);
      }
    }
  }

  lemma KeptQueues(before: map<Key, Listener>, after: map<Key, Listener>)
    requires QueuesIdentify(before)
    ensures forall k | k in before && k in after :: ListenerName(k.1) !in QueuesOf(before.Keys - after.Keys)
  {
  }

  lemma StoppedOnlyMissing(before: map<Key, Listener>, after: map<Key, Listener>, live: Live, live1: Live)
    requires QueuesIdentify(before) && QueuesIdentify(after)
    requires live.Keys <= QueuesOf(before.Keys) && live1 == live - QueuesOf(before.Keys - after.Keys)
    ensures live1.Keys <= QueuesOf(after.Keys) && NewQueuesAreFree(before, after, live1)
    ensures forall k | k in before && k in after :: SameOn(live, live1, ListenerName(k.1))
  {
    KeptQueues(before, after);
    forall q | q in live1 ensures exists k :: k in before && k in after && ListenerName(k.1) == q {
      var k :| k in before.Keys && ListenerName(k.1) == q;
      assert q !in QueuesOf(before.Keys - after.Keys);
    }
  }

  lemma NothingElseChanged(
      before: map<Key, Listener>, after: map<Key, Listener>, accepts: set<Key>, live: Live, handles: seq<Subscription>,
      live1: Live, live2: Live, handles2: seq<Subscription>)
    requires forall k | k in before && k in after :: SameOn(live, live1, ListenerName(k.1))
    requires Midway(before, after, accepts, live1, handles, live2, handles2, after.Keys)
    ensures AllSettled(before, after, accepts, live, |handles|, live2, handles2)
    ensures live2.Keys == QueuesOf(after.Keys) <==> AllServed(before, after, accepts, live)
  {
    forall k | k in after ensures Settled(before, after, accepts, live, |handles|, live2, handles2, k) {
      assert Settled(before, after, accepts, live1, |handles|, live2, handles2, k);
    }
    forall k | k in after ensures ListenerName(k.1) in QueuesOf(after.Keys) {}
  }

  /** The listeners of the kind under other names than these. */
  function KindWithout(index: map<Key, Listener>, kind: string, names: set<string>): set<Key> {
    set k | k in index.Keys && k.0 == kind && k.1 !in names
  }

  lemma KindAtTheEnds(m: Nested, index: map<Key, Listener>, kind: string)
    requires Represents(m, index) && kind in m
    ensures KindWithout(index, kind, m[kind].Keys) == {} && KindWithout(index, kind, {}) == OfKind(index, kind)
  {
  }

  lemma OneNameLess(index: map<Key, Listener>, kind: string, names: set<string>, name: string, done: set<Key>)
    requires (kind, name) in index && name in names && forall k | k in done :: k.0 != kind
    ensures (kind, name) !in done + KindWithout(index, kind, names)
    ensures done + KindWithout(index, kind, names - {name}) == done + KindWithout(index, kind, names) + {(kind, name)}
  {
  }

  lemma UpdateSettles(
      before: map<Key, Listener>, after: map<Key, Listener>, accepts: set<Key>, live: Live, count: nat,
      live1: Live, handles1: seq<Subscription>, k: Key, live2: Live, handles2: seq<Subscription>)
    requires k in after && count <= |handles1| && SameOn(live, live1, ListenerName(k.1))
    requires Unchanged(before, after, k) ==> live2 == live1 && handles2 == handles1
    requires !Unchanged(before, after, k) ==>
      && handles2 == handles1 + (if k in accepts then [Subscription(ListenerName(k.1), after[k])] else [])
      && live2 == (if k in accepts then live1[ListenerName(k.1) := |handles1|] else live1 - {ListenerName(k.1)})
    ensures handles1 <= handles2 && Settled(before, after, accepts, live, count, live2, handles2, k)
    ensures forall q | q != ListenerName(k.1) :: SameOn(live1, live2, q)
  {
  }

  lemma ListsOneMore(list: seq<Listener>, after: map<Key, Listener>, keys: set<Key>, k: Key)
    requires Lists(list, after, keys) && k in after && k !in keys && KeyOf(after[k]) == k
    ensures Lists(list + [after[k]], after, keys + {k})
  {
    assert (list + [after[k]])[..|list|] == list;
  }

  lemma NewInOneMore(before: map<Key, Listener>, keys: set<Key>, k: Key)
    requires k !in keys
    ensures |NewIn(before, keys + {k})| == |NewIn(before, keys)| + (if k in before then 0 else 1)
  {
    assert NewIn(before, keys + {k}) == (if k in before then NewIn(before, keys) else NewIn(before, keys) + {k});
  }

  lemma ChangedInOneMore(before: map<Key, Listener>, after: map<Key, Listener>, keys: set<Key>, k: Key)
    requires k !in keys
    ensures |ChangedIn(before, after, keys + {k})| == |ChangedIn(before, after, keys)|
      + (if k in before && !Unchanged(before, after, k) then 1 else 0)
  {
    var changed := ChangedIn(before, after, keys);
    assert ChangedIn(before, after, keys + {k}) ==
      (if k in before && !Unchanged(before, after, k) then changed + {k} else changed);
  }

  lemma CostOfOneMore(before: map<Key, Listener>, after: map<Key, Listener>, keys: set<Key>, k: Key)
    requires k !in keys
    ensures Cost(before, after, keys + {k}) == Cost(before, after, keys)
      + (if k !in before then 1 else if Unchanged(before, after, k) then 0 else 2)
  {
    NewInOneMore(before, keys, k);
    ChangedInOneMore(before, after, keys, k);
  }

  /** The listeners of these kinds that are missing from the new list. */
  function Missing(before: map<Key, Listener>, after: map<Key, Listener>, kinds: set<string>): set<Key> {
    set k | k in before.Keys && k !in after.Keys && k.0 in kinds
  }

  /** The missing listeners of all kinds but these. */
  function Gone(before: map<Key, Listener>, after: map<Key, Listener>, kinds: set<string>): set<Key> {
    set k | k in before.Keys && k !in after.Keys && k.0 !in kinds
  }

  lemma GoneAtTheEnds(oldMap: Nested, before: map<Key, Listener>, after: map<Key, Listener>, live: Live)
    requires Represents(oldMap, before)
    ensures Gone(before, after, oldMap.Keys) == {} && live - QueuesOf({}) == live
    ensures Gone(before, after, {}) == before.Keys - after.Keys
  {
  }

  lemma OneMoreGone(before: map<Key, Listener>, after: map<Key, Listener>, kinds: set<string>, kind: string, live: Live)
    requires kind in kinds
    ensures live - QueuesOf(Gone(before, after, kinds)) - QueuesOf(Missing(before, after, {kind}))
      == live - QueuesOf(Gone(before, after, kinds - {kind}))
    ensures |Gone(before, after, kinds)| + |Missing(before, after, {kind})| == |Gone(before, after, kinds - {kind})|
  {
    var a, b := Gone(before, after, kinds), Missing(before, after, {kind});
    assert Gone(before, after, kinds - {kind}) == a + b;
    QueuesOfUnion(a, b);
    RemoveTwice(live, QueuesOf(a), QueuesOf(b));
  }

  lemma {:induction false} PairsAreAsManyAsNames(kind: string, names: set<string>, keys: set<Key>)
    requires forall k: Key :: k in keys <==> k.0 == kind && k.1 in names
    ensures |keys| == |names|
  {
    if names == {} {
      assert keys == {};
    } else {
      var n :| n in names;
      assert (kind, n) in keys;
      PairsAreAsManyAsNames(kind, names - {n}, keys - {(kind, n)});
    }
  }

  lemma PairsHaveTheQueuesOfTheNames(kind: string, names: set<string>, keys: set<Key>)
    requires forall k: Key :: k in keys <==> k.0 == kind && k.1 in names
    ensures QueuesOf(keys) == NameQueues(names)
  {
    forall n | n in names ensures ListenerName(n) in QueuesOf(keys) {
      assert (kind, n) in keys;
    }
  }

  class Emitter {
    var listeners: seq<Listener>
    const bus: NatsBus

    /** Every live subscription belongs to a listener of the list and is bound to one with the same metadata. */
    ghost predicate Valid()
      reads this, bus
    {
      && bus.Valid() && bus.NoneOrphaned() && QueuesIdentify(Index(listeners))
      && Bound(Index(listeners), bus.Live(), bus.handles)
      && bus.Live().Keys <= QueuesOf(Index(listeners).Keys)
    }

    constructor (bus: NatsBus)
      requires bus.Valid() && bus.handles == []
      ensures Valid() && this.bus == bus && listeners == []
    {
      this.bus, listeners := bus, [];
    }

    method StopListener(name: string)
      requires bus.Valid() && bus.NoneOrphaned()
      modifies bus
      ensures bus.Valid() && bus.NoneOrphaned() && bus.handles == old(bus.handles)
      ensures bus.Live() == old(bus.Live()) - {ListenerName(name)}
      ensures bus.calls == old(bus.calls) + 1
    {
      bus.Unsubscribe(name);
    }

    /** Safe only where no live subscription would be overwritten. */
    method StartListener(l: Listener, accepted: bool)
      requires bus.Valid() && bus.NoneOrphaned() && ListenerName(l.name) !in bus.Live()
      modifies bus
      ensures bus.Valid() && bus.NoneOrphaned()
      ensures bus.handles == old(bus.handles) + (if accepted then [Subscription(ListenerName(l.name), l)] else [])
      ensures bus.Live() ==
        (if accepted then old(bus.Live())[ListenerName(l.name) := |old(bus.handles)|] else old(bus.Live()))
      ensures bus.calls == old(bus.calls) + 1
    {
      bus.SubscribeTopic(l.name, l, accepted);
    }
  
    /** The loops that stop every listener of a kind, or those of its names that are gone, in any order. */
    method StopAll(names: set<string>)
      requires bus.Valid() && bus.NoneOrphaned()
      modifies bus
      ensures bus.Valid() && bus.NoneOrphaned() && bus.handles == old(bus.handles)
      ensures bus.Live() == old(bus.Live()) - NameQueues(names)
      ensures bus.calls == old(bus.calls) + |names|
    {
      var rest := names;
      while rest != {}
        invariant rest <= names
        invariant bus.Valid() && bus.NoneOrphaned() && bus.handles == old(bus.handles)
        invariant bus.Live() == old(bus.Live()) - NameQueues(names - rest)
        invariant bus.calls == old(bus.calls) + |names - rest|
      {
        var name :| name in rest;
        StopListener(name);
        assert names - (rest - {name}) == names - rest + {name};
        NameQueuesAdd(names - rest, name);
        RemoveTwice(old(bus.Live()), NameQueues(names - rest), {ListenerName(name)});
        rest := rest - {name};
      }
      assert names - rest == names;
    }

    /** What the first phase does about one kind of the old list. */
    method StopKind(
        kind: string, oldMap: Nested, newMap: Nested, ghost before: map<Key, Listener>, ghost after: map<Key, Listener>)
      requires bus.Valid() && bus.NoneOrphaned() && kind in oldMap
      requires Represents(oldMap, before) && Represents(newMap, after)
      modifies bus
      ensures bus.Valid() && bus.NoneOrphaned() && bus.handles == old(bus.handles)
      ensures bus.Live() == old(bus.Live()) - QueuesOf(Missing(before, after, {kind}))
      ensures bus.calls == old(bus.calls) + |Missing(before, after, {kind})|
    {
      var names;
      if kind !in newMap {
        names := oldMap[kind].Keys;
      } else {
        names := oldMap[kind].Keys - newMap[kind].Keys;
      }
      PairsAreAsManyAsNames(kind, names, Missing(before, after, {kind}));
      PairsHaveTheQueuesOfTheNames(kind, names, Missing(before, after, {kind}));
      StopAll(names);
    }

    /** The first phase: stop what is missing from the new list. */
    method StopMissing(
        oldMap: Nested, newMap: Nested, ghost before: map<Key, Listener>, ghost after: map<Key, Listener>)
      requires bus.Valid() && bus.NoneOrphaned()
      requires Represents(oldMap, before) && Represents(newMap, after)
      modifies bus
      ensures bus.Valid() && bus.NoneOrphaned() && bus.handles == old(bus.handles)
      ensures bus.Live() == old(bus.Live()) - QueuesOf(before.Keys - after.Keys)
      ensures bus.calls == old(bus.calls) + |before.Keys - after.Keys|
    {
      var kinds := oldMap.Keys;
      ghost var live, calls := bus.Live(), bus.calls;
      GoneAtTheEnds(oldMap, before, after, live);
      while kinds != {}
        invariant kinds <= oldMap.Keys
        invariant bus.Valid() && bus.NoneOrphaned() && bus.handles == old(bus.handles)
        invariant bus.Live() == live - QueuesOf(Gone(before, after, kinds))
        invariant bus.calls == calls + |Gone(before, after, kinds)|
      {
        var kind :| kind in kinds;
        StopKind(kind, oldMap, newMap, before, after);
        OneMoreGone(before, after, kinds, kind, live);
        kinds := kinds - {kind};
      }
    }

    /** The body of the second phase's loops for one listener. */
    method UpdateOne(current: Option<Listener>, l: Listener, accepted: bool)
      requires bus.Valid() && bus.NoneOrphaned()
      requires current.None? ==> ListenerName(l.name) !in bus.Live()
      requires current.Some? ==> current.value.name == l.name
      modifies bus
      ensures bus.Valid() && bus.NoneOrphaned()
      ensures current.Some? && CompareListeners(current.value, l) ==>
        bus.Live() == old(bus.Live()) && bus.handles == old(bus.handles) && bus.calls == old(bus.calls)
      ensures current.None? || !CompareListeners(current.value, l) ==>
        && bus.handles == old(bus.handles) + (if accepted then [Subscription(ListenerName(l.name), l)] else [])
        && bus.Live() == (if accepted then old(bus.Live())[ListenerName(l.name) := |old(bus.handles)|]
                          else old(bus.Live()) - {ListenerName(l.name)})
        && bus.calls == old(bus.calls) + (if current.None? then 1 else 2)
    {
      if current.None? {
        StartListener(l, accepted);
      } else if !CompareListeners(current.value, l) {
        StopListener(current.value.name);
        StartListener(l, accepted);
      }
    }

    /** What the second phase does about one listener of the new list. */
    method StartOne(
        current: Option<Listener>, l: Listener, accepts: set<Key>, result: seq<Listener>, ghost p: Plan,
        ghost done: set<Key>)
      returns (extended: seq<Listener>)
      requires bus.Valid() && bus.NoneOrphaned() && p.Fits() && p.accepts == accepts
      requires KeyOf(l) in p.after && p.after[KeyOf(l)] == l && KeyOf(l) !in done
      requires current == (if KeyOf(l) in p.before then Some(p.before[KeyOf(l)]) else None)
      requires p.Reached(bus.Live(), bus.handles, bus.calls, result, done)
      modifies bus
      ensures bus.Valid() && bus.NoneOrphaned()
      ensures p.Reached(bus.Live(), bus.handles, bus.calls, extended, done + {KeyOf(l)})
    {
      ghost var k := KeyOf(l);
      ghost var live1, handles1 := bus.Live(), bus.handles;
      assert SameOn(p.live, live1, ListenerName(l.name));
      UpdateOne(current, l, KeyOf(l) in accepts);
      UpdateSettles(p.before, p.after, accepts, p.live, |p.handles|, live1, handles1, k, bus.Live(), bus.handles);
      OneMoreSettled(
        p.before, p.after, accepts, p.live, p.handles, live1, handles1, done, k, bus.Live(), bus.handles);
      ListsOneMore(result, p.after, done, k);
      CostOfOneMore(p.before, p.after, done, k);
      extended := result + [l];
    }

    /** Looks a listener of the new list up in both maps, and deals with it. */
    method StartNamed(
        kind: string, name: string, oldMap: Nested, newMap: Nested, accepts: set<Key>, result: seq<Listener>,
        ghost p: Plan, ghost done: set<Key>)
      returns (extended: seq<Listener>)
      requires bus.Valid() && bus.NoneOrphaned() && p.Fits() && p.accepts == accepts
      requires kind in newMap && name in newMap[kind] && (kind, name) !in done
      requires Represents(oldMap, p.before) && Represents(newMap, p.after)
      requires p.Reached(bus.Live(), bus.handles, bus.calls, result, done)
      modifies bus
      ensures bus.Valid() && bus.NoneOrphaned()
      ensures p.Reached(bus.Live(), bus.handles, bus.calls, extended, done + {(kind, name)})
    {
      var current := None;
      if kind in oldMap && name in oldMap[kind] {
        current := Some(oldMap[kind][name]);
      }
      LookedUp(newMap, p.after, kind, name);
      LookedUp(oldMap, p.before, kind, name);
      extended := StartOne(current, newMap[kind][name], accepts, result, p, done);
    }

    /** What the second phase does about one kind of the new list. */
    method StartKind(
        kind: string, oldMap: Nested, newMap: Nested, accepts: set<Key>, result: seq<Listener>, ghost p: Plan,
        ghost done: set<Key>)
      returns (extended: seq<Listener>)
      requires bus.Valid() && bus.NoneOrphaned() && p.Fits() && p.accepts == accepts
      requires kind in newMap && Represents(oldMap, p.before) && Represents(newMap, p.after)
      requires forall k | k in done :: k.0 != kind
      requires p.Reached(bus.Live(), bus.handles, bus.calls, result, done)
      modifies bus
      ensures bus.Valid() && bus.NoneOrphaned()
      ensures p.Reached(bus.Live(), bus.handles, bus.calls, extended, done + OfKind(p.after, kind))
    {
      extended := result;
      var names := newMap[kind].Keys;
      KindAtTheEnds(newMap, p.after, kind);
      assert done + {} == done;
      while names != {}
        invariant names <= newMap[kind].Keys
        invariant bus.Valid() && bus.NoneOrphaned()
        invariant p.Reached(bus.Live(), bus.handles, bus.calls, extended, done + KindWithout(p.after, kind, names))
      {
        var name :| name in names;
        LookedUp(newMap, p.after, kind, name);
        OneNameLess(p.after, kind, names, name, done);
        extended :=
          StartNamed(kind, name, oldMap, newMap, accepts, extended, p, done + KindWithout(p.after, kind, names));
        names := names - {name};
      }
    }

    /** The second phase: start what is new and restart what changed, kind by kind in any order. */
    method StartNew(oldMap: Nested, newMap: Nested, accepts: set<Key>, ghost p: Plan)
      returns (result: seq<Listener>)
      requires bus.Valid() && bus.NoneOrphaned() && p.Fits() && p.accepts == accepts
      requires Represents(oldMap, p.before) && Represents(newMap, p.after)
      requires p.live == bus.Live() && p.handles == bus.handles && p.calls == bus.calls
      requires bus.Live().Keys <= QueuesOf(p.after.Keys)
      modifies bus
      ensures bus.Valid() && bus.NoneOrphaned()
      ensures p.Reached(bus.Live(), bus.handles, bus.calls, result, p.after.Keys)
    {
      result := [];
      var kinds := newMap.Keys;
      NothingDone(p, newMap);
      while kinds != {}
        invariant kinds <= newMap.Keys
        invariant bus.Valid() && bus.NoneOrphaned()
        invariant p.Reached(bus.Live(), bus.handles, bus.calls, result, WithoutKinds(p.after, kinds))
      {
        var kind :| kind in kinds;
        result := StartKind(kind, oldMap, newMap, accepts, result, p, WithoutKinds(p.after, kinds));
        OneKindLess(p.after, kinds, kind);
        kinds := kinds - {kind};
      }
      assert WithoutKinds(p.after, {}) == p.after.Keys;
    }

    /** The live subscriptions are those of the list, each with a handler that has the listener's metadata. */
    ghost predicate Serving()
      reads this, bus
    {
      Valid() && bus.Live().Keys == QueuesOf(Index(listeners).Keys)
    }

    /**
     * After the call the list holds the new listeners without duplicates. Unchanged ones keep their subscription, the
     * others have a new one if the server accepted it, and no other subscription is live; none is orphaned. The bus is
     * called once for each removed and each new listener and twice for each changed one.
     */
    method UpdateListeners(updated: seq<Listener>, accepts: set<Key>)
      requires Valid() && QueuesIdentify(Index(updated))
      modifies this, bus
      ensures Valid() && Index(listeners) == Index(updated) && |listeners| == |Index(updated)|
      ensures AllSettled(Index(old(listeners)), Index(updated), accepts,
        old(bus.Live()), |old(bus.handles)|, bus.Live(), bus.handles)
      ensures Serving() <==> AllServed(Index(old(listeners)), Index(updated), accepts, old(bus.Live()))
      ensures bus.calls == old(bus.calls) + |Index(old(listeners)).Keys - Index(updated).Keys|
        + Cost(Index(old(listeners)), Index(updated), Index(updated).Keys)
    {
      ghost var before, after := Index(listeners), Index(updated);
      ghost var live, handles := bus.Live(), bus.handles;
      IndexKeys(listeners);
      IndexKeys(updated);
      var oldMap := Collect(listeners);
      var newMap := Collect(updated);
      StopMissing(oldMap, newMap, before, after);
      ghost var live1 := bus.Live();
      StoppedOnlyMissing(before, after, live, live1);
      ghost var p := Plan(before, after, accepts, live1, handles, bus.calls);
      var result := StartNew(oldMap, newMap, accepts, p);
      listeners := result;
      ListsAll(result, after);
      NothingElseChanged(before, after, accepts, live, handles, live1, bus.Live(), bus.handles);
      StillBound(before, after, accepts, live, handles, bus.Live(), bus.handles);
    }
  }

  /** Reconciling with a list that changes nothing makes no bus call. */
  lemma NoChangeNoCalls(before: map<Key, Listener>, after: map<Key, Listener>)
    requires before.Keys == after.Keys && forall k | k in after :: Unchanged(before, after, k)
    ensures |before.Keys - after.Keys| + Cost(before, after, after.Keys) == 0
  {
    assert NewIn(before, after.Keys) == {} && ChangedIn(before, after, after.Keys) == {};
  }

  lemma NothingSettledAnew(
      index: map<Key, Listener>, accepts: set<Key>, live: Live, count: nat, live': Live, handles': seq<Subscription>)
    requires live.Keys <= QueuesOf(index.Keys) && live'.Keys <= QueuesOf(index.Keys)
    requires AllSettled(index, index, accepts, live, count, live', handles')
    ensures live' == live
  {
    forall q | q in live || q in live' ensures SameOn(live, live', q) {
      var k :| k in index && ListenerName(k.1) == q;
      assert Unchanged(index, index, k);
    }
  }

  /** Updating again with the list that is there already makes no bus call and leaves every subscription as it is. */
  method RepeatUpdate(e: Emitter, updated: seq<Listener>, accepts: set<Key>)
    requires e.Valid() && Index(e.listeners) == Index(updated)
    modifies e, e.bus
    ensures e.Valid() && Index(e.listeners) == Index(updated)
    ensures e.bus.calls == old(e.bus.calls) && e.bus.Live() == old(e.bus.Live())
  {
    ghost var index, live, count := Index(updated), e.bus.Live(), |e.bus.handles|;
    NoChangeNoCalls(index, index);
    e.UpdateListeners(updated, accepts);
    NothingSettledAnew(index, accepts, live, count, e.bus.Live(), e.bus.handles);
  }

  // ---------- many updates

  /** The i-th update starts the listener, as new or as changed. */
  predicate Starts(indexes: seq<map<Key, Listener>>, i: nat, k: Key) {
    1 <= i < |indexes| && k in indexes[i] && !Unchanged(indexes[i - 1], indexes[i], k)
  }

  /** ... and no later one does, or removes it. */
  ghost predicate LastStart(indexes: seq<map<Key, Listener>>, i: nat, k: Key) {
    Starts(indexes, i, k) && forall j | i < j < |indexes| :: Unchanged(indexes[j - 1], indexes[j], k)
  }

  /**
   * After updates through these lists, a listener is served exactly if its last start was accepted, and as before if
   * it was never started.
   */
  ghost predicate FollowsHistory(indexes: seq<map<Key, Listener>>, accepts: seq<set<Key>>, first: Live, live: Live) {
    && |indexes| == |accepts| + 1
    && forall k | k in indexes[|accepts|] ::
         && (forall i | LastStart(indexes, i, k) :: ListenerName(k.1) in live <==> k in accepts[i - 1])
         && ((forall i :: !LastStart(indexes, i, k)) ==> (ListenerName(k.1) in live <==> ListenerName(k.1) in first))
  }

  lemma UnchangedKeepsHistory(indexes: seq<map<Key, Listener>>, after: map<Key, Listener>, k: Key)
    requires indexes != [] && Unchanged(indexes[|indexes| - 1], after, k)
    ensures forall i :: LastStart(indexes + [after], i, k) <==> LastStart(indexes, i, k)
  {
    var more := indexes + [after];
    forall i: nat ensures LastStart(more, i, k) <==> LastStart(indexes, i, k) {
      if LastStart(more, i, k) {
        assert i < |indexes|;
        forall j | i < j < |indexes| ensures Unchanged(indexes[j - 1], indexes[j], k) {
          assert Unchanged(more[j - 1], more[j], k);
        }
      }
    }
  }

  lemma StartEndsHistory(indexes: seq<map<Key, Listener>>, after: map<Key, Listener>, k: Key)
    requires indexes != [] && k in after && !Unchanged(indexes[|indexes| - 1], after, k)
    ensures forall i :: LastStart(indexes + [after], i, k) <==> i == |indexes|
  {
    var more := indexes + [after];
    forall i: nat | i < |indexes| ensures !LastStart(more, i, k) {
      assert !Unchanged(more[|indexes| - 1], more[|indexes|], k);
    }
  }

  lemma OneMoreUpdate(
      indexes: seq<map<Key, Listener>>, accepts: seq<set<Key>>, first: Live, live: Live, count: nat,
      after: map<Key, Listener>, accepted: set<Key>, live': Live, handles': seq<Subscription>)
    requires FollowsHistory(indexes, accepts, first, live)
    requires AllSettled(indexes[|accepts|], after, accepted, live, count, live', handles')
    ensures FollowsHistory(indexes + [after], accepts + [accepted], first, live')
  {
    forall k | k in after
      ensures forall i | LastStart(indexes + [after], i, k) ::
        ListenerName(k.1) in live' <==> k in (accepts + [accepted])[i - 1]
      ensures (forall i :: !LastStart(indexes + [after], i, k)) ==>
        (ListenerName(k.1) in live' <==> ListenerName(k.1) in first)
    {
      if Unchanged(indexes[|accepts|], after, k) {
        UnchangedKeepsHistory(indexes, after, k);
      } else {
        StartEndsHistory(indexes, after, k);
        assert LastStart(indexes + [after], |indexes|, k);
      }
    }
  }

  ghost predicate HistoryUpTo(
      indexes: seq<map<Key, Listener>>, accepts: seq<set<Key>>, i: nat, first: Live, live: Live)
  {
    i <= |accepts| == |indexes| - 1 && FollowsHistory(indexes[..i + 1], accepts[..i], first, live)
  }

  lemma HistoryGoesOn(
      indexes: seq<map<Key, Listener>>, accepts: seq<set<Key>>, i: nat, first: Live, live: Live, count: nat,
      live': Live, handles': seq<Subscription>)
    requires i < |accepts| && HistoryUpTo(indexes, accepts, i, first, live)
    requires AllSettled(indexes[i], indexes[i + 1], accepts[i], live, count, live', handles')
    ensures HistoryUpTo(indexes, accepts, i + 1, first, live')
  {
    OneMoreUpdate(indexes[..i + 1], accepts[..i], first, live, count, indexes[i + 1], accepts[i], live', handles');
    assert indexes[..i + 2] == indexes[..i + 1] + [indexes[i + 1]];
    assert accepts[..i + 1] == accepts[..i] + [accepts[i]];
  }

  lemma BoundMeansMetadata(index: map<Key, Listener>, live: Live, handles: seq<Subscription>)
    requires Bound(index, live, handles)
    ensures forall k | k in index && ListenerName(k.1) in live ::
      && live[ListenerName(k.1)] < |handles|
      && handles[live[ListenerName(k.1)]].handler.metadata == index[k].metadata
  {
    forall k | k in index && ListenerName(k.1) in live
      ensures handles[live[ListenerName(k.1)]].handler.metadata == index[k].metadata
    {
      CompareIsEquality(handles[live[ListenerName(k.1)]].handler, index[k]);
    }
  }

  /** The list an emitter starts with, followed by those of the updates. */
  function Indexes(first: map<Key, Listener>, updates: seq<seq<Listener>>): seq<map<Key, Listener>> {
    [first] + seq(|updates|, i requires 0 <= i < |updates| => Index(updates[i]))
  }

  /**
   * Over any sequence of updates, whatever the server refuses: every listener of the last list is served exactly if
   * its last start was accepted, by a handler with its metadata. So where nothing is refused, every call leaves
   * exactly the subscriptions that stopping everything and starting everything anew would leave.
   */
  method Reconcile(e: Emitter, updates: seq<seq<Listener>>, accepts: seq<set<Key>>)
    requires e.Valid() && |accepts| == |updates| && forall u | u in updates :: QueuesIdentify(Index(u))
    modifies e, e.bus
    ensures e.Valid() && Index(e.listeners) == Indexes(Index(old(e.listeners)), updates)[|updates|]
    ensures FollowsHistory(Indexes(Index(old(e.listeners)), updates), accepts, old(e.bus.Live()), e.bus.Live())
    ensures forall k | k in Index(e.listeners) && ListenerName(k.1) in e.bus.Live() ::
      e.bus.handles[e.bus.Live()[ListenerName(k.1)]].handler.metadata == Index(e.listeners)[k].metadata
  {
    ghost var indexes, first := Indexes(Index(e.listeners), updates), e.bus.Live();
    for i := 0 to |updates|
      invariant e.Valid() && Index(e.listeners) == indexes[i]
      invariant HistoryUpTo(indexes, accepts, i, first, e.bus.Live())
    {
      assert updates[i] in updates;
      ghost var live, count := e.bus.Live(), |e.bus.handles|;
      e.UpdateListeners(updates[i], accepts[i]);
      HistoryGoesOn(indexes, accepts, i, first, live, count, e.bus.Live(), e.bus.handles);
    }
    assert indexes[..|updates| + 1] == indexes && accepts[..|updates|] == accepts;
    BoundMeansMetadata(Index(e.listeners), e.bus.Live(), e.bus.handles);
  }

  /** A listener that the server refused once is not tried again by an update that does not change it. */
  lemma NeverRetried(l: Listener, first: Live, live: Live)
    requires FollowsHistory(Indexes(map[], [[l], [l]]), [{}, {KeyOf(l)}], first, live)
    ensures ListenerName(l.name) !in live
  {
    var indexes, k := Indexes(map[], [[l], [l]]), KeyOf(l);
    assert indexes[0] == map[] && indexes[1] == Index([l]) && indexes[2] == Index([l]);
    assert [l][..0] == [];
    assert Index([l]) == map[k := l];
    assert LastStart(indexes, 1, k);
  }
}
