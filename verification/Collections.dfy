/** Small facts about sequences, multisets and finite sets that the models share. */
module Collections {

  datatype Option<+T> = None | Some(value: T)

  /** Applies f to every element, keeping the order. */
  function Map<A, B>(f: A -> B, s: seq<A>): (r: seq<B>)
    ensures |r| == |s| && forall i :: 0 <= i < |s| ==> r[i] == f(s[i])
  {
    seq(|s|, i requires 0 <= i < |s| => f(s[i]))
  }

  /** Keeps, in order, the elements that satisfy p. */
  function Filter<T>(p: T -> bool, s: seq<T>): seq<T> {
    if s == [] then []
    else (if p(s[0]) then [s[0]] else []) + Filter(p, s[1..])
  }

  lemma Regroup<T>(a: seq<T>, b: seq<T>, c: seq<T>)
    ensures a + (b + c) == a + b + c
  {
  }

  lemma {:induction false} FilterAppend<T>(p: T -> bool, a: seq<T>, b: seq<T>)
    ensures Filter(p, a + b) == Filter(p, a) + Filter(p, b)
  {
    if a == [] {
      assert a + b == b;
    } else {
      var head := if p(a[0]) then [a[0]] else [];
      assert (a + b)[1..] == a[1..] + b;
      FilterAppend(p, a[1..], b);
      Regroup(head, Filter(p, a[1..]), Filter(p, b));
    }
  }

  ghost predicate Distinct<T>(s: seq<T>) {
    forall i, j :: 0 <= i < j < |s| ==> s[i] != s[j]
  }

  /** Everything the slots hold, where f says what one slot holds. */
  function Gather<W, T>(slots: seq<W>, f: W -> multiset<T>): multiset<T> {
    if slots == [] then multiset{} else f(slots[0]) + Gather(slots[1..], f)
  }

  lemma {:induction false} GatherUpdate<W, T>(slots: seq<W>, i: nat, w: W, f: W -> multiset<T>)
    requires i < |slots|
    ensures Gather(slots[i := w], f) + f(slots[i]) == Gather(slots, f) + f(w)
  {
    if i == 0 {
      assert slots[i := w][1..] == slots[1..];
    } else {
      var tail := slots[1..];
      assert slots[i := w][1..] == tail[i - 1 := w];
      GatherUpdate(tail, i - 1, w, f);
      assert slots[i] == tail[i - 1];
      calc {
        Gather(slots[i := w], f) + f(slots[i]);
        f(slots[0]) + (Gather(tail[i - 1 := w], f) + f(tail[i - 1]));
        f(slots[0]) + (Gather(tail, f) + f(w));
        Gather(slots, f) + f(w);
      }
    }
  }

  lemma {:induction false} GatherEmpty<W, T>(slots: seq<W>, f: W -> multiset<T>)
    requires forall w :: w in slots ==> f(w) == multiset{}
    ensures Gather(slots, f) == multiset{}
  {
    if slots == [] {
    } else {
      assert slots[0] in slots;
      GatherEmpty(slots[1..], f);
    }
  }

  /** The total weight of the slots. */
  function Total<W>(slots: seq<W>, weight: W -> nat): nat {
    if slots == [] then 0 else weight(slots[0]) + Total(slots[1..], weight)
  }

  lemma {:induction false} TotalUpdate<W>(slots: seq<W>, i: nat, w: W, weight: W -> nat)
    requires i < |slots|
    ensures Total(slots[i := w], weight) + weight(slots[i]) == Total(slots, weight) + weight(w)
  {
    if i == 0 {
      assert slots[i := w][1..] == slots[1..];
    } else {
      assert slots[i := w][1..] == slots[1..][i - 1 := w];
      TotalUpdate(slots[1..], i - 1, w, weight);
    }
  }

  lemma {:induction false} TotalConstant<W>(slots: seq<W>, k: nat, weight: W -> nat)
    requires forall w :: w in slots ==> weight(w) == k
    ensures Total(slots, weight) == k * |slots|
  {
    if slots == [] {
    } else {
      assert slots[0] in slots;
      TotalConstant(slots[1..], k, weight);
    }
  }

  lemma CancelBag<T>(x: multiset<T>, y: multiset<T>, common: multiset<T>)
    requires x + common == y + common
    ensures x == y
  {
    assert x == x + common - common;
    assert y == y + common - common;
  }

  /** Something that leaves one bag and enters another leaves their sum alone. */
  lemma Moves<T>(from: multiset<T>, to: multiset<T>, from': multiset<T>, to': multiset<T>, x: multiset<T>)
    requires from == from' + x && to' == to + x
    ensures from' + to' == from + to
  {
  }

  /** ... and the sum with everything else. */
  lemma MovesWithin<T>(
      rest: multiset<T>, from: multiset<T>, to: multiset<T>, from': multiset<T>, to': multiset<T>, x: multiset<T>)
    requires from == from' + x && to' == to + x
    ensures rest + from' + to' == rest + from + to
  {
    Moves(from, to, from', to', x);
    assert rest + from' + to' == rest + (from' + to');
    assert rest + from + to == rest + (from + to);
  }

  /** Something more on the left is something more in all. */
  lemma AddLeft<T>(a: multiset<T>, b: multiset<T>, x: multiset<T>)
    ensures a + x + b == a + b + x
  {
  }

  lemma GatherSame<W, T>(slots: seq<W>, i: nat, w: W, f: W -> multiset<T>)
    requires i < |slots| && f(w) == f(slots[i])
    ensures Gather(slots[i := w], f) == Gather(slots, f)
  {
    GatherUpdate(slots, i, w, f);
    CancelBag(Gather(slots[i := w], f), Gather(slots, f), f(w));
  }

  lemma GatherGain<W, T>(slots: seq<W>, i: nat, w: W, f: W -> multiset<T>)
    requires i < |slots| && f(slots[i]) == multiset{}
    ensures Gather(slots[i := w], f) == Gather(slots, f) + f(w)
  {
    GatherUpdate(slots, i, w, f);
  }

  lemma GatherLose<W, T>(slots: seq<W>, i: nat, w: W, f: W -> multiset<T>)
    requires i < |slots| && f(w) == multiset{}
    ensures Gather(slots[i := w], f) + f(slots[i]) == Gather(slots, f)
  {
    GatherUpdate(slots, i, w, f);
  }

  function Without<T>(s: seq<T>, i: nat): seq<T>
    requires i < |s|
  {
    s[..i] + s[i + 1..]
  }

  lemma BagWithout<T>(s: seq<T>, i: nat)
    requires i < |s|
    ensures multiset(s) == multiset(Without(s, i)) + multiset{s[i]}
  {
    assert s == s[..i] + [s[i]] + s[i + 1..];
  }

  lemma MapWithout<A, B>(f: A -> B, s: seq<A>, i: nat)
    requires i < |s|
    ensures multiset(Map(f, s)) == multiset(Map(f, Without(s, i))) + multiset{f(s[i])}
  {
    BagWithout(Map(f, s), i);
    assert Map(f, Without(s, i)) == Without(Map(f, s), i);
  }

  lemma BagPop<T>(s: seq<T>)
    requires s != []
    ensures multiset(s) == multiset{s[0]} + multiset(s[1..])
  {
    assert s == [s[0]] + s[1..];
  }

  lemma MapPush<A, B>(f: A -> B, s: seq<A>, x: A)
    ensures multiset(Map(f, s + [x])) == multiset(Map(f, s)) + multiset{f(x)}
  {
    assert Map(f, s + [x]) == Map(f, s) + [f(x)];
  }

  lemma MapPop<A, B>(f: A -> B, s: seq<A>)
    requires s != []
    ensures multiset(Map(f, s)) == multiset{f(s[0])} + multiset(Map(f, s[1..]))
  {
    assert Map(f, s) == [f(s[0])] + Map(f, s[1..]);
  }

  /** A permutation of the arguments permutes the results. */
  lemma {:induction false} MapKeepsPermutation<A, B>(f: A -> B, a: seq<A>, b: seq<A>)
    requires multiset(a) == multiset(b)
    ensures multiset(Map(f, a)) == multiset(Map(f, b))
    decreases |a|
  {
    if a == [] {
      assert |multiset(b)| == 0;
    } else {
      assert a[0] in multiset(b);
      var i :| 0 <= i < |b| && b[i] == a[0];
      BagWithout(a, 0);
      BagWithout(b, i);
      CancelBag(multiset(Without(a, 0)), multiset(Without(b, i)), multiset{a[0]});
      MapKeepsPermutation(f, Without(a, 0), Without(b, i));
      MapWithout(f, a, 0);
      MapWithout(f, b, i);
    }
  }

  /** A set has no more elements than a set that contains it. */
  lemma {:induction false} SubsetIsSmaller<T>(a: set<T>, b: set<T>)
    requires a <= b
    ensures |a| <= |b|
  {
    if a == {} {
    } else {
      var x :| x in a;
      SubsetIsSmaller(a - {x}, b - {x});
    }
  }

  /** The sequence holds the elements of the set, each once. */
  ghost predicate Orders(order: seq<string>, names: set<string>) {
    |order| == |names| && forall name :: name in order <==> name in names
  }
}
