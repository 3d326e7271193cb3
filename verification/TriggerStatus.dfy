/** The execution ids a trigger waits for: pkg/triggers/status.go, and the passes over them in scraper.go. */
module TriggerStatus {
  import opened Collections

  // ---------- the removal loop on values

  /** The ids other than the target, in order. */
  function Others(ids: seq<string>, target: string): seq<string> {
    if ids == [] then []
    else (if ids[0] == target then [] else [ids[0]]) + Others(ids[1..], target)
  }

  /** The cells when those behind i, up to the slice's length, have moved one to the left. */
  function Shifted(cells: seq<string>, i: nat, length: nat): (r: seq<string>)
    requires i < length <= |cells|
    ensures |r| == |cells|
  {
    cells[..i] + cells[i + 1..length] + cells[length - 1..]
  }

  lemma ShiftedPrefix(cells: seq<string>, i: nat, length: nat, n: nat)
    requires i < length <= n <= |cells|
    ensures Shifted(cells, i, length)[..n] == Shifted(cells[..n], i, length)
  {
  }

  /** The removal loop from index i on: the cells it ranges over, the slice's length, and None for a panic. */
  function RangeRemove(cells: seq<string>, length: nat, i: nat, target: string): Option<(seq<string>, nat)>
    requires length <= |cells|
    decreases |cells| - i
  {
    if i >= |cells| then Some((cells, length))
    else if cells[i] != target then RangeRemove(cells, length, i + 1, target)
    else if i + 1 > length then None
    else RangeRemove(Shifted(cells, i, length), length - 1, i + 1, target)
  }

  /** What the loop leaves: it does not look at the id that takes a removed one's place. */
  function Sweep(ids: seq<string>, target: string): seq<string> {
    if ids == [] then []
    else if ids[0] != target then [ids[0]] + Sweep(ids[1..], target)
    else if |ids| == 1 then []
    else [ids[1]] + Sweep(ids[2..], target)
  }

  /** The target is the last id and occurs before that, too. */
  predicate Breaks(ids: seq<string>, target: string) {
    ids != [] && ids[|ids| - 1] == target && target in ids[..|ids| - 1]
  }

  /** Once past the slice's end, the loop reads copies of the last id, and panics if that is the target. */
  lemma {:induction false} TailIsReadAgain(cells: seq<string>, length: nat, i: nat, last: string, target: string)
    requires length <= i <= |cells| && forall j | i <= j < |cells| :: cells[j] == last
    ensures RangeRemove(cells, length, i, target) ==
      (if i < |cells| && last == target then None else Some((cells, length)))
    decreases |cells| - i
  {
    if i == |cells| {
    } else {
      TailIsReadAgain(cells, length, i + 1, last, target);
    }
  }

  /** The loop in the middle: before is done, rest is to come, and behind the slice there are copies of the last id. */
  ghost predicate RemovalAt(
      before: seq<string>, rest: seq<string>, copies: seq<string>, last: string, target: string)
  {
    var r := RangeRemove(before + rest + copies, |before| + |rest|, |before|, target);
    && (r.None? <==> last == target && (copies != [] || (rest != [] && target in rest[..|rest| - 1])))
    && (r.Some? ==> r.value.1 <= |r.value.0| && r.value.0[..r.value.1] == before + Sweep(rest, target))
  }

  lemma ShiftedAt(before: seq<string>, rest: seq<string>, copies: seq<string>)
    requires rest != []
    ensures var shifted := Shifted(before + rest + copies, |before|, |before| + |rest|); var last := rest[|rest| - 1];
      && shifted == before + rest[1..] + ([last] + copies)
      && (|rest| > 1 ==> shifted == before + [rest[1]] + rest[2..] + ([last] + copies))
  {
    var cells, i, length := before + rest + copies, |before|, |before| + |rest|;
    assert cells[..i] == before && cells[i + 1..length] == rest[1..];
    assert cells[length - 1..] == [rest[|rest| - 1]] + copies;
    if |rest| > 1 {
      assert rest[1..] == [rest[1]] + rest[2..];
      Regroup(before, [rest[1]], rest[2..]);
    }
  }

  /** The loop has come to an occurrence of the target. */
  lemma RemovalHere(before: seq<string>, rest: seq<string>, copies: seq<string>, last: string, target: string)
    requires forall j | 0 <= j < |copies| :: copies[j] == last
    requires rest != [] && rest[0] == target && rest[|rest| - 1] == last
    ensures RemovalAt(before, rest, copies, last, target)
    decreases |rest|, 0
  {
    var cells, i, length := before + rest + copies, |before|, |before| + |rest|;
    var shifted := Shifted(cells, i, length);
    ShiftedAt(before, rest, copies);
    assert cells[i] == rest[0];
    if |rest| == 1 {
      assert forall j | i + 1 <= j < |shifted| :: shifted[j] == copies[j - i - 1];
      TailIsReadAgain(shifted, length - 1, i + 1, last, target);
    } else {
      RemovalFrom(before + [rest[1]], rest[2..], [last] + copies, last, target);
      Regroup(before, [rest[1]], Sweep(rest[2..], target));
      assert rest[..|rest| - 1][0] == target;
    }
  }

  lemma {:induction false} RemovalFrom(
      before: seq<string>, rest: seq<string>, copies: seq<string>, last: string, target: string)
    requires forall j | 0 <= j < |copies| :: copies[j] == last
    requires rest != [] ==> rest[|rest| - 1] == last
    ensures RemovalAt(before, rest, copies, last, target)
    decreases |rest|
  {
    var cells, i := before + rest + copies, |before|;
    if rest == [] {
      assert forall j | i <= j < |cells| :: cells[j] == copies[j - i];
      TailIsReadAgain(cells, i, i, last, target);
    } else if rest[0] != target {
      RemovalFrom(before + [rest[0]], rest[1..], copies, last, target);
      assert before + [rest[0]] + rest[1..] + copies == cells;
      Regroup(before, [rest[0]], Sweep(rest[1..], target));
    } else {
      RemovalHere(before, rest, copies, last, target);
    }
  }

  lemma NothingAround(ids: seq<string>)
    ensures [] + ids == ids && [] + ids + [] == ids
  {
  }

  /** The loop panics exactly when the target is the last id and occurs before that, too. */
  lemma RangeRemoveMeaning(ids: seq<string>, target: string)
    ensures var r := RangeRemove(ids, |ids|, 0, target);
      && (r.None? <==> Breaks(ids, target))
      && (r.Some? ==> r.value.1 <= |r.value.0| && r.value.0[..r.value.1] == Sweep(ids, target))
  {
    var last := if ids == [] then "" else ids[|ids| - 1];
    RemovalFrom([], ids, [], last, target);
    assert RemovalAt([], ids, [], last, target);
    NothingAround(ids);
    NothingAround(Sweep(ids, target));
  }

  ghost predicate AtMostOnce(ids: seq<string>, target: string) {
    forall i, j | 0 <= i < j < |ids| :: ids[i] != target || ids[j] != target
  }

  /** No two occurrences of the target are next to each other. */
  predicate Apart(ids: seq<string>, target: string) {
    forall i | 0 <= i < |ids| - 1 :: ids[i] != target || ids[i + 1] != target
  }

  lemma {:induction false} OthersHaveNone(ids: seq<string>, target: string)
    ensures target !in Others(ids, target)
  {
    if ids == [] {
    } else {
      OthersHaveNone(ids[1..], target);
    }
  }

  lemma SameHead(head: string, a: seq<string>, b: seq<string>)
    ensures [head] + a == [head] + b <==> a == b
  {
    assert ([head] + a)[1..] == a && ([head] + b)[1..] == b;
  }

  lemma ApartTail(ids: seq<string>, target: string)
    requires ids != []
    ensures Apart(ids, target) <==>
      (|ids| > 1 ==> ids[0] != target || ids[1] != target) && Apart(ids[1..], target)
  {
    var tail := ids[1..];
    if Apart(tail, target) {
      forall i | 1 <= i < |ids| - 1 ensures ids[i] != target || ids[i + 1] != target {
        assert tail[i - 1] != target || tail[i - 1 + 1] != target;
      }
    }
    if Apart(ids, target) {
      forall i | 0 <= i < |tail| - 1 ensures tail[i] != target || tail[i + 1] != target {
        assert ids[i + 1] != target || ids[i + 1 + 1] != target;
      }
    }
  }

  lemma SweepAtTarget(ids: seq<string>, target: string)
    requires |ids| >= 2 && ids[0] == target
    ensures Sweep(ids, target) == Others(ids, target) <==> Apart(ids, target)
    decreases |ids|, 0
  {
    var rest := ids[1..];
    assert rest[1..] == ids[2..] && Others(ids, target) == [] + Others(rest, target);
    if ids[1] == target {
      assert Sweep(ids, target)[0] == target;
      OthersHaveNone(ids, target);
    } else {
      SweepIsOthersIff(ids[2..], target);
      ApartTail(ids, target);
      ApartTail(rest, target);
      SameHead(ids[1], Sweep(ids[2..], target), Others(ids[2..], target));
    }
  }

  lemma {:induction false} SweepIsOthersIff(ids: seq<string>, target: string)
    ensures Sweep(ids, target) == Others(ids, target) <==> Apart(ids, target)
    decreases |ids|
  {
    if ids == [] {
    } else if ids[0] != target {
      SweepIsOthersIff(ids[1..], target);
      ApartTail(ids, target);
      SameHead(ids[0], Sweep(ids[1..], target), Others(ids[1..], target));
    } else if |ids| == 1 {
      assert Others(ids, target) == [] + Others(ids[1..], target);
    } else {
      SweepAtTarget(ids, target);
    }
  }

  /** The target occurs at most once, or it is not the last id and no two occurrences are next to each other. */
  ghost predicate IsRemovable(ids: seq<string>, target: string) {
    AtMostOnce(ids, target) || (ids[|ids| - 1] != target && Apart(ids, target))
  }

  /** The exact condition under which the loop stays in bounds and removes just the target. */
  lemma RemovalWorksIff(ids: seq<string>, target: string)
    ensures var r := RangeRemove(ids, |ids|, 0, target);
      (r.Some? && r.value.1 <= |r.value.0| && r.value.0[..r.value.1] == Others(ids, target))
      <==> IsRemovable(ids, target)
  {
    RangeRemoveMeaning(ids, target);
    SweepIsOthersIff(ids, target);
    if Breaks(ids, target) {
      var i :| 0 <= i < |ids| - 1 && ids[i] == target;
      assert !AtMostOnce(ids, target);
    } else if !AtMostOnce(ids, target) {
      var i, j :| 0 <= i < j < |ids| && ids[i] == target && ids[j] == target;
      assert ids[i] in ids[..|ids| - 1];
    } else {
      assert Apart(ids, target);
    }
  }

  /** Two lists on which the loop panics and leaves an occurrence, and one with the target twice that it gets right. */
  lemma DuplicatesBreakRemoval()
    ensures RangeRemove(["a", "a"], 2, 0, "a") == None
    ensures RangeRemove(["a", "a", "b"], 3, 0, "a").Some? && Sweep(["a", "a", "b"], "a") == ["a", "b"]
    ensures IsRemovable(["a", "b", "a", "c"], "a")
  {
    RangeRemoveMeaning(["a", "a"], "a");
    assert ["a", "a"][..1] == ["a"];
    RangeRemoveMeaning(["a", "a", "b"], "a");
    assert ["a", "a", "b"][2..] == ["b"] && ["b"][1..] == [];
    assert Sweep(["b"], "a") == ["b"];
  }

  /** A Go slice of ids: a length over a backing array that the slice owns. */
  class IdSlice {
    var backing: array<string>
    var length: nat

    ghost predicate Valid()
      reads this
    {
      length <= backing.Length
    }

    ghost function Ids(): seq<string>
      reads this, backing
      requires Valid()
    {
      backing[..length]
    }

    constructor ()
      ensures Valid() && Ids() == [] && fresh(backing)
    {
      backing := new string[0];
      length := 0;
    }

    /** append: in place while the capacity lasts, into a larger array after that. */
    method Add(id: string)
      requires Valid()
      modifies this, backing
      ensures Valid() && Ids() == old(Ids()) + [id]
      ensures backing == old(backing) || fresh(backing)
    {
      if length == backing.Length {
        var larger := new string[2 * length + 1](_ => "");
        for i := 0 to length
          modifies larger
          invariant larger[..i] == backing[..i]
        {
          larger[i] := backing[i];
        }
        backing := larger;
      }
      backing[length] := id;
      length := length + 1;
    }

    /** append(ids[:i], ids[i+1:]...): shifts the tail one to the left; the backing array keeps its last cell. */
    method CutAt(i: nat)
      requires Valid() && i < length
      modifies `length, backing
      ensures Valid() && length == old(length) - 1
      ensures backing[..] == Shifted(old(backing[..]), i, old(length))
    {
      ghost var was := backing[..];
      for k := i to length - 1
        modifies backing
        invariant forall j | 0 <= j < i :: backing[j] == was[j]
        invariant forall j | i <= j < k :: backing[j] == was[j + 1]
        invariant forall j | k <= j < backing.Length :: backing[j] == was[j]
      {
        backing[k] := backing[k + 1];
      }
      assert backing[..] == Shifted(was, i, length);
      length := length - 1;
    }

    /**
     * The removal loop. It ranges over the slice it was entered with while the body shifts that same backing array to
     * the left under it. It is not ok when it panics.
     */
    method Remove(targetId: string) returns (ok: bool)
      requires Valid()
      modifies `length, backing
      ensures Valid()
      ensures var r := RangeRemove(old(Ids()), |old(Ids())|, 0, targetId);
        (ok <==> r.Some?) && (ok ==> length == r.value.1 <= |r.value.0| && Ids() == r.value.0[..length])
    {
      ghost var whole := RangeRemove(Ids(), length, 0, targetId);
      var ranged, n := backing, length;
      for i := 0 to n
        modifies `length, backing
        invariant length <= n && RangeRemove(backing[..n], length, i, targetId) == whole
      {
        var id := ranged[i];
        if id == targetId {
          if i + 1 > length {
            return false;
          }
          ghost var cells := backing[..];
          ShiftedPrefix(cells, i, length, n);
          CutAt(i);
        }
      }
      ok := true;
    }

    /** A copy in an array of its own, so later removals do not disturb it. */
    method Copy() returns (copy: array<string>)
      requires Valid()
      ensures fresh(copy) && copy[..] == Ids()
    {
      copy := new string[length](_ => "");
      for i := 0 to length
        modifies copy
        invariant copy[..i] == backing[..i]
      {
        copy[i] := backing[i];
      }
      assert copy[..] == copy[..length];
    }
  }

  /** removeExecutionID: removing in place is right exactly under that condition. */
  method RemoveExecutionId(ids: IdSlice, target: string) returns (ok: bool)
    requires ids.Valid()
    modifies ids`length, ids.backing
    ensures ids.Valid()
    ensures ok && ids.Ids() == Others(old(ids.Ids()), target) <==> IsRemovable(old(ids.Ids()), target)
  {
    RemovalWorksIff(ids.Ids(), target);
    ok := ids.Remove(target);
  }

  // ---------- the scraper's passes

  /** What the repository says about an id: no document, an error, or whether the execution is running or queued. */
  datatype Lookup = NoDocuments | ReadError | Execution(active: bool)

  /** A scraper pass drops an id once its execution is over or unknown. */
  function Over(lookup: string -> Lookup): string -> bool {
    id => lookup(id).NoDocuments? || (lookup(id).Execution? && !lookup(id).active)
  }

  /** The abort pass drops an id when it is unknown, or when it was active and could be aborted. */
  function Dropped(lookup: string -> Lookup, abort: string -> bool): string -> bool {
    id => lookup(id).NoDocuments? || (lookup(id).Execution? && lookup(id).active && abort(id))
  }

  /** The ids that are not dropped, in order. */
  function Kept(ids: seq<string>, drop: string -> bool): seq<string> {
    if ids == [] then []
    else (if drop(ids[0]) then [] else [ids[0]]) + Kept(ids[1..], drop)
  }

  /** The last id is to be dropped and occurs before that, too. */
  predicate PassBreaks(ids: seq<string>, drop: string -> bool) {
    ids != [] && drop(ids[|ids| - 1]) && ids[|ids| - 1] in ids[..|ids| - 1]
  }

  lemma {:induction false} KeptAreIds(ids: seq<string>, drop: string -> bool, id: string)
    ensures id in Kept(ids, drop) <==> id in ids && !drop(id)
  {
    if ids == [] {
    } else {
      KeptAreIds(ids[1..], drop, id);
      assert ids == [ids[0]] + ids[1..];
    }
  }

  /** Nothing is kept exactly when everything is to be dropped. */
  lemma {:induction false} NothingKept(ids: seq<string>, drop: string -> bool)
    ensures Kept(ids, drop) == [] <==> forall id | id in ids :: drop(id)
  {
    forall id | id in ids ensures id in Kept(ids, drop) <==> !drop(id) {
      KeptAreIds(ids, drop, id);
    }
    if Kept(ids, drop) != [] {
      KeptAreIds(ids, drop, Kept(ids, drop)[0]);
    }
  }

  lemma {:induction false} AllKept(ids: seq<string>, drop: string -> bool)
    requires forall id | id in ids :: !drop(id)
    ensures Kept(ids, drop) == ids
  {
    if ids == [] {
    } else {
      assert ids[0] in ids;
      AllKept(ids[1..], drop);
    }
  }

  /** However little a removal gets right, it takes away nothing that is to be kept. */
  lemma {:induction false} SweepKeeps(ids: seq<string>, target: string, drop: string -> bool)
    requires drop(target)
    ensures Kept(Sweep(ids, target), drop) == Kept(ids, drop)
    decreases |ids|
  {
    if ids == [] {
    } else if ids[0] != target {
      SweepKeeps(ids[1..], target, drop);
      assert Sweep(ids, target)[1..] == Sweep(ids[1..], target);
    } else if |ids| == 1 {
      assert Kept(ids[1..], drop) == [];
    } else {
      SweepKeeps(ids[2..], target, drop);
      assert Sweep(ids, target)[1..] == Sweep(ids[2..], target);
      assert ids[1..][1..] == ids[2..];
      assert Kept(ids, drop) == [] + Kept(ids[1..], drop);
    }
  }

  /** ... and at least one occurrence of its target. */
  lemma {:induction false} SweepCounts(ids: seq<string>, target: string, id: string)
    ensures id != target ==> multiset(Sweep(ids, target))[id] == multiset(ids)[id]
    ensures multiset(Sweep(ids, target))[target] <= multiset(ids)[target]
    ensures target in ids ==> multiset(Sweep(ids, target))[target] < multiset(ids)[target]
    decreases |ids|
  {
    if ids == [] {
    } else if ids[0] != target {
      BagPop(ids);
      SweepCounts(ids[1..], target, id);
      BagPop(Sweep(ids, target));
      assert Sweep(ids, target)[1..] == Sweep(ids[1..], target);
    } else if |ids| == 1 {
    } else {
      BagPop(ids);
      BagPop(ids[1..]);
      assert ids[1..][1..] == ids[2..];
      SweepCounts(ids[2..], target, id);
      BagPop(Sweep(ids, target));
      assert Sweep(ids, target)[1..] == Sweep(ids[2..], target);
    }
  }

  lemma {:induction false} SweepKeepsLast(ids: seq<string>, target: string)
    requires ids != [] && ids[|ids| - 1] != target
    ensures Sweep(ids, target) != [] && Sweep(ids, target)[|Sweep(ids, target)| - 1] == ids[|ids| - 1]
    decreases |ids|
  {
    if ids[0] != target {
      if |ids| == 1 {
      } else {
        SweepKeepsLast(ids[1..], target);
      }
    } else if |ids| == 2 {
    } else {
      SweepKeepsLast(ids[2..], target);
    }
  }

  /** Until it is dropped, the last id stays the last one; and a pass that is bound to break has not come to it yet. */
  ghost predicate LastStays(ids: seq<string>, k: nat, drop: string -> bool, list: seq<string>)
    requires ids != [] && k <= |ids|
  {
    var last := ids[|ids| - 1];
    && (k < |ids| || !drop(last) ==> list != [] && list[|list| - 1] == last)
    && (last !in ids[..k] ==> multiset(list)[last] == multiset(ids)[last])
    && (PassBreaks(ids, drop) ==> last !in ids[..k])
  }

  /** The list in the middle of a pass over ids, when the first k of them were dealt with and nothing has panicked. */
  ghost predicate MidPass(ids: seq<string>, k: nat, drop: string -> bool, list: seq<string>)
    requires ids != [] && k <= |ids|
  {
    && Kept(list, drop) == Kept(ids, drop)
    && (forall id | drop(id) :: multiset(list)[id] <= multiset(ids[k..])[id])
    && LastStays(ids, k, drop, list)
  }

  lemma PassStarts(ids: seq<string>, drop: string -> bool)
    requires ids != []
    ensures MidPass(ids, 0, drop, ids)
  {
    assert ids[0..] == ids;
  }

  lemma CountsOfRest(ids: seq<string>, k: nat, id: string)
    requires k < |ids|
    ensures multiset(ids[k..])[id] == multiset(ids[k + 1..])[id] + (if id == ids[k] then 1 else 0)
  {
    assert ids[k..] == [ids[k]] + ids[k + 1..];
  }

  lemma PassSkips(ids: seq<string>, k: nat, drop: string -> bool, list: seq<string>)
    requires k < |ids| && MidPass(ids, k, drop, list) && !drop(ids[k])
    ensures MidPass(ids, k + 1, drop, list)
  {
    assert ids[..k + 1] == ids[..k] + [ids[k]];
    forall id | drop(id) ensures multiset(list)[id] <= multiset(ids[k + 1..])[id] { CountsOfRest(ids, k, id); }
  }

  /** Dropping the next id panics exactly when it is the last one and the pass is bound to break. */
  lemma DropBreaksIff(ids: seq<string>, k: nat, drop: string -> bool, list: seq<string>)
    requires k < |ids| && MidPass(ids, k, drop, list) && drop(ids[k])
    ensures Breaks(list, ids[k]) <==> ids[k] == ids[|ids| - 1] && PassBreaks(ids, drop)
  {
    var last := ids[|ids| - 1];
    assert list == list[..|list| - 1] + [last];
    assert ids == ids[..|ids| - 1] + [last];
    if ids[k] == last && last !in ids[..|ids| - 1] {
      assert forall j: nat | j < |ids| - 1 :: ids[..|ids| - 1][j] == ids[j];
      assert ids[k..] == [last];
    }
  }

  lemma DropCounts(ids: seq<string>, k: nat, drop: string -> bool, list: seq<string>, id: string)
    requires k < |ids| && MidPass(ids, k, drop, list) && drop(id)
    ensures multiset(Sweep(list, ids[k]))[id] <= multiset(ids[k + 1..])[id]
  {
    SweepCounts(list, ids[k], id);
    CountsOfRest(ids, k, id);
  }

  lemma LastStaysAfterDrop(ids: seq<string>, k: nat, drop: string -> bool, list: seq<string>)
    requires k < |ids| && LastStays(ids, k, drop, list)
    requires ids[k] == ids[|ids| - 1] ==> drop(ids[k]) && !PassBreaks(ids, drop)
    ensures LastStays(ids, k + 1, drop, Sweep(list, ids[k]))
  {
    assert ids[..k + 1] == ids[..k] + [ids[k]];
    if ids[k] != ids[|ids| - 1] {
      SweepKeepsLast(list, ids[k]);
      SweepCounts(list, ids[k], ids[|ids| - 1]);
    } else {
      assert forall j: nat | j < |ids| - 1 :: ids[..|ids| - 1][j] == ids[j];
    }
  }

  lemma PassDrops(ids: seq<string>, k: nat, drop: string -> bool, list: seq<string>)
    requires k < |ids| && MidPass(ids, k, drop, list) && drop(ids[k]) && !Breaks(list, ids[k])
    ensures MidPass(ids, k + 1, drop, Sweep(list, ids[k]))
  {
    DropBreaksIff(ids, k, drop, list);
    LastStaysAfterDrop(ids, k, drop, list);
    SweepKeeps(list, ids[k], drop);
    forall id | drop(id) ensures multiset(Sweep(list, ids[k]))[id] <= multiset(ids[k + 1..])[id] {
      DropCounts(ids, k, drop, list, id);
    }
  }

  lemma PassEnds(ids: seq<string>, drop: string -> bool, list: seq<string>)
    requires ids != [] && MidPass(ids, |ids|, drop, list)
    ensures list == Kept(ids, drop) && !PassBreaks(ids, drop)
  {
    assert ids[..|ids|] == ids;
    forall id | id in list ensures !drop(id) { assert multiset(list)[id] > 0; }
    AllKept(list, drop);
  }

  /** One id of a pass, and whether dealing with it went well. */
  ghost predicate Handled(before: seq<string>, after: seq<string>, id: string, drop: bool, ok: bool) {
    if drop then (ok <==> !Breaks(before, id)) && (ok ==> after == Sweep(before, id))
    else ok && after == before
  }

  method CheckOne(ids: IdSlice, id: string, lookup: string -> Lookup) returns (ok: bool)
    requires ids.Valid()
    modifies ids`length, ids.backing
    ensures ids.Valid() && Handled(old(ids.Ids()), ids.Ids(), id, Over(lookup)(id), ok)
  {
    RangeRemoveMeaning(ids.Ids(), id);
    ok := true;
    match lookup(id) {
      case NoDocuments => ok := ids.Remove(id);
      case ReadError =>
      case Execution(active) =>
        if !active {
          ok := ids.Remove(id);
        }
    }
  }

  method AbortOne(ids: IdSlice, id: string, lookup: string -> Lookup, abort: string -> bool) returns (ok: bool)
    requires ids.Valid()
    modifies ids`length, ids.backing
    ensures ids.Valid() && Handled(old(ids.Ids()), ids.Ids(), id, Dropped(lookup, abort)(id), ok)
  {
    RangeRemoveMeaning(ids.Ids(), id);
    ok := true;
    match lookup(id) {
      case NoDocuments => ok := ids.Remove(id);
      case ReadError =>
      case Execution(active) =>
        if active && abort(id) {
          ok := ids.Remove(id);
        }
    }
  }

  lemma PassGoesOn(
      ids: seq<string>, k: nat, drop: string -> bool, before: seq<string>, after: seq<string>, ok: bool)
    requires k < |ids| && MidPass(ids, k, drop, before) && Handled(before, after, ids[k], drop(ids[k]), ok)
    ensures ok ==> MidPass(ids, k + 1, drop, after)
    ensures !ok ==> PassBreaks(ids, drop)
  {
    if drop(ids[k]) {
      DropBreaksIff(ids, k, drop, before);
      if ok { PassDrops(ids, k, drop, before); }
    } else {
      PassSkips(ids, k, drop, before);
    }
  }

  /**
   * checkForRunningTestExecutions: leaves exactly the ids whose execution is running, queued or could not be read,
   * in their order; it panics exactly when the last id is to be dropped and occurs before that, too.
   */
  method CheckForRunning(ids: IdSlice, lookup: string -> Lookup) returns (ok: bool)
    requires ids.Valid()
    modifies ids`length, ids.backing
    ensures ids.Valid() && (ok <==> !PassBreaks(old(ids.Ids()), Over(lookup)))
    ensures ok ==> ids.Ids() == Kept(old(ids.Ids()), Over(lookup))
  {
    ghost var was, drop := ids.Ids(), Over(lookup);
    var copy := ids.Copy();
    var executionIds := copy[..];
    if was != [] { PassStarts(was, drop); }
    for k := 0 to |executionIds|
      modifies ids`length, ids.backing
      invariant ids.Valid() && (if was == [] then ids.Ids() == [] else MidPass(was, k, drop, ids.Ids()))
    {
      ghost var before := ids.Ids();
      ok := CheckOne(ids, executionIds[k], lookup);
      PassGoesOn(was, k, drop, before, ids.Ids(), ok);
      if !ok {
        return;
      }
    }
    if was != [] { PassEnds(was, drop, ids.Ids()); }
    ok := true;
  }

  /** abortRunningTestExecutions: what it could neither abort nor find missing stays, finished executions included. */
  method AbortRunning(ids: IdSlice, lookup: string -> Lookup, abort: string -> bool) returns (ok: bool)
    requires ids.Valid()
    modifies ids`length, ids.backing
    ensures ids.Valid() && (ok <==> !PassBreaks(old(ids.Ids()), Dropped(lookup, abort)))
    ensures ok ==> ids.Ids() == Kept(old(ids.Ids()), Dropped(lookup, abort))
  {
    ghost var was, drop := ids.Ids(), Dropped(lookup, abort);
    var copy := ids.Copy();
    var executionIds := copy[..];
    if was != [] { PassStarts(was, drop); }
    for k := 0 to |executionIds|
      modifies ids`length, ids.backing
      invariant ids.Valid() && (if was == [] then ids.Ids() == [] else MidPass(was, k, drop, ids.Ids()))
    {
      ghost var before := ids.Ids();
      ok := AbortOne(ids, executionIds[k], lookup, abort);
      PassGoesOn(was, k, drop, before, ids.Ids(), ok);
      if !ok {
        return;
      }
    }
    if was != [] { PassEnds(was, drop, ids.Ids()); }
    ok := true;
  }

  /** A scraper pass keeps exactly the ids whose execution is active or could not be read. */
  lemma CheckKeepsIff(ids: seq<string>, lookup: string -> Lookup, id: string)
    ensures id in Kept(ids, Over(lookup)) <==> id in ids && lookup(id) in {ReadError, Execution(true)}
  {
    KeptAreIds(ids, Over(lookup), id);
  }

  /** An abort pass keeps those that are over, that could not be read, or that it could not abort. */
  lemma AbortKeepsIff(ids: seq<string>, lookup: string -> Lookup, abort: string -> bool, id: string)
    ensures id in Kept(ids, Dropped(lookup, abort)) <==>
      && id in ids
      && (lookup(id) in {ReadError, Execution(false)} || (lookup(id) == Execution(true) && !abort(id)))
  {
    KeptAreIds(ids, Dropped(lookup, abort), id);
  }

  /** A scraper pass panics exactly when the last id is over or unknown and occurs before that, too. */
  lemma CheckPanicsIff(ids: seq<string>, lookup: string -> Lookup)
    ensures PassBreaks(ids, Over(lookup)) <==>
      ids != [] &&
      var n := |ids| - 1;
      lookup(ids[n]) in {NoDocuments, Execution(false)} && exists i :: 0 <= i < n && ids[i] == ids[n]
  {
    if ids != [] {
      var n := |ids| - 1;
      assert ids[n] in ids[..n] <==> exists i :: 0 <= i < n && ids[i] == ids[n];
    }
  }

  /** An abort pass does when the last id is unknown or was active and could be aborted. */
  lemma AbortPanicsIff(ids: seq<string>, lookup: string -> Lookup, abort: string -> bool)
    ensures PassBreaks(ids, Dropped(lookup, abort)) <==>
      ids != [] &&
      var n := |ids| - 1;
      && (lookup(ids[n]) == NoDocuments || (lookup(ids[n]) == Execution(true) && abort(ids[n])))
      && exists i :: 0 <= i < n && ids[i] == ids[n]
  {
    if ids != [] {
      var n := |ids| - 1;
      assert ids[n] in ids[..n] <==> exists i :: 0 <= i < n && ids[i] == ids[n];
    }
  }

  /** A pass over ids that occur once each never panics. */
  lemma DistinctIdsAreSafe(ids: seq<string>, drop: string -> bool)
    requires Distinct(ids)
    ensures !PassBreaks(ids, drop)
  {
  }

  /** Two runs that failed before they had an execution leave two empty ids, and the next pass panics. */
  lemma TwoFailedRunsBreakThePass(lookup: string -> Lookup)
    requires lookup("") == NoDocuments
    ensures PassBreaks(["", ""], Over(lookup))
  {
    assert ["", ""][..1] == [""];
  }

  /** The status object: both id lists, and when the last batch of executions was found finished. */
  class TriggerStatus {
    const tests: IdSlice
    const suites: IdSlice
    var lastExecutionFinished: Option<int>

    ghost predicate Valid()
      reads this, tests, suites
    {
      tests != suites && tests.Valid() && suites.Valid() && tests.backing != suites.backing
    }

    constructor ()
      ensures Valid() && tests.Ids() == [] && suites.Ids() == [] && lastExecutionFinished == None
    {
      tests := new IdSlice();
      suites := new IdSlice();
      lastExecutionFinished := None;
    }

    predicate HasActiveTests()
      reads this, tests, suites
    {
      tests.length > 0 || suites.length > 0
    }

    /** The scraper's tick for one trigger: it is marked finished when its last active execution is over. */
    method Scrape(lookupTest: string -> Lookup, lookupSuite: string -> Lookup, now: int) returns (ok: bool)
      requires Valid()
      modifies this, tests`length, tests.backing, suites`length, suites.backing
      ensures Valid()
      ensures ok <==>
        !PassBreaks(old(tests.Ids()), Over(lookupTest)) && !PassBreaks(old(suites.Ids()), Over(lookupSuite))
      ensures ok ==> tests.Ids() == Kept(old(tests.Ids()), Over(lookupTest))
      ensures ok ==> suites.Ids() == Kept(old(suites.Ids()), Over(lookupSuite))
      ensures lastExecutionFinished ==
        (if ok && old(HasActiveTests()) && !HasActiveTests() then Some(now) else old(lastExecutionFinished))
      ensures ok ==>
        lastExecutionFinished ==
          if (old(tests.Ids()) != [] || old(suites.Ids()) != [])
            && (forall id | id in old(tests.Ids()) :: lookupTest(id) in {NoDocuments, Execution(false)})
            && (forall id | id in old(suites.Ids()) :: lookupSuite(id) in {NoDocuments, Execution(false)})
          then Some(now) else old(lastExecutionFinished)
    {
      NothingKept(tests.Ids(), Over(lookupTest));
      NothingKept(suites.Ids(), Over(lookupSuite));
      if HasActiveTests() {
        ok := CheckForRunning(tests, lookupTest);
        if !ok {
          return;
        }
        ok := CheckForRunning(suites, lookupSuite);
        if !ok {
          return;
        }
        if !HasActiveTests() {
          lastExecutionFinished := Some(now);
        }
      } else {
        assert tests.Ids() == [] && suites.Ids() == [];
        ok := true;
      }
    }

    /** abortExecutions: unlike the scraper it marks a trigger finished even when there was nothing to abort. */
    method AbortExecutions(
        lookupTest: string -> Lookup, abortTest: string -> bool, lookupSuite: string -> Lookup,
        abortSuite: string -> bool, now: int)
      returns (ok: bool)
      requires Valid()
      modifies this, tests`length, tests.backing, suites`length, suites.backing
      ensures Valid()
      ensures ok <==>
        && !PassBreaks(old(tests.Ids()), Dropped(lookupTest, abortTest))
        && !PassBreaks(old(suites.Ids()), Dropped(lookupSuite, abortSuite))
      ensures ok ==> tests.Ids() == Kept(old(tests.Ids()), Dropped(lookupTest, abortTest))
      ensures ok ==> suites.Ids() == Kept(old(suites.Ids()), Dropped(lookupSuite, abortSuite))
      ensures lastExecutionFinished == (if ok && !HasActiveTests() then Some(now) else old(lastExecutionFinished))
      ensures ok ==> (tests.Ids() == [] && suites.Ids() == [] <==> !HasActiveTests())
    {
      ok := AbortRunning(tests, lookupTest, abortTest);
      if !ok {
        return;
      }
      ok := AbortRunning(suites, lookupSuite, abortSuite);
      if !ok {
        return;
      }
      if !HasActiveTests() {
        lastExecutionFinished := Some(now);
      }
    }
  }
}
