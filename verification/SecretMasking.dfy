/**
 * Masking secrets in the runner's output: ObfuscateSecrets of pkg/executor/env/manager.go and JSONWrapWriter.Write of
 * pkg/executor/output/writer.go.
 */
module SecretMasking {
  import opened Collections

  newtype Byte = x: int | 0 <= x < 256

  type Bytes = seq<Byte>

  const STAR: Byte := 42

  function Stars(n: nat): Bytes { seq(n, _ => STAR) }

  predicate OccursAt(p: Bytes, s: Bytes, j: nat) {
    j + |s| <= |p| && p[j..j + |s|] == s
  }

  ghost predicate Occurs(p: Bytes, s: Bytes) {
    exists j: nat :: OccursAt(p, s, j)
  }

  // ---------- bytes.ReplaceAll

  /** From start on, the leftmost occurrences that do not overlap are replaced. An empty sought occurs nowhere here. */
  function ReplacedFrom(p: Bytes, start: nat, sought: Bytes, replacement: Bytes): Bytes
    requires start <= |p|
    decreases |p| - start
  {
    if sought == [] || start + |sought| > |p| then p[start..]
    else if OccursAt(p, sought, start) then replacement + ReplacedFrom(p, start + |sought|, sought, replacement)
    else [p[start]] + ReplacedFrom(p, start + 1, sought, replacement)
  }

  function Replaced(p: Bytes, sought: Bytes, replacement: Bytes): Bytes { ReplacedFrom(p, 0, sought, replacement) }

  ghost predicate NoneFrom(p: Bytes, s: Bytes, start: nat) {
    forall i: nat | start <= i :: !OccursAt(p, s, i)
  }

  /** The first occurrence from start on is the one at j. */
  ghost predicate FirstFrom(p: Bytes, s: Bytes, start: nat, j: nat) {
    start <= j && OccursAt(p, s, j) && forall i: nat | start <= i < j :: !OccursAt(p, s, i)
  }

  /** The first occurrence from start on, if there is one. */
  ghost predicate Located(p: Bytes, s: Bytes, start: nat, at: Option<nat>) {
    if at.None? then NoneFrom(p, s, start) else FirstFrom(p, s, start, at.value)
  }

  method Index(p: Bytes, s: Bytes, start: nat) returns (at: Option<nat>)
    requires start <= |p|
    ensures Located(p, s, start, at)
  {
    var j := start;
    while j + |s| <= |p|
      invariant forall i: nat | start <= i < j :: !OccursAt(p, s, i)
    {
      if p[j..j + |s|] == s {
        return Some(j);
      }
      j := j + 1;
    }
    return None;
  }

  lemma Prepend(q: Bytes, whole: Bytes, a: Bytes, b: Bytes, rest: Bytes)
    requires whole == a + b + rest
    ensures q + whole == q + a + b + rest
  {
    Regroup(q, a + b, rest);
    Regroup(q, a, b);
  }

  lemma {:induction false} ReplacedAtFirst(p: Bytes, start: nat, s: Bytes, replacement: Bytes, j: nat)
    requires s != [] && FirstFrom(p, s, start, j)
    ensures ReplacedFrom(p, start, s, replacement) ==
      p[start..j] + replacement + ReplacedFrom(p, j + |s|, s, replacement)
    decreases j - start
  {
    if start == j {
      assert p[start..j] + replacement == replacement;
    } else {
      ReplacedAtFirst(p, start + 1, s, replacement, j);
      var rest := ReplacedFrom(p, j + |s|, s, replacement);
      assert p[start..j] == [p[start]] + p[start + 1..j];
      Prepend([p[start]], p[start + 1..j] + replacement + rest, p[start + 1..j], replacement, rest);
    }
  }

  lemma {:induction false} ReplacedNowhere(p: Bytes, start: nat, s: Bytes, replacement: Bytes)
    requires start <= |p| && NoneFrom(p, s, start)
    ensures ReplacedFrom(p, start, s, replacement) == p[start..]
    decreases |p| - start
  {
    if s != [] && start + |s| <= |p| {
      ReplacedNowhere(p, start + 1, s, replacement);
    }
  }

  /** So far the output is done, and is the beginning of the whole. */
  ghost predicate Done(p: Bytes, sought: Bytes, replacement: Bytes, q: Bytes, start: nat) {
    start <= |p| && q + ReplacedFrom(p, start, sought, replacement) == Replaced(p, sought, replacement)
  }

  lemma ReplaceStep(p: Bytes, s: Bytes, replacement: Bytes, q: Bytes, start: nat, j: nat)
    requires s != [] && Done(p, s, replacement, q, start) && FirstFrom(p, s, start, j)
    ensures Done(p, s, replacement, q + (p[start..j] + replacement), j + |s|)
  {
    ReplacedAtFirst(p, start, s, replacement, j);
    Regroup(q, p[start..j] + replacement, ReplacedFrom(p, j + |s|, s, replacement));
  }

  lemma ReplaceLast(p: Bytes, s: Bytes, replacement: Bytes, q: Bytes, start: nat)
    requires Done(p, s, replacement, q, start) && NoneFrom(p, s, start)
    ensures q + p[start..] == Replaced(p, s, replacement)
  {
    ReplacedNowhere(p, start, s, replacement);
  }

  /** One turn of the loop, which is the last one if there is nothing more to replace. */
  method ReplaceOnce(p: Bytes, sought: Bytes, replacement: Bytes, q: Bytes, start: nat)
    returns (more: bool, extended: Bytes, next: nat)
    requires sought != [] && Done(p, sought, replacement, q, start)
    ensures more ==> next > start && Done(p, sought, replacement, extended, next)
    ensures !more ==> extended == Replaced(p, sought, replacement)
  {
    var at := Index(p, sought, start);
    if at.None? {
      ReplaceLast(p, sought, replacement, q, start);
      return false, q + p[start..], start;
    }
    ReplaceStep(p, sought, replacement, q, start, at.value);
    return true, q + (p[start..at.value] + replacement), at.value + |sought|;
  }

  method ReplaceAll(p: Bytes, sought: Bytes, replacement: Bytes) returns (q: Bytes)
    requires sought == [] ==> replacement == []
    ensures q == Replaced(p, sought, replacement)
  {
    if sought == [] {
      return p;
    }
    var more, start: nat := true, 0;
    q := [];
    while more
      invariant if more then Done(p, sought, replacement, q, start) else q == Replaced(p, sought, replacement)
      decreases more, |p| - start
    {
      more, q, start := ReplaceOnce(p, sought, replacement, q, start);
    }
  }

  // ---------- one secret

  function MaskFrom(p: Bytes, start: nat, s: Bytes): Bytes
    requires start <= |p|
  {
    ReplacedFrom(p, start, s, Stars(|s|))
  }

  function Mask(p: Bytes, s: Bytes): Bytes { Replaced(p, s, Stars(|s|)) }

  /** q is p with some bytes starred out. */
  ghost predicate Covers(q: Bytes, p: Bytes) {
    |q| == |p| && forall k | 0 <= k < |p| :: q[k] == p[k] || q[k] == STAR
  }

  lemma {:induction false} MaskFromCovers(p: Bytes, start: nat, s: Bytes)
    requires start <= |p|
    ensures Covers(MaskFrom(p, start, s), p[start..])
    decreases |p| - start
  {
    if s == [] || start + |s| > |p| {
    } else if OccursAt(p, s, start) {
      MaskFromCovers(p, start + |s|, s);
    } else {
      MaskFromCovers(p, start + 1, s);
    }
  }

  lemma MaskCovers(p: Bytes, s: Bytes)
    ensures Covers(Mask(p, s), p)
  {
    MaskFromCovers(p, 0, s);
  }

  /**
   * These are the positions that bytes.ReplaceAll replaces: occurrences that do not overlap, and every occurrence that
   * is not among them overlaps an earlier one of them.
   */
  ghost predicate Leftmost(p: Bytes, s: Bytes, chosen: set<nat>) {
    && (forall c | c in chosen :: OccursAt(p, s, c))
    && (forall c, e | c in chosen && e in chosen && c < e :: c + |s| <= e)
    && (forall x: nat | OccursAt(p, s, x) && x !in chosen :: exists c :: c in chosen && c <= x < c + |s|)
  }

  /** Position k lies within a chosen occurrence. */
  ghost predicate Hit(chosen: set<nat>, n: nat, k: nat) {
    exists c :: c in chosen && c <= k < c + n
  }

  /** No chosen occurrence reaches over this position. */
  ghost predicate ClearAt(chosen: set<nat>, n: nat, start: nat) {
    forall c | c in chosen && c < start :: c + n <= start
  }

  lemma ChosenAt(p: Bytes, s: Bytes, chosen: set<nat>, start: nat)
    requires s != [] && Leftmost(p, s, chosen) && ClearAt(chosen, |s|, start)
    ensures start in chosen <==> OccursAt(p, s, start)
    ensures ClearAt(chosen, |s|, if OccursAt(p, s, start) then start + |s| else start + 1)
  {
    if OccursAt(p, s, start) && start !in chosen {
      assert false;
    }
  }

  lemma MaskStep(p: Bytes, start: nat, s: Bytes, k: nat)
    requires s != [] && start <= k < |p|
    ensures |MaskFrom(p, start, s)| == |p| - start
    ensures MaskFrom(p, start, s)[k - start] ==
      if start + |s| > |p| then p[k]
      else if OccursAt(p, s, start) then
        if k < start + |s| then STAR
        else (MaskFromCovers(p, start + |s|, s); MaskFrom(p, start + |s|, s)[k - start - |s|])
      else if k == start then p[k]
      else (MaskFromCovers(p, start + 1, s); MaskFrom(p, start + 1, s)[k - start - 1])
  {
    MaskFromCovers(p, start, s);
    if start + |s| <= |p| {
      if OccursAt(p, s, start) {
        assert MaskFrom(p, start, s) == Stars(|s|) + MaskFrom(p, start + |s|, s);
      } else {
        assert MaskFrom(p, start, s) == [p[start]] + MaskFrom(p, start + 1, s);
      }
    }
  }

  lemma {:induction false} MaskedFrom(p: Bytes, start: nat, s: Bytes, chosen: set<nat>, k: nat)
    requires s != [] && Leftmost(p, s, chosen) && ClearAt(chosen, |s|, start) && start <= k < |p|
    ensures |MaskFrom(p, start, s)| == |p| - start
    ensures MaskFrom(p, start, s)[k - start] == if Hit(chosen, |s|, k) then STAR else p[k]
    decreases |p| - start
  {
    MaskStep(p, start, s, k);
    ChosenAt(p, s, chosen, start);
    if start + |s| > |p| {
      assert !Hit(chosen, |s|, k);
    } else if OccursAt(p, s, start) {
      if k < start + |s| {
        assert Hit(chosen, |s|, k);
      } else {
        MaskedFrom(p, start + |s|, s, chosen, k);
      }
    } else if k == start {
      assert !Hit(chosen, |s|, k);
    } else {
      MaskedFrom(p, start + 1, s, chosen, k);
    }
  }

  /** As Leftmost, for the occurrences from start on. */
  ghost predicate LeftmostFrom(p: Bytes, start: nat, s: Bytes, chosen: set<nat>) {
    && (forall c | c in chosen :: c >= start && OccursAt(p, s, c))
    && (forall c, e | c in chosen && e in chosen && c < e :: c + |s| <= e)
    && (forall x: nat | x >= start && OccursAt(p, s, x) && x !in chosen :: Hit(chosen, |s|, x))
  }

  lemma ChooseFirst(p: Bytes, start: nat, s: Bytes, rest: set<nat>)
    requires s != [] && OccursAt(p, s, start) && LeftmostFrom(p, start + |s|, s, rest)
    ensures LeftmostFrom(p, start, s, {start} + rest)
  {
    var chosen := {start} + rest;
    forall x: nat | x >= start && OccursAt(p, s, x) && x !in chosen ensures Hit(chosen, |s|, x) {
      if x < start + |s| {
        assert start in chosen;
      } else {
        var c :| c in rest && c <= x < c + |s|;
        assert c in chosen;
      }
    }
  }

  lemma {:induction false} ChosenFrom(p: Bytes, start: nat, s: Bytes) returns (chosen: set<nat>)
    requires s != [] && start <= |p|
    ensures LeftmostFrom(p, start, s, chosen)
    decreases |p| - start
  {
    if start + |s| > |p| {
      chosen := {};
    } else if OccursAt(p, s, start) {
      var rest := ChosenFrom(p, start + |s|, s);
      chosen := {start} + rest;
      ChooseFirst(p, start, s, rest);
    } else {
      chosen := ChosenFrom(p, start + 1, s);
    }
  }

  /** A byte of the masked input is a star exactly if it was one or lies within a replaced occurrence. */
  lemma MaskedIff(p: Bytes, s: Bytes)
    requires s != []
    ensures |Mask(p, s)| == |p| && exists chosen: set<nat> :: Leftmost(p, s, chosen)
    ensures forall chosen: set<nat>, k: nat | Leftmost(p, s, chosen) && k < |p| ::
      Mask(p, s)[k] == if Hit(chosen, |s|, k) then STAR else p[k]
  {
    var some := ChosenFrom(p, 0, s);
    assert Leftmost(p, s, some) by {
      forall x: nat | OccursAt(p, s, x) && x !in some ensures exists c :: c in some && c <= x < c + |s| {
        assert Hit(some, |s|, x);
      }
    }
    MaskCovers(p, s);
    forall chosen: set<nat>, k: nat | Leftmost(p, s, chosen) && k < |p|
      ensures MaskFrom(p, 0, s)[k] == if Hit(chosen, |s|, k) then STAR else p[k]
    {
      MaskedFrom(p, 0, s, chosen, k);
    }
  }

  lemma OccursBehind(head: Bytes, rest: Bytes, s: Bytes, j: nat)
    requires j >= |head|
    ensures OccursAt(head + rest, s, j) <==> OccursAt(rest, s, j - |head|)
  {
    var all := head + rest;
    if j + |s| <= |all| {
      assert all[j..j + |s|] == rest[j - |head|..j - |head| + |s|];
    }
  }

  lemma OccurrenceBytes(p: Bytes, s: Bytes, j: nat, k: nat)
    requires k < |s|
    ensures OccursAt(p, s, j) ==> j + k < |p| && p[j + k] == s[k]
  {
    if OccursAt(p, s, j) {
      assert p[j..j + |s|][k] == p[j + k];
    }
  }

  /** Within the first |s| bytes, the mask leaves alone whatever comes before a byte it leaves alone. */
  lemma {:induction false} UnmaskedUpTo(p: Bytes, start: nat, s: Bytes, m: nat)
    requires m < |s| && start + m < |p| && |MaskFrom(p, start, s)| == |p| - start && MaskFrom(p, start, s)[m] != STAR
    ensures MaskFrom(p, start, s)[..m + 1] == p[start..start + m + 1]
    decreases m
  {
    var q := MaskFrom(p, start, s);
    if start + |s| <= |p| && !OccursAt(p, s, start) {
      var rest := MaskFrom(p, start + 1, s);
      assert q == [p[start]] + rest;
      if m > 0 {
        UnmaskedUpTo(p, start + 1, s, m - 1);
        assert q[..m + 1] == [p[start]] + rest[..m];
      }
    }
  }

  lemma NotAtTheFront(p: Bytes, start: nat, s: Bytes)
    requires s != [] && s[|s| - 1] != STAR && start + |s| <= |p| && !OccursAt(p, s, start)
    ensures !OccursAt(MaskFrom(p, start, s), s, 0)
  {
    var q, n := MaskFrom(p, start, s), |s|;
    MaskFromCovers(p, start, s);
    OccurrenceBytes(q, s, 0, n - 1);
    if q[n - 1] != STAR {
      UnmaskedUpTo(p, start, s, n - 1);
    }
  }

  /** A secret that neither begins nor ends with a star never survives its own masking. */
  lemma {:induction false} MaskFromRemoves(p: Bytes, start: nat, s: Bytes, j: nat)
    requires s != [] && s[0] != STAR && s[|s| - 1] != STAR && start <= |p|
    ensures !OccursAt(MaskFrom(p, start, s), s, j)
    decreases |p| - start
  {
    var q, n := MaskFrom(p, start, s), |s|;
    MaskFromCovers(p, start, s);
    if start + n > |p| {
    } else if OccursAt(p, s, start) {
      assert q == Stars(n) + MaskFrom(p, start + n, s);
      if j < n {
        OccurrenceBytes(q, s, j, 0);
      } else {
        MaskFromRemoves(p, start + n, s, j - n);
        OccursBehind(Stars(n), MaskFrom(p, start + n, s), s, j);
      }
    } else if j > 0 {
      MaskFromRemoves(p, start + 1, s, j - 1);
      OccursBehind([p[start]], MaskFrom(p, start + 1, s), s, j);
    } else {
      NotAtTheFront(p, start, s);
    }
  }

  lemma MaskRemoves(p: Bytes, s: Bytes, j: nat)
    requires s != [] && s[0] != STAR && s[|s| - 1] != STAR
    ensures !OccursAt(Mask(p, s), s, j)
  {
    MaskFromRemoves(p, 0, s, j);
  }

  /** A secret with a star at its end survives in its own head followed by itself. */
  lemma TrailingStarSurvives(s: Bytes)
    requires s != [] && s[0] != STAR && s[|s| - 1] == STAR
    ensures OccursAt(Mask(s[..|s| - 1] + s, s), s, 0)
  {
    var n := |s|;
    var p := s[..n - 1] + s;
    forall i: nat | i < n - 1 ensures !OccursAt(p, s, i) {
      OccurrenceBytes(p, s, i, 0);
      OccurrenceBytes(p, s, i, n - 1);
      assert p[i] == s[i] && p[i + n - 1] == s[i];
    }
    assert p[n - 1..n - 1 + n] == s;
    ReplacedAtFirst(p, 0, s, Stars(n), n - 1);
    assert Mask(p, s) == s[..n - 1] + Stars(n);
    assert Mask(p, s)[0..n] == s;
  }

  /** A secret with a star at its front survives in itself followed by its own tail. */
  lemma LeadingStarSurvives(s: Bytes)
    requires s != [] && s[0] == STAR
    ensures OccursAt(Mask(s + s[1..], s), s, |s| - 1)
  {
    var n := |s|;
    var p := s + s[1..];
    assert p[0..n] == s && p[n..] == s[1..];
    assert ReplacedFrom(p, n, s, Stars(n)) == s[1..];
    assert Mask(p, s) == Stars(n) + s[1..];
    var q := Stars(n) + s[1..];
    assert q[n - 1..n - 1 + n] == [STAR] + s[1..] == s;
  }

  /** Masking one secret works on every input exactly when the secret neither begins nor ends with a star. */
  lemma MaskingWorksIff(s: Bytes)
    requires s != []
    ensures (forall p: Bytes :: !Occurs(Mask(p, s), s)) <==> s[0] != STAR && s[|s| - 1] != STAR
  {
    if s[0] == STAR {
      LeadingStarSurvives(s);
      assert Occurs(Mask(s + s[1..], s), s);
    } else if s[|s| - 1] == STAR {
      TrailingStarSurvives(s);
      assert Occurs(Mask(s[..|s| - 1] + s, s), s);
    } else {
      forall p: Bytes, j: nat ensures !OccursAt(Mask(p, s), s, j) {
        MaskRemoves(p, s, j);
      }
    }
  }

  // ---------- all secrets

  /** Starring out more bytes brings no star-free secret back. */
  lemma CoverKeepsAbsence(p: Bytes, q: Bytes, s: Bytes)
    requires Covers(q, p) && STAR !in s && !Occurs(p, s)
    ensures !Occurs(q, s)
  {
    forall j: nat ensures !OccursAt(q, s, j) {
      if OccursAt(q, s, j) {
        forall k | 0 <= k < |s| ensures p[j..j + |s|][k] == s[k] {
          assert q[j..j + |s|][k] == q[j + k];
          assert s[k] in s;
        }
        assert p[j..j + |s|] == s;
        assert OccursAt(p, s, j);
      }
    }
  }

  lemma CoversTransitive(r: Bytes, q: Bytes, p: Bytes)
    requires Covers(r, q) && Covers(q, p)
    ensures Covers(r, p)
  {
  }

  ghost predicate StarsAt(s: Bytes, a: nat, m: nat) {
    a + m <= |s| && forall i | a <= i < a + m :: s[i] == STAR
  }

  /** There are m stars in a row. */
  ghost predicate HasStarRun(s: Bytes, m: nat) {
    exists a: nat :: StarsAt(s, a, m)
  }

  /** Where the mask changes a byte, it writes stars as long as the secret around it. */
  lemma {:induction false} ChangedWithinStars(p: Bytes, start: nat, s: Bytes, k: nat) returns (a: nat)
    requires start <= |p| && |MaskFrom(p, start, s)| == |p| - start
    requires k < |p| - start && MaskFrom(p, start, s)[k] != p[start + k]
    ensures a <= k < a + |s| && StarsAt(MaskFrom(p, start, s), a, |s|) && OccursAt(p, s, start + a)
    decreases |p| - start
  {
    if start + |s| <= |p| && OccursAt(p, s, start) {
      var rest := MaskFrom(p, start + |s|, s);
      assert MaskFrom(p, start, s) == Stars(|s|) + rest;
      if k < |s| {
        return 0;
      }
      a := ChangedWithinStars(p, start + |s|, s, k - |s|);
      a := a + |s|;
    } else {
      var rest := MaskFrom(p, start + 1, s);
      assert MaskFrom(p, start, s) == [p[start]] + rest;
      a := ChangedWithinStars(p, start + 1, s, k - 1);
      a := a + 1;
    }
  }

  /** A mask that changes a byte within an occurrence of s leaves a star run in s. */
  lemma StarsFitInside(p: Bytes, t: Bytes, s: Bytes, j: nat, k: nat)
    requires s != [] && s[0] != STAR && s[|s| - 1] != STAR
    requires |Mask(p, t)| == |p| && OccursAt(Mask(p, t), s, j) && k < |s| && Mask(p, t)[j + k] != p[j + k]
    ensures HasStarRun(s, |t|)
  {
    var q := Mask(p, t);
    var a := ChangedWithinStars(p, 0, t, j + k);
    forall i: nat | i < |s| ensures q[j + i] == s[i] { OccurrenceBytes(q, s, j, i); }
    assert q[j + 0] != STAR && q[j + (|s| - 1)] != STAR;
    assert j < a && a + |t| <= j + |s|;
    forall i | a - j <= i < a - j + |t| ensures s[i] == STAR { assert q[j + i] == s[i]; }
    assert StarsAt(s, a - j, |t|);
  }

  /** Masking a secret longer than every star run in s does not bring s back. */
  lemma LongerMaskKeepsAbsence(p: Bytes, t: Bytes, s: Bytes)
    requires s != [] && s[0] != STAR && s[|s| - 1] != STAR && !HasStarRun(s, |t|) && !Occurs(p, s)
    ensures !Occurs(Mask(p, t), s)
  {
    var q := Mask(p, t);
    MaskCovers(p, t);
    forall j: nat ensures !OccursAt(q, s, j) {
      if OccursAt(q, s, j) {
        forall k: nat | k < |s| ensures p[j + k] == s[k] {
          OccurrenceBytes(q, s, j, k);
          if q[j + k] != p[j + k] {
            StarsFitInside(p, t, s, j, k);
          }
        }
        assert p[j..j + |s|] == s;
        assert OccursAt(p, s, j);
      }
    }
  }

  lemma {:induction false} ByteMask(p: Bytes, start: nat, x: Byte)
    requires start <= |p|
    ensures |MaskFrom(p, start, [x])| == |p| - start
    ensures forall k | 0 <= k < |p| - start ::
      MaskFrom(p, start, [x])[k] == (if p[start + k] == x then STAR else p[start + k])
    decreases |p| - start
  {
    if start == |p| {
    } else {
      assert p[start..start + 1] == [p[start]];
      ByteMask(p, start + 1, x);
    }
  }

  /**
   * Even one more secret of a single byte that s does not contain brings s back from some input, unless s is free of
   * stars.
   */
  lemma MaskingInCompanyWorksIff(s: Bytes, x: Byte)
    requires s != [] && x !in s && x != STAR
    ensures (forall p: Bytes :: !Occurs(Mask(Mask(p, s), [x]), s)) <==> STAR !in s
  {
    if STAR in s {
      var a :| 0 <= a < |s| && s[a] == STAR;
      var p := s[a := x];
      forall j: nat ensures !OccursAt(p, s, j) { OccurrenceBytes(p, s, j, a); }
      ReplacedNowhere(p, 0, s, Stars(|s|));
      assert Mask(p, s) == p;
      ByteMask(p, 0, x);
      assert Mask(p, [x]) == s;
      assert s[0..0 + |s|] == s;
      assert OccursAt(Mask(Mask(p, s), [x]), s, 0);
    } else {
      forall p: Bytes ensures !Occurs(Mask(Mask(p, s), [x]), s) {
        forall j: nat ensures !OccursAt(Mask(p, s), s, j) { MaskRemoves(p, s, j); }
        MaskCovers(Mask(p, s), [x]);
        CoverKeepsAbsence(Mask(p, s), Mask(Mask(p, s), [x]), s);
      }
    }
  }

  // ---------- two secrets

  predicate WellEnded(s: Bytes) { s != [] && s[0] != STAR && s[|s| - 1] != STAR }

  /** s with t in place of the bytes from a on. */
  function Put(s: Bytes, a: nat, t: Bytes): (r: Bytes)
    requires a + |t| <= |s|
    ensures |r| == |s|
  {
    s[..a] + t + s[a + |t|..]
  }

  /** s has stars in which t can stand, and there it would be the first occurrence of t. */
  ghost predicate HidesIn(s: Bytes, t: Bytes, a: nat) {
    StarsAt(s, a, |t|) && FirstFrom(Put(s, a, t), t, 0, a)
  }

  /** The mask of t can write s: t does not occur in s, but can hide in its stars. */
  ghost predicate BringsBack(s: Bytes, t: Bytes) {
    !Occurs(s, t) && exists a: nat :: HidesIn(s, t, a)
  }

  lemma SliceOfSlice(q: Bytes, lo: nat, hi: nat, i: nat, m: nat)
    requires lo + i + m <= hi <= |q|
    ensures q[lo..hi][i..i + m] == q[lo + i..lo + i + m]
  {
    var u, v, w := q[lo..hi], q[lo..hi][i..i + m], q[lo + i..lo + i + m];
    forall k | 0 <= k < m ensures v[k] == w[k] {
      assert v[k] == u[i + k] == q[lo + i + k];
    }
  }

  /** What occurs in an occurrence occurs around it. */
  lemma OccursThrough(q: Bytes, s: Bytes, j: nat, t: Bytes, i: nat)
    ensures OccursAt(q, s, j) && OccursAt(s, t, i) ==> OccursAt(q, t, j + i)
  {
    if OccursAt(q, s, j) && OccursAt(s, t, i) {
      SliceOfSlice(q, j, j + |s|, i, |t|);
    }
  }

  /** s is not there while t is in its place ... */
  lemma PutHidesWhole(s: Bytes, t: Bytes, a: nat)
    requires t != [] && t[0] != STAR && StarsAt(s, a, |t|)
    ensures Mask(Put(s, a, t), s) == Put(s, a, t)
  {
    var p := Put(s, a, t);
    assert p[a] == t[0] && s[a] == STAR;
    forall j: nat ensures !OccursAt(p, s, j) { OccurrenceBytes(p, s, j, a); }
    ReplacedNowhere(p, 0, s, Stars(|s|));
  }

  /** ... and t is nowhere behind it. */
  lemma PutIsLast(s: Bytes, t: Bytes, a: nat)
    requires a + |t| <= |s| && !Occurs(s, t)
    ensures NoneFrom(Put(s, a, t), t, a + |t|)
  {
    var p := Put(s, a, t);
    forall i: nat | a + |t| <= i ensures !OccursAt(p, t, i) {
      assert !OccursAt(s, t, i);
      if i + |t| <= |p| { assert p[i..i + |t|] == s[i..i + |t|]; }
    }
  }

  lemma StarsFillIn(s: Bytes, a: nat, m: nat)
    requires StarsAt(s, a, m)
    ensures s[..a] + Stars(m) + s[a + m..] == s
  {
  }

  lemma PutParts(s: Bytes, t: Bytes, a: nat)
    requires a + |t| <= |s|
    ensures Put(s, a, t)[0..a] == s[..a] && Put(s, a, t)[a + |t|..] == s[a + |t|..]
  {
  }

  /** One occurrence that is the first and the last is all that the mask replaces. */
  lemma OnlyOccurrence(p: Bytes, t: Bytes, a: nat)
    requires t != [] && FirstFrom(p, t, 0, a) && NoneFrom(p, t, a + |t|)
    ensures Mask(p, t) == p[0..a] + Stars(|t|) + p[a + |t|..]
  {
    ReplacedAtFirst(p, 0, t, Stars(|t|), a);
    ReplacedNowhere(p, a + |t|, t, Stars(|t|));
  }

  /** Putting t there, the mask of s changes nothing, and then that of t writes s. */
  lemma PutBack(s: Bytes, t: Bytes, a: nat)
    requires WellEnded(s) && WellEnded(t) && !Occurs(s, t) && HidesIn(s, t, a)
    ensures Mask(Mask(Put(s, a, t), s), t) == s
  {
    PutHidesWhole(s, t, a);
    PutIsLast(s, t, a);
    OnlyOccurrence(Put(s, a, t), t, a);
    PutParts(s, t, a);
    StarsFillIn(s, a, |t|);
  }

  /** The mask stars the first byte of every occurrence, whether it is replaced itself or overlaps one that is. */
  lemma {:induction false} OccurrencesAreHit(p: Bytes, start: nat, t: Bytes, x: nat)
    requires t != [] && start <= |p| && OccursAt(p, t, start + x) && |MaskFrom(p, start, t)| == |p| - start
    ensures MaskFrom(p, start, t)[x] == STAR
    decreases |p| - start
  {
    if OccursAt(p, t, start) {
      assert MaskFrom(p, start, t) == Stars(|t|) + MaskFrom(p, start + |t|, t);
      if x < |t| {
      } else {
        OccurrencesAreHit(p, start + |t|, t, x - |t|);
      }
    } else {
      assert MaskFrom(p, start, t) == [p[start]] + MaskFrom(p, start + 1, t);
      OccurrencesAreHit(p, start + 1, t, x - 1);
    }
  }

  lemma {:induction false} FirstDifference(u: Bytes, v: Bytes) returns (k: nat)
    requires |u| == |v| && u != v
    ensures k < |u| && u[k] != v[k] && u[..k] == v[..k]
  {
    var n := |u| - 1;
    if u[..n] != v[..n] {
      k := FirstDifference(u[..n], v[..n]);
      assert u[..n][..k] == u[..k] && v[..n][..k] == v[..k];
    } else {
      assert u == u[..n] + [u[n]] && v == v[..n] + [v[n]];
      k := n;
    }
  }

  /** Stars that touch an occurrence of s lie between its ends. */
  lemma StartIsWithin(q: Bytes, s: Bytes, j: nat, a: nat, m: nat, x: nat)
    requires WellEnded(s) && OccursAt(q, s, j) && StarsAt(q, a, m) && a <= x < a + m && j <= x < j + |s|
    ensures j < a && a + m < j + |s|
  {
    OccurrenceBytes(q, s, j, 0);
    OccurrenceBytes(q, s, j, |s| - 1);
  }

  /** Where t's mask writes s, it does so first at an occurrence of t within s. */
  lemma WrittenFirstAt(p: Bytes, t: Bytes, s: Bytes, j: nat) returns (k: nat)
    requires WellEnded(s) && WellEnded(t) && !OccursAt(p, s, j)
    requires |Mask(p, t)| == |p| && OccursAt(Mask(p, t), s, j)
    ensures StarsAt(s, k, |t|) && OccursAt(p, t, j + k) && p[j..j + k] == s[..k]
  {
    var q, window := Mask(p, t), p[j..j + |s|];
    assert forall i: nat | i < |s| :: s[i] == q[j..j + |s|][i] == q[j + i];
    k := FirstDifference(window, s);
    assert forall i: nat | i < k :: window[i] == window[..k][i] == s[..k][i] == s[i];
    var a := ChangedWithinStars(p, 0, t, j + k);
    OccurrenceBytes(p, t, a, 0);
    StartIsWithin(q, s, j, a, |t|, j + k);
    assert window[a - j] == p[a] && s[a - j] == q[a];
    assert a == j + k;
    assert p[j..j + k] == window[..k];
    forall i | k <= i < k + |t| ensures s[i] == STAR { assert s[i] == q[j + i]; }
  }

  lemma PutAgrees(p: Bytes, t: Bytes, s: Bytes, j: nat, k: nat)
    requires k + |t| <= |s| && OccursAt(p, t, j + k) && p[j..j + k] == s[..k]
    ensures Put(s, k, t)[..k + |t|] == p[j..j + k + |t|]
  {
    assert Put(s, k, t)[..k + |t|] == s[..k] + t;
    assert p[j..j + k + |t|] == p[j..j + k] + p[j + k..j + k + |t|];
  }

  lemma EarlierInPut(p: Bytes, t: Bytes, s: Bytes, j: nat, k: nat, b: nat)
    requires k + |t| <= |s| && j + k + |t| <= |p| && Put(s, k, t)[..k + |t|] == p[j..j + k + |t|] && b < k
    ensures OccursAt(Put(s, k, t), t, b) ==> OccursAt(p, t, j + b)
  {
    var w := Put(s, k, t);
    assert w[b..b + |t|] == w[..k + |t|][b..b + |t|];
    SliceOfSlice(p, j, j + k + |t|, b, |t|);
  }

  /** Before the first place where t's mask writes, there is no occurrence of t. */
  lemma NothingToHit(p: Bytes, t: Bytes, s: Bytes, j: nat, k: nat, b: nat)
    requires WellEnded(t) && |Mask(p, t)| == |p| && OccursAt(Mask(p, t), s, j)
    requires b < k <= |s| && p[j..j + k] == s[..k]
    ensures !OccursAt(p, t, j + b)
  {
    OccurrenceBytes(Mask(p, t), s, j, b);
    assert p[j + b] == p[j..j + k][b] == s[..k][b] == s[b];
    OccurrenceBytes(p, t, j + b, 0);
    if OccursAt(p, t, j + b) {
      OccurrencesAreHit(p, 0, t, j + b);
    }
  }

  /** Whatever t's mask brings back, it brings back in this way. */
  lemma OnlyHiddenComesBack(p: Bytes, t: Bytes, s: Bytes, j: nat)
    requires WellEnded(s) && WellEnded(t) && !OccursAt(p, s, j) && OccursAt(Mask(p, t), s, j)
    ensures BringsBack(s, t)
  {
    MaskCovers(p, t);
    forall i: nat ensures !OccursAt(s, t, i) {
      MaskRemoves(p, t, j + i);
      OccursThrough(Mask(p, t), s, j, t, i);
    }
    var k := WrittenFirstAt(p, t, s, j);
    PutAgrees(p, t, s, j, k);
    forall b: nat | b < k ensures !OccursAt(Put(s, k, t), t, b) {
      EarlierInPut(p, t, s, j, k, b);
      NothingToHit(p, t, s, j, k, b);
    }
    assert Put(s, k, t)[k..k + |t|] == t;
    assert HidesIn(s, t, k);
  }

  lemma ComesBackWith(s: Bytes, t: Bytes)
    requires WellEnded(s) && WellEnded(t) && BringsBack(s, t)
    ensures exists p: Bytes :: Occurs(Mask(Mask(p, s), t), s)
  {
    var a: nat :| HidesIn(s, t, a);
    PutBack(s, t, a);
    assert s[0..0 + |s|] == s;
    assert OccursAt(Mask(Mask(Put(s, a, t), s), t), s, 0);
    assert Occurs(Mask(Mask(Put(s, a, t), s), t), s);
  }

  lemma StaysAway(p: Bytes, s: Bytes, t: Bytes, j: nat)
    requires WellEnded(s) && WellEnded(t) && !BringsBack(s, t)
    ensures !OccursAt(Mask(Mask(p, s), t), s, j) && !OccursAt(Mask(Mask(p, s), t), t, j)
  {
    MaskRemoves(p, s, j);
    MaskRemoves(Mask(p, s), t, j);
    if OccursAt(Mask(Mask(p, s), t), s, j) {
      OnlyHiddenComesBack(Mask(p, s), t, s, j);
    }
  }

  /** The exact condition for two secrets that neither begin nor end with a star, masked in either order. */
  lemma TwoSecretsAreSafeIff(s: Bytes, t: Bytes)
    requires WellEnded(s) && WellEnded(t)
    ensures (forall p: Bytes ::
               && !Occurs(Mask(Mask(p, s), t), s) && !Occurs(Mask(Mask(p, s), t), t)
               && !Occurs(Mask(Mask(p, t), s), s) && !Occurs(Mask(Mask(p, t), s), t))
      <==> !BringsBack(s, t) && !BringsBack(t, s)
  {
    if BringsBack(s, t) {
      ComesBackWith(s, t);
    } else if BringsBack(t, s) {
      ComesBackWith(t, s);
    } else {
      forall p: Bytes, j: nat
        ensures !OccursAt(Mask(Mask(p, s), t), s, j) && !OccursAt(Mask(Mask(p, s), t), t, j)
        ensures !OccursAt(Mask(Mask(p, t), s), s, j) && !OccursAt(Mask(Mask(p, t), s), t, j)
      {
        StaysAway(p, s, t, j);
        StaysAway(p, t, s, j);
      }
    }
  }

  // ---------- any number of secrets

  datatype Variable = Variable(value: Bytes, isSecret: bool)

  /** No other secret's mask can write this one: it is too long for every star run, or does not bring this one back. */
  ghost predicate OthersAreHarmless(value: Bytes, variables: map<string, Variable>) {
    forall other | other in variables && variables[other].isSecret && variables[other].value !in {[], value} ::
      || !HasStarRun(value, |variables[other].value|)
      || (WellEnded(variables[other].value) && !BringsBack(value, variables[other].value))
  }

  /** A secret that is not empty, neither begins nor ends with a star, and is safe from the other secrets. */
  ghost predicate MustNotAppear(v: Variable, variables: map<string, Variable>) {
    v.isSecret && WellEnded(v.value) && OthersAreHarmless(v.value, variables)
  }

  /** Whatever the other secrets are, this covers every secret that is free of stars. */
  lemma StarFreeMustNotAppear(v: Variable, variables: map<string, Variable>)
    requires v.isSecret && v.value != [] && STAR !in v.value
    ensures MustNotAppear(v, variables)
  {
    forall other | other in variables && variables[other].value != []
      ensures !HasStarRun(v.value, |variables[other].value|)
    {
      forall a: nat ensures !StarsAt(v.value, a, |variables[other].value|) {
        if a < |v.value| { assert v.value[a] in v.value; }
      }
    }
  }

  /** One turn of the loop: masking a variable's value brings back none of the values that are to stay away. */
  lemma MaskKeepsAway(before: Bytes, masked: Bytes, other: Bytes, variables: map<string, Variable>)
    requires WellEnded(other) && OthersAreHarmless(other, variables)
    requires exists name :: name in variables && variables[name].isSecret && variables[name].value == masked
    requires masked == other || !Occurs(before, other)
    ensures !Occurs(Mask(before, masked), other)
  {
    if masked == other {
      forall j: nat ensures !OccursAt(Mask(before, masked), other, j) { MaskRemoves(before, other, j); }
    } else if masked == [] {
      assert Mask(before, masked) == before;
    } else if !HasStarRun(other, |masked|) {
      LongerMaskKeepsAbsence(before, masked, other);
    } else {
      forall j: nat ensures !OccursAt(Mask(before, masked), other, j) {
        if OccursAt(Mask(before, masked), other, j) { OnlyHiddenComesBack(before, masked, other, j); }
      }
    }
  }

  // ---------- the loop over the variables

  /** The values of the secrets are masked one after the other, other variables are passed over. */
  function MaskInTurn(p: Bytes, order: seq<string>, variables: map<string, Variable>): Bytes
    requires forall name | name in order :: name in variables
  {
    if order == [] then p
    else
      var n := |order| - 1;
      var before := MaskInTurn(p, order[..n], variables);
      if variables[order[n]].isSecret then Mask(before, variables[order[n]].value) else before
  }

  lemma MaskNext(p: Bytes, order: seq<string>, name: string, variables: map<string, Variable>, taken: set<string>)
    requires taken <= variables.Keys && name in taken && Orders(order, taken - {name})
    ensures Orders(order + [name], taken)
    ensures MaskInTurn(p, order + [name], variables) ==
      var before := MaskInTurn(p, order, variables);
      if variables[name].isSecret then Mask(before, variables[name].value) else before
  {
    assert (order + [name])[..|order|] == order;
    assert taken == taken - {name} + {name};
  }

  lemma {:induction false} MaskInTurnCovers(p: Bytes, order: seq<string>, variables: map<string, Variable>)
    requires forall name | name in order :: name in variables
    ensures Covers(MaskInTurn(p, order, variables), p)
  {
    if order == [] {
    } else {
      var n := |order| - 1;
      MaskInTurnCovers(p, order[..n], variables);
      MaskCovers(MaskInTurn(p, order[..n], variables), variables[order[n]].value);
    }
  }

  /** Whatever the order, none of the secrets that are to stay away is left. */
  lemma {:induction false} SafeSecretsAreGone(
      p: Bytes, order: seq<string>, variables: map<string, Variable>, name: string)
    requires (forall name | name in order :: name in variables) && name in order
    requires MustNotAppear(variables[name], variables)
    ensures !Occurs(MaskInTurn(p, order, variables), variables[name].value)
  {
    var n := |order| - 1;
    var before, last := MaskInTurn(p, order[..n], variables), variables[order[n]];
    assert order == order[..n] + [order[n]];
    if name in order[..n] {
      SafeSecretsAreGone(p, order[..n], variables, name);
    }
    if last.isSecret {
      MaskKeepsAway(before, last.value, variables[name].value, variables);
    }
  }

  /** The secret's mask lies over position k, where the input had the secret's own bytes or its stars stand now. */
  ghost predicate MaskedBy(p: Bytes, q: Bytes, s: Bytes, a: nat, k: nat) {
    && a <= k < a + |s| <= |p| == |q| && StarsAt(q, a, |s|)
    && forall i | 0 <= i < |s| :: s[i] == p[a + i] || s[i] == STAR
  }

  /** The mask of this variable, which is a secret, lies over position k. */
  ghost predicate MaskedFor(p: Bytes, q: Bytes, k: nat, variable: Variable) {
    variable.isSecret && exists a: nat :: MaskedBy(p, q, variable.value, a, k)
  }

  /** A mask without stars of its own lies over an occurrence of the secret in the input. */
  lemma MaskedMeansOccurs(p: Bytes, q: Bytes, s: Bytes, a: nat, k: nat)
    requires MaskedBy(p, q, s, a, k) && STAR !in s
    ensures OccursAt(p, s, a)
  {
    forall i | 0 <= i < |s| ensures p[a..a + |s|][i] == s[i] {
      assert s[i] in s;
    }
  }

  lemma MaskingOwes(p: Bytes, before: Bytes, s: Bytes, k: nat) returns (a: nat)
    requires Covers(before, p) && |Mask(before, s)| == |p| && k < |p| && Mask(before, s)[k] != before[k]
    ensures MaskedBy(p, Mask(before, s), s, a, k)
  {
    a := ChangedWithinStars(before, 0, s, k);
    forall i: nat | i < |s| ensures before[a + i] == s[i] { OccurrenceBytes(before, s, a, i); }
  }

  lemma StaysMasked(p: Bytes, before: Bytes, q: Bytes, s: Bytes, a: nat, k: nat)
    requires MaskedBy(p, before, s, a, k) && Covers(q, before)
    ensures MaskedBy(p, q, s, a, k)
  {
    forall i | a <= i < a + |s| ensures q[i] == STAR { assert before[i] == STAR; }
  }

  /** Only the masks of secrets change anything: each byte that differs has one over it. */
  lemma {:induction false} ChangedOnlyOverSecrets(
      p: Bytes, order: seq<string>, variables: map<string, Variable>, k: nat)
    requires forall name | name in order :: name in variables
    requires k < |p| && |MaskInTurn(p, order, variables)| == |p| && MaskInTurn(p, order, variables)[k] != p[k]
    ensures exists name :: name in order && MaskedFor(p, MaskInTurn(p, order, variables), k, variables[name])
  {
    var n := |order| - 1;
    var before, last := MaskInTurn(p, order[..n], variables), variables[order[n]];
    var q := MaskInTurn(p, order, variables);
    MaskInTurnCovers(p, order[..n], variables);
    if last.isSecret {
      MaskCovers(before, last.value);
    }
    if before[k] == q[k] {
      ChangedOnlyOverSecrets(p, order[..n], variables, k);
      var name :| name in order[..n] && MaskedFor(p, before, k, variables[name]);
      var a: nat :| MaskedBy(p, before, variables[name].value, a, k);
      StaysMasked(p, before, q, variables[name].value, a, k);
      assert MaskedFor(p, q, k, variables[name]);
    } else {
      var a := MaskingOwes(p, before, last.value, k);
      assert MaskedFor(p, q, k, last);
    }
  }

  /** An input in which no secret occurs stays as it is. */
  lemma {:induction false} NothingToMask(p: Bytes, order: seq<string>, variables: map<string, Variable>)
    requires forall name | name in order :: name in variables
    requires forall name | name in order && variables[name].isSecret ::
      variables[name].value == [] || !Occurs(p, variables[name].value)
    ensures MaskInTurn(p, order, variables) == p
  {
    if order == [] {
    } else {
      var n := |order| - 1;
      NothingToMask(p, order[..n], variables);
      var last := variables[order[n]];
      if last.isSecret && last.value != [] {
        assert NoneFrom(p, last.value, 0);
        ReplacedNowhere(p, 0, last.value, Stars(|last.value|));
      }
    }
  }

  lemma InAnyOrder(p: Bytes, order: seq<string>, variables: map<string, Variable>)
    requires Orders(order, variables.Keys)
    ensures var q := MaskInTurn(p, order, variables);
      && Covers(q, p)
      && (forall name | name in variables && MustNotAppear(variables[name], variables) ::
            !Occurs(q, variables[name].value))
      && (forall k: nat | k < |p| && q[k] != p[k] ::
            exists name :: name in variables && MaskedFor(p, q, k, variables[name]))
      && ((forall name | name in variables && variables[name].isSecret ::
             variables[name].value == [] || !Occurs(p, variables[name].value)) ==> q == p)
  {
    var q := MaskInTurn(p, order, variables);
    MaskInTurnCovers(p, order, variables);
    forall name | name in variables && MustNotAppear(variables[name], variables)
      ensures !Occurs(q, variables[name].value)
    {
      SafeSecretsAreGone(p, order, variables, name);
    }
    forall k: nat | k < |p| && q[k] != p[k]
      ensures exists name :: name in variables && MaskedFor(p, q, k, variables[name])
    {
      ChangedOnlyOverSecrets(p, order, variables, k);
    }
    if forall name | name in variables && variables[name].isSecret ::
      variables[name].value == [] || !Occurs(p, variables[name].value)
    {
      NothingToMask(p, order, variables);
    }
  }

  /** The loop of ObfuscateSecrets, and the order in which it took the variables. */
  method MaskVariables(p: Bytes, variables: map<string, Variable>) returns (q: Bytes, ghost order: seq<string>)
    ensures Orders(order, variables.Keys) && q == MaskInTurn(p, order, variables)
  {
    q, order := p, [];
    var rest := variables.Keys;
    while rest != {}
      invariant rest <= variables.Keys && Orders(order, variables.Keys - rest)
      invariant q == MaskInTurn(p, order, variables)
    {
      var name :| name in rest;
      rest := rest - {name};
      MaskNext(p, order, name, variables, variables.Keys - rest);
      order := order + [name];
      var variable := variables[name];
      if !variable.isSecret {
        continue;
      }
      q := ReplaceAll(q, variable.value, Stars(|variable.value|));
    }
  }

  class Manager {
    const variables: Option<map<string, Variable>>

    constructor (variables: Option<map<string, Variable>>)
      ensures this.variables == variables
    {
      this.variables := variables;
    }

    /**
     * In whatever order the variables come, the output is the input with the secrets masked in that order. It has the
     * input's length and differs from it only by stars, each under the mask of a secret that stood there. It contains
     * no secret that neither begins nor ends with a star and is safe from the masks of the other secrets. And it is the
     * input if that contains no secret.
     */
    method ObfuscateSecrets(p: Bytes) returns (q: Bytes)
      ensures variables.None? ==> q == p
      ensures variables.Some? ==>
        exists order :: Orders(order, variables.value.Keys) && q == MaskInTurn(p, order, variables.value)
      ensures Covers(q, p)
      ensures variables.Some? ==>
        forall name | name in variables.value && MustNotAppear(variables.value[name], variables.value) ::
          !Occurs(q, variables.value[name].value)
      ensures variables.Some? ==>
        forall k: nat | k < |p| && q[k] != p[k] ::
          exists name :: name in variables.value && MaskedFor(p, q, k, variables.value[name])
      ensures variables.Some? ==>
        (forall name | name in variables.value && variables.value[name].isSecret ::
           variables.value[name].value == [] || !Occurs(p, variables.value[name].value)) ==> q == p
    {
      q := p;
      if variables.None? {
        return;
      }
      ghost var order;
      q, order := MaskVariables(p, variables.value);
      InAnyOrder(p, order, variables.value);
    }
  }

  class JsonWrapWriter {
    const manager: Manager?
    var encoded: seq<Bytes> // the contents of the lines written so far

    constructor (manager: Manager?)
      ensures this.manager == manager && encoded == []
    {
      this.manager, encoded := manager, [];
    }

    /** Reports as many bytes as it was given, as io.Writer asks, and writes what ObfuscateSecrets leaves. */
    method Write(p: Bytes) returns (n: nat)
      modifies this
      ensures n == |p|
      ensures |encoded| == |old(encoded)| + 1 && encoded[..|old(encoded)|] == old(encoded)
      ensures var line := encoded[|old(encoded)|];
        && Covers(line, p) && (manager == null || manager.variables.None? ==> line == p)
        && (manager != null && manager.variables.Some? ==>
              var variables := manager.variables.value;
              && (exists order :: Orders(order, variables.Keys) && line == MaskInTurn(p, order, variables))
              && forall name | name in variables && MustNotAppear(variables[name], variables) ::
                !Occurs(line, variables[name].value))
    {
      var masked := p;
      if manager != null {
        masked := manager.ObfuscateSecrets(p);
      }
      encoded := encoded + [masked];
      n := |masked|;
    }
  }
}
