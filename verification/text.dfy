/**
 * The string operations the scripts rely on, written over `seq<char>`:
 * substring search (Python's `in` and `str.find`), `str.replace`,
 * `str.split`/`str.join`, `str.strip`, the `\s` character class and
 * decimal rendering of counters. Every regular expression of the scripts
 * is built from these scanners in the modules that use it.
 */
module Text {
  import opened Wrappers

  /** `p` occurs in `s` starting at index `i`. */
  predicate OccursAt(s: string, p: string, i: int) {
    0 <= i && i + |p| <= |s| && s[i..i + |p|] == p
  }

  /** Python's `p in s`. */
  predicate Contains(s: string, p: string) {
    exists i | 0 <= i <= |s| - |p| :: OccursAt(s, p, i)
  }

  /** The first occurrence of `p` in `s` at or after index `k`. */
  function FindFrom(s: string, p: string, k: nat): (r: Option<nat>)
    decreases |s| - k
    ensures r.Some? ==> k <= r.value && OccursAt(s, p, r.value)
    ensures r.Some? ==> forall i :: k <= i < r.value ==> !OccursAt(s, p, i)
    ensures r.None? ==> forall i :: k <= i ==> !OccursAt(s, p, i)
  {
    if k + |p| > |s| then None
    else if s[k..k + |p|] == p then Some(k)
    else FindFrom(s, p, k + 1)
  }

  /** The first occurrence of `p` in `s` (Python's `s.find(p)`, with `None` for -1). */
  function Find(s: string, p: string): (r: Option<nat>)
    ensures r.Some? ==> OccursAt(s, p, r.value) && forall i :: 0 <= i < r.value ==> !OccursAt(s, p, i)
    ensures r.None? ==> !Contains(s, p)
  {
    FindFrom(s, p, 0)
  }

  /** The search result is pinned down by "occurs at `j`, nowhere in between". */
  lemma FindFromIs(s: string, p: string, k: nat, j: nat)
    requires k <= j && OccursAt(s, p, j)
    requires forall i :: k <= i < j ==> !OccursAt(s, p, i)
    ensures FindFrom(s, p, k) == Some(j)
  {
  }

  /**
   * When the first `p` has no `c` after it, no `p` has a `c` after it: the
   * leftmost-first search for "`p`, anything, `c`" can stop at the first `p`.
   */
  lemma NoPairAfterFirst(s: string, p: string, c: string, i: nat)
    requires Find(s, p) == Some(i) && FindFrom(s, c, i + |p|).None?
    ensures forall j, q :: OccursAt(s, p, j) && j + |p| <= q ==> !OccursAt(s, c, q)
  {
    forall j, q | OccursAt(s, p, j) && j + |p| <= q
      ensures !OccursAt(s, c, q)
    {
      assert i <= j;
    }
  }

  /** `Find` succeeds exactly when `p` is in `s`. */
  lemma FindIffContains(s: string, p: string)
    ensures Find(s, p).Some? <==> Contains(s, p)
  {
    if Find(s, p).Some? {
      var j := Find(s, p).value;
      assert 0 <= j <= |s| - |p| && OccursAt(s, p, j);
    }
  }

  /** The first index at or after `k` holding the character `c`. */
  function FindChar(s: string, c: char, k: nat): (r: Option<nat>)
    decreases |s| - k
    ensures r.Some? ==> k <= r.value < |s| && s[r.value] == c
    ensures r.Some? ==> forall i :: k <= i < r.value ==> s[i] != c
    ensures r.None? ==> forall i :: k <= i < |s| ==> s[i] != c
  {
    if k >= |s| then None
    else if s[k] == c then Some(k)
    else FindChar(s, c, k + 1)
  }

  /** Python's `s.replace(p, r)`: every occurrence, left to right, without overlap. */
  function ReplaceAll(s: string, p: string, r: string): string
    requires |p| > 0
    decreases |s|
  {
    match Find(s, p)
    case None => s
    case Some(j) => s[..j] + r + ReplaceAll(s[j + |p|..], p, r)
  }

  /** Python's `s.split(p)`: the pieces between the occurrences of `p`. */
  function Split(s: string, p: string): (parts: seq<string>)
    requires |p| > 0
    decreases |s|
    ensures |parts| >= 1
    ensures forall i :: 0 <= i < |parts| ==> !Contains(parts[i], p)
  {
    match Find(s, p)
    case None => [s]
    case Some(j) =>
      PrefixBeforeFirst(s, p, j);
      var rest := Split(s[j + |p|..], p);
      assert forall i :: 1 <= i < 1 + |rest| ==> ([s[..j]] + rest)[i] == rest[i - 1];
      [s[..j]] + rest
  }

  /** Python's `sep.join(parts)`. */
  function Join(parts: seq<string>, sep: string): string {
    if |parts| == 0 then ""
    else if |parts| == 1 then parts[0]
    else parts[0] + sep + Join(parts[1..], sep)
  }

  /** The first character of `p` does not occur again in `p`, so no two occurrences of `p` can overlap. */
  predicate HeadUnique(p: string) {
    |p| > 0 && p[0] !in p[1..]
  }

  // ---------------------------------------------------------------------
  // Occurrences in slices and concatenations

  lemma SliceOfSlice(s: string, a: int, b: int, c: int, d: int)
    requires 0 <= a <= b <= |s| && 0 <= c <= d <= b - a
    ensures s[a..b][c..d] == s[a + c..a + d]
  {
    assert forall k | 0 <= k < d - c :: s[a..b][c..d][k] == s[a + c..a + d][k];
  }

  lemma OccursInPrefix(s: string, p: string, i: int, n: int)
    requires 0 <= n <= |s|
    requires OccursAt(s[..n], p, i)
    ensures OccursAt(s, p, i)
  {
    if i + |p| <= n {
      SliceOfSlice(s, 0, n, i, i + |p|);
    }
  }

  lemma OccursInSuffix(s: string, p: string, i: nat, m: nat)
    requires m <= |s|
    ensures OccursAt(s[m..], p, i) <==> OccursAt(s, p, i + m)
  {
    if i + |p| <= |s| - m {
      SliceOfSlice(s, m, |s|, i, i + |p|);
    }
  }

  lemma OccursInConcatLeft(a: string, b: string, p: string, i: int)
    requires OccursAt(a + b, p, i) && i + |p| <= |a|
    ensures OccursAt(a, p, i)
  {
    assert (a + b)[i..i + |p|] == a[i..i + |p|];
  }

  lemma OccursInConcatRight(a: string, b: string, p: string, i: int)
    requires i >= |a|
    ensures OccursAt(a + b, p, i) <==> OccursAt(b, p, i - |a|)
  {
    if i + |p| <= |a| + |b| {
      assert (a + b)[i..i + |p|] == b[i - |a|..i - |a| + |p|];
    }
  }

  lemma OccursAtStart(a: string, b: string, p: string)
    requires OccursAt(b, p, 0)
    ensures OccursAt(a + b, p, |a|)
  {
    assert (a + b)[|a|..|a| + |p|] == b[..|p|];
  }

  lemma OccursInInfix(a: string, b: string, c: string, p: string, i: int)
    requires OccursAt(b, p, i)
    ensures OccursAt(a + b + c, p, |a| + i)
  {
    assert (a + b + c)[|a| + i..|a| + i + |p|] == b[i..i + |p|];
  }

  lemma ContainsSelf(m: string)
    ensures Contains(m, m)
  {
    assert OccursAt(m, m, 0);
  }

  lemma OccursExtendRight(a: string, b: string, p: string, i: int)
    requires OccursAt(a, p, i)
    ensures OccursAt(a + b, p, i)
  {
    assert (a + b)[i..i + |p|] == a[i..i + |p|];
  }

  lemma OccursAfterPrefix(a: string, p: string, b: string)
    ensures OccursAt(a + p + b, p, |a|)
  {
    assert (a + p + b)[|a|..|a| + |p|] == p;
  }

  /** Text that contains `m` still contains it with more text appended. */
  lemma ContainsExtendRight(a: string, b: string, m: string)
    requires Contains(a, m)
    ensures Contains(a + b, m)
  {
    var i :| 0 <= i <= |a| - |m| && OccursAt(a, m, i);
    OccursExtendRight(a, b, m, i);
  }

  /** Text that contains `m` still contains it with more text prepended. */
  lemma ContainsExtendLeft(a: string, b: string, m: string)
    requires Contains(b, m)
    ensures Contains(a + b, m)
  {
    var i :| 0 <= i <= |b| - |m| && OccursAt(b, m, i);
    assert (a + b)[|a| + i..|a| + i + |m|] == b[i..i + |m|];
    assert OccursAt(a + b, m, |a| + i);
  }

  /** Whatever contains `m` keeps containing it inside a larger text. */
  lemma ContainsInInfix(a: string, b: string, c: string, m: string)
    requires Contains(b, m)
    ensures Contains(a + b + c, m)
  {
    var i :| 0 <= i <= |b| - |m| && OccursAt(b, m, i);
    OccursInInfix(a, b, c, m, i);
  }

  lemma ContainsTransitive(a: string, b: string, m: string)
    requires Contains(a, b) && Contains(b, m)
    ensures Contains(a, m)
  {
    var i :| 0 <= i <= |a| - |b| && OccursAt(a, b, i);
    var j :| 0 <= j <= |b| - |m| && OccursAt(b, m, j);
    SliceOfSlice(a, i, i + |b|, j, j + |m|);
    assert OccursAt(a, m, i + j);
  }

  /** The part of `s` before the first occurrence of `p` holds no occurrence of `p`. */
  lemma PrefixBeforeFirst(s: string, p: string, j: nat)
    requires |p| > 0 && Find(s, p) == Some(j)
    ensures !Contains(s[..j], p)
  {
    forall i | 0 <= i <= j - |p|
      ensures !OccursAt(s[..j], p, i)
    {
      SliceOfSlice(s, 0, j, i, i + |p|);
      assert !OccursAt(s, p, i);
    }
  }

  /** The text between `k` and the first occurrence from `k` holds no occurrence. */
  lemma NotContainsBeforeFirst(s: string, p: string, k: nat, c: nat)
    requires |p| > 0 && FindFrom(s, p, k) == Some(c)
    ensures !Contains(s[k..c], p)
  {
    forall i | 0 <= i <= (c - k) - |p|
      ensures !OccursAt(s[k..c], p, i)
    {
      SliceOfSlice(s, k, c, i, i + |p|);
      assert !OccursAt(s, p, k + i);
    }
  }

  /** When nothing is found from `k`, no suffix starting at or after `k` holds an occurrence. */
  lemma NotContainsAfterNone(s: string, p: string, k: nat, m: nat)
    requires FindFrom(s, p, k).None? && k <= m <= |s|
    ensures !Contains(s[m..], p)
  {
    forall i | 0 <= i <= (|s| - m) - |p|
      ensures !OccursAt(s[m..], p, i)
    {
      OccursInSuffix(s, p, i, m);
    }
  }

  lemma NotContainsInfix(s: string, p: string, a: int, b: int)
    requires 0 <= a <= b <= |s|
    requires !Contains(s, p)
    ensures !Contains(s[a..b], p)
  {
    forall i | 0 <= i <= (b - a) - |p|
      ensures !OccursAt(s[a..b], p, i)
    {
      SliceOfSlice(s, a, b, i, i + |p|);
      assert !OccursAt(s, p, a + i);
    }
  }

  /** A string lacking the first character of `p` cannot contain `p`. */
  lemma NoHeadNoOccurrence(s: string, p: string)
    requires |p| > 0 && p[0] !in s
    ensures !Contains(s, p)
  {
    forall i | 0 <= i <= |s| - |p|
      ensures !OccursAt(s, p, i)
    {
      assert s[i] == s[i..i + |p|][0];
    }
  }

  /**
   * Two texts free of `p` stay free of it when joined, provided the last
   * character of the first one can only end an occurrence of `p`.
   */
  lemma NoOccurrenceJoinAtEnd(u: string, v: string, p: string)
    requires |p| > 0 && |u| > 0 && u[|u| - 1] !in p[..|p| - 1]
    requires !Contains(u, p) && !Contains(v, p)
    ensures !Contains(u + v, p)
  {
    forall i | 0 <= i <= |u| + |v| - |p|
      ensures !OccursAt(u + v, p, i)
    {
      if i + |p| <= |u| {
        assert (u + v)[i..i + |p|] == u[i..i + |p|];
        assert !OccursAt(u, p, i);
      } else if i >= |u| {
        OccursInConcatRight(u, v, p, i);
      } else {
        var k := |u| - 1 - i;
        assert (u + v)[i..i + |p|][k] == u[|u| - 1];
        assert p[..|p| - 1][k] == p[k];
      }
    }
  }

  /**
   * Two texts free of `p` stay free of it when joined, provided the first
   * character of the second one can only start an occurrence of `p`.
   */
  lemma NoOccurrenceJoinAtStart(u: string, v: string, p: string)
    requires |p| > 0 && |v| > 0 && v[0] !in p[1..]
    requires !Contains(u, p) && !Contains(v, p)
    ensures !Contains(u + v, p)
  {
    forall i | 0 <= i <= |u| + |v| - |p|
      ensures !OccursAt(u + v, p, i)
    {
      if i + |p| <= |u| {
        assert (u + v)[i..i + |p|] == u[i..i + |p|];
        assert !OccursAt(u, p, i);
      } else if i >= |u| {
        OccursInConcatRight(u, v, p, i);
      } else {
        var k := |u| - i;
        assert (u + v)[i..i + |p|][k] == v[0];
        assert p[1..][k - 1] == p[k];
      }
    }
  }

  /**
   * If `p` occurs at `j`, the stretch `s[k..j]` holds no `p`, and occurrences
   * of `p` cannot overlap, then the first `p` at or after `k` is the one at `j`.
   */
  lemma FindAfterClean(s: string, p: string, k: nat, j: nat)
    requires HeadUnique(p) && k <= j && OccursAt(s, p, j) && !Contains(s[k..j], p)
    ensures FindFrom(s, p, k) == Some(j)
  {
    assert s[j] == s[j..j + |p|][0] == p[0];
    forall i | k <= i < j
      ensures !OccursAt(s, p, i)
    {
      if i + |p| <= j {
        SliceOfSlice(s, k, j, i - k, i - k + |p|);
        assert !OccursAt(s[k..j], p, i - k);
      } else if i + |p| <= |s| {
        var d := j - i;
        assert s[i..i + |p|][d] == s[j];
        assert p[1..][d - 1] == p[d];
      }
    }
    FindFromIs(s, p, k, j);
  }

  lemma SplitAround(s: string, i: nat, j: nat)
    requires i <= j <= |s|
    ensures s == s[..i] + s[i..j] + s[j..]
  {
  }

  /** One step of `ReplaceAll`, at the first occurrence `j`. */
  lemma ReplaceAllStep(s: string, p: string, r: string, j: nat)
    requires |p| > 0 && Find(s, p) == Some(j)
    ensures ReplaceAll(s, p, r) == s[..j] + r + ReplaceAll(s[j + |p|..], p, r)
  {
    assert Find(s, p).Some? && Find(s, p).value == j;
  }

  // ---------------------------------------------------------------------
  // Replace, split and join

  lemma JoinCons(x: string, rest: seq<string>, sep: string)
    requires |rest| >= 1
    ensures Join([x] + rest, sep) == x + sep + Join(rest, sep)
  {
    assert ([x] + rest)[1..] == rest;
  }

  /** Splitting on `p` and joining with `p` gives back the text. */
  lemma {:induction false} JoinSplit(s: string, p: string)
    requires |p| > 0
    ensures Join(Split(s, p), p) == s
    decreases |s|
  {
    match Find(s, p)
    case None =>
    case Some(j) =>
      var rest := s[j + |p|..];
      assert Split(s, p) == [s[..j]] + Split(rest, p);
      JoinSplit(rest, p);
      JoinCons(s[..j], Split(rest, p), p);
      assert s[j..j + |p|] == p;
      SplitAround(s, j, j + |p|);
  }

  /** `s.replace(p, r)` is `r.join(s.split(p))`: every occurrence is replaced and nothing else changes. */
  lemma {:induction false} ReplaceAllIsJoinOfSplit(s: string, p: string, r: string)
    requires |p| > 0
    ensures ReplaceAll(s, p, r) == Join(Split(s, p), r)
    decreases |s|
  {
    match Find(s, p)
    case None =>
    case Some(j) =>
      var rest := s[j + |p|..];
      ReplaceAllIsJoinOfSplit(rest, p, r);
      JoinCons(s[..j], Split(rest, p), r);
  }

  lemma ReplaceAbsent(s: string, p: string, r: string)
    requires |p| > 0 && !Contains(s, p)
    ensures ReplaceAll(s, p, r) == s
  {
  }

  /** When `p` is present, its replacement `r` is present in the result. */
  lemma ReplacementPresent(s: string, p: string, r: string)
    requires |p| > 0 && Contains(s, p)
    ensures Contains(ReplaceAll(s, p, r), r)
  {
    FindIffContains(s, p);
    var j := Find(s, p).value;
    var rest := ReplaceAll(s[j + |p|..], p, r);
    ReplaceAllStep(s, p, r, j);
    assert OccursAt(r, r, 0);
    ContainsInInfix(s[..j], r, rest, r);
  }

  /** Whatever the replacement contains, the result contains too, when `p` is present. */
  lemma ReplacementContentPresent(s: string, p: string, r: string, m: string)
    requires |p| > 0 && Contains(s, p) && Contains(r, m)
    ensures Contains(ReplaceAll(s, p, r), m)
  {
    ReplacementPresent(s, p, r);
    ContainsTransitive(ReplaceAll(s, p, r), r, m);
  }

  /** Replacing with a text that is free of `m` and cannot join up with its surroundings never creates `m`. */
  lemma {:induction false} ReplaceAllKeepsAbsent(s: string, p: string, r: string, m: string)
    requires |p| > 0 && |m| > 0 && |r| > 0
    requires r[0] !in m[1..] && r[|r| - 1] !in m[..|m| - 1]
    requires !Contains(s, m) && !Contains(r, m)
    ensures !Contains(ReplaceAll(s, p, r), m)
    decreases |s|
  {
    match Find(s, p)
    case None =>
      ReplaceAllNone(s, p, r);
    case Some(j) =>
      ReplaceAllStep(s, p, r, j);
      AbsentAround(s, m, j, j + |p|);
      ReplaceAllKeepsAbsent(s[j + |p|..], p, r, m);
      JoinAbsent(s[..j], r, ReplaceAll(s[j + |p|..], p, r), m);
  }

  lemma ReplaceAllNone(s: string, p: string, r: string)
    requires |p| > 0 && Find(s, p).None?
    ensures ReplaceAll(s, p, r) == s
  {
  }

  /** The text before `a` and the text after `b` are free of `m` when the whole text is. */
  lemma AbsentAround(s: string, m: string, a: nat, b: nat)
    requires a <= b <= |s| && !Contains(s, m)
    ensures !Contains(s[..a], m) && !Contains(s[b..], m)
  {
    NotContainsInfix(s, m, 0, a);
    assert s[0..a] == s[..a];
    NotContainsInfix(s, m, b, |s|);
    assert s[b..|s|] == s[b..];
  }

  /** `m` does not straddle the two edges of a replacement that cannot join up with its surroundings. */
  lemma JoinAbsent(u: string, r: string, v: string, m: string)
    requires |m| > 0 && |r| > 0
    requires r[0] !in m[1..] && r[|r| - 1] !in m[..|m| - 1]
    requires !Contains(u, m) && !Contains(r, m) && !Contains(v, m)
    ensures !Contains(u + r + v, m)
  {
    NoOccurrenceJoinAtEnd(r, v, m);
    assert (r + v)[0] == r[0];
    NoOccurrenceJoinAtStart(u, r + v, m);
    assert u + r + v == u + (r + v);
  }

  /** Inserting before every `p` makes the text strictly longer when `p` is present. */
  lemma {:induction false} InsertBeforeGrows(s: string, p: string, x: string)
    requires |p| > 0 && |x| > 0 && Contains(s, p)
    ensures |ReplaceAll(s, p, x + p)| > |s|
  {
    FindIffContains(s, p);
    var j := Find(s, p).value;
    var rest := s[j + |p|..];
    ReplaceAllStep(s, p, x + p, j);
    InsertBeforeKeepsLength(rest, p, x);
  }

  lemma {:induction false} InsertBeforeKeepsLength(s: string, p: string, x: string)
    requires |p| > 0
    ensures |ReplaceAll(s, p, x + p)| >= |s|
    decreases |s|
  {
    match Find(s, p)
    case None =>
    case Some(j) =>
      ReplaceAllStep(s, p, x + p, j);
      InsertBeforeKeepsLength(s[j + |p|..], p, x);
  }

  /**
   * Removing what an insert-before-every-`p` added gives back the original:
   * `s.replace(p, x + p).replace(x + p, p) == s`. It needs `x` to be free of
   * `p`, occurrences of `p` not to overlap, and `x` not to start with a
   * character that can continue a partial `p`.
   */
  lemma {:induction false} InsertBeforeRoundTrip(s: string, p: string, x: string)
    requires HeadUnique(p) && |x| > 0 && x[0] !in p[1..] && !Contains(x, p)
    ensures ReplaceAll(ReplaceAll(s, p, x + p), x + p, p) == s
    decreases |s|
  {
    match Find(s, p)
    case None =>
      NoInsertedWithoutAnchor(s, x, p);
      ReplaceAbsent(s, x + p, p);
    case Some(j) =>
      InsertBeforeRoundTrip(s[j + |p|..], p, x);
      RoundTripStep(s, p, x, j);
  }

  /** The inductive step of `InsertBeforeRoundTrip`, at the first `p`. */
  lemma RoundTripStep(s: string, p: string, x: string, j: nat)
    requires HeadUnique(p) && |x| > 0 && x[0] !in p[1..] && !Contains(x, p)
    requires Find(s, p) == Some(j)
    requires ReplaceAll(ReplaceAll(s[j + |p|..], p, x + p), x + p, p) == s[j + |p|..]
    ensures ReplaceAll(ReplaceAll(s, p, x + p), x + p, p) == s
  {
    var X := x + p;
    var u := s[..j];
    var rest := s[j + |p|..];
    var t := ReplaceAll(rest, p, X);
    var w := ReplaceAll(s, p, X);
    assert w == u + X + t by {
      ReplaceAllStep(s, p, X, j);
    }
    assert ReplaceAll(w, X, p) == u + p + rest by {
      PrefixBeforeFirst(s, p, j);
      RemoveFirstInserted(u, x, p, t);
    }
    assert s == u + p + rest by {
      assert s[j..j + |p|] == p;
      SplitAround(s, j, j + |p|);
    }
  }

  /** Removing the first `x + p` of `u + x + p + t`, with `u` free of `p`. */
  lemma RemoveFirstInserted(u: string, x: string, p: string, t: string)
    requires HeadUnique(p) && |x| > 0 && x[0] !in p[1..] && !Contains(x, p)
    requires !Contains(u, p)
    ensures ReplaceAll(u + (x + p) + t, x + p, p) == u + p + ReplaceAll(t, x + p, p)
  {
    var w := u + (x + p) + t;
    FirstInsertedFound(u, x, p, t);
    ReplaceAllStep(w, x + p, p, |u|);
    assert w[..|u|] == u;
    assert w[|u| + |x + p|..] == t;
  }

  /** A text without `p` holds no `x + p` either. */
  lemma NoInsertedWithoutAnchor(s: string, x: string, p: string)
    requires |p| > 0 && !Contains(s, p)
    ensures !Contains(s, x + p)
  {
    var X := x + p;
    forall i | 0 <= i <= |s| - |X|
      ensures !OccursAt(s, X, i)
    {
      assert !OccursAt(s, p, i + |x|);
      SliceOfSlice(s, i, i + |X|, |x|, |X|);
      assert X[|x|..] == p;
    }
  }

  /** In `u + x + p + t`, with `u` free of `p`, the first `x + p` is the one after `u`. */
  lemma FirstInsertedFound(u: string, x: string, p: string, t: string)
    requires HeadUnique(p) && |x| > 0 && x[0] !in p[1..] && !Contains(x, p)
    requires !Contains(u, p)
    ensures Find(u + (x + p) + t, x + p) == Some(|u|)
  {
    var X := x + p;
    var s := u + X + t;
    assert s[|u|..|u| + |X|] == X;
    assert OccursAt(s, X, |u|);
    forall i | 0 <= i < |u|
      ensures !OccursAt(s, X, i)
    {
      if i + |X| <= |u| {
        // then `p` would occur inside `u`
        assert s[i..i + |X|] == u[i..i + |X|];
        assert !OccursAt(u, p, i + |x|);
        SliceOfSlice(u, i, i + |X|, |x|, |X|);
        assert X[|x|..] == p;
      } else if i + |X| <= |s| && s[i..i + |X|] == X {
        NoBorder(u, x, p, t, i);
      }
    }
  }

  /**
   * The border argument behind `FirstInsertedFound`: if `x + p` occurred in
   * `u + x + p + t` at an index `i` inside `u`, overlapping the occurrence at
   * `|u|`, then `x + p` would have a border, which forces `p` into `x`, two
   * overlapping copies of `p`, or `x[0]` inside `p[1..]`.
   */
  lemma NoBorder(u: string, x: string, p: string, t: string, i: int)
    requires HeadUnique(p) && |x| > 0 && x[0] !in p[1..] && !Contains(x, p)
    requires 0 <= i < |u| < i + |x + p| <= |u + (x + p) + t|
    ensures (u + (x + p) + t)[i..i + |x + p|] != x + p
  {
    var X := x + p;
    var s := u + X + t;
    var d := |u| - i;
    if d > |x| {
      // the copy at `|u|` starts with `x[0]`, which `p[1..]` lacks
      assert s[i + d] == x[0];
      assert X[d] == p[1..][d - |x| - 1];
      assert s[i..i + |X|][d] != X[d];
    } else if d < |p| {
      // the copy at `|u|` puts `p[0]` where `X` has `p[d]`
      assert s[i + |x| + d] == p[0];
      assert X[|x| + d] == p[1..][d - 1];
      assert s[i..i + |X|][|x| + d] != X[|x| + d];
    } else {
      // otherwise `p` would sit inside `x` at `|x| - d`
      assert !OccursAt(x, p, |x| - d);
      assert x[|x| - d..|x| - d + |p|] != p;
      var m :| 0 <= m < |p| && x[|x| - d + m] != p[m];
      assert s[i + |x| + m] == x[|x| - d + m];
      assert X[|x| + m] == p[m];
      assert s[i..i + |X|][|x| + m] != X[|x| + m];
    }
  }

  /** Single-character separators: splitting a join gives back the parts when no part holds the separator. */
  lemma {:induction false} SplitJoinChar(parts: seq<string>, c: char)
    requires |parts| >= 1
    requires forall i :: 0 <= i < |parts| ==> c !in parts[i]
    ensures Split(Join(parts, [c]), [c]) == parts
    decreases |parts|
  {
    if |parts| == 1 {
      NoHeadNoOccurrence(parts[0], [c]);
    } else {
      var rest := Join(parts[1..], [c]);
      assert Join(parts, [c]) == parts[0] + [c] + rest;
      SplitAtChar(parts[0], rest, c);
      SplitJoinChar(parts[1..], c);
      assert parts == [parts[0]] + parts[1..];
    }
  }

  /** Splitting at a first separator that follows a separator-free part. */
  lemma SplitAtChar(x: string, rest: string, c: char)
    requires c !in x
    ensures Split(x + [c] + rest, [c]) == [x] + Split(rest, [c])
  {
    var s := x + [c] + rest;
    NoHeadNoOccurrence(x, [c]);
    var j := |x|;
    assert s[j..j + 1] == [c];
    assert s[0..j] == x;
    FindAfterClean(s, [c], 0, j);
    assert s[j + 1..] == rest;
    assert s[..j] == x;
  }

  // ---------------------------------------------------------------------
  // Whitespace: Python's `\s` on text and the set `str.strip()` removes

  /** Python's `str.isspace` for one character; the same set `\s` matches in a text pattern. */
  predicate IsSpace(c: char) {
    c == ' ' || ('\t' <= c <= '\r') || ('\U{1C}' <= c <= '\U{1F}')
    || c == '\U{85}' || c == '\U{A0}' || c == '\U{1680}'
    || ('\U{2000}' <= c <= '\U{200A}') || c == '\U{2028}' || c == '\U{2029}'
    || c == '\U{202F}' || c == '\U{205F}' || c == '\U{3000}'
  }

  predicate AllSpace(s: string) {
    forall i :: 0 <= i < |s| ==> IsSpace(s[i])
  }

  /** The end of the greedy `\s*` that starts at `k`. */
  function SkipSpace(s: string, k: nat): (r: nat)
    requires k <= |s|
    decreases |s| - k
    ensures k <= r <= |s|
    ensures AllSpace(s[k..r])
    ensures r == |s| || !IsSpace(s[r])
  {
    if k < |s| && IsSpace(s[k]) then SkipSpace(s, k + 1) else k
  }

  /** `\s*` from `k` stops at the first character that is not whitespace. */
  lemma SkipSpaceIs(s: string, k: nat, j: nat)
    requires k <= j < |s| && AllSpace(s[k..j]) && !IsSpace(s[j])
    decreases j - k
    ensures SkipSpace(s, k) == j
  {
    if k < j {
      assert s[k] == s[k..j][0];
      assert s[k + 1..j] == s[k..j][1..];
      SkipSpaceIs(s, k + 1, j);
    }
  }

  /** The start of the run of whitespace that ends at `k`. */
  function SkipSpaceBack(s: string, k: nat): (r: nat)
    requires k <= |s|
    ensures r <= k
    ensures AllSpace(s[r..k])
    ensures r == 0 || !IsSpace(s[r - 1])
  {
    if k > 0 && IsSpace(s[k - 1]) then
      var r := SkipSpaceBack(s, k - 1);
      AllSpaceExtend(s, r, k);
      r
    else k
  }

  lemma AllSpaceExtend(s: string, r: nat, k: nat)
    requires r < k <= |s| && AllSpace(s[r..k - 1]) && IsSpace(s[k - 1])
    ensures AllSpace(s[r..k])
  {
    forall i | 0 <= i < k - r
      ensures IsSpace(s[r..k][i])
    {
      if i < k - 1 - r {
        assert s[r..k][i] == s[r..k - 1][i];
      }
    }
  }

  /** Python's `s.strip()`: the infix left after removing leading and trailing whitespace. */
  function Trim(s: string): (r: string)
    ensures |r| <= |s|
    ensures |r| > 0 ==> !IsSpace(r[0]) && !IsSpace(r[|r| - 1])
  {
    var a := SkipSpace(s, 0);
    if a == |s| then ""
    else
      var b := SkipSpaceBack(s, |s|);
      assert a < b;
      s[a..b]
  }

  /** What `Trim` removes is whitespace on both sides of the infix it keeps. */
  lemma TrimRemovesOnlySpace(s: string) returns (a: nat, b: nat)
    ensures a <= b <= |s| && Trim(s) == s[a..b]
    ensures AllSpace(s[..a]) && AllSpace(s[b..])
  {
    a := SkipSpace(s, 0);
    if a == |s| {
      b := a;
      assert s[..a] == s[0..a];
    } else {
      b := SkipSpaceBack(s, |s|);
      assert s[..a] == s[0..a];
      assert s[b..] == s[b..|s|];
    }
  }

  // ---------------------------------------------------------------------
  // Decimal rendering of counters, as Python's `str(n)`

  function DigitChar(d: nat): (c: char)
    requires d < 10
    ensures '0' <= c <= '9'
  {
    ['0', '1', '2', '3', '4', '5', '6', '7', '8', '9'][d]
  }

  predicate IsDigit(c: char) {
    '0' <= c <= '9'
  }

  function NatToString(n: nat): (r: string)
    ensures |r| > 0
    ensures forall i :: 0 <= i < |r| ==> IsDigit(r[i])
  {
    if n < 10 then [DigitChar(n)] else NatToString(n / 10) + [DigitChar(n % 10)]
  }

  function DigitValue(c: char): (d: nat)
    requires IsDigit(c)
    ensures d < 10
  {
    (c as int) - ('0' as int)
  }

  /** Reads back a string of decimal digits. */
  function ParseDecimal(s: string): nat
    requires forall i :: 0 <= i < |s| ==> IsDigit(s[i])
  {
    if |s| == 0 then 0
    else ParseDecimal(s[..|s| - 1]) * 10 + DigitValue(s[|s| - 1])
  }

  /** Rendering a counter and reading it back gives the counter. */
  lemma {:induction false} DecimalRoundTrip(n: nat)
    ensures ParseDecimal(NatToString(n)) == n
  {
    if n >= 10 {
      DecimalRoundTrip(n / 10);
      var s := NatToString(n);
      assert s[..|s| - 1] == NatToString(n / 10);
    }
  }

  /** Distinct counters render as distinct strings, so `sec-<k>` anchors never collide. */
  lemma DecimalInjective(a: nat, b: nat)
    requires NatToString(a) == NatToString(b)
    ensures a == b
  {
    DecimalRoundTrip(a);
    DecimalRoundTrip(b);
  }

  // ---------------------------------------------------------------------
  // Characters through a replacement

  /** A text that lacks one of the characters of `p` does not contain `p`. */
  lemma MissingCharNoOccurrence(s: string, p: string, j: nat)
    requires j < |p| && p[j] !in s
    ensures !Contains(s, p)
  {
    forall i | 0 <= i <= |s| - |p|
      ensures !OccursAt(s, p, i)
    {
      assert s[i + j] in s;
    }
  }

  /** A replacement brings in no character that neither the text nor the replacement has. */
  lemma {:induction false} ReplaceAllKeepsChar(s: string, p: string, r: string, c: char)
    requires |p| > 0 && c !in s && c !in r
    ensures c !in ReplaceAll(s, p, r)
    decreases |s|
  {
    match Find(s, p)
    case None =>
    case Some(j) =>
      var rest := s[j + |p|..];
      MissingFromSlice(s, 0, j, c);
      MissingFromSlice(s, j + |p|, |s|, c);
      assert s[..j] == s[0..j] && rest == s[j + |p|..|s|];
      ReplaceAllKeepsChar(rest, p, r, c);
  }

  lemma MissingFromSlice(s: string, a: nat, b: nat, c: char)
    requires a <= b <= |s| && c !in s
    ensures c !in s[a..b]
  {
    forall k | 0 <= k < b - a
      ensures s[a..b][k] != c
    {
      assert s[a..b][k] == s[a + k];
    }
  }

  /** A character that is not in `p` cannot be part of an occurrence, so it passes through the replacement. */
  lemma {:induction false} ReplaceAllAppendChar(s: string, p: string, r: string, c: char)
    requires |p| > 0 && c !in p
    ensures ReplaceAll(s + [c], p, r) == ReplaceAll(s, p, r) + [c]
    decreases |s|
  {
    var t := s + [c];
    match Find(s, p)
    case None =>
      AppendCharNoOccurrence(s, p, c);
      FindIffContains(t, p);
    case Some(j) =>
      var u := s[j + |p|..];
      AppendCharFind(s, p, c, j);
      ReplaceAllStep(t, p, r, j);
      ReplaceAllStep(s, p, r, j);
      AppendSlices(s, c, j, |p|);
      ReplaceAllAppendChar(u, p, r, c);
      assert s[..j] + r + (ReplaceAll(u, p, r) + [c]) == s[..j] + r + ReplaceAll(u, p, r) + [c];
  }

  lemma AppendSlices(s: string, c: char, j: nat, n: nat)
    requires j + n <= |s|
    ensures (s + [c])[..j] == s[..j] && (s + [c])[j + n..] == s[j + n..] + [c]
  {
  }

  lemma AppendCharNoOccurrence(s: string, p: string, c: char)
    requires |p| > 0 && c !in p && !Contains(s, p)
    ensures !Contains(s + [c], p)
  {
    var t := s + [c];
    forall i | 0 <= i <= |t| - |p|
      ensures !OccursAt(t, p, i)
    {
      if i + |p| <= |s| {
        assert !OccursAt(s, p, i);
        assert t[i..i + |p|] == s[i..i + |p|];
      } else {
        assert t[i + |p| - 1] == c;
        assert p[|p| - 1] in p;
      }
    }
  }

  lemma AppendCharFind(s: string, p: string, c: char, j: nat)
    requires |p| > 0 && Find(s, p) == Some(j)
    ensures Find(s + [c], p) == Some(j)
  {
    var t := s + [c];
    assert t[j..j + |p|] == s[j..j + |p|];
    forall i | 0 <= i < j
      ensures !OccursAt(t, p, i)
    {
      assert !OccursAt(s, p, i);
      assert t[i..i + |p|] == s[i..i + |p|];
    }
    FindFromIs(t, p, 0, j);
  }

  /** Where the class `[^>]*` starting at `k` must stop: the first `>`, or the end of the text. */
  function TagLimit(s: string, k: nat): (r: nat)
    requires k <= |s|
    ensures k <= r <= |s| && (r < |s| ==> s[r] == '>')
    ensures forall j :: k <= j < r ==> s[j] != '>'
  {
    match FindChar(s, '>', k)
    case None => |s|
    case Some(g) => g
  }
}
