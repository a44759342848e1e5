/**
 * JavaScript's `String.prototype.split` with a non-empty string separator,
 * and the two readings of its result that the menu parser uses:
 * `s.split(sep)[0]` (Head) and `s.split(sep)[1]` (Second), the latter being
 * `undefined` when `sep` does not occur in `s`.
 */
module JsSplit {
  import opened Wrappers

  /** `t` occurs in `s` starting at index `i`. */
  predicate OccursAt(s: string, t: string, i: nat) {
    i + |t| <= |s| && s[i..i + |t|] == t
  }

  predicate Contains(s: string, t: string) {
    exists i: nat | i <= |s| :: OccursAt(s, t, i)
  }

  /** `x` contains none of `seps`. */
  predicate FreeOf(x: string, seps: seq<string>) {
    forall k :: 0 <= k < |seps| ==> !Contains(x, seps[k])
  }

  /** Position `end` of `s` is its end or the start of one of `seps`. */
  predicate EndsAtAny(s: string, end: nat, seps: seq<string>) {
    end == |s| || exists k :: 0 <= k < |seps| && OccursAt(s, seps[k], end)
  }

  /** The first index at or after `from` where `sep` occurs in `s`. */
  function FindFrom(s: string, sep: string, from: nat): (r: Option<nat>)
    ensures r.Some? ==> from <= r.value && OccursAt(s, sep, r.value)
    ensures forall j: nat :: from <= j && (r.None? || j < r.value) ==> !OccursAt(s, sep, j)
    decreases |s| - from
  {
    if from + |sep| > |s| then None
    else if s[from..from + |sep|] == sep then Some(from)
    else FindFrom(s, sep, from + 1)
  }

  /** `s.indexOf(sep)`, with `None` for JavaScript's -1. */
  function IndexOf(s: string, sep: string): (r: Option<nat>)
    ensures r.Some? ==> OccursAt(s, sep, r.value)
    ensures r.Some? ==> forall j: nat :: j < r.value ==> !OccursAt(s, sep, j)
    ensures r.None? <==> !Contains(s, sep)
  {
    FindFrom(s, sep, 0)
  }

  /** `pieces.join(sep)`. */
  function Join(pieces: seq<string>, sep: string): string {
    if |pieces| == 0 then ""
    else if |pieces| == 1 then pieces[0]
    else pieces[0] + sep + Join(pieces[1..], sep)
  }

  /** The part of `s` before an index that no earlier occurrence precedes holds no `t`. */
  lemma PrefixBeforeFirst(s: string, t: string, k: nat)
    requires |t| > 0 && k <= |s|
    requires forall j: nat :: j < k ==> !OccursAt(s, t, j)
    ensures !Contains(s[..k], t)
  {
    if Contains(s[..k], t) {
      var j: nat :| OccursAt(s[..k], t, j);
      assert OccursAt(s[..k], t, j);
      assert s[..k][j..j + |t|] == s[j..j + |t|];
      assert OccursAt(s, t, j);
    }
  }

  /**
   * `s.split(sep)`: the pieces of `s` between the non-overlapping occurrences
   * of `sep`, found left to right.
   */
  function Split(s: string, sep: string): (r: seq<string>)
    requires |sep| > 0
    ensures |r| >= 1
    ensures Join(r, sep) == s
    ensures forall k :: 0 <= k < |r| ==> !Contains(r[k], sep)
    ensures |r| >= 2 <==> Contains(s, sep)
    ensures forall k :: 0 <= k < |r| - 1 ==> IndexOf(Join(r[k..], sep), sep) == Some(|r[k]|)
    decreases |s|
  {
    match IndexOf(s, sep)
    case None => [s]
    case Some(k) =>
      PrefixBeforeFirst(s, sep, k);
      var rest := Split(s[k + |sep|..], sep);
      var r := [s[..k]] + rest;
      assert s == s[..k] + sep + s[k + |sep|..];
      assert r[1..] == rest;
      assert r[0..] == r;
      forall m | 1 <= m < |r| - 1
        ensures IndexOf(Join(r[m..], sep), sep) == Some(|r[m]|)
      {
        assert r[m..] == rest[m - 1..];
      }
      r
  }

  /** `s.split(sep)[0]`: everything before the first `sep`, or all of `s`. */
  function Head(s: string, sep: string): (r: string)
    requires |sep| > 0
    ensures r <= s
    ensures !Contains(r, sep)
    ensures Contains(s, sep) ==> OccursAt(s, sep, |r|)
    ensures !Contains(s, sep) ==> r == s
  {
    match IndexOf(s, sep)
    case None => s
    case Some(k) =>
      PrefixBeforeFirst(s, sep, k);
      s[..k]
  }

  /**
   * `s.split(sep)[1]`: the text between the first and the second `sep`, or
   * from the first `sep` to the end; `None` (JavaScript's `undefined`)
   * exactly when `sep` does not occur in `s`.
   */
  function Second(s: string, sep: string): (r: Option<string>)
    requires |sep| > 0
    ensures r.Some? <==> Contains(s, sep)
    ensures r.Some? ==>
      var start := IndexOf(s, sep).value + |sep|;
      var end := start + |r.value|;
      OccursAt(s, r.value, start) && !Contains(r.value, sep)
      && (end == |s| || OccursAt(s, sep, end))
    ensures r.Some? ==>
      var start := IndexOf(s, sep).value + |sep|;
      forall j: nat :: start <= j < start + |r.value| ==> !OccursAt(s, sep, j)
  {
    match IndexOf(s, sep)
    case None => None
    case Some(k) =>
      var start := k + |sep|;
      var rest := s[start..];
      var x := Head(rest, sep);
      assert OccursAt(s, rest, start);
      PrefixOccurs(rest, x);
      OccursWithin(s, rest, x, start, 0);
      HeadEndsAtFirst(rest, sep);
      SuffixKeepsOccurrences(s, sep, start);
      if Contains(rest, sep) then
        OccursWithin(s, rest, sep, start, |x|);
        Some(x)
      else
        Some(x)
  }

  /** An occurrence at or after `start` is an occurrence in `s[start..]`. */
  lemma SuffixKeepsOccurrences(s: string, t: string, start: nat)
    requires start <= |s|
    ensures forall j: nat :: start <= j && OccursAt(s, t, j) ==> OccursAt(s[start..], t, j - start)
  {
    forall j: nat | start <= j && OccursAt(s, t, j) ensures OccursAt(s[start..], t, j - start) {
      assert s[start..][j - start..j - start + |t|] == s[j..j + |t|];
    }
  }

  /** No occurrence of `sep` starts before the end of `s.split(sep)[0]`. */
  lemma HeadEndsAtFirst(s: string, sep: string)
    requires |sep| > 0
    ensures forall j: nat :: j < |Head(s, sep)| ==> !OccursAt(s, sep, j)
  {
    match IndexOf(s, sep)
    case None =>
    case Some(k) =>
  }

  /** Head is the first piece of Split. */
  lemma HeadIsFirstPiece(s: string, sep: string)
    requires |sep| > 0
    ensures Split(s, sep)[0] == Head(s, sep)
  {
  }

  /** Second is the second piece of Split, and is absent when Split has one piece. */
  lemma SecondIsSecondPiece(s: string, sep: string)
    requires |sep| > 0
    ensures Second(s, sep) == if |Split(s, sep)| >= 2 then Some(Split(s, sep)[1]) else None
  {
    match IndexOf(s, sep)
    case None =>
    case Some(k) =>
      HeadIsFirstPiece(s[k + |sep|..], sep);
  }

  /** An occurrence inside an occurrence is an occurrence. */
  lemma OccursWithin(s: string, t: string, u: string, i: nat, j: nat)
    requires OccursAt(s, t, i) && OccursAt(t, u, j)
    ensures OccursAt(s, u, i + j)
  {
    forall x | 0 <= x < |u| ensures s[i + j + x] == u[x] {
      assert s[i..i + |t|][j + x] == t[j + x];
      assert t[j..j + |u|][x] == u[x];
    }
  }

  /** A string that does not contain `m` has no substring that contains it. */
  lemma AbsentFromPart(s: string, t: string, i: nat, m: string)
    requires OccursAt(s, t, i) && !Contains(s, m)
    ensures !Contains(t, m)
  {
    if Contains(t, m) {
      var j: nat :| OccursAt(t, m, j);
      assert OccursAt(t, m, j);
      OccursWithin(s, t, m, i, j);
    }
  }

  /** A piece of a string free of `seps` is free of them too. */
  lemma FreeOfPart(s: string, t: string, i: nat, seps: seq<string>)
    requires OccursAt(s, t, i) && FreeOf(s, seps)
    ensures FreeOf(t, seps)
  {
    forall k | 0 <= k < |seps| ensures !Contains(t, seps[k]) {
      AbsentFromPart(s, t, i, seps[k]);
    }
  }

  /** The prefix `t` of `s` occurs in `s` at index 0. */
  lemma PrefixOccurs(s: string, t: string)
    requires t <= s
    ensures OccursAt(s, t, 0)
  {
  }

  /**
   * Cutting a piece `x` of `s` at `sep` leaves a piece of `s` at the same
   * place, ending where `x` ends or at a `sep`.
   */
  lemma HeadWithin(s: string, x: string, start: nat, sep: string)
    requires |sep| > 0 && OccursAt(s, x, start)
    ensures
      var h := Head(x, sep);
      OccursAt(s, h, start) && (|h| == |x| || OccursAt(s, sep, start + |h|))
  {
    var h := Head(x, sep);
    PrefixOccurs(x, h);
    OccursWithin(s, x, h, start, 0);
    if Contains(x, sep) {
      OccursWithin(s, x, sep, start, |h|);
    }
  }

  /**
   * `x` is the piece of `s` that starts at `start`: it holds none of `seps`
   * and ends at the end of `s` or where one of `seps` starts.
   */
  predicate PieceAfter(s: string, x: string, start: nat, seps: seq<string>) {
    OccursAt(s, x, start) && FreeOf(x, seps) && EndsAtAny(s, start + |x|, seps)
  }

  /** The second piece of `s` is the piece after the first `sep`, free of `sep`. */
  lemma SecondPiece(s: string, sep: string)
    requires |sep| > 0 && Contains(s, sep)
    ensures PieceAfter(s, Second(s, sep).value, IndexOf(s, sep).value + |sep|, [sep])
  {
    var start := IndexOf(s, sep).value + |sep|;
    var x := Second(s, sep).value;
    assert [sep][0] == sep;
    if start + |x| < |s| {
      assert OccursAt(s, [sep][0], start + |x|);
    }
  }

  /**
   * One more `.split(sep)[0]` on the piece `x` of `s` that is free of `seps`
   * gives the piece at the same place that is free of `seps + [sep]`.
   */
  lemma CutStep(s: string, x: string, start: nat, seps: seq<string>, sep: string, all: seq<string>)
    requires |sep| > 0 && all == seps + [sep] && PieceAfter(s, x, start, seps)
    ensures PieceAfter(s, Head(x, sep), start, all)
  {
    var h := Head(x, sep);
    HeadWithin(s, x, start, sep);
    PrefixOccurs(x, h);
    FreeOfPart(x, h, 0, seps);
    forall k | 0 <= k < |all| ensures !Contains(h, all[k]) {
      if k < |seps| {
        assert all[k] == seps[k];
      } else {
        assert all[k] == sep;
      }
    }
    var end := start + |h|;
    if end < |s| {
      if |h| == |x| {
        var k :| 0 <= k < |seps| && OccursAt(s, seps[k], end);
        assert all[k] == seps[k];
      } else {
        assert all[|seps|] == sep;
      }
    }
  }

  /**
   * `s.split(a)[1].split(b)[0]` is the piece after the first `a`, free of
   * `a` and `b`.
   */
  lemma SecondThenHead(s: string, a: string, b: string)
    requires |a| > 0 && |b| > 0 && Contains(s, a)
    ensures PieceAfter(s, Head(Second(s, a).value, b), IndexOf(s, a).value + |a|, [a, b])
  {
    SecondPiece(s, a);
    CutStep(s, Second(s, a).value, IndexOf(s, a).value + |a|, [a], b, [a, b]);
  }

  /**
   * `s.split(a)[1].split(b)[0].split(c)[0].split(d)[0]` is the piece after
   * the first `a`, free of all four separators.
   */
  lemma SecondThenThreeHeads(s: string, a: string, b: string, c: string, d: string)
    requires |a| > 0 && |b| > 0 && |c| > 0 && |d| > 0 && Contains(s, a)
    ensures PieceAfter(s, Head(Head(Head(Second(s, a).value, b), c), d), IndexOf(s, a).value + |a|, [a, b, c, d])
  {
    var start := IndexOf(s, a).value + |a|;
    var after := Second(s, a).value;
    SecondThenHead(s, a, b);
    var x1 := Head(after, b);
    CutStep(s, x1, start, [a, b], c, [a, b, c]);
    var x2 := Head(x1, c);
    CutStep(s, x2, start, [a, b, c], d, [a, b, c, d]);
  }
}
