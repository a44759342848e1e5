/**
 * `s.split(/(?<=[a-z])(?=[A-Z])/)`: a zero-width split at every position
 * whose left neighbour is an ASCII lower-case letter and whose right
 * neighbour is an ASCII upper-case letter. Nothing is consumed.
 */
module CaseSplit {
  import opened Wrappers
  import JsSplit

  predicate IsLower(c: char) {
    'a' <= c <= 'z'
  }

  predicate IsUpper(c: char) {
    'A' <= c <= 'Z'
  }

  /** The regular expression matches `s` at position `p`. */
  predicate CutAt(s: string, p: int) {
    0 < p < |s| && IsLower(s[p - 1]) && IsUpper(s[p])
  }

  /** `s` holds no lower-case letter directly followed by an upper-case one. */
  predicate NoCut(s: string) {
    forall p | 0 < p < |s| :: !CutAt(s, p)
  }

  /** Consecutive items meet at a lower-to-upper transition. */
  predicate JoinsAtCut(a: string, b: string) {
    a != "" && b != "" && IsLower(a[|a| - 1]) && IsUpper(b[0])
  }

  /** `items.join("")`. */
  function Concat(items: seq<string>): string {
    if |items| == 0 then "" else items[0] + Concat(items[1..])
  }

  /** Concat is `Join` with the empty separator. */
  lemma {:induction false} ConcatIsJoin(items: seq<string>)
    ensures Concat(items) == JsSplit.Join(items, "")
  {
    if |items| == 1 {
      assert Concat(items[1..]) == "";
    } else if |items| > 1 {
      ConcatIsJoin(items[1..]);
    }
  }

  /** The first position at or after `from` where the expression matches. */
  function FirstCut(s: string, from: nat): (r: Option<nat>)
    ensures r.Some? ==> from <= r.value && CutAt(s, r.value)
    ensures forall p :: from <= p && (r.None? || p < r.value) ==> !CutAt(s, p)
    decreases |s| - from
  {
    if from >= |s| then None
    else if CutAt(s, from) then Some(from)
    else FirstCut(s, from + 1)
  }

  /** The items of a dinner text, cut at each lower-to-upper transition. */
  function SplitItems(s: string): (r: seq<string>)
    ensures |r| >= 1 && r[0] <= s
    ensures Concat(r) == s
    ensures forall k :: 0 <= k < |r| ==> NoCut(r[k])
    ensures forall k :: 0 <= k < |r| - 1 ==> JoinsAtCut(r[k], r[k + 1])
    ensures s != "" ==> forall k :: 0 <= k < |r| ==> r[k] != ""
    decreases |s|
  {
    match FirstCut(s, 1)
    case None => [s]
    case Some(p) =>
      assert forall q :: CutAt(s[..p], q) ==> CutAt(s, q);
      var rest := SplitItems(s[p..]);
      assert ([s[..p]] + rest)[1..] == rest;
      [s[..p]] + rest
  }

  /**
   * SplitItems is the only way to cut `s` into pieces that concatenate back
   * to `s`, hold no transition inside, and meet at transitions.
   */
  lemma {:induction false} SplitItemsUnique(s: string, items: seq<string>)
    requires |items| >= 1 && Concat(items) == s
    requires forall k :: 0 <= k < |items| ==> NoCut(items[k])
    requires forall k :: 0 <= k < |items| - 1 ==> JoinsAtCut(items[k], items[k + 1])
    ensures SplitItems(s) == items
    decreases |items|
  {
    if |items| == 1 {
      assert s == items[0];
      assert NoCut(s);
    } else {
      var head, tail := items[0], items[1..];
      var p := |head|;
      assert s == head + Concat(tail);
      assert Concat(tail) == items[1] + Concat(tail[1..]);
      assert JoinsAtCut(items[0], items[1]);
      assert CutAt(s, p);
      forall q | 1 <= q < p ensures !CutAt(s, q) {
        assert !CutAt(head, q);
      }
      assert FirstCut(s, 1) == Some(p);
      assert s[..p] == head && s[p..] == Concat(tail);
      SplitItemsUnique(s[p..], tail);
    }
  }

  /** A title-cased pair is cut in two. */
  lemma TitleCaseExample()
    ensures SplitItems("RiceChicken") == ["Rice", "Chicken"]
  {
    SplitItemsUnique("RiceChicken", ["Rice", "Chicken"]);
  }

  /** An upper-to-upper pair is never a cut. */
  lemma AllCapsPrefixExample()
    ensures SplitItems("PASTAWithSauce") == ["PASTAWith", "Sauce"]
  {
    SplitItemsUnique("PASTAWithSauce", ["PASTAWith", "Sauce"]);
  }

  /** Digits are never cut around. */
  lemma DigitsExample()
    ensures SplitItems("foo1foo2") == ["foo1foo2"]
  {
    SplitItemsUnique("foo1foo2", ["foo1foo2"]);
  }

  /** The empty text gives one empty item, as JavaScript's split does. */
  lemma EmptyTextExample()
    ensures SplitItems("") == [""]
  {
  }
}
