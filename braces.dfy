/** The brace-depth count that both `findCompleteJsonObject`
    (YouTubeVideoProcessingService.ts) and the `for` loop of
    `LogicalSegmentService.extractJsonFromResponse` run: `{` adds one, `}`
    subtracts one, and the scan ends at the first `}` that brings the count back
    to zero. Characters inside JSON string literals are counted like any other. */
module Braces {
  import opened Wrappers

  function BraceDelta(c: char): int {
    if c == '{' then 1 else if c == '}' then -1 else 0
  }

  /** Opening minus closing braces in `s[lo..hi]`. */
  function Depth(s: string, lo: nat, hi: nat): int
    requires lo <= hi <= |s|
    decreases hi
  {
    if hi == lo then 0 else Depth(s, lo, hi - 1) + BraceDelta(s[hi - 1])
  }

  /** Scanning from `lo`, the `}` at `i` brings the count back to zero. */
  predicate ClosesAt(s: string, lo: nat, i: nat) {
    lo <= i < |s| && s[i] == '}' && Depth(s, lo, i + 1) == 0
  }

  function FirstCloseFrom(s: string, lo: nat, i: nat): (r: Option<nat>)
    requires lo <= i
    ensures r.Some? ==> i <= r.value && ClosesAt(s, lo, r.value)
    ensures r.Some? ==> forall j :: i <= j < r.value ==> !ClosesAt(s, lo, j)
    ensures r.None? ==> forall j :: i <= j ==> !ClosesAt(s, lo, j)
    decreases |s| - i
  {
    if i >= |s| then None
    else if ClosesAt(s, lo, i) then Some(i)
    else FirstCloseFrom(s, lo, i + 1)
  }

  /** The index the brace scan started at `lo` stops at, or `None` when the count never
      comes back to zero on a `}`. */
  function MatchingClose(s: string, lo: nat): (r: Option<nat>)
    ensures r.Some? ==> ClosesAt(s, lo, r.value) && forall j :: lo <= j < r.value ==> !ClosesAt(s, lo, j)
    ensures r.None? ==> forall j :: lo <= j ==> !ClosesAt(s, lo, j)
  {
    FirstCloseFrom(s, lo, lo)
  }

  /** The depth over a slice depends only on the slice. */
  lemma {:induction false} DepthShift(s: string, lo: nat, hi: nat)
    requires lo <= hi <= |s|
    ensures Depth(s, lo, hi) == Depth(s[lo..], 0, hi - lo)
    decreases hi
  {
    if hi > lo {
      DepthShift(s, lo, hi - 1);
      assert s[lo..][hi - 1 - lo] == s[hi - 1];
    }
  }

  /** Scanning `s` from `lo` is scanning the suffix `s[lo..]` from its start. */
  lemma MatchingCloseShift(s: string, lo: nat)
    requires lo <= |s|
    ensures MatchingClose(s, lo).Some? == MatchingClose(s[lo..], 0).Some?
    ensures MatchingClose(s, lo).Some? ==> MatchingClose(s, lo).value == MatchingClose(s[lo..], 0).value + lo
  {
    forall i | lo <= i < |s| ensures ClosesAt(s, lo, i) == ClosesAt(s[lo..], 0, i - lo) {
      DepthShift(s, lo, i + 1);
    }
    var a, b := MatchingClose(s, lo), MatchingClose(s[lo..], 0);
    if a.Some? {
      assert ClosesAt(s[lo..], 0, a.value - lo);
    }
    if b.Some? {
      assert ClosesAt(s, lo, b.value + lo);
    }
  }

  /** The depth over a prefix of `s[..n]` is the same computed in `s` or in `s[..n]`. */
  lemma {:induction false} DepthPrefix(s: string, n: nat, hi: nat)
    requires hi <= n <= |s|
    ensures Depth(s[..n], 0, hi) == Depth(s, 0, hi)
    decreases hi
  {
    if hi > 0 {
      DepthPrefix(s, n, hi - 1);
      assert s[..n][hi - 1] == s[hi - 1];
    }
  }

  /** A scan that stops inside `s[..n]` stops at the same place in `s`: what follows
      the prefix is never looked at. */
  lemma MatchingCloseOfPrefix(s: string, n: nat)
    requires n <= |s| && MatchingClose(s[..n], 0).Some?
    ensures MatchingClose(s, 0) == MatchingClose(s[..n], 0)
  {
    var e := MatchingClose(s[..n], 0).value;
    forall i | i <= e ensures ClosesAt(s, 0, i) == ClosesAt(s[..n], 0, i) {
      DepthPrefix(s, n, i + 1);
    }
    assert ClosesAt(s, 0, e);
  }

  /** Characters other than braces leave the count unchanged. */
  lemma {:induction false} DepthSkipsOtherCharacters(s: string, lo: nat, a: nat, b: nat)
    requires lo <= a <= b <= |s|
    requires forall k :: a <= k < b ==> s[k] != '{' && s[k] != '}'
    ensures Depth(s, lo, b) == Depth(s, lo, a)
    decreases b
  {
    if b > a {
      DepthSkipsOtherCharacters(s, lo, a, b - 1);
    }
  }

  /** Nested braces inside a string value are skipped as long as they balance:
      in `{"text":"a { b } c"}` the scan stops at the final brace. */
  lemma BalancedInnerBraces()
    ensures MatchingClose("{\"text\":\"a { b } c\"}", 0) == Some(19)
  {
    var s := "{\"text\":\"a { b } c\"}";
    DepthSkipsOtherCharacters(s, 0, 1, 11);
    DepthSkipsOtherCharacters(s, 0, 12, 15);
    DepthSkipsOtherCharacters(s, 0, 16, 19);
    assert Depth(s, 0, 16) == 1;
    forall j | 0 <= j < 19 ensures !ClosesAt(s, 0, j) {
      if j != 15 {
        assert s[j] != '}';
      }
    }
    assert ClosesAt(s, 0, 19);
  }

  /** The count is not aware of string literals: in `{"text":"a } b"}` it stops at the
      brace inside the string. */
  lemma UnbalancedInnerBrace()
    ensures MatchingClose("{\"text\":\"a } b\"}", 0) == Some(11)
  {
    var s := "{\"text\":\"a } b\"}";
    DepthSkipsOtherCharacters(s, 0, 1, 11);
    forall j | 0 <= j < 11 ensures !ClosesAt(s, 0, j) {
      assert s[j] != '}';
    }
    assert ClosesAt(s, 0, 11);
  }
}
