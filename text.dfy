/** The string primitives of JavaScript that the core relies on (`\s`, `trim`,
    `indexOf`, `lastIndexOf`, `endsWith`, a global `replace` of a literal,
    `Number.prototype.toString`, `padStart`), written as scanners over `seq<char>`. */
module Text {
  import opened Wrappers

  /** The characters JavaScript's `\s` class matches; `String.prototype.trim`
      removes exactly the same set (WhiteSpace and LineTerminator). */
  predicate IsWhitespace(c: char) {
    || c == ' ' || c == '\t' || c == '\n' || c == '\r' || c == '\U{000B}' || c == '\U{000C}'
    || c == '\U{00A0}' || c == '\U{1680}' || ('\U{2000}' <= c <= '\U{200A}')
    || c == '\U{2028}' || c == '\U{2029}' || c == '\U{202F}' || c == '\U{205F}'
    || c == '\U{3000}' || c == '\U{FEFF}'
  }

  predicate AllWhitespace(s: string, i: nat, j: nat)
    requires i <= j <= |s|
  {
    forall k :: i <= k < j ==> IsWhitespace(s[k])
  }

  /** End of the maximal whitespace run starting at `i`: what a greedy `\s*` consumes. */
  function SkipWhitespace(s: string, i: nat): (j: nat)
    requires i <= |s|
    ensures i <= j <= |s|
    ensures AllWhitespace(s, i, j)
    ensures j < |s| ==> !IsWhitespace(s[j])
    decreases |s| - i
  {
    if i < |s| && IsWhitespace(s[i]) then SkipWhitespace(s, i + 1) else i
  }

  /** A whitespace run followed by a non-whitespace character at `j` can only end at the
      point a greedy `\s*` stops: backtracking into the run never helps. */
  lemma WhitespaceRunEnd(s: string, i: nat, j: nat)
    requires i <= j < |s|
    requires AllWhitespace(s, i, j) && !IsWhitespace(s[j])
    ensures SkipWhitespace(s, i) == j
  {
  }

  /** Nothing between `i` and the index `IndexFrom` finds is `c`. */
  lemma NoQuoteBeforeIndex(s: string, c: char, i: nat)
    requires i <= |s|
    ensures c !in s[i..IndexFrom(s, c, i)]
  {
    var k := IndexFrom(s, c, i);
    assert forall j :: 0 <= j < k - i ==> s[i..k][j] == s[i + j];
  }

  /** The same, for a run that also may reach the end of the text. */
  lemma WhitespaceRunStops(s: string, i: nat, j: nat)
    requires i <= j <= |s|
    requires AllWhitespace(s, i, j) && (j == |s| || !IsWhitespace(s[j]))
    ensures SkipWhitespace(s, i) == j
  {
    if j < |s| {
      WhitespaceRunEnd(s, i, j);
    }
  }

  /** Start of the whitespace run that ends at `j`, not going below `lo`. */
  function SkipWhitespaceBack(s: string, lo: nat, j: nat): (i: nat)
    requires lo <= j <= |s|
    ensures lo <= i <= j
    ensures AllWhitespace(s, i, j)
    ensures lo < i ==> !IsWhitespace(s[i - 1])
    decreases j
  {
    if lo < j && IsWhitespace(s[j - 1]) then SkipWhitespaceBack(s, lo, j - 1) else j
  }

  /** `s` holds `pat` at index `i`. */
  predicate StartsAt(s: string, i: nat, pat: string) {
    i + |pat| <= |s| && s[i..i + |pat|] == pat
  }

  ghost predicate IsSubstring(r: string, s: string) {
    exists k :: 0 <= k && StartsAt(s, k, r)
  }

  /** `s.length` in JavaScript: the number of UTF-16 code units, two for a character
      outside the Basic Multilingual Plane and one for any other. */
  function Utf16Length(s: string): (n: nat)
    ensures |s| <= n <= 2 * |s|
    decreases |s|
  {
    if s == [] then 0 else Utf16Length(s[..|s| - 1]) + CodeUnits(s[|s| - 1])
  }

  function CodeUnits(c: char): nat {
    if c as int >= 0x1_0000 then 2 else 1
  }

  /** Code units add up over a concatenation. */
  lemma {:induction false} Utf16LengthConcat(a: string, b: string)
    ensures Utf16Length(a + b) == Utf16Length(a) + Utf16Length(b)
    decreases |b|
  {
    if b != [] {
      assert (a + b)[..|a + b| - 1] == a + b[..|b| - 1];
      Utf16LengthConcat(a, b[..|b| - 1]);
    } else {
      assert a + b == a;
    }
  }

  /** The code units of a prompt built around a text and followed by the text again. */
  lemma PromptCodeUnits(head: string, text: string, tail: string)
    ensures Utf16Length(head + text + tail + text) == Utf16Length(head) + Utf16Length(tail) + 2 * Utf16Length(text)
  {
    Utf16LengthConcat(head, text);
    Utf16LengthConcat(head + text, tail);
    Utf16LengthConcat(head + text + tail, text);
  }

  /** Within the Basic Multilingual Plane a character is one code unit. */
  lemma {:induction false} Utf16LengthOfBmp(s: string)
    requires forall k :: 0 <= k < |s| ==> s[k] as int < 0x1_0000
    ensures Utf16Length(s) == |s|
    decreases |s|
  {
    if s != [] {
      Utf16LengthOfBmp(s[..|s| - 1]);
    }
  }

  /** `String.prototype.trim`. */
  function Trim(s: string): (r: string)
    ensures |r| <= |s|
    ensures r == [] || (!IsWhitespace(r[0]) && !IsWhitespace(r[|r| - 1]))
    ensures exists i: nat :: StartsAt(s, i, r) && AllWhitespace(s, 0, i) && AllWhitespace(s, i + |r|, |s|)
  {
    var i := SkipWhitespace(s, 0);
    var j := SkipWhitespaceBack(s, i, |s|);
    assert StartsAt(s, i, s[i..j]);
    s[i..j]
  }

  lemma TrimIdempotent(s: string)
    ensures Trim(Trim(s)) == Trim(s)
  {
    var t := Trim(s);
    if t != [] {
      assert SkipWhitespace(t, 0) == 0;
      assert SkipWhitespaceBack(t, 0, |t|) == |t|;
    }
  }

  /** First index at or after `i` holding `c`, or `|s|` when there is none. */
  function IndexFrom(s: string, c: char, i: nat): (k: nat)
    requires i <= |s|
    ensures i <= k <= |s|
    ensures k < |s| ==> s[k] == c
    ensures forall j :: i <= j < k ==> s[j] != c
    decreases |s| - i
  {
    if i == |s| || s[i] == c then i else IndexFrom(s, c, i + 1)
  }

  /** `s.indexOf(c)`, with `None` for -1. */
  function IndexOf(s: string, c: char): (r: Option<nat>)
    ensures r.None? <==> c !in s
    ensures r.Some? ==> r.value < |s| && s[r.value] == c && c !in s[..r.value]
  {
    var k := IndexFrom(s, c, 0);
    if k < |s| then Some(k) else None
  }

  /** `s.lastIndexOf(c)` restricted to `s[..j]`, with `None` for -1. */
  function LastIndexBefore(s: string, c: char, j: nat): (r: Option<nat>)
    requires j <= |s|
    ensures r.None? ==> forall k :: 0 <= k < j ==> s[k] != c
    ensures r.Some? ==> r.value < j && s[r.value] == c && forall k :: r.value < k < j ==> s[k] != c
    decreases j
  {
    if j == 0 then None else if s[j - 1] == c then Some(j - 1) else LastIndexBefore(s, c, j - 1)
  }

  /** `s.lastIndexOf(c)`, with `None` for -1. */
  function LastIndexOf(s: string, c: char): (r: Option<nat>)
    ensures r.None? <==> c !in s
    ensures r.Some? ==> r.value < |s| && s[r.value] == c && c !in s[r.value + 1..]
  {
    var r := LastIndexBefore(s, c, |s|);
    if r.None? then
      assert forall k :: 0 <= k < |s| ==> s[k] != c;
      r
    else
      r
  }

  predicate EndsWith(s: string, suffix: string) {
    |suffix| <= |s| && s[|s| - |suffix|..] == suffix
  }

  /** `s.replace(/pat/g, rep)` for a pattern that matches one fixed string: occurrences
      are found left to right, and scanning resumes after each replaced occurrence. */
  function ReplaceAll(s: string, pat: string, rep: string): (r: string)
    requires |pat| > 0
    decreases |s|
  {
    if |s| < |pat| then s
    else if s[..|pat|] == pat then rep + ReplaceAll(s[|pat|..], pat, rep)
    else [s[0]] + ReplaceAll(s[1..], pat, rep)
  }

  /** Replacing a string that does not occur changes nothing. */
  lemma {:induction false} ReplaceAllAbsent(s: string, pat: string, rep: string)
    requires |pat| > 0
    requires forall k :: 0 <= k ==> !StartsAt(s, k, pat)
    ensures ReplaceAll(s, pat, rep) == s
    decreases |s|
  {
    if |s| >= |pat| {
      assert !StartsAt(s, 0, pat);
      forall k | 0 <= k ensures !StartsAt(s[1..], k, pat) {
        if k + |pat| <= |s| - 1 {
          assert s[1..][k..k + |pat|] == s[k + 1..k + 1 + |pat|];
          assert !StartsAt(s, k + 1, pat);
        }
      }
      ReplaceAllAbsent(s[1..], pat, rep);
    }
  }

  /** A character that occurs neither in `s` nor in the replacement does not occur in
      the result. */
  lemma {:induction false} ReplaceAllAvoids(s: string, pat: string, rep: string, c: char)
    requires |pat| > 0 && c !in s && c !in rep
    ensures c !in ReplaceAll(s, pat, rep)
    decreases |s|
  {
    if |s| >= |pat| {
      if s[..|pat|] == pat {
        ReplaceAllAvoids(s[|pat|..], pat, rep, c);
      } else {
        ReplaceAllAvoids(s[1..], pat, rep, c);
      }
    }
  }

  // ---- decimal numerals ----

  function DigitChar(d: nat): (c: char)
    requires d < 10
    ensures '0' <= c <= '9'
  {
    "0123456789"[d]
  }

  predicate IsDigit(c: char) { '0' <= c <= '9' }

  /** Value of a string of decimal digits. */
  function DigitsValue(s: string): nat
    requires forall k :: 0 <= k < |s| ==> IsDigit(s[k])
  {
    if s == [] then 0
    else
      assert IsDigit(s[|s| - 1]);
      10 * DigitsValue(s[..|s| - 1]) + (s[|s| - 1] as int - '0' as int)
  }

  /** `n.toString()` for a non-negative integer: its decimal digits, no leading zeros. */
  function NatToString(n: nat): (r: string)
    ensures |r| >= 1
    ensures forall k :: 0 <= k < |r| ==> IsDigit(r[k])
    ensures |r| == 1 <==> n < 10
  {
    if n < 10 then [DigitChar(n)] else NatToString(n / 10) + [DigitChar(n % 10)]
  }

  /** Reading the digits back gives the number. */
  lemma {:induction false} NatToStringValue(n: nat)
    ensures DigitsValue(NatToString(n)) == n
  {
    var r := NatToString(n);
    if n < 10 {
      assert "0123456789"[n] as int - '0' as int == n;
    } else {
      NatToStringValue(n / 10);
      assert r[..|r| - 1] == NatToString(n / 10);
      assert "0123456789"[n % 10] as int - '0' as int == n % 10;
    }
  }

  /** `n.toString()` for an integer. */
  function IntToString(n: int): string {
    if n < 0 then "-" + NatToString(-n) else NatToString(n)
  }

  /** `s.padStart(width, fill)`. */
  function PadStart(s: string, width: nat, fill: char): (r: string)
    ensures |s| >= width ==> r == s
    ensures |s| < width ==> |r| == width && r[width - |s|..] == s
    ensures forall k :: 0 <= k < |r| - |s| ==> r[k] == fill
  {
    if |s| >= width then s else seq(width - |s|, _ => fill) + s
  }
}
