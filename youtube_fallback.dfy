/** `extractFallbackTranscript` (YouTubeVideoProcessingService.ts): the transcript
    recovered from a reply whose JSON object is cut off. Four tiers, tried in order:

    1. the capture of `/"text"\s*:\s*"([^"]*(?:\\.[^"]*)*)"/`;
    2. the capture of the same pattern without the closing quote;
    3. when the cleaned-up text below still holds a brace, the capture of
       `/"([^"]{100,})"/`;
    4. the reply stripped of fences, of an opening `{ ... "text": "` and of
       everything from the next quote on, trimmed; or else the reply itself.

    Read as a backtracking search, the first two patterns match at the leftmost
    `"text"` header (a header is `"text"`, whitespace, `:`, whitespace, `"`) whose
    capture can be closed: the greedy `[^"]*` runs to the first quote after the
    header and the starred group then matches nothing, so the capture always ends
    at that quote (an escaped quote `\"` ends it too) and pattern 1 matches at a
    header exactly when some quote follows it. Pattern 2 matches at the leftmost
    header, its capture ending at the first quote or at the end of the reply. */
module YouTubeFallback {
  import opened Wrappers
  import opened Text

  const TextKey: string := "\"text\""

  /** `"text"\s*:\s*"` matches at `p`, with its colon at `a` and its quote just
      before `g`. */
  predicate HeaderShape(s: string, p: nat, a: nat, g: nat) {
    && StartsAt(s, p, TextKey) && p + 6 <= a && a + 2 <= g <= |s|
    && AllWhitespace(s, p + 6, a) && s[a] == ':'
    && AllWhitespace(s, a + 1, g - 1) && s[g - 1] == '"'
  }

  /** Index just past the opening quote of a `"text"` header starting at `p`. */
  function TextHeaderAt(s: string, p: nat): (r: Option<nat>)
    ensures r.Some? ==> p + 8 <= r.value <= |s| && StartsAt(s, p, TextKey) && s[r.value - 1] == '"'
  {
    if !StartsAt(s, p, TextKey) then None
    else
      var a := SkipWhitespace(s, p + 6);
      if a < |s| && s[a] == ':' then
        var b := SkipWhitespace(s, a + 1);
        if b < |s| && s[b] == '"' then Some(b + 1) else None
      else None
  }

  /** The scan reads the header pattern exactly: it finds a header at `p` exactly when
      `"text"\s*:\s*"` matches there, and every way the pattern can match ends at the
      quote the scan stops after. */
  lemma TextHeaderAtMatches(s: string, p: nat)
    ensures TextHeaderAt(s, p).Some? ==> exists a: nat :: HeaderShape(s, p, a, TextHeaderAt(s, p).value)
    ensures forall a: nat, g: nat :: HeaderShape(s, p, a, g) ==> TextHeaderAt(s, p) == Some(g)
  {
    HeaderShapeIsGreedy(s, p);
    if TextHeaderAt(s, p).Some? {
      assert HeaderShape(s, p, SkipWhitespace(s, p + 6), TextHeaderAt(s, p).value);
    }
  }

  /** Neither `:` nor `"` is whitespace, so each `\s*` of a header match runs as far as
      the greedy scan does. */
  lemma HeaderShapeIsGreedy(s: string, p: nat)
    ensures forall a: nat, g: nat :: HeaderShape(s, p, a, g) ==>
      a == SkipWhitespace(s, p + 6) && g - 1 == SkipWhitespace(s, a + 1)
  {
    forall a: nat, g: nat | HeaderShape(s, p, a, g)
      ensures a == SkipWhitespace(s, p + 6) && g - 1 == SkipWhitespace(s, a + 1)
    {
      WhitespaceRunEnd(s, p + 6, a);
      WhitespaceRunEnd(s, a + 1, g - 1);
    }
  }

  /** The text-field pattern (with its closing quote when `needClose`) matches at `p`. */
  predicate FieldAt(s: string, p: nat, needClose: bool) {
    && TextHeaderAt(s, p).Some?
    && (needClose ==> IndexFrom(s, '"', TextHeaderAt(s, p).value) < |s|)
  }

  /** A match: where it starts, and the bounds of its capture group `s[open..close]`. */
  datatype Capture = Capture(start: nat, open: nat, close: nat)

  function CaptureText(s: string, m: Capture): string
    requires m.open <= m.close <= |s|
  {
    s[m.open..m.close]
  }

  /** The leftmost text-field match starting at or after `p`. */
  function FirstTextField(s: string, p: nat, needClose: bool): (r: Option<Capture>)
    requires p <= |s|
    ensures r.Some? ==>
      && p <= r.value.start && FieldAt(s, r.value.start, needClose)
      && r.value.open == TextHeaderAt(s, r.value.start).value
      && r.value.close == IndexFrom(s, '"', r.value.open)
    ensures r.Some? ==> forall q :: p <= q < r.value.start ==> !FieldAt(s, q, needClose)
    ensures r.None? ==> forall q :: p <= q ==> !FieldAt(s, q, needClose)
    decreases |s| - p
  {
    if p == |s| then
      NoHeaderPastEnd(s, p, needClose);
      None
    else if FieldAt(s, p, needClose) then
      var g := TextHeaderAt(s, p).value;
      Some(Capture(p, g, IndexFrom(s, '"', g)))
    else FirstTextField(s, p + 1, needClose)
  }

  /** No header starts at or after the end of the reply. */
  lemma NoHeaderPastEnd(s: string, p: nat, needClose: bool)
    requires p == |s|
    ensures forall q :: p <= q ==> !FieldAt(s, q, needClose)
  {
    forall q | p <= q ensures !StartsAt(s, q, TextKey) {
    }
  }

  /** `/"([^"]{100,})"/` can match at `p`. Without the `u` flag `[^"]` matches one
      UTF-16 code unit, so the run is counted in code units. */
  predicate QuotedRunAt(s: string, p: nat) {
    && p < |s| && s[p] == '"'
    && IndexFrom(s, '"', p + 1) < |s|
    && Utf16Length(s[p + 1..IndexFrom(s, '"', p + 1)]) >= 100
  }

  /** The leftmost match of `/"([^"]{100,})"/` starts at `q`. */
  predicate LeftmostQuotedRun(s: string, q: nat) {
    QuotedRunAt(s, q) && forall q': nat :: q' < q ==> !QuotedRunAt(s, q')
  }

  /** The leftmost match of `/"([^"]{100,})"/` at or after `p`. */
  function FirstQuotedRun(s: string, p: nat): (r: Option<Capture>)
    requires p <= |s|
    ensures r.Some? ==>
      && p <= r.value.start && QuotedRunAt(s, r.value.start)
      && r.value.open == r.value.start + 1 && r.value.close == IndexFrom(s, '"', r.value.open)
    ensures r.Some? ==> forall q :: p <= q < r.value.start ==> !QuotedRunAt(s, q)
    ensures r.None? ==> forall q :: p <= q ==> !QuotedRunAt(s, q)
    decreases |s| - p
  {
    if p == |s| then None
    else if QuotedRunAt(s, p) then Some(Capture(p, p + 1, IndexFrom(s, '"', p + 1)))
    else FirstQuotedRun(s, p + 1)
  }

  /** `.replace(/\\"/g, '"').replace(/\\n/g, '\n')`. */
  function Unescape(g: string): (r: string)
    ensures '"' !in g ==> '"' !in r
    ensures g == [] <==> r == []
    ensures '\\' !in g ==> r == g
  {
    UnescapeFacts(g);
    UnescapeNoBackslash(g);
    ReplaceAll(ReplaceAll(g, "\\\"", "\""), "\\n", "\n")
  }

  /** Escapes decoded in one left-to-right pass: `\"` becomes a quote, `\n` a line
      feed, and every other character, a lone backslash included, stays. */
  function DecodeEscapes(g: string): string
    decreases |g|
  {
    if |g| >= 2 && g[0] == '\\' && g[1] == '"' then "\"" + DecodeEscapes(g[2..])
    else if |g| >= 2 && g[0] == '\\' && g[1] == 'n' then "\n" + DecodeEscapes(g[2..])
    else if g == [] then []
    else [g[0]] + DecodeEscapes(g[1..])
  }

  /** The two global replacements decode the escapes in one pass: the first never
      makes a `\n` and never breaks one, so the order does not matter. */
  lemma {:induction false} UnescapeDecodes(g: string)
    ensures Unescape(g) == DecodeEscapes(g)
    decreases |g|
  {
    var q, n := "\\\"", "\\n";
    if |g| >= 2 && g[0] == '\\' && g[1] == '"' {
      assert g[..2] == q;
      UnescapeDecodes(g[2..]);
      ReplaceAllCons('"', ReplaceAll(g[2..], q, "\""), n, "\n");
    } else if |g| >= 2 && g[0] == '\\' && g[1] == 'n' {
      assert g[..2] != q;
      assert g[1..] == ['n'] + g[2..];
      ReplaceAllCons('n', g[2..], q, "\"");
      var y := ReplaceAll(g[2..], q, "\"");
      assert ReplaceAll(g, q, "\"") == n + y;
      assert (n + y)[..2] == n && (n + y)[2..] == y;
      UnescapeDecodes(g[2..]);
    } else if g == [] {
    } else if g[0] != '\\' {
      assert g == [g[0]] + g[1..];
      ReplaceAllCons(g[0], g[1..], q, "\"");
      ReplaceAllCons(g[0], ReplaceAll(g[1..], q, "\""), n, "\n");
      UnescapeDecodes(g[1..]);
    } else if |g| == 1 {
    } else {
      assert g[..2] != q;
      var y := ReplaceAll(g[1..], q, "\"");
      assert ReplaceAll(g, q, "\"") == ['\\'] + y;
      ReplaceAllHead(g[1..], q, "\"");
      assert y[0] != 'n';
      assert (['\\'] + y)[..2] != n by { assert (['\\'] + y)[..2][1] == y[0]; }
      assert (['\\'] + y)[1..] == y;
      UnescapeDecodes(g[1..]);
    }
  }

  /** A first character that cannot start the pattern is kept and passed over. */
  lemma ReplaceAllCons(c: char, x: string, pat: string, rep: string)
    requires |pat| > 0 && c != pat[0]
    ensures ReplaceAll([c] + x, pat, rep) == [c] + ReplaceAll(x, pat, rep)
  {
    var t := [c] + x;
    assert t[1..] == x;
    if |t| >= |pat| {
      assert t[..|pat|][0] == c;
    }
  }

  /** The result of the first replacement starts with what the text starts with, or
      with the quote an escaped quote became. */
  lemma ReplaceAllHead(t: string, pat: string, rep: string)
    requires t != [] && |pat| > 0 && |rep| > 0
    ensures var r := ReplaceAll(t, pat, rep);
      r != [] && (r[0] == t[0] || r[0] == rep[0])
  {
  }

  lemma UnescapeFacts(g: string)
    ensures var r := ReplaceAll(ReplaceAll(g, "\\\"", "\""), "\\n", "\n");
      ('"' !in g ==> '"' !in r) && (g == [] <==> r == [])
  {
    var once := ReplaceAll(g, "\\\"", "\"");
    ReplaceAllNonEmpty(g, "\\\"", "\"");
    ReplaceAllNonEmpty(once, "\\n", "\n");
    if '"' !in g {
      AbsentPattern(g, "\\\"", 1, '"');
      ReplaceAllAbsent(g, "\\\"", "\"");
      ReplaceAllAvoids(once, "\\n", "\n", '"');
    }
  }

  /** A pattern holding a character that `g` lacks does not occur in `g`. */
  lemma AbsentPattern(g: string, pat: string, i: nat, c: char)
    requires i < |pat| && pat[i] == c && c !in g
    ensures forall k :: 0 <= k ==> !StartsAt(g, k, pat)
  {
    forall k | 0 <= k ensures !StartsAt(g, k, pat) {
      if k + |pat| <= |g| {
        assert g[k..k + |pat|][i] == g[k + i];
      }
    }
  }

  /** A non-empty replacement never empties a non-empty string, and nothing comes
      from nothing. */
  lemma ReplaceAllNonEmpty(s: string, pat: string, rep: string)
    requires |pat| > 0 && |rep| > 0
    ensures s == [] <==> ReplaceAll(s, pat, rep) == []
  {
  }

  /** The global removals of three backticks followed by `tag` (`json`, then nothing)
      and by a greedy `\s` run: each occurrence, with the whitespace after it, is
      removed, scanning left to right. */
  function RemoveFences(s: string, tag: string): (r: string)
    ensures |r| <= |s|
    ensures '`' !in s ==> r == s
    decreases |s|
  {
    if s == [] then []
    else if StartsAt(s, 0, "```" + tag) then
      assert s[0] == ("```" + tag)[0];
      RemoveFences(s[SkipWhitespace(s, |"```" + tag|)..], tag)
    else [s[0]] + RemoveFences(s[1..], tag)
  }

  /** A fence, with the whole whitespace run after it, is removed, and text without a
      backtick before it is kept. */
  lemma RemoveFencesSplit(a: string, w: string, t: string, tag: string)
    requires '`' !in a && AllWhitespace(w, 0, |w|) && (t == [] || !IsWhitespace(t[0]))
    ensures RemoveFences(a + ("```" + tag) + w + t, tag) == a + RemoveFences(t, tag)
  {
    var f := "```" + tag;
    var x := f + w + t;
    calc {
      RemoveFences(a + f + w + t, tag);
      { assert a + f + w + t == a + x; }
      RemoveFences(a + x, tag);
      { KeptPrefix(a, x, tag); }
      a + RemoveFences(x, tag);
      { LeadingFenceRemoved(w, t, tag); }
      a + RemoveFences(t, tag);
    }
  }

  /** A fence at the start is dropped with the whitespace after it. */
  lemma LeadingFenceRemoved(w: string, t: string, tag: string)
    requires AllWhitespace(w, 0, |w|) && (t == [] || !IsWhitespace(t[0]))
    ensures RemoveFences(("```" + tag) + w + t, tag) == RemoveFences(t, tag)
  {
    var f := "```" + tag;
    var s := f + w + t;
    FenceRemoved(f, w, t);
    assert StartsAt(s, 0, f);
  }

  /** Text without a backtick in front of the rest is kept as it is. */
  lemma {:induction false} KeptPrefix(a: string, x: string, tag: string)
    requires '`' !in a
    ensures RemoveFences(a + x, tag) == a + RemoveFences(x, tag)
    decreases |a|
  {
    if a == [] {
      assert a + x == x;
    } else {
      var c, b := a[0], a[1..];
      assert a == [c] + b;
      calc {
        RemoveFences(a + x, tag);
        { assert a + x == [c] + (b + x); }
        RemoveFences([c] + (b + x), tag);
        { KeptBeforeFence(c, b + x, tag); }
        [c] + RemoveFences(b + x, tag);
        { KeptPrefix(b, x, tag); }
        [c] + (b + RemoveFences(x, tag));
        a + RemoveFences(x, tag);
      }
    }
  }

  /** A character other than a backtick cannot start a fence, so it is kept. */
  lemma KeptBeforeFence(c: char, x: string, tag: string)
    requires c != '`'
    ensures RemoveFences([c] + x, tag) == [c] + RemoveFences(x, tag)
  {
    var s := [c] + x;
    var f := "```" + tag;
    if |f| <= |s| {
      assert s[..|f|][0] == c != f[0];
    }
    assert s[1..] == x;
  }

  /** A fence at the start goes with the whole whitespace run after it. */
  lemma FenceRemoved(f: string, w: string, t: string)
    requires AllWhitespace(w, 0, |w|) && (t == [] || !IsWhitespace(t[0]))
    ensures var s := f + w + t;
      && s[..|f|] == f && SkipWhitespace(s, |f|) == |f| + |w| && s[|f| + |w|..] == t
  {
    var s := f + w + t;
    WhitespaceCopied(f, w, t);
    assert s[|f| + |w|..] == t;
    assert t != [] ==> s[|f| + |w|] == t[0];
    WhitespaceRunStops(s, |f|, |f| + |w|);
    assert s[..|f|] == f;
  }

  lemma WhitespaceCopied(f: string, w: string, t: string)
    requires AllWhitespace(w, 0, |w|)
    ensures AllWhitespace(f + w + t, |f|, |f| + |w|)
  {
    var s := f + w + t;
    forall k | |f| <= k < |f| + |w| ensures IsWhitespace(s[k]) {
      assert s[k] == w[k - |f|];
    }
  }

  /** `/^\s*\{[\s\S]*?"text"\s*:\s*"/` matches with the brace at `w` and the lazy
      part ending at the header at `q`. */
  predicate PrefixMatch(s: string, w: nat, q: nat) {
    && w < q <= |s| && AllWhitespace(s, 0, w) && s[w] == '{'
    && FieldAt(s, q, false)
    && forall q': nat :: w < q' < q ==> !FieldAt(s, q', false)
  }

  /** `.replace(/^\s*\{[\s\S]*?"text"\s*:\s*"/, '')`: when the text starts, after
      whitespace, with `{`, everything up to and including the opening quote of the
      first `"text"` header after that brace is removed; with no match the text is
      kept. */
  function StripObjectPrefix(s: string): (r: string)
    ensures |r| <= |s| && EndsWith(s, r)
    ensures forall w: nat, q: nat :: PrefixMatch(s, w, q) ==> r == s[TextHeaderAt(s, q).value..]
    ensures (forall w: nat, q: nat :: !PrefixMatch(s, w, q)) ==> r == s
  {
    var w := SkipWhitespace(s, 0);
    PrefixMatchIsFirst(s);
    if w < |s| && s[w] == '{' then
      match FirstTextField(s, w + 1, false)
      case Some(m) =>
        assert PrefixMatch(s, w, m.start);
        s[m.open..]
      case None => s
    else s
  }

  /** A match of the prefix pattern is the one the scan finds: the brace ends the
      leading whitespace, and the lazy part stops at the first header after it. */
  lemma PrefixMatchIsFirst(s: string)
    ensures forall w: nat, q: nat :: PrefixMatch(s, w, q) ==>
      && w == SkipWhitespace(s, 0)
      && FirstTextField(s, w + 1, false).Some?
      && FirstTextField(s, w + 1, false).value.start == q
  {
    forall w: nat, q: nat | PrefixMatch(s, w, q)
      ensures w == SkipWhitespace(s, 0)
      ensures FirstTextField(s, w + 1, false).Some? && FirstTextField(s, w + 1, false).value.start == q
    {
      WhitespaceRunEnd(s, 0, w);
    }
  }

  /** `.replace(/"[\s\S]*$/, '')`: everything from the first quote on is removed. */
  function CutAtQuote(s: string): (r: string)
    ensures |r| <= |s| && '"' !in r && r == s[..|r|]
    ensures '"' in s ==> |r| < |s| && s[|r|] == '"'
    ensures '"' !in s ==> r == s
  {
    var k := IndexFrom(s, '"', 0);
    assert '"' in s ==> k < |s|;
    s[..k]
  }

  /** `cleanText`. Prose without backticks or quotes is only trimmed. */
  function CleanText(s: string): (r: string)
    ensures '"' !in r && |r| <= |s|
    ensures '`' !in s && '"' !in s ==> r == Trim(s)
  {
    var t := CutAtQuote(StripObjectPrefix(RemoveFences(RemoveFences(s, "json"), "")));
    SubstringAvoids(t, Trim(t), '"');
    NoQuoteNoField(s);
    Trim(t)
  }

  /** Without a quote there is no header, so the prefix pattern cannot match. */
  lemma NoQuoteNoField(s: string)
    ensures '"' !in s ==> forall w: nat, q: nat :: !PrefixMatch(s, w, q)
  {
    if '"' !in s {
      AbsentPattern(s, TextKey, 0, '"');
    }
  }

  /** The clean-up of a truncated reply `{"text": "body` is the trimmed body: the
      fences are absent, the object prefix ends at the header's quote and no quote
      follows. */
  lemma CleanTextOfTruncatedReply(body: string)
    requires '"' !in body && '`' !in body
    ensures CleanText(TruncatedReply(body)) == Trim(body)
  {
    var s := TruncatedReply(body);
    assert forall k :: 10 <= k < |s| ==> s[k] == body[k - 10];
    assert '`' !in s by {
      forall k | 0 <= k < |s| ensures s[k] != '`' {
        if k >= 10 {
          assert s[k] == body[k - 10];
        }
      }
    }
    TruncatedReplyHeader(body);
    assert PrefixMatch(s, 0, 1);
    assert s[10..] == body;
  }

  lemma SubstringAvoids(s: string, r: string, c: char)
    requires c !in s && exists i: nat :: StartsAt(s, i, r)
    ensures c !in r
  {
    var i: nat :| StartsAt(s, i, r);
    assert forall k :: 0 <= k < |r| ==> r[k] == s[i + k];
  }

  /** The leftmost match of a text-field pattern starts at `q`. */
  predicate LeftmostField(s: string, q: nat, needClose: bool) {
    FieldAt(s, q, needClose) && forall q': nat :: q' < q ==> !FieldAt(s, q', needClose)
  }

  /** The capture of a text-field match at `q`: from the header's quote to the next
      quote, or to the end of the reply. */
  function FieldValue(s: string, q: nat): string
    requires TextHeaderAt(s, q).Some?
  {
    var g := TextHeaderAt(s, q).value;
    s[g..IndexFrom(s, '"', g)]
  }

  /** What the two text-field patterns capture, pattern 1 first: the capture of the
      leftmost closed field when there is one, else that of the leftmost field, and
      nothing exactly when the reply has no header. */
  function TextFieldCapture(s: string): (r: Option<string>)
    ensures r.Some? ==> '"' !in r.value
    ensures s == [] ==> r.None?
    ensures r.None? <==> forall q: nat :: !FieldAt(s, q, false)
    ensures forall q: nat :: LeftmostField(s, q, true) ==> r == Some(FieldValue(s, q))
    ensures (forall q: nat :: !FieldAt(s, q, true)) ==>
      forall q: nat :: LeftmostField(s, q, false) ==> r == Some(FieldValue(s, q))
  {
    LeftmostFieldIsFirst(s, true);
    LeftmostFieldIsFirst(s, false);
    match FirstTextField(s, 0, true)
    case Some(m) =>
      assert FieldAt(s, m.start, true) && FieldAt(s, m.start, false);
      Some(CaptureText(s, m))
    case None =>
      match FirstTextField(s, 0, false)
      case Some(m) =>
        assert FieldAt(s, m.start, false);
        Some(CaptureText(s, m))
      case None => None
  }

  /** The leftmost field is the one the scan from the start finds. */
  lemma LeftmostFieldIsFirst(s: string, needClose: bool)
    ensures forall q: nat :: LeftmostField(s, q, needClose) ==>
      && FirstTextField(s, 0, needClose).Some?
      && FirstTextField(s, 0, needClose).value.start == q
      && CaptureText(s, FirstTextField(s, 0, needClose).value) == FieldValue(s, q)
  {
  }

  /** The leftmost long quoted run is the one the scan from the start finds. */
  lemma LeftmostQuotedRunIsFirst(s: string)
    ensures forall q: nat :: LeftmostQuotedRun(s, q) ==>
      FirstQuotedRun(s, 0) == Some(Capture(q, q + 1, IndexFrom(s, '"', q + 1)))
  {
  }

  /** Some brace is left among the cleaned-up text. */
  predicate Braced(t: string) {
    '{' in t || '}' in t
  }

  /** `extractFallbackTranscript`: the unescaped text-field capture when there is one;
      otherwise, if the cleaned-up text still holds a brace, the unescaped capture of
      the leftmost long quoted run; otherwise the cleaned-up text, or the reply itself
      when that is empty. The result is the reply itself or holds no quote. */
  function ExtractFallbackTranscript(s: string): (r: string)
    ensures r == s || '"' !in r
    ensures TextFieldCapture(s).Some? ==> r == Unescape(TextFieldCapture(s).value)
    ensures TextFieldCapture(s).None? && Braced(CleanText(s)) ==>
      forall q: nat :: LeftmostQuotedRun(s, q) ==> r == Unescape(s[q + 1..IndexFrom(s, '"', q + 1)])
    ensures TextFieldCapture(s).None? && (!Braced(CleanText(s)) || forall q: nat :: !QuotedRunAt(s, q)) ==>
      r == (if CleanText(s) == [] then s else CleanText(s))
  {
    match TextFieldCapture(s)
    case Some(g) => Unescape(g)
    case None => PlainTextFallback(s)
  }

  /** The steps after the two text-field patterns: the unescaped leftmost long quoted
      run when `cleanText` still holds a brace, else `cleanText || responseText`. */
  function PlainTextFallback(s: string): (r: string)
    ensures r == s || '"' !in r
    ensures Braced(CleanText(s)) ==>
      forall q: nat :: LeftmostQuotedRun(s, q) ==> r == Unescape(s[q + 1..IndexFrom(s, '"', q + 1)])
    ensures (!Braced(CleanText(s)) || forall q: nat :: !QuotedRunAt(s, q)) ==>
      r == (if CleanText(s) == [] then s else CleanText(s))
  {
    LeftmostQuotedRunIsFirst(s);
    var cleanText := CleanText(s);
    var quoted := FirstQuotedRun(s, 0);
    if Braced(cleanText) && quoted.Some? then
      var q := quoted.value.start;
      var g := s[q + 1..IndexFrom(s, '"', q + 1)];
      assert CaptureText(s, quoted.value) == g;
      NoQuoteBeforeIndex(s, '"', q + 1);
      Unescape(g)
    else if cleanText != [] then cleanText
    else s
  }

  /** The fallback is empty only for an empty reply or when the matched text field is
      empty (`{"text": "",` for one). */
  lemma FallbackEmptyOnlyForEmptyField(s: string)
    ensures ExtractFallbackTranscript(s) == [] <==> s == [] || TextFieldCapture(s) == Some([])
  {
    match TextFieldCapture(s)
    case Some(g) =>
    case None =>
      var quoted := FirstQuotedRun(s, 0);
      if quoted.Some? {
        assert Utf16Length(CaptureText(s, quoted.value)) >= 100;
      }
  }

  /** A header standing alone: `{"text": "` followed by the part of a transcript the
      model got out before the reply was cut. */
  function TruncatedReply(body: string): string {
    "{\"text\": \"" + body
  }

  /** The quotes of a truncated reply are the three of its header. */
  lemma TruncatedReplyQuotes(body: string, k: nat)
    requires '"' !in body && k < |TruncatedReply(body)| && TruncatedReply(body)[k] == '"'
    ensures k == 1 || k == 6 || k == 9
  {
    var s := TruncatedReply(body);
    assert forall t :: 10 <= t < |s| ==> s[t] == body[t - 10];
  }

  /** The only header of a truncated reply is its first. */
  lemma TruncatedReplyHeader(body: string)
    requires '"' !in body
    ensures TextHeaderAt(TruncatedReply(body), 1) == Some(10)
    ensures forall q: nat :: q != 1 ==> TextHeaderAt(TruncatedReply(body), q).None?
  {
    var s := TruncatedReply(body);
    assert s[1..7] == TextKey;
    assert SkipWhitespace(s, 7) == 7;
    assert SkipWhitespace(s, 8) == 9;
    forall q: nat | TextHeaderAt(s, q).Some? ensures q == 1 {
      assert s[q] == TextKey[0] && s[q + 5] == TextKey[5] && s[q + 1] == TextKey[1];
      TruncatedReplyQuotes(body, q);
      TruncatedReplyQuotes(body, q + 5);
    }
  }

  /** The text-field patterns capture all of a truncated reply after its header. */
  lemma TruncatedReplyCapture(body: string)
    requires '"' !in body
    ensures TextFieldCapture(TruncatedReply(body)) == Some(body)
  {
    var s := TruncatedReply(body);
    TruncatedReplyHeader(body);
    assert forall k :: 10 <= k < |s| ==> s[k] == body[k - 10];
    assert IndexFrom(s, '"', 10) == |s|;
    assert FieldAt(s, 1, false) && !FieldAt(s, 1, true);
    assert FirstTextField(s, 0, true).None?;
    var m := FirstTextField(s, 0, false);
    assert m.Some?;
    assert m.value.start == 1;
    assert m.value == Capture(1, 10, |s|);
    assert s[10..|s|] == body;
  }

  /** Without a backslash there is nothing to unescape. */
  lemma UnescapeNoBackslash(g: string)
    ensures '\\' !in g ==> ReplaceAll(ReplaceAll(g, "\\\"", "\""), "\\n", "\n") == g
  {
    if '\\' !in g {
      AbsentPattern(g, "\\\"", 0, '\\');
      AbsentPattern(g, "\\n", 0, '\\');
      ReplaceAllAbsent(g, "\\\"", "\"");
      ReplaceAllAbsent(g, "\\n", "\n");
    }
  }

  /** A reply cut off inside the transcript gives back the part that arrived: for
      `{"text": "hello wor` the fallback is `hello wor`. */
  lemma TruncatedReplyKeepsText(body: string)
    requires '"' !in body && '\\' !in body
    ensures ExtractFallbackTranscript(TruncatedReply(body)) == body
  {
    TruncatedReplyCapture(body);
    UnescapeNoBackslash(body);
  }

  /** The empty-text counterexample: a reply cut right after an empty `text` value
      yields an empty transcript. */
  lemma EmptyTextFieldGivesEmptyTranscript()
    ensures ExtractFallbackTranscript("{\"text\": \"\", ") == ""
  {
    var s := "{\"text\": \"\", ";
    assert s[1..7] == TextKey;
    assert SkipWhitespace(s, 7) == 7;
    assert SkipWhitespace(s, 8) == 9;
    assert TextHeaderAt(s, 1) == Some(10);
    assert IndexFrom(s, '"', 10) == 10;
    assert !FieldAt(s, 0, true);
    assert FirstTextField(s, 0, true) == Some(Capture(1, 10, 10));
  }

  /** A reply whose transcript holds an escaped quote: `{"text": "a \"b\" c"`. */
  const EscapedQuoteReply: string := "{\"text\": \"a \\\"b\\\" c\""

  /** An escaped quote ends the capture: the greedy `[^"]*` takes the backslash, the
      group after it matches nothing, and the pattern closes at the escaped quote, so
      the fallback for `EscapedQuoteReply` is `a \`, backslash included, and the rest
      of the transcript is lost. */
  lemma EscapedQuoteEndsCapture()
    ensures ExtractFallbackTranscript(EscapedQuoteReply) == "a \\"
  {
    EscapedQuoteCapture();
    TrailingBackslashStays();
  }

  lemma TrailingBackslashStays()
    ensures Unescape("a \\") == "a \\"
  {
    UnescapeDecodes("a \\");
    assert DecodeEscapes("\\") == "\\";
  }

  lemma EscapedQuoteHeader()
    ensures TextHeaderAt(EscapedQuoteReply, 1) == Some(10)
    ensures IndexFrom(EscapedQuoteReply, '"', 10) == 13
  {
    var s := EscapedQuoteReply;
    assert s[1..7] == TextKey;
    assert SkipWhitespace(s, 7) == 7;
    assert SkipWhitespace(s, 8) == 9;
  }

  lemma EscapedQuoteCapture()
    ensures TextFieldCapture(EscapedQuoteReply) == Some("a \\")
  {
    var s := EscapedQuoteReply;
    EscapedQuoteHeader();
    assert !FieldAt(s, 0, true);
    assert LeftmostField(s, 1, true);
    assert s[10..13] == "a \\";
  }
}
