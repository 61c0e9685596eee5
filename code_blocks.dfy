/** The fenced-code-block regular expressions of the three extractors, as scanners.

    - YouTubeVideoProcessingService: /```(?:json)?\s*(\{[\s\S]*?)\s*```/
    - LogicalSegmentService and GeminiTranscriptService: /```(?:json)?\s*(\{[\s\S]*?\})\s*```/

    `String.prototype.match` returns the first match of a backtracking search:
    the leftmost start, and at that start the first path in priority order. At a
    start `p` holding three backticks, `(?:json)?` tries `json` first; `\s*` is
    greedy and, since neither `{` nor a backtick is whitespace, only its longest
    run can be followed by them; the lazy `[\s\S]*?` tries the shortest body
    first. So a match is fixed by its start and by the smallest end `e` of the
    group after which (a closing brace, for the second form, and) a whitespace run
    and three backticks follow. `needBrace` selects the second form. */
module CodeBlocks {
  import opened Wrappers
  import opened Text

  const Fence: string := "```"

  /** Index of the `{` that opens a block whose fence starts at `p`. */
  function OpenBraceAt(s: string, p: nat): (r: Option<nat>)
    requires p <= |s|
    ensures r.Some? ==> p + 3 <= r.value < |s| && s[r.value] == '{'
  {
    if !StartsAt(s, p, Fence) then None
    else
      var q := if StartsAt(s, p + 3, "json") then p + 7 else p + 3;
      var w := SkipWhitespace(s, q);
      if w < |s| && s[w] == '{' then Some(w) else None
  }

  /** The group opened at `w` may end just before `e`. */
  predicate EndsBlockAt(s: string, w: nat, e: nat, needBrace: bool) {
    && w < e <= |s|
    && (needBrace ==> w + 1 < e && s[e - 1] == '}')
    && StartsAt(s, SkipWhitespace(s, e), Fence)
  }

  /** Smallest end at or after `e`: the lazy body. */
  function FirstBlockEnd(s: string, w: nat, e: nat, needBrace: bool): (r: Option<nat>)
    requires e <= |s| + 1
    ensures r.Some? ==> e <= r.value && EndsBlockAt(s, w, r.value, needBrace)
    ensures r.Some? ==> forall k :: e <= k < r.value ==> !EndsBlockAt(s, w, k, needBrace)
    ensures r.None? ==> forall k :: e <= k ==> !EndsBlockAt(s, w, k, needBrace)
    decreases |s| + 1 - e
  {
    if e > |s| then None
    else if EndsBlockAt(s, w, e, needBrace) then Some(e)
    else FirstBlockEnd(s, w, e + 1, needBrace)
  }

  /** The match starting at `p`, as the bounds `(w, e)` of its group `s[w..e]`. */
  function BlockAt(s: string, p: nat, needBrace: bool): (r: Option<(nat, nat)>)
    requires p <= |s|
    ensures r.Some? ==> p + 3 <= r.value.0 < r.value.1 <= |s| && s[r.value.0] == '{'
    ensures r.Some? ==> EndsBlockAt(s, r.value.0, r.value.1, needBrace)
    ensures r.Some? ==> forall k :: r.value.0 + 1 <= k < r.value.1 ==> !EndsBlockAt(s, r.value.0, k, needBrace)
  {
    match OpenBraceAt(s, p)
    case None => None
    case Some(w) =>
      match FirstBlockEnd(s, w, w + 1, needBrace)
      case None => None
      case Some(e) => Some((w, e))
  }

  datatype BlockMatch = BlockMatch(start: nat, open: nat, close: nat)

  /** The leftmost match starting at or after `p`. */
  function FirstBlockFrom(s: string, p: nat, needBrace: bool): (r: Option<BlockMatch>)
    requires p <= |s|
    ensures r.Some? ==> p <= r.value.start <= |s| && BlockAt(s, r.value.start, needBrace) == Some((r.value.open, r.value.close))
    ensures r.Some? ==> forall q :: p <= q < r.value.start ==> BlockAt(s, q, needBrace).None?
    ensures r.None? ==> forall q :: p <= q <= |s| ==> BlockAt(s, q, needBrace).None?
    decreases |s| - p
  {
    match BlockAt(s, p, needBrace)
    case Some((w, e)) => Some(BlockMatch(p, w, e))
    case None => if p == |s| then None else FirstBlockFrom(s, p + 1, needBrace)
  }

  /** `responseText.match(...)`: the match and its capture group 1. */
  function CodeBlockMatch(s: string, needBrace: bool): (r: Option<BlockMatch>)
    ensures r.Some? ==> r.value.start + 3 <= r.value.open < r.value.close <= |s|
    ensures r.Some? ==> s[r.value.open] == '{'
    ensures r.Some? && needBrace ==> s[r.value.close - 1] == '}'
  {
    FirstBlockFrom(s, 0, needBrace)
  }

  function Group(s: string, m: BlockMatch): string
    requires m.open <= m.close <= |s|
  {
    s[m.open..m.close]
  }

  // ---- the regular expression read declaratively ----

  /** `s[p..]` begins with one match of the pattern whose group is `s[w..e]` and whose
      closing fence starts at `f`: three backticks, optionally `json`, whitespace, the
      group (starting with `{`, and ending with `}` when `needBrace`), whitespace,
      three backticks. */
  ghost predicate BlockShape(s: string, p: nat, w: nat, e: nat, f: nat, needBrace: bool) {
    && StartsAt(s, p, Fence)
    && p + 3 <= w < e <= f <= |s|
    && (AllWhitespace(s, p + 3, w) || (StartsAt(s, p + 3, "json") && p + 7 <= w && AllWhitespace(s, p + 7, w)))
    && s[w] == '{'
    && (needBrace ==> w + 1 < e && s[e - 1] == '}')
    && AllWhitespace(s, e, f)
    && StartsAt(s, f, Fence)
  }

  /** What the scanner finds at `p` is an instance of the pattern. */
  lemma BlockAtSound(s: string, p: nat, needBrace: bool)
    requires p <= |s| && BlockAt(s, p, needBrace).Some?
    ensures var (w, e) := BlockAt(s, p, needBrace).value;
      BlockShape(s, p, w, e, SkipWhitespace(s, e), needBrace)
  {
  }

  /** Every instance of the pattern at `p` has the group start the scanner finds there,
      and none ends earlier than the scanner's group. */
  lemma BlockAtComplete(s: string, p: nat, w: nat, e: nat, f: nat, needBrace: bool)
    requires p <= |s| && BlockShape(s, p, w, e, f, needBrace)
    ensures BlockAt(s, p, needBrace).Some?
    ensures BlockAt(s, p, needBrace).value.0 == w && BlockAt(s, p, needBrace).value.1 <= e
  {
    if StartsAt(s, p + 3, "json") {
      assert !AllWhitespace(s, p + 3, w) by {
        assert s[p + 3] == "json"[0];
      }
      WhitespaceRunEnd(s, p + 7, w);
    } else {
      WhitespaceRunEnd(s, p + 3, w);
    }
    assert OpenBraceAt(s, p) == Some(w);
    assert s[f] == '`';
    WhitespaceRunEnd(s, e, f);
    assert EndsBlockAt(s, w, e, needBrace);
  }

  /** The match the extractors see: the leftmost instance of the pattern, and among
      the instances at that start the one with the shortest group. */
  lemma CodeBlockMatchIsFirstInstance(s: string, needBrace: bool)
    ensures CodeBlockMatch(s, needBrace).Some? ==>
      var m := CodeBlockMatch(s, needBrace).value;
      BlockShape(s, m.start, m.open, m.close, SkipWhitespace(s, m.close), needBrace)
    ensures forall p, w, e, f :: BlockShape(s, p, w, e, f, needBrace) ==>
      && CodeBlockMatch(s, needBrace).Some?
      && CodeBlockMatch(s, needBrace).value.start <= p
      && (CodeBlockMatch(s, needBrace).value.start == p ==>
            CodeBlockMatch(s, needBrace).value.open == w && CodeBlockMatch(s, needBrace).value.close <= e)
  {
    var r := CodeBlockMatch(s, needBrace);
    if r.Some? {
      BlockAtSound(s, r.value.start, needBrace);
    }
    forall p, w, e, f | BlockShape(s, p, w, e, f, needBrace)
      ensures r.Some? && r.value.start <= p && (r.value.start == p ==> r.value.open == w && r.value.close <= e)
    {
      BlockAtComplete(s, p, w, e, f, needBrace);
    }
  }

  function Wrapped(pre: string, j: string, post: string): string {
    pre + "```json\n" + j + "\n```" + post
  }

  lemma WrappedLayout(pre: string, j: string, post: string)
    ensures var s, P := Wrapped(pre, j, post), |pre|;
      && |s| == P + 12 + |j| + |post|
      && s[..P] == pre
      && s[P..P + 3] == Fence && s[P + 3..P + 7] == "json" && s[P + 7] == '\n'
      && s[P + 8..P + 8 + |j|] == j
      && s[P + 8 + |j|] == '\n' && s[P + 9 + |j|..P + 12 + |j|] == Fence
  {
    var s := Wrapped(pre, j, post);
    assert s == pre + ("```json\n" + j + "\n```" + post);
  }

  /** Where the prose before the block and the block's body lie. */
  lemma WrappedPieces(pre: string, j: string, post: string)
    ensures var s, P := Wrapped(pre, j, post), |pre|;
      P + 8 + |j| <= |s| && s[..P] == pre && s[P + 8..P + 8 + |j|] == j
  {
    WrappedLayout(pre, j, post);
  }

  lemma WrappedShape(pre: string, j: string, post: string, needBrace: bool)
    requires |j| >= 2 && j[0] == '{' && j[|j| - 1] == '}'
    ensures var P := |pre|;
      BlockShape(Wrapped(pre, j, post), P, P + 8, P + 8 + |j|, P + 9 + |j|, needBrace)
  {
    var s := Wrapped(pre, j, post);
    var P := |pre|;
    WrappedLayout(pre, j, post);
    assert s[P + 8] == j[0];
    assert s[P + 7 + |j|] == j[|j| - 1];
  }

  /** No fence starts in backtick-free prose. */
  lemma NoFenceIn(s: string, lo: nat, hi: nat, f: nat)
    requires lo <= f < hi <= |s|
    requires forall t :: lo <= t < hi ==> s[t] != '`'
    ensures !StartsAt(s, f, Fence)
  {
    assert s[f] != Fence[0];
    assert f + 3 <= |s| ==> s[f..f + 3][0] == s[f];
  }

  /** A reply without a backtick holds no code block. */
  lemma NoFenceNoBlock(s: string, needBrace: bool)
    requires '`' !in s
    ensures CodeBlockMatch(s, needBrace).None?
  {
    forall p | 0 <= p <= |s| ensures BlockAt(s, p, needBrace).None? {
      if p < |s| {
        NoFenceIn(s, p, |s|, p);
      }
    }
  }

  /** An object fenced as a `json` code block, amid prose without backticks, comes
      back byte for byte as the capture group. */
  lemma WrappedObjectRecovered(pre: string, j: string, post: string, needBrace: bool)
    requires '`' !in pre && '`' !in j
    requires |j| >= 2 && j[0] == '{' && j[|j| - 1] == '}'
    ensures CodeBlockMatch(Wrapped(pre, j, post), needBrace).Some?
    ensures Group(Wrapped(pre, j, post), CodeBlockMatch(Wrapped(pre, j, post), needBrace).value) == j
  {
    WrappedPieces(pre, j, post);
    WrappedShape(pre, j, post, needBrace);
    InstanceRecovered(Wrapped(pre, j, post), pre, j, needBrace);
  }

  /** An instance whose fence follows backtick-free prose and whose group is
      backtick-free is the match, and its group is the capture. */
  lemma InstanceRecovered(s: string, pre: string, j: string, needBrace: bool)
    requires '`' !in pre && '`' !in j
    requires |j| >= 2 && j[|j| - 1] == '}'
    requires |pre| + 8 + |j| <= |s| && s[..|pre|] == pre && s[|pre| + 8..|pre| + 8 + |j|] == j
    requires BlockShape(s, |pre|, |pre| + 8, |pre| + 8 + |j|, |pre| + 9 + |j|, needBrace)
    ensures CodeBlockMatch(s, needBrace).Some?
    ensures Group(s, CodeBlockMatch(s, needBrace).value) == j
  {
    var P := |pre|;
    FirstInstanceAt(s, P, P + 8, P + 8 + |j|, P + 9 + |j|, needBrace);
    NoFenceBefore(s, pre);
    NoEarlyClose(s, j, P + 8, needBrace);
  }

  /** One instance of the pattern: the match starts no later, and at the same start it
      has the same group start and no longer a group. */
  lemma FirstInstanceAt(s: string, p: nat, w: nat, e: nat, f: nat, needBrace: bool)
    requires BlockShape(s, p, w, e, f, needBrace)
    ensures CodeBlockMatch(s, needBrace).Some?
    ensures var m := CodeBlockMatch(s, needBrace).value;
      && m.start <= p && (m.start == p ==> m.open == w && m.close <= e)
      && StartsAt(s, m.start, Fence) && EndsBlockAt(s, m.open, m.close, needBrace)
  {
    CodeBlockMatchIsFirstInstance(s, needBrace);
  }

  /** No fence starts inside the backtick-free prose that opens `s`. */
  lemma NoFenceBefore(s: string, pre: string)
    requires |pre| <= |s| && s[..|pre|] == pre && '`' !in pre
    ensures forall p: nat :: p < |pre| ==> !StartsAt(s, p, Fence)
  {
    forall p: nat | p < |pre| ensures !StartsAt(s, p, Fence) {
      assert s[p] == pre[p];
      NoFenceIn(s, p, p + 1, p);
    }
  }

  /** Inside a backtick-free group `j` at `w`, which ends with a non-blank character,
      no closing fence can follow: the group cannot end before `j` does. */
  lemma NoEarlyClose(s: string, j: string, w: nat, needBrace: bool)
    requires w + |j| <= |s| && s[w..w + |j|] == j && '`' !in j
    requires |j| >= 1 && !IsWhitespace(j[|j| - 1])
    ensures forall k: nat :: k < w + |j| ==> !EndsBlockAt(s, w, k, needBrace)
  {
    var E := w + |j|;
    assert s[E - 1] == j[|j| - 1];
    forall k | w < k < E ensures !StartsAt(s, SkipWhitespace(s, k), Fence) {
      var f := SkipWhitespace(s, k);
      assert f < E;
      assert s[f] == j[f - w];
      NoFenceIn(s, f, f + 1, f);
    }
  }

  /** An instance of the pattern in a piece of `s` is an instance in `s`. */
  lemma BlockShapeShift(s: string, off: nat, r: string, p: nat, w: nat, e: nat, f: nat, needBrace: bool)
    requires off + |r| <= |s| && s[off..off + |r|] == r
    requires BlockShape(r, p, w, e, f, needBrace)
    ensures BlockShape(s, off + p, off + w, off + e, off + f, needBrace)
  {
    StartsAtShift(s, off, r, p, Fence);
    StartsAtShift(s, off, r, f, Fence);
    if StartsAt(r, p + 3, "json") {
      StartsAtShift(s, off, r, p + 3, "json");
    }
    if AllWhitespace(r, p + 3, w) {
      WhitespaceShift(s, off, r, p + 3, w);
    } else {
      WhitespaceShift(s, off, r, p + 7, w);
    }
    WhitespaceShift(s, off, r, e, f);
    assert s[off + w] == r[w];
    assert s[off + e - 1] == r[e - 1];
  }

  lemma StartsAtShift(s: string, off: nat, r: string, i: nat, pat: string)
    requires off + |r| <= |s| && s[off..off + |r|] == r
    requires StartsAt(r, i, pat)
    ensures StartsAt(s, off + i, pat)
  {
    forall k | 0 <= k < |pat| ensures s[off + i..off + i + |pat|][k] == pat[k] {
      assert s[off + i + k] == r[i + k];
      assert r[i..i + |pat|][k] == r[i + k];
    }
  }

  lemma WhitespaceShift(s: string, off: nat, r: string, i: nat, j: nat)
    requires off + |r| <= |s| && s[off..off + |r|] == r
    requires i <= j <= |r| && AllWhitespace(r, i, j)
    ensures AllWhitespace(s, off + i, off + j)
  {
    forall k | off + i <= k < off + j ensures IsWhitespace(s[k]) {
      assert s[k] == r[k - off];
    }
  }

  /** A piece of a text without code blocks has none either. */
  lemma NoBlockInPiece(s: string, off: nat, r: string, needBrace: bool)
    requires off + |r| <= |s| && s[off..off + |r|] == r
    requires CodeBlockMatch(s, needBrace).None?
    ensures CodeBlockMatch(r, needBrace).None?
  {
    CodeBlockMatchIsFirstInstance(r, needBrace);
    CodeBlockMatchIsFirstInstance(s, needBrace);
    forall p, w, e, f | BlockShape(r, p, w, e, f, needBrace)
      ensures BlockShape(s, off + p, off + w, off + e, off + f, needBrace)
    {
      BlockShapeShift(s, off, r, p, w, e, f, needBrace);
    }
  }

  /** No end of the group of the first match comes before the one the match has. */
  lemma CodeBlockMatchIsShortest(s: string, needBrace: bool)
    requires CodeBlockMatch(s, needBrace).Some?
    ensures var m := CodeBlockMatch(s, needBrace).value;
      forall k :: m.open + 1 <= k < m.close ==> !EndsBlockAt(s, m.open, k, needBrace)
  {
  }

  /** A block inside the group of the first match would end that group earlier. */
  lemma InnerBlockEndsEarlier(s: string, m: BlockMatch, p: nat, w: nat, e: nat, f: nat, needBrace: bool)
    requires m.open < m.close <= |s|
    requires BlockShape(Group(s, m), p, w, e, f, needBrace)
    ensures m.open + 1 <= m.open + e < m.close && EndsBlockAt(s, m.open, m.open + e, needBrace)
  {
    var g := Group(s, m);
    BlockShapeShift(s, m.open, g, p, w, e, f, needBrace);
    assert s[m.open + f] == Fence[0];
    WhitespaceRunEnd(s, m.open + e, m.open + f);
  }

  /** The group of the first match holds no code block of its own: the lazy body stops
      at the first place a block closes. */
  lemma NoBlockInGroup(s: string, needBrace: bool)
    requires CodeBlockMatch(s, needBrace).Some?
    ensures CodeBlockMatch(Group(s, CodeBlockMatch(s, needBrace).value), needBrace).None?
  {
    var m := CodeBlockMatch(s, needBrace).value;
    CodeBlockMatchIsShortest(s, needBrace);
    CodeBlockMatchIsFirstInstance(Group(s, m), needBrace);
    forall p, w, e, f | BlockShape(Group(s, m), p, w, e, f, needBrace)
      ensures m.open + 1 <= m.open + e < m.close && EndsBlockAt(s, m.open, m.open + e, needBrace)
    {
      InnerBlockEndsEarlier(s, m, p, w, e, f, needBrace);
    }
  }
}
