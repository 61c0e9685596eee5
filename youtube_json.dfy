/** How `YouTubeVideoProcessingService` pulls the JSON object out of the model's
    reply to a transcription request: `findCompleteJsonObject` cuts a text at the
    first `}` that balances the braces before it and keeps the cut only when it
    parses; `extractJsonFromResponse` tries the first fenced code block, then the
    text from the first `{`, and otherwise raises `INCOMPLETE_JSON`, the signal
    for the fallback extraction. */
module YouTubeJson {
  import opened Wrappers
  import opened Text
  import opened Json
  import opened Braces
  import opened CodeBlocks

  const NoJsonObjectMessage: string := "No JSON object found in response"
  const IncompleteJsonMessage: string := "INCOMPLETE_JSON"

  /** What `findCompleteJsonObject(text)` returns: the prefix of `text` that ends at
      the first balancing `}`, when `JSON.parse` accepts it. */
  function CompleteJsonObject(json: JsonReader, text: string): (r: Option<string>)
    ensures r.Some? ==>
      && json.valid(r.value)
      && 1 <= |r.value| <= |text| && r.value == text[..|r.value|]
      && ClosesAt(text, 0, |r.value| - 1)
      && forall j :: 0 <= j < |r.value| - 1 ==> !ClosesAt(text, 0, j)
    ensures r.None? <==>
      || (forall j :: 0 <= j ==> !ClosesAt(text, 0, j))
      || (exists e: nat :: ClosesAt(text, 0, e) && (forall j :: 0 <= j < e ==> !ClosesAt(text, 0, j)) && !json.valid(text[..e + 1]))
  {
    match MatchingClose(text, 0)
    case None => None
    case Some(e) =>
      var candidate := text[..e + 1];
      if json.valid(candidate) then Some(candidate) else None
  }

  /** `findCompleteJsonObject`: the brace-counting loop, then one `JSON.parse`. */
  method FindCompleteJsonObject(json: JsonReader, text: string) returns (r: Option<string>)
    ensures r == CompleteJsonObject(json, text)
  {
    var braceCount := 0;
    var jsonEnd := -1;
    var i := 0;
    while i < |text|
      invariant 0 <= i <= |text|
      invariant braceCount == Depth(text, 0, i)
      invariant forall j :: 0 <= j < i ==> !ClosesAt(text, 0, j)
      invariant jsonEnd == -1
    {
      if text[i] == '{' {
        braceCount := braceCount + 1;
      } else if text[i] == '}' {
        braceCount := braceCount - 1;
        if braceCount == 0 {
          jsonEnd := i;
          break;
        }
      }
      i := i + 1;
    }
    if jsonEnd == -1 {
      assert MatchingClose(text, 0).None?;
      return None;
    }
    assert ClosesAt(text, 0, jsonEnd);
    assert MatchingClose(text, 0) == Some(jsonEnd);
    var jsonCandidate := text[..jsonEnd + 1];
    if json.valid(jsonCandidate) {
      r := Some(jsonCandidate);
    } else {
      r := None;
    }
  }

  /** The candidate inside the first fenced code block, if it holds one. */
  function CodeBlockCandidate(json: JsonReader, s: string): Option<string> {
    match CodeBlockMatch(s, false)
    case None => None
    case Some(m) => CompleteJsonObject(json, Group(s, m))
  }

  /** The candidate that starts at the first `{` of the reply. */
  function FirstBraceCandidate(json: JsonReader, s: string): Option<string> {
    match IndexOf(s, '{')
    case None => None
    case Some(k) => CompleteJsonObject(json, s[k..])
  }

  /** `extractJsonFromResponse(s)`: what it returns or throws. What it returns always
      parses, starts with `{`, ends with the `}` that balances the braces and is a
      piece of the reply. It throws "No JSON object found" exactly when the reply
      has no `{`, and `INCOMPLETE_JSON` exactly when there is a `{` but neither the
      code block nor the text from the first `{` yields a parsable object. The code
      block's candidate is preferred to the one from the first `{`. */
  function ExtractJsonFromResponse(json: JsonReader, s: string): (r: Result<string>)
    ensures CodeBlockCandidate(json, s).Some? ==> r == Success(CodeBlockCandidate(json, s).value)
    ensures CodeBlockCandidate(json, s).None? && FirstBraceCandidate(json, s).Some? ==>
      r == Success(FirstBraceCandidate(json, s).value)
    ensures r.Success? ==>
      && json.valid(r.value)
      && |r.value| >= 1 && r.value[0] == '{' && r.value[|r.value| - 1] == '}'
      && Depth(r.value, 0, |r.value|) == 0
      && IsSubstring(r.value, s)
    ensures r.Failure? ==> r.error == NoJsonObjectMessage || r.error == IncompleteJsonMessage
    ensures r == Failure(NoJsonObjectMessage) <==> '{' !in s
    ensures r == Failure(IncompleteJsonMessage) <==>
      '{' in s && CodeBlockCandidate(json, s).None? && FirstBraceCandidate(json, s).None?
  {
    match CodeBlockCandidate(json, s)
    case Some(c) =>
      CodeBlockCandidateFacts(json, s);
      Success(c)
    case None =>
      match IndexOf(s, '{')
      case None => Failure(NoJsonObjectMessage)
      case Some(k) =>
        match CompleteJsonObject(json, s[k..])
        case Some(c) =>
          FirstBraceCandidateFacts(json, s);
          Success(c)
        case None => Failure(IncompleteJsonMessage)
  }

  /** The code-block candidate has the shape of an object and is a piece of the reply. */
  lemma CodeBlockCandidateFacts(json: JsonReader, s: string)
    requires CodeBlockCandidate(json, s).Some?
    ensures var c := CodeBlockCandidate(json, s).value;
      && json.valid(c) && |c| >= 1 && c[0] == '{' && c[|c| - 1] == '}'
      && Depth(c, 0, |c|) == 0 && IsSubstring(c, s)
  {
    var m := CodeBlockMatch(s, false).value;
    var g := Group(s, m);
    CandidateFacts(json, g);
    PrefixOfSlice(s, m.open, m.close, CompleteJsonObject(json, g).value);
  }

  /** A prefix of the slice `s[a..b]` occurs in `s` at `a`. */
  lemma PrefixOfSlice(s: string, a: nat, b: nat, c: string)
    requires a <= b <= |s| && |c| <= b - a && c == s[a..b][..|c|]
    ensures StartsAt(s, a, c) && IsSubstring(c, s)
  {
    forall k | 0 <= k < |c| ensures s[a + k] == c[k] {
      assert c[k] == s[a..b][k];
    }
    assert s[a..a + |c|] == c;
    assert StartsAt(s, a, c);
  }

  /** So has the candidate that starts at the first `{`. */
  lemma FirstBraceCandidateFacts(json: JsonReader, s: string)
    requires FirstBraceCandidate(json, s).Some?
    ensures var c := FirstBraceCandidate(json, s).value;
      && json.valid(c) && |c| >= 1 && c[0] == '{' && c[|c| - 1] == '}'
      && Depth(c, 0, |c|) == 0 && IsSubstring(c, s)
  {
    var k := IndexOf(s, '{').value;
    CandidateFacts(json, s[k..]);
    PrefixOfSlice(s, k, |s|, CompleteJsonObject(json, s[k..]).value);
  }

  /** A candidate cut from a text that starts with `{` has the shape of an object. */
  lemma CandidateFacts(json: JsonReader, text: string)
    requires |text| >= 1 && text[0] == '{' && CompleteJsonObject(json, text).Some?
    ensures var c := CompleteJsonObject(json, text).value;
      c[0] == '{' && c[|c| - 1] == '}' && Depth(c, 0, |c|) == 0
  {
    var c := CompleteJsonObject(json, text).value;
    DepthPrefix(text, |c|, |c|);
  }

  /** A reply that is exactly one parsable object, with no fence in it, comes back
      unchanged. */
  lemma BareObjectExtracted(json: JsonReader, s: string)
    requires |s| >= 1 && s[0] == '{' && '`' !in s
    requires MatchingClose(s, 0) == Some(|s| - 1) && json.valid(s)
    ensures ExtractJsonFromResponse(json, s) == Success(s)
  {
    NoFenceNoBlock(s, false);
    assert IndexOf(s, '{') == Some(0);
    assert s[0..] == s;
    assert s[..|s|] == s;
  }

  /** An object the model fences as a `json` code block, amid prose without backticks,
      is what the extraction returns, whatever follows the block. */
  lemma FencedObjectExtracted(json: JsonReader, pre: string, j: string, post: string)
    requires '`' !in pre && '`' !in j
    requires |j| >= 2 && j[0] == '{' && MatchingClose(j, 0) == Some(|j| - 1) && json.valid(j)
    ensures ExtractJsonFromResponse(json, Wrapped(pre, j, post)) == Success(j)
  {
    assert j[|j| - 1] == '}';
    WrappedObjectRecovered(pre, j, post, false);
    assert j[..|j|] == j;
  }

  /** The code block wins over an object before it: when the prose before the block
      starts with a complete parsable object (`{}` in `{} ` followed by a block
      holding `{"a":1}`), the text from the first `{` yields that object, but the
      block's object is what comes back. */
  lemma BlockPreferredToEarlierObject(json: JsonReader, pre: string, j: string, post: string)
    requires '`' !in pre && '`' !in j
    requires |pre| >= 1 && pre[0] == '{' && CompleteJsonObject(json, pre).Some?
    requires |j| >= 2 && j[0] == '{' && MatchingClose(j, 0) == Some(|j| - 1) && json.valid(j)
    ensures FirstBraceCandidate(json, Wrapped(pre, j, post)) == CompleteJsonObject(json, pre)
    ensures ExtractJsonFromResponse(json, Wrapped(pre, j, post)) == Success(j)
  {
    var s := Wrapped(pre, j, post);
    FencedObjectExtracted(json, pre, j, post);
    WrappedPieces(pre, j, post);
    FirstBraceAtStart(json, s);
    CompleteJsonObjectOfPrefix(json, s, |pre|);
  }

  /** A text that starts with `{` is its own candidate from the first `{`. */
  lemma FirstBraceAtStart(json: JsonReader, s: string)
    requires |s| >= 1 && s[0] == '{'
    ensures FirstBraceCandidate(json, s) == CompleteJsonObject(json, s)
  {
    assert IndexOf(s, '{') == Some(0);
    assert s[0..] == s;
  }

  /** An object cut from `s[..n]` is the object cut from `s`. */
  lemma CompleteJsonObjectOfPrefix(json: JsonReader, s: string, n: nat)
    requires n <= |s| && CompleteJsonObject(json, s[..n]).Some?
    ensures CompleteJsonObject(json, s) == CompleteJsonObject(json, s[..n])
  {
    MatchingCloseOfPrefix(s, n);
    var e := MatchingClose(s, 0).value;
    assert s[..n][..e + 1] == s[..e + 1];
  }

  /** A reply cut off before its object closes, whose text has no brace and no
      backtick after the opening brace, raises `INCOMPLETE_JSON`. */
  lemma TruncatedObjectIsIncomplete(json: JsonReader, s: string)
    requires |s| >= 1 && s[0] == '{'
    requires forall k :: 1 <= k < |s| ==> s[k] != '{' && s[k] != '}' && s[k] != '`'
    ensures ExtractJsonFromResponse(json, s) == Failure(IncompleteJsonMessage)
  {
    assert IndexOf(s, '{') == Some(0);
    forall j | 0 <= j ensures !ClosesAt(s[0..], 0, j) {
      if j < |s| {
        assert s[0..][j] == s[j];
      }
    }
  }
}
