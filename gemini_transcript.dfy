/** `GeminiTranscriptService` (src/infrastructure/services/GeminiTranscriptService.ts):
    turns a transcript text into a `Transcript` record with logical segments read
    from the model's reply. Its extractor takes the first fenced block ending with
    `}`, else the widest span from the first `{` to the last `}`, else the whole
    reply trimmed; it never fails, and `JSON.parse` decides what happens next. */
module GeminiTranscript {
  import opened Wrappers
  import opened Text
  import opened Json
  import opened Entities
  import opened CodeBlocks
  import opened TokenCalculator

  const ProcessFailedMessage: string := "Failed to process transcript with Gemini API"

  const PromptHead: string := "\n    Analyze the following video transcript and extract meaningful logical segments.\n    Return the result as a JSON object with the following structure:\n    {\n      \"logicalSegments\": [\n        {\n          \"title\": \"Introduction\",\n          \"text\": \"First segment of text\"\n        },\n        {\n          \"title\": \"Main Topic\",\n          \"text\": \"Second segment of text\"\n        }\n      ]\n    }\n    \n    Guidelines:\n    - Break the transcript into logical segments based on topics or themes\n    - Each segment should contain complete thoughts or topics\n    - Provide meaningful titles for each segment\n    - Keep text segments concise but meaningful\n    - Return ONLY the JSON object, no markdown formatting, no code blocks, no additional text\n    \n    Transcript to analyze:\n    "
  const PromptTail: string := "\n    "

  function TranscriptPrompt(text: string): (p: string)
    ensures |p| == |PromptHead| + |text| + |PromptTail|
    ensures p[|PromptHead|..|PromptHead| + |text|] == text
  {
    var p := PromptHead + text + PromptTail;
    assert p[|PromptHead|..|PromptHead| + |text|] == text;
    p
  }

  /** Some `{` comes before some `}`. */
  predicate HasBraceSpan(s: string) {
    exists a, b :: 0 <= a < b < |s| && s[a] == '{' && s[b] == '}'
  }

  /** `jsonStart !== -1 && jsonEnd !== -1 && jsonEnd > jsonStart` says the same. */
  lemma BraceSpanBounds(s: string)
    ensures HasBraceSpan(s) <==>
      IndexOf(s, '{').Some? && LastIndexOf(s, '}').Some? && LastIndexOf(s, '}').value > IndexOf(s, '{').value
  {
    if HasBraceSpan(s) {
      var a, b :| 0 <= a < b < |s| && s[a] == '{' && s[b] == '}';
      assert s[..IndexOf(s, '{').value + 0] == s[..IndexOf(s, '{').value];
      assert s[b] in s[LastIndexOf(s, '}').value..];
    }
  }

  /** `extractJsonFromResponse(s)`. It returns a piece of the reply: the body of the
      first fenced block ending with `}`; without one, the span from the first `{` to
      the last `}` when the first comes before the last; and otherwise the reply
      trimmed. */
  function ExtractJsonFromResponse(s: string): (r: string)
    ensures exists k: nat :: StartsAt(s, k, r)
    ensures CodeBlockMatch(s, true).Some? ==> r == Group(s, CodeBlockMatch(s, true).value)
    ensures CodeBlockMatch(s, true).None? && HasBraceSpan(s) ==>
      && |r| >= 2 && r[0] == '{' && r[|r| - 1] == '}'
      && exists k: nat :: StartsAt(s, k, r) && '{' !in s[..k] && '}' !in s[k + |r|..]
    ensures CodeBlockMatch(s, true).None? && !HasBraceSpan(s) ==> r == Trim(s)
  {
    match CodeBlockMatch(s, true)
    case Some(m) =>
      assert StartsAt(s, m.open, Group(s, m));
      Group(s, m)
    case None => SpanOrTrim(s)
  }

  /** The two steps after the code block: the span from the first `{` to the last `}`,
      or else the reply trimmed. */
  function SpanOrTrim(s: string): (r: string)
    ensures exists k: nat :: StartsAt(s, k, r)
    ensures HasBraceSpan(s) ==>
      && |r| >= 2 && r[0] == '{' && r[|r| - 1] == '}'
      && exists k: nat :: StartsAt(s, k, r) && '{' !in s[..k] && '}' !in s[k + |r|..]
    ensures !HasBraceSpan(s) ==> r == Trim(s)
  {
    BraceSpanBounds(s);
    var jsonStart := IndexOf(s, '{');
    var jsonEnd := LastIndexOf(s, '}');
    if jsonStart.Some? && jsonEnd.Some? && jsonEnd.value > jsonStart.value then
      SpanPiece(s, jsonStart.value, jsonEnd.value);
      s[jsonStart.value..jsonEnd.value + 1]
    else Trim(s)
  }

  /** The span from the first `{` to the last `}` is a piece of the reply with no `{`
      before it and no `}` after it. */
  lemma SpanPiece(s: string, a: nat, b: nat)
    requires IndexOf(s, '{') == Some(a) && LastIndexOf(s, '}') == Some(b) && a < b
    ensures var r := s[a..b + 1];
      && r[0] == '{' && r[|r| - 1] == '}'
      && StartsAt(s, a, r) && '{' !in s[..a] && '}' !in s[a + |r|..]
  {
    var r := s[a..b + 1];
    assert s[a + |r|..] == s[b + 1..];
  }

  /** Extracting twice gives what extracting once gives: the extracted piece holds no
      code block of its own, and its braces lie as they lay in the reply. */
  lemma ExtractIdempotent(s: string)
    ensures ExtractJsonFromResponse(ExtractJsonFromResponse(s)) == ExtractJsonFromResponse(s)
  {
    if CodeBlockMatch(s, true).Some? {
      BlockBodyIsFixed(s);
    } else if HasBraceSpan(s) {
      SpanIsFixed(s);
    } else {
      TrimmedIsFixed(s);
    }
  }

  /** A code-block body starts with `{`, ends with `}` and holds no block, so it is its
      own span. */
  lemma BlockBodyIsFixed(s: string)
    requires CodeBlockMatch(s, true).Some?
    ensures ExtractJsonFromResponse(ExtractJsonFromResponse(s)) == ExtractJsonFromResponse(s)
  {
    var r := ExtractJsonFromResponse(s);
    NoBlockInGroup(s, true);
    assert |r| >= 2 && r[0] == '{' && r[|r| - 1] == '}';
    SpanOfObject(r);
  }

  /** The widest span of a reply is its own widest span: it opens with `{`, closes
      with `}` and, as a piece of a reply without code blocks, holds none. */
  lemma SpanIsFixed(s: string)
    requires CodeBlockMatch(s, true).None? && HasBraceSpan(s)
    ensures ExtractJsonFromResponse(ExtractJsonFromResponse(s)) == ExtractJsonFromResponse(s)
  {
    SpanIsExtracted(s);
    var a, b := IndexOf(s, '{').value, LastIndexOf(s, '}').value;
    SpanIsObject(s, a, b);
    FixedPointOf(s, s[a..b + 1]);
  }

  lemma FixedPointOf(s: string, r: string)
    requires ExtractJsonFromResponse(s) == r && ExtractJsonFromResponse(r) == r
    ensures ExtractJsonFromResponse(ExtractJsonFromResponse(s)) == ExtractJsonFromResponse(s)
  {
  }

  lemma SpanIsObject(s: string, a: nat, b: nat)
    requires CodeBlockMatch(s, true).None?
    requires IndexOf(s, '{') == Some(a) && LastIndexOf(s, '}') == Some(b) && a < b
    ensures ExtractJsonFromResponse(s[a..b + 1]) == s[a..b + 1]
  {
    SpanShape(s, a, b);
    SpanOfObject(s[a..b + 1]);
  }

  lemma SpanShape(s: string, a: nat, b: nat)
    requires CodeBlockMatch(s, true).None?
    requires IndexOf(s, '{') == Some(a) && LastIndexOf(s, '}') == Some(b) && a < b
    ensures var r := s[a..b + 1];
      CodeBlockMatch(r, true).None? && |r| >= 2 && r[0] == '{' && r[|r| - 1] == '}'
  {
    SpanPiece(s, a, b);
    NoBlockInPiece(s, a, s[a..b + 1], true);
  }

  /** Without a code block, the extraction is the span from the first `{` to the last `}`. */
  lemma SpanIsExtracted(s: string)
    requires CodeBlockMatch(s, true).None? && HasBraceSpan(s)
    ensures IndexOf(s, '{').Some? && LastIndexOf(s, '}').Some? && IndexOf(s, '{').value < LastIndexOf(s, '}').value
    ensures ExtractJsonFromResponse(s) == s[IndexOf(s, '{').value..LastIndexOf(s, '}').value + 1]
  {
    BraceSpanBounds(s);
    assert ExtractJsonFromResponse(s) == SpanOrTrim(s);
  }


  /** A text without a code block that opens with `{` and closes with `}` is its own
      extraction. */
  lemma SpanOfObject(r: string)
    requires CodeBlockMatch(r, true).None?
    requires |r| >= 2 && r[0] == '{' && r[|r| - 1] == '}'
    ensures ExtractJsonFromResponse(r) == r
  {
    assert IndexOf(r, '{') == Some(0);
    assert LastIndexOf(r, '}') == Some(|r| - 1);
    assert r[0..|r|] == r;
  }

  /** A trimmed reply without block or span trims to itself. */
  lemma TrimmedIsFixed(s: string)
    requires CodeBlockMatch(s, true).None? && !HasBraceSpan(s)
    ensures ExtractJsonFromResponse(ExtractJsonFromResponse(s)) == ExtractJsonFromResponse(s)
  {
    var r := Trim(s);
    var k: nat :| StartsAt(s, k, r);
    NoBlockInPiece(s, k, r, true);
    TrimmedBraces(s);
    TrimIdempotent(s);
  }

  /** Trimming keeps every brace, so it keeps the absence of a brace span. */
  lemma TrimmedBraces(s: string)
    requires !HasBraceSpan(s)
    ensures !HasBraceSpan(Trim(s))
  {
    var r := Trim(s);
    var i: nat :| StartsAt(s, i, r) && AllWhitespace(s, 0, i) && AllWhitespace(s, i + |r|, |s|);
    forall a, b | 0 <= a < b < |r| ensures !(r[a] == '{' && r[b] == '}') {
      assert r[a] == s[i + a] && r[b] == s[i + b];
    }
  }

  datatype TranscriptResult = TranscriptResult(transcript: Transcript, tokenUsage: TokenUsage)

  /** `processTranscript(text)`, with `id` the id `crypto.randomUUID` draws and `reply`
      what `generateContent` gives back (`Failure` when it throws). It fails, with one
      fixed message, exactly when the call throws, `JSON.parse` refuses the extracted
      text, or that text is `null` (reading `logicalSegments` of it throws). The record carries the input text, an empty video id, the parsed
      `logicalSegments` (none when absent) and zero stored token counts; the usage
      returned beside it counts the prompt followed by the text, and the raw reply. */
  function ProcessTranscript(json: JsonReader, id: string, text: string, reply: Result<string>): (r: Result<TranscriptResult>)
    ensures r.Failure? ==> r.error == ProcessFailedMessage
    ensures r.Success? <==>
      (reply.Success? && json.valid(ExtractJsonFromResponse(reply.value)) && !json.parsesToNull(ExtractJsonFromResponse(reply.value)))
    ensures r.Success? ==>
      && r.value.transcript.id == id
      && r.value.transcript.videoId == ""
      && r.value.transcript.text == text
      && r.value.transcript.logicalSegments == Some(json.logicalSegments(ExtractJsonFromResponse(reply.value)).GetOr([]))
      && r.value.transcript.inputTokens == 0 && r.value.transcript.outputTokens == 0
    ensures r.Success? ==>
      && 4 * r.value.tokenUsage.inputTokens >= Utf16Length(PromptHead) + Utf16Length(PromptTail) + 2 * Utf16Length(text)
      && 4 * (r.value.tokenUsage.inputTokens - 1) < Utf16Length(PromptHead) + Utf16Length(PromptTail) + 2 * Utf16Length(text)
      && r.value.tokenUsage.outputTokens == EstimateTokens(reply.value)
  {
    PromptCodeUnits(PromptHead, text, PromptTail);
    var inputTokens := EstimateTokens(TranscriptPrompt(text) + text);
    match reply
    case Failure(_) => Failure(ProcessFailedMessage)
    case Success(responseText) =>
      var outputTokens := EstimateTokens(responseText);
      var cleanedResponse := ExtractJsonFromResponse(responseText);
      if !json.valid(cleanedResponse) || json.parsesToNull(cleanedResponse) then Failure(ProcessFailedMessage)
      else
        var logicalSegments := json.logicalSegments(cleanedResponse).GetOr([]);
        Success(TranscriptResult(
          Transcript(id, "", text, Some(logicalSegments), 0, 0),
          TokenUsage(inputTokens, outputTokens)))
  }

  /** A prose reply that trims to a text denoting `null` (`null` with blank lines
      around it, say) parses, and the call still fails when it reads
      `logicalSegments` of it. */
  lemma NullReplyFails(json: JsonReader, id: string, text: string, s: string)
    requires '`' !in s && '{' !in s
    requires json.valid(Trim(s)) && json.parsesToNull(Trim(s))
    ensures ProcessTranscript(json, id, text, Success(s)).Failure?
  {
    ProseReplyIsTrimmed(s);
  }

  /** A reply with no fence and no brace is taken whole, trimmed: `JSON.parse` then
      sees the model's prose. */
  lemma ProseReplyIsTrimmed(s: string)
    requires '`' !in s && '{' !in s
    ensures ExtractJsonFromResponse(s) == Trim(s)
  {
  }
}
