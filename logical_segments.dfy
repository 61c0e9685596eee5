/** `LogicalSegmentService` (src/infrastructure/services/LogicalSegmentService.ts):
    asks the model to split a transcript into titled segments and reads them out
    of its reply. Its extractor takes the first fenced block whose body ends with
    `}` as it is, and otherwise counts braces from the first `{`, throwing when
    the count never comes back to zero; there is no fallback. */
module LogicalSegments {
  import opened Wrappers
  import opened Text
  import opened Json
  import opened Entities
  import opened Braces
  import opened CodeBlocks
  import opened TokenCalculator

  const NoJsonObjectMessage: string := "No JSON object found in response"
  const IncompleteObjectMessage: string := "Incomplete JSON object in response"
  const FailurePrefix: string := "Failed to create logical segments: "

  const PromptHead: string := "You are a video transcript analyzer. Your task is to create logical segments from a transcript based on content themes and topics.\n\nTRANSCRIPT:\n"
  const PromptTail: string := "\n\nREQUIREMENTS:\n1. Create 5-10 logical segments that group related content by topic/theme\n2. Each segment must have:\n   - title: descriptive string summarizing the topic\n   - text: relevant portion of the transcript for that topic\n\nGUIDELINES:\n- Group content by logical themes or topics\n- Each segment should contain complete thoughts or related information\n- Provide meaningful titles that summarize the content\n- Ensure segments flow logically from one to the next\n- Cover the entire transcript content\n\nEXAMPLE OUTPUT FORMAT:\n{\n  \"segments\": [\n    {\n      \"title\": \"Introduction to Real Teeth vs Veneers\",\n      \"text\": \"Hey tough guy. You know what these are? Huh? Yes, that's right...\"\n    },\n    {\n      \"title\": \"Emily Martinez's Crazy Glue Veneer Scam\",\n      \"text\": \"Emily Martinez is facing some serious years in the slammer...\"\n    },\n    {\n      \"title\": \"Conclusion and Final Thoughts\",\n      \"text\": \"Pretty interesting stuff here. I'm curious what her sentencing will look like...\"\n    }\n  ]\n}\n\nRESPOND WITH ONLY THE JSON OBJECT. NO MARKDOWN, NO EXPLANATIONS, NO CODE BLOCKS."

  /** The segmentation prompt, with the transcript in the middle. */
  function SegmentationPrompt(transcriptText: string): (p: string)
    ensures |p| == |PromptHead| + |transcriptText| + |PromptTail|
    ensures p[|PromptHead|..|PromptHead| + |transcriptText|] == transcriptText
  {
    var p := PromptHead + transcriptText + PromptTail;
    assert p[|PromptHead|..|PromptHead| + |transcriptText|] == transcriptText;
    p
  }

  /** The input tokens charged for a segmentation: the estimate of the prompt followed
      by the transcript once more. */
  function SegmentationInputTokens(transcriptText: string): nat {
    EstimateTokens(SegmentationPrompt(transcriptText) + transcriptText)
  }

  /** The transcript is counted twice: the charge is a quarter, rounded up, of the
      prompt's fixed code units plus twice the transcript's. */
  lemma SegmentationCountsTranscriptTwice(transcriptText: string)
    ensures var n := SegmentationInputTokens(transcriptText);
      && 4 * n >= Utf16Length(PromptHead) + Utf16Length(PromptTail) + 2 * Utf16Length(transcriptText)
      && 4 * (n - 1) < Utf16Length(PromptHead) + Utf16Length(PromptTail) + 2 * Utf16Length(transcriptText)
  {
    PromptCodeUnits(PromptHead, transcriptText, PromptTail);
  }

  /** `extractJsonFromResponse(s)`: what it returns or throws. A code-block body is
      returned as it is, whatever follows: it starts with `{` and ends with `}`, but
      its braces need not balance. Otherwise the result runs from the first `{` to
      the first `}` that balances it. */
  function SegmentJson(s: string): (r: Result<string>)
    ensures r.Success? ==> |r.value| >= 1 && r.value[0] == '{' && r.value[|r.value| - 1] == '}' && IsSubstring(r.value, s)
    ensures CodeBlockMatch(s, true).Some? ==> r == Success(Group(s, CodeBlockMatch(s, true).value))
    ensures r.Failure? ==> r.error == NoJsonObjectMessage || r.error == IncompleteObjectMessage
    ensures r == Failure(NoJsonObjectMessage) <==> '{' !in s
    ensures r == Failure(IncompleteObjectMessage) <==>
      '{' in s && CodeBlockMatch(s, true).None? && MatchingClose(s, IndexOf(s, '{').value).None?
    ensures r.Success? && CodeBlockMatch(s, true).None? ==>
      var k := IndexOf(s, '{').value;
      && r.value == s[k..k + |r.value|]
      && ClosesAt(s, k, k + |r.value| - 1)
      && forall j :: k <= j < k + |r.value| - 1 ==> !ClosesAt(s, k, j)
  {
    match CodeBlockMatch(s, true)
    case Some(m) =>
      BlockGroupShape(s, m);
      Success(Group(s, m))
    case None => BraceSpan(s)
  }

  /** The group of a block match whose body must end with `}` is a piece of the reply
      that starts with `{` and ends with `}`. */
  lemma BlockGroupShape(s: string, m: BlockMatch)
    requires CodeBlockMatch(s, true) == Some(m)
    ensures var g := Group(s, m);
      |g| >= 1 && g[0] == '{' && g[|g| - 1] == '}' && IsSubstring(g, s)
  {
    SliceIsPiece(s, m.open, m.close);
  }

  /** The brace-counting half of `extractJsonFromResponse`: from the first `{` to the
      first `}` that balances it. */
  function BraceSpan(s: string): (r: Result<string>)
    ensures r == Failure(NoJsonObjectMessage) <==> '{' !in s
    ensures r.Failure? ==> r == Failure(NoJsonObjectMessage) || r == Failure(IncompleteObjectMessage)
    ensures r == Failure(IncompleteObjectMessage) <==> '{' in s && MatchingClose(s, IndexOf(s, '{').value).None?
    ensures r.Success? ==>
      var k := IndexOf(s, '{').value;
      && |r.value| >= 1 && r.value[0] == '{' && r.value[|r.value| - 1] == '}' && IsSubstring(r.value, s)
      && r.value == s[k..k + |r.value|]
      && ClosesAt(s, k, k + |r.value| - 1)
      && forall j :: k <= j < k + |r.value| - 1 ==> !ClosesAt(s, k, j)
  {
    match IndexOf(s, '{')
    case None => Failure(NoJsonObjectMessage)
    case Some(k) =>
      match MatchingClose(s, k)
      case None => Failure(IncompleteObjectMessage)
      case Some(e) =>
        SliceIsPiece(s, k, e + 1);
        Success(s[k..e + 1])
  }

  /** A slice of `s` is a piece of `s`. */
  lemma SliceIsPiece(s: string, a: nat, b: nat)
    requires a <= b <= |s|
    ensures IsSubstring(s[a..b], s)
  {
    assert StartsAt(s, a, s[a..b]);
  }

  /** `extractJsonFromResponse`: the code-block match, then the brace-counting loop
      from the first `{`. */
  method ExtractJsonFromResponse(responseText: string) returns (r: Result<string>)
    ensures r == SegmentJson(responseText)
  {
    var codeBlockMatch := CodeBlockMatch(responseText, true);
    if codeBlockMatch.Some? {
      return Success(Group(responseText, codeBlockMatch.value));
    }
    var start := IndexOf(responseText, '{');
    if start.None? {
      return Failure(NoJsonObjectMessage);
    }
    var jsonStart := start.value;
    var braceCount := 0;
    var jsonEnd := -1;
    var i := jsonStart;
    while i < |responseText|
      invariant jsonStart <= i <= |responseText|
      invariant braceCount == Depth(responseText, jsonStart, i)
      invariant forall j :: jsonStart <= j < i ==> !ClosesAt(responseText, jsonStart, j)
      invariant jsonEnd == -1
    {
      if responseText[i] == '{' {
        braceCount := braceCount + 1;
      } else if responseText[i] == '}' {
        braceCount := braceCount - 1;
        if braceCount == 0 {
          jsonEnd := i;
          break;
        }
      }
      i := i + 1;
    }
    if jsonEnd == -1 {
      assert MatchingClose(responseText, jsonStart).None?;
      return Failure(IncompleteObjectMessage);
    }
    assert ClosesAt(responseText, jsonStart, jsonEnd);
    assert MatchingClose(responseText, jsonStart) == Some(jsonEnd);
    r := Success(responseText[jsonStart..jsonEnd + 1]);
  }

  datatype Segmentation = Segmentation(segments: seq<LogicalSegment>, tokenUsage: TokenUsage)

  /** The outcome of `processIntoSegments(transcriptText)` when `generateContent` gives
      back `reply` (`Failure(message)` when it throws). Every failure, whether of the
      call, of the extraction or of `JSON.parse`, comes back as "Failed to create
      logical segments: " followed by its message. The token counts are fixed by the
      prompt and by the raw reply, whatever the extraction makes of it; a reply
      without `segments` gives no segments. */
  function Segment(json: JsonReader, transcriptText: string, reply: Result<string>): (r: Result<Segmentation>)
    ensures r.Failure? ==> |r.error| >= |FailurePrefix| && r.error[..|FailurePrefix|] == FailurePrefix
    ensures reply.Failure? ==> r == Failure(FailurePrefix + reply.error)
    ensures reply.Success? && SegmentJson(reply.value).Failure? ==>
      r == Failure(FailurePrefix + SegmentJson(reply.value).error)
    ensures reply.Success? && SegmentJson(reply.value).Success? && !json.valid(SegmentJson(reply.value).value) ==>
      r == Failure(FailurePrefix + json.parseError(SegmentJson(reply.value).value))
    ensures r.Success? <==> reply.Success? && SegmentJson(reply.value).Success? && json.valid(SegmentJson(reply.value).value)
    ensures r.Success? ==>
      && r.value.segments == json.segments(SegmentJson(reply.value).value).GetOr([])
      && r.value.tokenUsage == TokenUsage(SegmentationInputTokens(transcriptText), EstimateTokens(reply.value))
  {
    match reply
    case Failure(e) => Failure(FailurePrefix + e)
    case Success(responseText) =>
      match SegmentJson(responseText)
      case Failure(e) => Failure(FailurePrefix + e)
      case Success(cleanedResponse) =>
        if !json.valid(cleanedResponse) then Failure(FailurePrefix + json.parseError(cleanedResponse))
        else
          Success(Segmentation(
            json.segments(cleanedResponse).GetOr([]),
            TokenUsage(SegmentationInputTokens(transcriptText), EstimateTokens(responseText))))
  }

  /** `processIntoSegments`: builds the prompt, counts its tokens before the call, then
      extracts and parses the reply; `prompt` is what is sent. */
  method ProcessIntoSegments(json: JsonReader, transcriptText: string, reply: Result<string>)
    returns (r: Result<Segmentation>, prompt: string)
    ensures prompt == SegmentationPrompt(transcriptText)
    ensures r == Segment(json, transcriptText, reply)
  {
    prompt := SegmentationPrompt(transcriptText);
    var inputTokens := EstimateTokens(prompt + transcriptText);
    if reply.Failure? {
      return Failure(FailurePrefix + reply.error), prompt;
    }
    var responseText := reply.value;
    var outputTokens := EstimateTokens(responseText);
    var cleanedResponse := ExtractJsonFromResponse(responseText);
    if cleanedResponse.Failure? {
      return Failure(FailurePrefix + cleanedResponse.error), prompt;
    }
    if !json.valid(cleanedResponse.value) {
      return Failure(FailurePrefix + json.parseError(cleanedResponse.value)), prompt;
    }
    var segments := json.segments(cleanedResponse.value).GetOr([]);
    r := Success(Segmentation(segments, TokenUsage(inputTokens, outputTokens)));
  }

  /** A fenced body is taken as it is, balanced or not: for the block `{{}` the result
      is `{{}`, whose braces do not balance. */
  lemma UnbalancedBlockTaken()
    ensures SegmentJson(Wrapped("", "{{}", "")) == Success("{{}")
    ensures Depth("{{}", 0, 3) != 0
  {
    WrappedObjectRecovered("", "{{}", "", true);
  }

  /** An object fenced as a `json` block, amid prose without backticks, is what the
      extraction returns. */
  lemma FencedSegmentsExtracted(pre: string, j: string, post: string)
    requires '`' !in pre && '`' !in j
    requires |j| >= 2 && j[0] == '{' && j[|j| - 1] == '}'
    ensures SegmentJson(Wrapped(pre, j, post)) == Success(j)
  {
    WrappedObjectRecovered(pre, j, post, true);
  }

  /** The code block wins over an object before it: when the prose before the block
      starts with a balanced object (`{}` in `{} ` followed by a block holding
      `{"a":1}`), the brace scan from the first `{` would stop inside the prose, but
      the block's body is what comes back. */
  lemma BlockPreferredToEarlierObject(pre: string, j: string, post: string)
    requires '`' !in pre && '`' !in j
    requires |pre| >= 1 && pre[0] == '{' && MatchingClose(pre, 0).Some?
    requires |j| >= 2 && j[0] == '{' && j[|j| - 1] == '}'
    ensures MatchingClose(Wrapped(pre, j, post), 0) == MatchingClose(pre, 0)
    ensures SegmentJson(Wrapped(pre, j, post)) == Success(j)
  {
    WrappedPieces(pre, j, post);
    MatchingCloseOfPrefix(Wrapped(pre, j, post), |pre|);
    FencedSegmentsExtracted(pre, j, post);
  }

  /** A reply cut off before its object closes fails: the brace count from the first
      `{` never returns to zero. */
  lemma TruncatedSegmentsFail(s: string)
    requires |s| >= 1 && s[0] == '{'
    requires forall k :: 1 <= k < |s| ==> s[k] != '}' && s[k] != '`'
    ensures SegmentJson(s) == Failure(IncompleteObjectMessage)
  {
    assert IndexOf(s, '{') == Some(0);
  }
}
