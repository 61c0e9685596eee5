# video-ai core, modelled in Dafny

video-ai takes a YouTube URL and does five things:

- downloads the audio;
- has a Gemini model transcribe it;
- has a second model call cut the transcript into logical segments;
- stores the video and the transcript with the tokens both model calls used;
- lists the stored videos with their costs.

This project models the logic between the external services:

- **Token and cost arithmetic.** `TokenCalculator` estimates tokens as ceiling divisions and prices them at 0.3 per million, rounded to four decimals. The client `utils` module has `formatTime` and its own `calculateCost`.
- **JSON extractors.** There are three, one per service:
  - The YouTube transcription service tries a lazy code-block regex, then a brace-depth scan, then a `JSON.parse` check. When all fail it raises `INCOMPLETE_JSON`. That error triggers a four-tier regex fallback for the `"text"` field.
  - The segmentation service tries a code-block regex, then a brace scan, and throws otherwise.
  - The Gemini transcript service tries a code-block regex, then the span from the first `{` to the last `}`, then `trim`.
- **Token accounting in each model call.** The model's reply is an input.
- **`processVideo`.** It deduplicates by URL, saves the video before segmenting, and adds the token usage of the two calls componentwise. It is a method of a class. The repository is also a class, holding maps.
- **History cost mapping.** The `history` route maps each stored row to a token and cost summary.

Modules and files:

| module | file | models |
|---|---|---|
| `Wrappers` | wrappers.dfy | `Option`, `Result` (a failure carries the thrown message) |
| `Entities` | entities.dfy | `Video`, `Transcript`, `LogicalSegment` |
| `Json` | json.dfy | `JsonReader`: whether `JSON.parse` accepts a text, whether the text denotes `null`, its message when it does not parse, and the `text`, `segments`, `logicalSegments` fields |
| `Text` | text.dfy | `indexOf`, `lastIndexOf`, `trim`, `endsWith`, `replace(/…/g)`, `toString`, `padStart` |
| `TokenCalculator` | token_calculator.dfy | src/infrastructure/utils/tokenCalculator.ts |
| `Braces` | braces.dfy | the brace-depth count of both brace scans |
| `CodeBlocks` | code_blocks.dfy | the two fenced-code-block regexes as a scanner, and a proof that the scanner finds the regex's match |
| `YouTubeJson` | youtube_json.dfy | `findCompleteJsonObject`, `extractJsonFromResponse` of the YouTube service |
| `YouTubeFallback` | youtube_fallback.dfy | `extractFallbackTranscript` |
| `YouTubeVideoProcessing` | youtube_service.dfy | `findDownloadedAudioFile`, the MIME choice, `transcribeAudio` |
| `LogicalSegments` | logical_segments.dfy | src/infrastructure/services/LogicalSegmentService.ts |
| `GeminiTranscript` | gemini_transcript.dfy | src/infrastructure/services/GeminiTranscriptService.ts |
| `Utils` | utils.dfy | src/utils/index.ts |
| `History` | history.dfy | app/api/videos/history/route.ts |
| `VideoProcessing` | video_processing.dfy | src/application/services/VideoProcessingApplicationService.ts, with the repository as a class over two maps |

Modelling choices:

- **`JSON.parse` is an oracle.** Its acceptance and field lookups are total functions held in a `JsonReader` value, which is passed as a parameter. Every property holds for every such reader.
- **Model calls become inputs.** Each call to `generateContent` comes in as a `Result<string>`, where `Failure` means the call threw. The same goes for:
  - whether `GEMINI_API_KEY` is set;
  - the audio file's size;
  - the directory listing;
  - the ids that `crypto.randomUUID` draws.
- **Costs are `real`.** `Math.round(x)` is `floor(x + 1/2)`.
- **Lengths are UTF-16 code units.** JavaScript's `.length` and a regex without the `u` flag count UTF-16 code units, so `Text.Utf16Length` counts a character above U+FFFF twice. The token estimate and the 100-character quoted run of the fallback use it.
- **Regexes become scanners.** Each regex is an explicit scanner over `seq<char>`. The argument that the scanner's result is the one JavaScript's backtracking search finds first is in the comments of code_blocks.dfy and youtube_fallback.dfy. For the code-block regexes, `CodeBlocks.CodeBlockMatchIsFirstInstance` proves it against a declarative reading of the pattern.

Where the code differs from what a reader of its comments or design would expect (the model follows the code):

- **The total is rounded once.** `calculateCost` rounds `totalCost` from the unrounded sum, not as the sum of the rounded parts. In exact arithmetic, 200 tokens each way cost 0.00006 apiece, which rounds to 0.0001 each, while the unrounded total 0.00012 rounds to 0.0001, not 0.0002.
- **A reply without `{` is fatal.** In `transcribeAudio` it raises "No JSON object found". That error is not `INCOMPLETE_JSON`, so it becomes "Failed to transcribe audio" and the fallback is not used.
- **A second fallback is dead code.** After a successful extraction, the source calls `JSON.parse` again with a fallback, at lines 216-237. The extractor has already checked that the text parses, so that fallback can never run.
- **The quoted-run fallback is the leftmost match,** not the longest.
- **The fallback can return an empty string for a non-empty reply.** With `{"text": "", ` the text field is matched, and `cleanText || responseText` is never reached.
- **Brace counting does not know about strings.** A `}` inside a JSON string ends the scan.
- **The segmentation service does not check brace balance.** It returns a code-block body as it is: the block `{{}` gives `{{}`.
- **The transcript is counted twice.** The segmentation and Gemini input-token estimates cover `prompt + transcriptText`, and the prompt already contains the transcript.
- **Gemini stores no tokens.** The transcript record it builds has token fields of 0, and `videoDuration` is unused.
- **Deduplication is nondeterministic.** `youtubeUrl` is not unique (src/infrastructure/database/schema.ts:12). `findByYoutubeUrl` takes one row of `.limit(1)` without an `ORDER BY`. For a URL stored twice, the model says only that some stored video with that URL is found.
- **An escaped quote ends the captured text.** In the text-field pattern `[^"]*` also takes a backslash, so the capture stops at the first `"` after the header, escaped or not (src/infrastructure/services/YouTubeVideoProcessingService.ts:320-325). `{"text": "a \"b\" c"` gives `a \`, and the rest of the transcript is lost.
- **A `null` reply fails the Gemini call.** A Gemini reply that trims to `null` parses, and reading `logicalSegments` of it throws, so the call fails with its fixed message.
- **An empty thumbnail URL is read back as none.** The repository reads a thumbnail URL of `""` back as `undefined`.

## Model

| member | source | states |
|---|---|---|
| TokenCalculator.EstimateTokens | src/infrastructure/utils/tokenCalculator.ts:7-9 | the estimate is the ceiling of the UTF-16 length over 4: 4r covers the length and 4(r-1) falls short of it |
| TokenCalculator.AstralCharactersCountTwice | src/infrastructure/utils/tokenCalculator.ts:8 | five U+1F600 are ten code units and give 3 tokens |
| TokenCalculator.EstimateAudioTokens | src/infrastructure/utils/tokenCalculator.ts:11-13 | the estimate is the ceiling of bytes/1000 |
| TokenCalculator.EmptyTextHasNoTokens | src/infrastructure/utils/tokenCalculator.ts:7-13 | the empty text and 0 bytes give 0 tokens |
| TokenCalculator.EstimateTokensMonotone | src/infrastructure/utils/tokenCalculator.ts:8 | a text with no more UTF-16 code units than another never has more tokens |
| TokenCalculator.EstimateTokensConcat | src/infrastructure/utils/tokenCalculator.ts:8 | the estimate of a concatenation lies between the sum of the parts' estimates and that sum minus one |
| TokenCalculator.Round4 | src/infrastructure/utils/tokenCalculator.ts:31-33 | `Math.round(x*10000)/10000` is a multiple of 0.0001 within 0.00005 of x |
| TokenCalculator.CalculateCost | src/infrastructure/utils/tokenCalculator.ts:15-35 | all three costs are multiples of 0.0001, non-negative for non-negative counts; the input cost is within 0.00005 of in·0.3/10^6, the output cost of out·0.3/10^6, and the total of (in+out)·0.3/10^6 |
| TokenCalculator.CostOfNothing | src/infrastructure/utils/tokenCalculator.ts:15-35 | no tokens cost 0 in all three components |
| TokenCalculator.CostOfOneMillionInputTokens | src/infrastructure/utils/tokenCalculator.ts:23-33 | one million input tokens cost 0.3 input, 0 output and 0.3 in total |
| TokenCalculator.CostRatesAgree | src/infrastructure/utils/tokenCalculator.ts:23-27 | input and output share a rate: inputCost(a,b) = outputCost(b,a), and the total is symmetric |
| TokenCalculator.TotalIsRoundedOnce | src/infrastructure/utils/tokenCalculator.ts:28-33 | the total is rounded from the unrounded sum: for 200/200 the parts are 0.0001 each and the total is 0.0001, not their sum |
| TokenCalculator.TotalCostMonotone | src/infrastructure/utils/tokenCalculator.ts:15-35 | more tokens never cost less |
| TokenCalculator.AddIsMonoid | src/application/services/VideoProcessingApplicationService.ts:71-74 | adding usages componentwise has 0/0 as unit and is commutative and associative, so the order of the two calls does not matter |
| Braces.MatchingClose | src/infrastructure/services/YouTubeVideoProcessingService.ts:291-301 | the scan stops at the first `}` after which the depth from the start is 0, or finds none |
| Braces.MatchingCloseShift | src/infrastructure/services/LogicalSegmentService.ts:117-130 | scanning from `jsonStart` is scanning the suffix from its start, offset by `jsonStart` |
| Braces.BalancedInnerBraces | src/infrastructure/services/YouTubeVideoProcessingService.ts:291-301 | balanced braces inside a string value are passed over |
| Braces.UnbalancedInnerBrace | src/infrastructure/services/YouTubeVideoProcessingService.ts:291-301 | a lone `}` inside a string value ends the scan |
| CodeBlocks.CodeBlockMatch | src/infrastructure/services/LogicalSegmentService.ts:104-106 | a match's group opens with `{` after the fence, and for the `\}` form ends with `}` |
| CodeBlocks.CodeBlockMatchIsFirstInstance | src/infrastructure/services/YouTubeVideoProcessingService.ts:257-259 | the scanner's match is an instance of the pattern; every instance starts no earlier than it, and an instance at the same start has the same group start and no shorter group |
| CodeBlocks.CodeBlockMatchIsShortest | src/infrastructure/services/YouTubeVideoProcessingService.ts:258 | the lazy body: no shorter group at the match's start can be closed |
| CodeBlocks.NoBlockInGroup | src/infrastructure/services/GeminiTranscriptService.ts:98-103 | the group of the first match holds no match of its own |
| CodeBlocks.NoFenceNoBlock | src/infrastructure/services/YouTubeVideoProcessingService.ts:257-260 | a reply without a backtick has no code block |
| CodeBlocks.WrappedObjectRecovered | src/infrastructure/services/YouTubeVideoProcessingService.ts:257-261 | an object fenced as a `json` block in backtick-free prose is the group, byte for byte, whatever follows |
| CodeBlocks.InstanceRecovered | src/infrastructure/services/YouTubeVideoProcessingService.ts:257-259 | in a reply whose prefix and object hold no backtick, the first match is the fence right after the prefix and its group is the object |
| YouTubeJson.CompleteJsonObject | src/infrastructure/services/YouTubeVideoProcessingService.ts:286-316 | a result parses, is the prefix ending at the first index where the depth returns to 0 (so ends with `}`); the result is none exactly when the depth never returns to 0 on a `}` or the first such prefix does not parse |
| YouTubeJson.FindCompleteJsonObject | src/infrastructure/services/YouTubeVideoProcessingService.ts:286-316 | the counting loop with its early `break` returns what CompleteJsonObject describes |
| YouTubeJson.ExtractJsonFromResponse | src/infrastructure/services/YouTubeVideoProcessingService.ts:255-284 | the code-block candidate when there is one; else the candidate from the first `{` when there is one; a result parses, starts with `{`, ends with `}`, has depth 0 and is a substring of the reply; "No JSON object found in response" exactly when the reply has no `{`; `INCOMPLETE_JSON` exactly when there is a `{` and neither the code-block group nor the suffix from the first `{` yields a parsable object |
| YouTubeJson.CodeBlockCandidateFacts | src/infrastructure/services/YouTubeVideoProcessingService.ts:257-266 | the object cut from the code-block group parses, starts with `{`, ends with `}`, has depth 0 and occurs in the reply |
| YouTubeJson.FirstBraceCandidateFacts | src/infrastructure/services/YouTubeVideoProcessingService.ts:270-280 | the object cut from the text after the first `{` parses, starts with `{`, ends with `}`, has depth 0 and occurs in the reply |
| YouTubeJson.BareObjectExtracted | src/infrastructure/services/YouTubeVideoProcessingService.ts:270-280 | a reply that is one parsable object without backticks comes back unchanged |
| YouTubeJson.FencedObjectExtracted | src/infrastructure/services/YouTubeVideoProcessingService.ts:257-266 | a parsable object fenced as a `json` block in backtick-free prose is returned |
| YouTubeJson.BlockPreferredToEarlierObject | src/infrastructure/services/YouTubeVideoProcessingService.ts:257-280 | when the prose before a fenced object starts with a parsable object of its own, the candidate from the first `{` is that earlier object, yet the fenced one is returned |
| YouTubeJson.TruncatedObjectIsIncomplete | src/infrastructure/services/YouTubeVideoProcessingService.ts:270-283 | a reply cut off before its object closes raises `INCOMPLETE_JSON` |
| YouTubeFallback.TextHeaderAtMatches | src/infrastructure/services/YouTubeVideoProcessingService.ts:321 | the scan finds a header at p exactly when `"text"\s*:\s*"` matches there, and every way it matches ends at the quote the scan stops after |
| YouTubeFallback.FirstTextField | src/infrastructure/services/YouTubeVideoProcessingService.ts:320-330 | the leftmost header at which the pattern matches (with a later quote for pattern 1); the capture ends at the first quote after the header |
| YouTubeFallback.FirstQuotedRun | src/infrastructure/services/YouTubeVideoProcessingService.ts:349 | the leftmost quote followed by at least 100 quote-free UTF-16 code units and a quote |
| YouTubeFallback.Unescape | src/infrastructure/services/YouTubeVideoProcessingService.ts:324 | unescaping adds no quote to a quote-free capture, empties nothing but an empty one and leaves a backslash-free capture unchanged |
| YouTubeFallback.UnescapeDecodes | src/infrastructure/services/YouTubeVideoProcessingService.ts:324 | the two global replacements equal one left-to-right pass that decodes `\"` and `\n` and keeps every other character |
| YouTubeFallback.RemoveFences | src/infrastructure/services/YouTubeVideoProcessingService.ts:340-341 | removing fences never lengthens the text and leaves a backtick-free text unchanged |
| YouTubeFallback.RemoveFencesSplit | src/infrastructure/services/YouTubeVideoProcessingService.ts:340-341 | a fence is removed with the whole whitespace run after it, and backtick-free text before it is kept |
| YouTubeFallback.StripObjectPrefix | src/infrastructure/services/YouTubeVideoProcessingService.ts:342 | when the prefix pattern matches (leading whitespace, `{`, then the first header after it) the result is the text after that header's quote; with no match it is the text itself |
| YouTubeFallback.CutAtQuote | src/infrastructure/services/YouTubeVideoProcessingService.ts:343 | the result is the prefix before the first quote, or the whole text without one |
| YouTubeFallback.CleanText | src/infrastructure/services/YouTubeVideoProcessingService.ts:339-344 | `cleanText` holds no quote and is no longer than the reply; prose without backticks or quotes is only trimmed |
| YouTubeFallback.CleanTextOfTruncatedReply | src/infrastructure/services/YouTubeVideoProcessingService.ts:339-344 | the clean-up of `{"text": "` followed by a quote- and backtick-free body is the trimmed body |
| YouTubeFallback.TextFieldCapture | src/infrastructure/services/YouTubeVideoProcessingService.ts:320-335 | none exactly when the reply has no header; with a closed field, the capture of the leftmost one; without one, the capture of the leftmost header to the end; a capture holds no quote |
| YouTubeFallback.ExtractFallbackTranscript | src/infrastructure/services/YouTubeVideoProcessingService.ts:318-358 | the unescaped text-field capture when there is one; else, when `cleanText` holds a brace, the unescaped leftmost quoted run; else `cleanText`, or the reply when `cleanText` is empty |
| YouTubeFallback.PlainTextFallback | src/infrastructure/services/YouTubeVideoProcessingService.ts:337-357 | when `cleanText` holds a brace and a long quoted run exists, the unescaped leftmost one; otherwise `cleanText`, or the reply when it is empty; the result is the reply or holds no quote |
| YouTubeFallback.EscapedQuoteEndsCapture | src/infrastructure/services/YouTubeVideoProcessingService.ts:320-325 | `{"text": "a \"b\" c"` gives `a \`: the capture stops at the escaped quote |
| YouTubeFallback.FallbackEmptyOnlyForEmptyField | src/infrastructure/services/YouTubeVideoProcessingService.ts:357 | the result is empty exactly when the reply is empty or the matched text field is empty |
| YouTubeFallback.TruncatedReplyKeepsText | src/infrastructure/services/YouTubeVideoProcessingService.ts:327-335 | for `{"text": "` followed by a cut-off text without quotes or backslashes, the text is recovered whole |
| YouTubeFallback.EmptyTextFieldGivesEmptyTranscript | src/infrastructure/services/YouTubeVideoProcessingService.ts:320-325 | `{"text": "", ` gives the empty transcript |
| YouTubeVideoProcessing.FirstAudioFile | src/infrastructure/services/YouTubeVideoProcessingService.ts:105-111 | the index of the first name with an audio extension, or none when no name has one |
| YouTubeVideoProcessing.FindDownloadedAudioFile | src/infrastructure/services/YouTubeVideoProcessingService.ts:103-113 | none exactly when no name ends with an audio extension; otherwise the first such name joined to the directory |
| YouTubeVideoProcessing.ExtName | src/infrastructure/services/YouTubeVideoProcessingService.ts:139 | the extension is non-empty exactly when the base name has a `.` after its first character and is not `..`; then it is the base name from its last `.` on |
| YouTubeVideoProcessing.LowerAscii | src/infrastructure/services/YouTubeVideoProcessingService.ts:139 | the result has the same length and no upper-case ASCII letter; each upper-case letter becomes the lower-case one at the same place in the alphabet, every other character is kept |
| YouTubeVideoProcessing.LowerAsciiIdempotent | src/infrastructure/services/YouTubeVideoProcessingService.ts:139 | lowering twice is lowering once |
| YouTubeVideoProcessing.MimeTypeFor | src/infrastructure/services/YouTubeVideoProcessingService.ts:139-143 | `.wav`, `.webm`, `.m4a` (after lower-casing) give audio/wav, audio/webm, audio/mp4; anything else audio/mp3 |
| YouTubeVideoProcessing.DownloadedFileExtension | src/infrastructure/services/YouTubeVideoProcessingService.ts:139 | a file `<dir>/<stem><ext>` with one of the four audio extensions has that extension, whatever dots its stem holds |
| YouTubeVideoProcessing.UpperCaseExtension | src/infrastructure/services/YouTubeVideoProcessingService.ts:139-141 | `.WAV` is sent as audio/wav |
| YouTubeVideoProcessing.TranscribeAudio | src/infrastructure/services/YouTubeVideoProcessingService.ts:115-253 | a request is sent exactly when the key is set, with the prompt, the size and the fitting MIME type; every error is "Failed to transcribe audio"; it succeeds exactly when the key is set, the call returns and the reply has a `{`; input tokens are audio plus prompt tokens, output tokens those of the transcript; the transcript is the `text` field (or "") of the extracted object, or the fallback string on `INCOMPLETE_JSON` |
| YouTubeVideoProcessing.TruncatedReplyTranscript | src/infrastructure/services/YouTubeVideoProcessingService.ts:192-211 | a reply cut off inside its transcript raises `INCOMPLETE_JSON`, and the fallback recovers the part that arrived |
| LogicalSegments.SegmentationPrompt | src/infrastructure/services/LogicalSegmentService.ts:24-60 | the prompt holds the transcript between its fixed head and tail |
| LogicalSegments.SegmentationCountsTranscriptTwice | src/infrastructure/services/LogicalSegmentService.ts:62-65 | the input tokens are the ceiling of the UTF-16 lengths of head + tail + twice the transcript, over 4 |
| LogicalSegments.SegmentJson | src/infrastructure/services/LogicalSegmentService.ts:102-137 | a code-block match returns its group, whatever the rest of the reply holds; a result starts with `{`, ends with `}` and is a substring; "No JSON object found in response" exactly when there is no `{`; "Incomplete JSON object in response" exactly when there is a `{`, no code block, and the depth from the first `{` never returns to 0; without a block the result runs from the first `{` to the first balancing `}` |
| LogicalSegments.ExtractJsonFromResponse | src/infrastructure/services/LogicalSegmentService.ts:102-137 | the regex test and the counting loop from `jsonStart` return what SegmentJson describes |
| LogicalSegments.Segment | src/infrastructure/services/LogicalSegmentService.ts:16-100 | every failure is "Failed to create logical segments: " followed by the call's, the extractor's or the parser's message; it succeeds exactly when the call returns, extraction succeeds and the text parses; segments are the `segments` field or []; input tokens are those of prompt + transcript, output tokens those of the raw reply |
| LogicalSegments.ProcessIntoSegments | src/infrastructure/services/LogicalSegmentService.ts:16-100 | sends the segmentation prompt and returns what Segment describes |
| LogicalSegments.UnbalancedBlockTaken | src/infrastructure/services/LogicalSegmentService.ts:104-109 | a fenced body is returned unbalanced: the block `{{}` gives `{{}` |
| LogicalSegments.FencedSegmentsExtracted | src/infrastructure/services/LogicalSegmentService.ts:104-109 | an object fenced as a `json` block in backtick-free prose is returned |
| LogicalSegments.BlockPreferredToEarlierObject | src/infrastructure/services/LogicalSegmentService.ts:104-130 | when the prose before a fenced object starts with a balanced object, the brace scan would stop inside the prose, yet the block's body is returned |
| LogicalSegments.TruncatedSegmentsFail | src/infrastructure/services/LogicalSegmentService.ts:117-134 | a reply cut off before its object closes fails with "Incomplete JSON object in response" |
| GeminiTranscript.TranscriptPrompt | src/infrastructure/services/GeminiTranscriptService.ts:30-55 | the prompt holds the text between its fixed head and tail |
| GeminiTranscript.BraceSpanBounds | src/infrastructure/services/GeminiTranscriptService.ts:105-107 | the `indexOf`/`lastIndexOf` guard holds exactly when some `{` comes before some `}` |
| GeminiTranscript.ExtractJsonFromResponse | src/infrastructure/services/GeminiTranscriptService.ts:97-112 | the result is a piece of the reply: the code-block group when there is one; else, when some `{` precedes some `}`, the span from the first `{` to the last `}` (no `{` before it, no `}` after it); else the trimmed reply |
| GeminiTranscript.SpanOrTrim | src/infrastructure/services/GeminiTranscriptService.ts:105-111 | the result occurs in the reply; when some `{` precedes some `}` it is the span from the first `{` to the last `}`, at least two characters long; otherwise it is the trimmed reply |
| GeminiTranscript.ExtractIdempotent | src/infrastructure/services/GeminiTranscriptService.ts:97-112 | extracting from the extracted text changes nothing |
| GeminiTranscript.ProcessTranscript | src/infrastructure/services/GeminiTranscriptService.ts:18-95 | every failure is "Failed to process transcript with Gemini API"; it succeeds exactly when the call returns and the extracted text parses to something other than `null`; the record has the drawn id, an empty videoId, the input text, the `logicalSegments` field or [] and token fields of 0; input tokens are those of prompt + text, output tokens those of the reply |
| GeminiTranscript.NullReplyFails | src/infrastructure/services/GeminiTranscriptService.ts:66-68 | a prose reply that trims to a `null` text fails |
| GeminiTranscript.ProseReplyIsTrimmed | src/infrastructure/services/GeminiTranscriptService.ts:111 | a reply without backtick and without `{` is returned trimmed |
| Utils.JsRemainder60 | src/utils/index.ts:3 | `%` truncates: the remainder has the sign of the dividend, lies in (-60, 60) and differs from it by a multiple of 60 |
| Utils.FormatTimeReadsBack | src/utils/index.ts:1-5 | for s ≥ 0 the result is digits, `:`, exactly two digits worth at most 59, and 60·minutes + seconds reads back as s |
| Utils.NegativeDuration | src/utils/index.ts:2-4 | -5 seconds show as `-1:-5` |
| Utils.CalculateCost | src/utils/index.ts:7-16 | the cost is a multiple of 0.0001, non-negative for non-negative counts, within 0.00005 of (in+out)·0.3/10^6 |
| Utils.CalculateCostIsTotal | src/utils/index.ts:11-15 | the client's cost equals the server's totalCost |
| Utils.CalculateCostSymmetric | src/utils/index.ts:11-15 | the cost is symmetric in its two counts |
| Utils.CalculateCostOfNothing | src/utils/index.ts:11-15 | no tokens cost 0 |
| History.EntryFor | app/api/videos/history/route.ts:13-37 | video and transcript pass through; no transcript gives 0/0/0; a transcript's counts are copied; the cost is a non-negative multiple of 0.0001 |
| History.HistoryWithCosts | app/api/videos/history/route.ts:12-38 | one entry per row, in the same order |
| History.HistoryCostsAgree | app/api/videos/history/route.ts:21-25 | each entry's cost is `TokenCalculator.calculateCost(in,out).totalCost` of its own counts, and the client's `calculateCost` of them |
| History.HistoryOfConcatenation | app/api/videos/history/route.ts:12-13 | the map distributes over concatenation of row lists |
| VideoProcessing.ReadBack | src/infrastructure/repositories/DrizzleVideoRepository.ts:22-30 | a row reads back with its other fields; its thumbnail URL is kept unless it is empty, which reads back as none, so no row read back has an empty one |
| VideoProcessing.ReadBackIdempotent | src/infrastructure/repositories/DrizzleVideoRepository.ts:22-30 | reading a row back twice gives what reading it once gave |
| VideoProcessing.VideoRepository.FindByYoutubeUrl | src/infrastructure/repositories/DrizzleVideoRepository.ts:53-71 | none exactly when no stored video has the URL; otherwise some stored video with it, as read back |
| VideoProcessing.VideoRepository.GetTranscriptByVideoId | src/infrastructure/repositories/DrizzleVideoRepository.ts:104-124 | none exactly when no transcript refers to the video; otherwise a stored one that does |
| VideoProcessing.VideoRepository.Save | src/infrastructure/repositories/DrizzleVideoRepository.ts:8-31 | the video is stored under its id, nothing else changes, and the read-back row is returned |
| VideoProcessing.VideoRepository.SaveTranscript | src/infrastructure/repositories/DrizzleVideoRepository.ts:77-102 | the transcript is stored under its id, nothing else changes |
| VideoProcessing.VideoProcessingApplication.ProcessVideo | src/application/services/VideoProcessingApplicationService.ts:16-91 | keeps the repository valid; a stored video with a transcript is returned with no call and no change, and when every stored video with the URL has a transcript that always happens; otherwise the calls run info, audio, segmentation up to the first failure, whose message propagates; the video (URL, title, duration, thumbnail copied) is saved before segmentation, so a failed segmentation leaves it stored without transcript; on success the stored transcript has the new video's id, the raw text, the segments and the componentwise sum of both usages |
| VideoProcessing.VideoProcessingApplication.ProcessMiss | src/application/services/VideoProcessingApplicationService.ts:36-91 | the path without a stored transcript: the calls run info, audio, segmentation up to the first failure, whose message propagates; the video is saved before segmentation; on success the stored transcript holds the raw text, the segments and the summed usage |

## Left out

- The yt-dlp download, `extractVideoInfo`'s command line and its JSON, the temporary directory and file removal, `readFileSync` and base64: these are I/O against external tools. The listing, the size and the info are inputs.
- The Gemini client and the `await import` of it: each `generateContent` result is an input `Result<string>`. So a failed `readFileSync` is folded into a failed call.
- `JSON.parse` itself, and the shapes of the parsed values. The `text`, `segments` and `logicalSegments` fields are taken as already typed by the `JsonReader`. A `text` that is not a string is not modelled. Only the Gemini transcript service can parse a `null`: the other two parse only texts that open with `{`, which are objects.
- `console.log` output, `Date` timestamps (`createdAt`, `updatedAt`) and `crypto.randomUUID`. The ids are inputs, and `ProcessVideo` requires them fresh, as random UUIDs are in practice.
- `path.join` normalisation: `JoinPath` is `dir + "/" + name`, which is what `path.join` gives for a normalised directory and a plain file name.
- `ExtName` and `LowerAscii`: only ASCII letters are lowered. Unicode case mapping is not modelled.
- The constructor-time `GEMINI_API_KEY` checks of `LogicalSegmentService` and `GeminiTranscriptService`: these are environment checks at construction.
- The database behind the repository. This includes its failures, the ORM's column conversions other than the thumbnail read-back, concurrency, `findById`, `deleteById`, and `getAllVideosWithTranscripts` with its `Promise.all`. The history map takes that list as its input.
- `formatDate`, the React components and the HTTP routes other than the history map: these are presentation and locale.
- Floating-point rounding of the costs: costs are exact reals.
- String positions: the scanners index strings by character, where JavaScript indexes by UTF-16 code unit. The strings they cut out are the same. The only numbers that leave the core are lengths, and those are counted in code units.
- `FormatTime` for non-integer seconds: durations are integers in the model.
- VideoProcessing.VideoProcessingApplication.ProcessVideo: the collaborators are not methods. What `extractVideoInfo`, `getVideoTranscript` and the segmentation call would answer comes in as `Answers`, and the calls made come back as a list.
