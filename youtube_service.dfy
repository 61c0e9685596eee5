/** The audio side of `YouTubeVideoProcessingService`: finding the file the
    downloader left in its temporary directory (`findDownloadedAudioFile`),
    choosing the MIME type it is sent with, and `transcribeAudio`, which asks the
    model for a JSON transcript and falls back to `extractFallbackTranscript`
    when the reply's object is cut off.

    The directory listing, the file's size, whether `GEMINI_API_KEY` is set and the
    model's reply are parameters: the model has no file system, environment or
    network. */
module YouTubeVideoProcessing {
  import opened Wrappers
  import opened Text
  import opened Json
  import opened TokenCalculator
  import opened YouTubeJson
  import opened YouTubeFallback

  // ---- findDownloadedAudioFile ----

  /** The name passes the `files.find` test: it ends with one of the four audio
      extensions, compared case-sensitively. */
  predicate IsAudioFileName(f: string) {
    EndsWith(f, ".mp3") || EndsWith(f, ".webm") || EndsWith(f, ".m4a") || EndsWith(f, ".wav")
  }

  /** Index of the first audio file name in `files[i..]`. */
  function FirstAudioFile(files: seq<string>, i: nat): (r: Option<nat>)
    requires i <= |files|
    ensures r.Some? ==> i <= r.value < |files| && IsAudioFileName(files[r.value])
    ensures r.Some? ==> forall j :: i <= j < r.value ==> !IsAudioFileName(files[j])
    ensures r.None? ==> forall j :: i <= j < |files| ==> !IsAudioFileName(files[j])
    decreases |files| - i
  {
    if i == |files| then None
    else if IsAudioFileName(files[i]) then Some(i)
    else FirstAudioFile(files, i + 1)
  }

  /** `path.join(dir, name)` for a directory and a plain file name. */
  function JoinPath(dir: string, name: string): string {
    dir + "/" + name
  }

  /** `findDownloadedAudioFile(tempDir)`, given the directory's listing `files` in the
      order `readdirSync` returns it: the first audio file, joined to the directory,
      or `None` (`null`) when there is none. */
  function FindDownloadedAudioFile(tempDir: string, files: seq<string>): (r: Option<string>)
    ensures r.None? <==> forall j :: 0 <= j < |files| ==> !IsAudioFileName(files[j])
    ensures r.Some? ==> exists i :: (
      && 0 <= i < |files| && IsAudioFileName(files[i])
      && (forall j :: 0 <= j < i ==> !IsAudioFileName(files[j]))
      && r.value == JoinPath(tempDir, files[i]))
  {
    match FirstAudioFile(files, 0)
    case None => None
    case Some(i) => Some(JoinPath(tempDir, files[i]))
  }

  // ---- the MIME type ----

  /** Start of the run of `/` that ends `p[..j]`. */
  function TrailingSlashes(p: string, j: nat): (e: nat)
    requires j <= |p|
    ensures e <= j && (forall k :: e <= k < j ==> p[k] == '/') && (e > 0 ==> p[e - 1] != '/')
    decreases j
  {
    if j > 0 && p[j - 1] == '/' then TrailingSlashes(p, j - 1) else j
  }

  /** The last segment of a POSIX path, trailing separators ignored. */
  function BaseName(p: string): (b: string)
    ensures '/' !in b
  {
    var e := TrailingSlashes(p, |p|);
    match LastIndexBefore(p, '/', e)
    case None => p[..e]
    case Some(i) => p[i + 1..e]
  }

  /** `path.extname(p)` (POSIX): the base name from its last `.` on, or nothing when the
      base name has no `.`, starts with its only `.`, or is `..`. */
  function ExtName(p: string): (r: string)
    ensures r == [] || (r[0] == '.' && '/' !in r && '.' !in r[1..] && EndsWith(BaseName(p), r))
    ensures r != [] <==> exists d :: 0 < d < |BaseName(p)| && BaseName(p)[d] == '.' && BaseName(p) != ".."
  {
    var b := BaseName(p);
    match LastIndexOf(b, '.')
    case None => ""
    case Some(d) =>
      if d == 0 || b == ".." then ""
      else
        var r := b[d..];
        assert r[1..] == b[d + 1..];
        assert b[|b| - |r|..] == r;
        r
  }

  /** Lower-casing leaves a string without upper-case ASCII letters unchanged. */
  lemma LowerAsciiNoUpper(s: string)
    requires forall k :: 0 <= k < |s| ==> !('A' <= s[k] <= 'Z')
    ensures LowerAscii(s) == s
  {
  }

  /** Lowering twice is lowering once. */
  lemma LowerAsciiIdempotent(s: string)
    ensures LowerAscii(LowerAscii(s)) == LowerAscii(s)
  {
    LowerAsciiNoUpper(LowerAscii(s));
  }

  /** `toLowerCase` on the ASCII letters. */
  function LowerAscii(s: string): (r: string)
    ensures |r| == |s|
    ensures forall k :: 0 <= k < |r| ==> !('A' <= r[k] <= 'Z')
    ensures forall k :: 0 <= k < |s| && !('A' <= s[k] <= 'Z') ==> r[k] == s[k]
    ensures forall k :: 0 <= k < |s| && 'A' <= s[k] <= 'Z' ==>
      'a' <= r[k] <= 'z' && r[k] as int - 'a' as int == s[k] as int - 'A' as int
  {
    seq(|s|, k requires 0 <= k < |s| => if 'A' <= s[k] <= 'Z' then (s[k] as int + 32) as char else s[k])
  }

  /** The MIME type sent for a file with extension `ext`. */
  predicate MimeTypeFits(ext: string, mimeType: string) {
    && (ext == ".wav" ==> mimeType == "audio/wav")
    && (ext == ".webm" ==> mimeType == "audio/webm")
    && (ext == ".m4a" ==> mimeType == "audio/mp4")
    && (ext != ".wav" && ext != ".webm" && ext != ".m4a" ==> mimeType == "audio/mp3")
  }

  /** The `mimeType` chosen in `transcribeAudio`: `audio/mp3` unless the lower-cased
      extension says otherwise. */
  method MimeTypeFor(audioFilePath: string) returns (mimeType: string)
    ensures MimeTypeFits(LowerAscii(ExtName(audioFilePath)), mimeType)
  {
    var fileExtension := LowerAscii(ExtName(audioFilePath));
    mimeType := "audio/mp3";
    if fileExtension == ".wav" {
      mimeType := "audio/wav";
    } else if fileExtension == ".webm" {
      mimeType := "audio/webm";
    } else if fileExtension == ".m4a" {
      mimeType := "audio/mp4";
    }
  }

  /** A file saved as `<dir>/<stem><ext>` has extension `ext`, whatever dots the stem holds. */
  lemma {:induction false} ExtNameOfStoredFile(dir: string, stem: string, ext: string)
    requires stem != [] && '/' !in stem && '/' !in ext
    requires |ext| >= 2 && ext[0] == '.' && '.' !in ext[1..]
    ensures ExtName(JoinPath(dir, stem + ext)) == ext
  {
    var b := stem + ext;
    BaseNameOfJoin(dir, b);
    assert b[|stem|] == '.';
    assert forall k :: |stem| < k < |b| ==> b[k] == ext[1..][k - |stem| - 1];
    assert LastIndexOf(b, '.') == Some(|stem|);
    assert b[|stem|..] == ext;
  }

  /** Joining a slash-free name that does not end with `/` to a directory gives a path
      whose base name is that name. */
  lemma BaseNameOfJoin(dir: string, b: string)
    requires b != [] && '/' !in b
    ensures BaseName(JoinPath(dir, b)) == b
  {
    var p := JoinPath(dir, b);
    assert p == (dir + "/") + b;
    assert p[|p| - 1] == b[|b| - 1];
    assert TrailingSlashes(p, |p|) == |p|;
    assert p[|dir|] == '/';
    assert forall k :: |dir| < k < |p| ==> p[k] == b[k - |dir| - 1];
    assert LastIndexBefore(p, '/', |p|) == Some(|dir|);
    assert p[|dir| + 1..] == b;
  }

  /** The file the downloader leaves, `<dir>/<stem>` followed by one of the four audio
      extensions, has that extension once lower-cased, so it is sent with that
      extension's MIME type. */
  lemma DownloadedFileExtension(dir: string, stem: string, ext: string)
    requires stem != [] && '/' !in stem
    requires ext == ".m4a" || ext == ".webm" || ext == ".wav" || ext == ".mp3"
    ensures LowerAscii(ExtName(JoinPath(dir, stem + ext))) == ext
  {
    if ext == ".m4a" {
      StoredAudioFile(dir, stem, ".m4a", "m4a");
    } else if ext == ".webm" {
      StoredAudioFile(dir, stem, ".webm", "webm");
    } else if ext == ".wav" {
      StoredAudioFile(dir, stem, ".wav", "wav");
    } else {
      StoredAudioFile(dir, stem, ".mp3", "mp3");
    }
  }

  lemma StoredAudioFile(dir: string, stem: string, ext: string, letters: string)
    requires stem != [] && '/' !in stem
    requires ext == "." + letters && |letters| >= 1
    requires forall k :: 0 <= k < |letters| ==> 'a' <= letters[k] <= 'z' || '0' <= letters[k] <= '9'
    ensures LowerAscii(ExtName(JoinPath(dir, stem + ext))) == ext
  {
    assert ext[1..] == letters;
    ExtNameOfStoredFile(dir, stem, ext);
    LowerAsciiNoUpper(ext);
  }

  /** An upper-case extension is lowered before the comparison. */
  lemma UpperCaseExtension()
    ensures MimeTypeFits(LowerAscii(".WAV"), "audio/wav")
  {
    assert LowerAscii(".WAV") == ".wav";
  }

  // ---- transcribeAudio ----

  const TranscriptionPrompt: string := "\n\t\t\tPlease transcribe the following audio file.\n\t\t\t\n\t\t\tCRITICAL: You must return ONLY a valid JSON object. Do not include any markdown formatting, code blocks, explanations, or additional text.\n\t\t\t\n\t\t\tReturn exactly this JSON structure:\n\t\t\t{\n\t\t\t  \"text\": \"Full transcript text here\"\n\t\t\t}\n\t\t\t\n\t\t\tGuidelines:\n\t\t\t- Provide accurate transcription of all spoken content\n\t\t\t- Include all spoken words and sentences\n\t\t\t- Return ONLY the JSON object - no code blocks, no explanations, no additional text\n\t\t\t"

  const TranscribeFailedMessage: string := "Failed to transcribe audio"

  /** What is sent to the model: the prompt and the audio, inline, with its MIME type. */
  datatype ModelRequest = ModelRequest(prompt: string, mimeType: string, audioSizeBytes: nat)

  datatype Transcription = Transcription(transcript: string, tokenUsage: TokenUsage)

  /** `transcribeAudio`. `apiKeyPresent` says whether `GEMINI_API_KEY` is set,
      `audioSizeBytes` is the length of the file read from `audioFilePath`, and
      `reply` is what `generateContent` gives back (`Failure` when it throws).
      `request` is what would be sent, `None` when nothing is.

      Every error is replaced by "Failed to transcribe audio", including the
      "No JSON object found" of a reply without `{`: only `INCOMPLETE_JSON` leads to
      the fallback. The input tokens are those of the audio plus those of the prompt;
      the output tokens are those of the transcript returned. */
  method TranscribeAudio(json: JsonReader, apiKeyPresent: bool, audioFilePath: string,
                         audioSizeBytes: nat, reply: Result<string>)
    returns (r: Result<Transcription>, request: Option<ModelRequest>)
    ensures request.Some? <==> apiKeyPresent
    ensures request.Some? ==>
      && request.value.prompt == TranscriptionPrompt
      && request.value.audioSizeBytes == audioSizeBytes
      && MimeTypeFits(LowerAscii(ExtName(audioFilePath)), request.value.mimeType)
    ensures r.Failure? ==> r.error == TranscribeFailedMessage
    ensures r.Success? <==> apiKeyPresent && reply.Success? && '{' in reply.value
    ensures r.Success? ==> r.value.tokenUsage == TokenUsage(
      EstimateAudioTokens(audioSizeBytes) + EstimateTokens(TranscriptionPrompt),
      EstimateTokens(r.value.transcript))
    ensures r.Success? && ExtractJsonFromResponse(json, reply.value).Success? ==>
      r.value.transcript == json.text(ExtractJsonFromResponse(json, reply.value).value).GetOr("")
    ensures r.Success? && ExtractJsonFromResponse(json, reply.value).Failure? ==>
      r.value.transcript == ExtractFallbackTranscript(reply.value)
  {
    if !apiKeyPresent {
      return Failure(TranscribeFailedMessage), None;
    }
    var mimeType := MimeTypeFor(audioFilePath);
    var inputTokens := EstimateAudioTokens(audioSizeBytes) + EstimateTokens(TranscriptionPrompt);
    request := Some(ModelRequest(TranscriptionPrompt, mimeType, audioSizeBytes));
    if reply.Failure? {
      return Failure(TranscribeFailedMessage), request;
    }
    var responseText := reply.value;
    var cleanedResponse := ExtractJsonFromResponse(json, responseText);
    if cleanedResponse.Failure? {
      if cleanedResponse.error == IncompleteJsonMessage {
        var fallbackTranscript := ExtractFallbackTranscript(responseText);
        return Success(Transcription(fallbackTranscript, TokenUsage(inputTokens, EstimateTokens(fallbackTranscript)))), request;
      }
      return Failure(TranscribeFailedMessage), request;
    }
    // The extracted object is one `JSON.parse` already accepted, so the parse that
    // follows in the source cannot throw and its fallback is never taken.
    assert json.valid(cleanedResponse.value);
    var transcript := json.text(cleanedResponse.value).GetOr("");
    r := Success(Transcription(transcript, TokenUsage(inputTokens, EstimateTokens(transcript))));
  }

  /** A reply cut off inside its transcript (`{"text": "hello wor`) is not an error: it
      takes the fallback, and the transcript is the part that arrived. */
  lemma TruncatedReplyTranscript(json: JsonReader, body: string)
    requires '"' !in body && '\\' !in body && '{' !in body && '}' !in body && '`' !in body
    ensures ExtractJsonFromResponse(json, TruncatedReply(body)) == Failure(IncompleteJsonMessage)
    ensures ExtractFallbackTranscript(TruncatedReply(body)) == body
  {
    var s := TruncatedReply(body);
    assert forall k :: 10 <= k < |s| ==> s[k] == body[k - 10];
    TruncatedObjectIsIncomplete(json, s);
    TruncatedReplyKeepsText(body);
  }
}
