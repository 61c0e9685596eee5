/** `VideoProcessingApplicationService.processVideo`
    (src/application/services/VideoProcessingApplicationService.ts): the
    orchestration that deduplicates by URL, acquires the video's information and
    transcript, saves the video, segments the transcript and saves it with the
    token usage of both model calls added together.

    The repository is a class over two maps keyed by primary key. `youtubeUrl` is
    not unique, and `findByYoutubeUrl` and `getTranscriptByVideoId` read one row
    of `.limit(1)` without an order: the model picks any matching row. What the
    collaborators answer (`extractVideoInfo`, `getVideoTranscript`, the model's
    segmentation reply) and the two fresh ids (`crypto.randomUUID`) are inputs. */
module VideoProcessing {
  import opened Wrappers
  import opened Json
  import opened Entities
  import opened TokenCalculator
  import opened LogicalSegments
  import opened YouTubeVideoProcessing

  /** What `extractVideoInfo` resolves to. */
  datatype VideoInfo = VideoInfo(title: string, duration: int, thumbnailUrl: Option<string>)

  /** A video as the repository reads it back: an empty thumbnail URL is falsy and
      comes back as `undefined`. */
  function ReadBack(v: Video): (r: Video)
    ensures r.id == v.id && r.youtubeUrl == v.youtubeUrl && r.title == v.title && r.duration == v.duration
    ensures r.thumbnailUrl.Some? <==> v.thumbnailUrl.Some? && v.thumbnailUrl.value != ""
    ensures r.thumbnailUrl.Some? ==> r.thumbnailUrl == v.thumbnailUrl
    ensures r.thumbnailUrl != Some("")
  {
    if v.thumbnailUrl == Some("") then v.(thumbnailUrl := None) else v
  }

  /** Reading a row back twice gives what reading it once gave: a row read back has
      no empty thumbnail URL left to drop. */
  lemma ReadBackIdempotent(v: Video)
    ensures ReadBack(ReadBack(v)) == ReadBack(v)
  {
    assert ReadBack(v).thumbnailUrl != Some("");
  }

  /** The `videos` and `transcripts` tables. */
  class VideoRepository {
    var videos: map<string, Video>
    var transcripts: map<string, Transcript>

    /** Rows are stored under their own ids, and every transcript refers to a video
        (the foreign key of `transcripts.video_id`). */
    predicate Valid()
      reads this
    {
      && (forall id :: id in videos ==> videos[id].id == id)
      && (forall id :: id in transcripts ==> transcripts[id].id == id && transcripts[id].videoId in videos)
    }

    predicate HasVideoFor(url: string)
      reads this
    {
      exists v :: v in videos.Values && v.youtubeUrl == url
    }

    predicate HasTranscriptFor(videoId: string)
      reads this
    {
      exists t :: t in transcripts.Values && t.videoId == videoId
    }

    constructor()
      ensures videos == map[] && transcripts == map[]
      ensures Valid()
    {
      videos := map[];
      transcripts := map[];
    }

    /** `findByYoutubeUrl`: some video with that URL, or `None` when there is none. */
    method FindByYoutubeUrl(url: string) returns (r: Option<Video>)
      ensures r.None? <==> !HasVideoFor(url)
      ensures r.Some? ==> exists v :: v in videos.Values && v.youtubeUrl == url && r.value == ReadBack(v)
    {
      if exists v :: v in videos.Values && v.youtubeUrl == url {
        var v :| v in videos.Values && v.youtubeUrl == url;
        r := Some(ReadBack(v));
      } else {
        r := None;
      }
    }

    /** `getTranscriptByVideoId`: some transcript of that video, or `None`. */
    method GetTranscriptByVideoId(videoId: string) returns (r: Option<Transcript>)
      ensures r.None? <==> !HasTranscriptFor(videoId)
      ensures r.Some? ==> r.value in transcripts.Values && r.value.videoId == videoId
    {
      if exists t :: t in transcripts.Values && t.videoId == videoId {
        var t :| t in transcripts.Values && t.videoId == videoId;
        r := Some(t);
      } else {
        r := None;
      }
    }

    /** `save`: inserts the row under its fresh id and returns it as read back. */
    method Save(video: Video) returns (saved: Video)
      requires video.id !in videos
      modifies this
      ensures videos == old(videos)[video.id := video] && transcripts == old(transcripts)
      ensures saved == ReadBack(video)
    {
      videos := videos[video.id := video];
      saved := ReadBack(video);
    }

    /** `saveTranscript`: inserts the row under its fresh id; the video it refers to
        must exist. */
    method SaveTranscript(transcript: Transcript) returns (saved: Transcript)
      requires transcript.id !in transcripts && transcript.videoId in videos
      modifies this
      ensures transcripts == old(transcripts)[transcript.id := transcript] && videos == old(videos)
      ensures saved == transcript
    {
      transcripts := transcripts[transcript.id := transcript];
      saved := transcript;
    }
  }

  /** A call `processVideo` makes on a collaborator. */
  datatype ServiceCall =
    | ExtractVideoInfo(url: string)
    | GetVideoTranscript(url: string)
    | ProcessIntoSegments(transcriptText: string)

  /** What the collaborators answer, should they be asked, and the ids drawn for the
      new rows. */
  datatype Answers = Answers(
    videoInfo: Result<VideoInfo>,
    audio: Result<Transcription>,
    segmentReply: Result<string>,
    newVideoId: string,
    newTranscriptId: string)

  datatype Processed = Processed(video: Video, transcript: Transcript)

  /** The calls of a run that misses the cache, in order, up to the first failure. */
  function MissCalls(url: string, a: Answers): seq<ServiceCall> {
    if a.videoInfo.Failure? then [ExtractVideoInfo(url)]
    else if a.audio.Failure? then [ExtractVideoInfo(url), GetVideoTranscript(url)]
    else [ExtractVideoInfo(url), GetVideoTranscript(url), ProcessIntoSegments(a.audio.value.transcript)]
  }

  /** The video row a miss inserts. */
  function NewVideo(url: string, a: Answers): Video
    requires a.videoInfo.Success?
  {
    Video(a.newVideoId, url, a.videoInfo.value.title, a.videoInfo.value.duration, a.videoInfo.value.thumbnailUrl)
  }

  class VideoProcessingApplication {
    const repository: VideoRepository
    const json: JsonReader

    constructor(repository: VideoRepository, json: JsonReader)
      ensures this.repository == repository && this.json == json
    {
      this.repository := repository;
      this.json := json;
    }

    /** `processVideo(youtubeUrl)`. `calls` lists the collaborator calls made.

        A stored video with a transcript short-cuts everything: that pair is returned,
        nothing is called and nothing is stored. Otherwise the run goes on as for a new
        URL: the information, then the transcript, then (after the video is saved) the
        segmentation; the first failure ends it, so a failed segmentation leaves the
        new video stored without a transcript. The stored transcript belongs to the
        saved video, holds the raw transcript and its segments, and records the token
        usage of transcription and segmentation added together. */
    method ProcessVideo(youtubeUrl: string, answers: Answers) returns (r: Result<Processed>, calls: seq<ServiceCall>)
      requires repository.Valid()
      requires answers.newVideoId !in repository.videos && answers.newTranscriptId !in repository.transcripts
      modifies repository
      ensures repository.Valid()
      // the short cut
      ensures calls == [] ==>
        && r.Success? && repository.videos == old(repository.videos) && repository.transcripts == old(repository.transcripts)
        && (exists v :: v in old(repository.videos.Values) && v.youtubeUrl == youtubeUrl && r.value.video == ReadBack(v))
        && r.value.transcript in old(repository.transcripts.Values) && r.value.transcript.videoId == r.value.video.id
      ensures old(repository.HasVideoFor(youtubeUrl))
        && (forall v :: v in old(repository.videos.Values) && v.youtubeUrl == youtubeUrl ==> old(repository.HasTranscriptFor(v.id)))
        ==> calls == []
      // a miss
      ensures calls != [] ==> calls == MissCalls(youtubeUrl, answers)
      ensures !old(repository.HasVideoFor(youtubeUrl)) ==> calls == MissCalls(youtubeUrl, answers)
      ensures calls != [] && (answers.videoInfo.Failure? || answers.audio.Failure?) ==>
        && r.Failure?
        && r.error == (if answers.videoInfo.Failure? then answers.videoInfo.error else answers.audio.error)
        && repository.videos == old(repository.videos) && repository.transcripts == old(repository.transcripts)
      ensures calls != [] && answers.videoInfo.Success? && answers.audio.Success? ==>
        repository.videos == old(repository.videos)[answers.newVideoId := NewVideo(youtubeUrl, answers)]
      ensures (calls != [] && answers.videoInfo.Success? && answers.audio.Success?
               && Segment(json, answers.audio.value.transcript, answers.segmentReply).Failure?) ==>
        && r == Failure(Segment(json, answers.audio.value.transcript, answers.segmentReply).error)
        && repository.transcripts == old(repository.transcripts)
      ensures (calls != [] && answers.videoInfo.Success? && answers.audio.Success?
               && Segment(json, answers.audio.value.transcript, answers.segmentReply).Success?) ==>
        var segmentation := Segment(json, answers.audio.value.transcript, answers.segmentReply).value;
        var transcript := Transcript(
          answers.newTranscriptId, answers.newVideoId, answers.audio.value.transcript,
          Some(segmentation.segments), Add(answers.audio.value.tokenUsage, segmentation.tokenUsage).inputTokens,
          Add(answers.audio.value.tokenUsage, segmentation.tokenUsage).outputTokens);
        && repository.transcripts == old(repository.transcripts)[answers.newTranscriptId := transcript]
        && r == Success(Processed(ReadBack(NewVideo(youtubeUrl, answers)), transcript))
    {
      var existingVideo := repository.FindByYoutubeUrl(youtubeUrl);
      if existingVideo.Some? {
        var existingTranscript := repository.GetTranscriptByVideoId(existingVideo.value.id);
        if existingTranscript.Some? {
          return Success(Processed(existingVideo.value, existingTranscript.value)), [];
        }
      }
      r, calls := ProcessMiss(youtubeUrl, answers);
    }

    /** The part of `processVideo` after the cache lookup missed. */
    method ProcessMiss(youtubeUrl: string, answers: Answers) returns (r: Result<Processed>, calls: seq<ServiceCall>)
      requires repository.Valid()
      requires answers.newVideoId !in repository.videos && answers.newTranscriptId !in repository.transcripts
      modifies repository
      ensures repository.Valid()
      ensures calls == MissCalls(youtubeUrl, answers)
      ensures answers.videoInfo.Failure? || answers.audio.Failure? ==>
        && r.Failure?
        && r.error == (if answers.videoInfo.Failure? then answers.videoInfo.error else answers.audio.error)
        && repository.videos == old(repository.videos) && repository.transcripts == old(repository.transcripts)
      ensures answers.videoInfo.Success? && answers.audio.Success? ==>
        repository.videos == old(repository.videos)[answers.newVideoId := NewVideo(youtubeUrl, answers)]
      ensures (answers.videoInfo.Success? && answers.audio.Success?
               && Segment(json, answers.audio.value.transcript, answers.segmentReply).Failure?) ==>
        && r == Failure(Segment(json, answers.audio.value.transcript, answers.segmentReply).error)
        && repository.transcripts == old(repository.transcripts)
      ensures (answers.videoInfo.Success? && answers.audio.Success?
               && Segment(json, answers.audio.value.transcript, answers.segmentReply).Success?) ==>
        var segmentation := Segment(json, answers.audio.value.transcript, answers.segmentReply).value;
        var transcript := Transcript(
          answers.newTranscriptId, answers.newVideoId, answers.audio.value.transcript,
          Some(segmentation.segments), Add(answers.audio.value.tokenUsage, segmentation.tokenUsage).inputTokens,
          Add(answers.audio.value.tokenUsage, segmentation.tokenUsage).outputTokens);
        && repository.transcripts == old(repository.transcripts)[answers.newTranscriptId := transcript]
        && r == Success(Processed(ReadBack(NewVideo(youtubeUrl, answers)), transcript))
    {
      calls := [ExtractVideoInfo(youtubeUrl)];
      if answers.videoInfo.Failure? {
        return Failure(answers.videoInfo.error), calls;
      }
      var videoInfo := answers.videoInfo.value;

      calls := calls + [GetVideoTranscript(youtubeUrl)];
      if answers.audio.Failure? {
        return Failure(answers.audio.error), calls;
      }
      var rawTranscript := answers.audio.value.transcript;
      var audioTokenUsage := answers.audio.value.tokenUsage;

      var video := Video(answers.newVideoId, youtubeUrl, videoInfo.title, videoInfo.duration, videoInfo.thumbnailUrl);
      var savedVideo := repository.Save(video);

      calls := calls + [ProcessIntoSegments(rawTranscript)];
      var segmentation, _ := LogicalSegments.ProcessIntoSegments(json, rawTranscript, answers.segmentReply);
      if segmentation.Failure? {
        return Failure(segmentation.error), calls;
      }
      var logicalSegments := segmentation.value.segments;
      var segmentTokenUsage := segmentation.value.tokenUsage;

      var totals := Add(audioTokenUsage, segmentTokenUsage);
      var transcript := Transcript(answers.newTranscriptId, savedVideo.id, rawTranscript, Some(logicalSegments),
                                   totals.inputTokens, totals.outputTokens);
      var savedTranscript := repository.SaveTranscript(transcript);
      r := Success(Processed(savedVideo, savedTranscript));
    }
  }
}
