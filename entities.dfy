/** The domain entities (src/domain/entities/Video.ts) as values. Timestamps
    (`createdAt`, `updatedAt`) are not part of the model. */
module Entities {
  import opened Wrappers

  /** A titled part of a transcript. */
  datatype LogicalSegment = LogicalSegment(title: string, text: string)

  datatype Video = Video(
    id: string,
    youtubeUrl: string,
    title: string,
    duration: int,
    thumbnailUrl: Option<string>)

  datatype Transcript = Transcript(
    id: string,
    videoId: string,
    text: string,
    logicalSegments: Option<seq<LogicalSegment>>,
    inputTokens: nat,
    outputTokens: nat)
}
