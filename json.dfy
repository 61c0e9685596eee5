/** What the core needs from `JSON.parse`, kept abstract.

    The model never parses JSON itself. A `JsonReader` says which strings
    `JSON.parse` accepts, which of them denote `null`, what it reports when it refuses one, and what the
    handful of properties the services read (`text`, `segments`,
    `logicalSegments`) hold in a parsed document. Every operation that parses
    takes the reader as a parameter, so every property proved below holds
    whatever the parser does. */
module Json {
  import opened Wrappers
  import opened Entities

  datatype JsonReader = JsonReader(
    /** `JSON.parse(s)` returns instead of throwing. */
    valid: string -> bool,
    /** A `valid` string whose value is `null` (the text `null`, say); reading a
        property of that value throws a `TypeError`. A valid text that opens with `{`
        is an object, so the callers that only parse such texts never consult this. */
    parsesToNull: string -> bool,
    /** The message of the `SyntaxError` thrown for a string that is not `valid`. */
    parseError: string -> string,
    /** `parsed.text` when it is a non-empty string; `None` when it is missing or falsy. */
    text: string -> Option<string>,
    /** `parsed.segments` when present and truthy. */
    segments: string -> Option<seq<LogicalSegment>>,
    /** `parsed.logicalSegments` when present and truthy. */
    logicalSegments: string -> Option<seq<LogicalSegment>>
  )
}
