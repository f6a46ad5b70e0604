/**
 * The facade's use of a JSON object mapper, as an oracle: reading a
 * list-files body as a JSON object keyed by file path, and writing a review
 * as JSON text. How the mapper does either is not modelled.
 */
module Json {

  /** The review payload built by the caller; the facade only serialises it. */
  type ReviewInput

  /** Reading a body as a map from file path to (ignored) file information. */
  datatype ParsedFiles =
    | Files(paths: set<string>)  // the key set of the parsed object
    | JsonNull                   // the body is the JSON literal `null`: the mapper returns null
    | Malformed                  // the mapper throws a processing exception

  /** Writing a review as JSON. */
  datatype Written = Text(text: string) | Unserialisable

  datatype ObjectMapper = ObjectMapper(readFiles: string -> ParsedFiles, writeReview: ReviewInput -> Written)
}
