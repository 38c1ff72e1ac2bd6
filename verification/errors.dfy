/** The parse failure of GibParseException.kt, and the two runtime exceptions
    the Kotlin code can raise without meaning to (an index past the end of a
    split list, a substring range past the end of a string). */
module Errors {
  import opened Wrappers

  /** A span of the input: 1-based lines, columns as the producer of the
      marker computes them. */
  datatype Marker = Marker(startLineNumber: int, startColumn: int, endLineNumber: int, endColumn: int)

  datatype GibParseException = GibParseException(message: Option<string>, marker: Marker)

  /** `IndexOutOfBoundsException` and `StringIndexOutOfBoundsException`. */
  datatype CrashKind = IndexOutOfBounds | StringIndexOutOfBounds

  /** Everything that can abort reading a GIB file. */
  datatype Failure = ParseFailure(exception: GibParseException) | Crash(kind: CrashKind)
}
