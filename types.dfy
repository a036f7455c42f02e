/** The records passed between the parser, the templater and the generator
    (generator/types.py), the exceptions they raise (generator/exceptions.py),
    and a Result type in place of Python's raise. */
module Types {

  datatype Result<T, E> = Ok(value: T) | Err(error: E)

  /** The two per-document failures of the parser; the generator's batch
      loop catches exactly these. */
  datatype ParseError =
    | NoMetadata
    | InvalidMetadataSyntax(message: string)

  /** Every failure that the batch loop does not catch and that therefore
      ends the run: a bad configuration, a missing directory, and the
      template engine's own errors (unknown template, broken template). */
  datatype FatalError =
    | InvalidConfig(error: string)
    | FileNotFound(message: string)
    | TemplateNotFound(name: string)
    | TemplateError(detail: string)

  /** `PartitionedType`: the header lines (newlines removed) and the body. */
  datatype Partitioned = Partitioned(content: string, metadata: seq<string>)

  /** `ParsedFileData`: the body and the header as a key/value mapping. */
  datatype ParsedFileData = ParsedFileData(content: string, metadata: map<string, string>)

  /** `FileDetails`: the file's final path component and its full path. */
  datatype FileDetails = FileDetails(filename: string, filepath: string)
}
