/**
  The engine's error taxonomy. Each failure carries the path or key that
  caused it; paths are carried as paths rather than as their display text.
 */
module Errors {
  import opened Paths

  datatype PacdError =
    | CouldNotParseTemplate(template: Path)
    | CouldNotRenderFile(output: Path)
    | CouldNotBuildParser
    | CollectionKeyNotFound(key: string)
    | NoListAvailable(key: string)
    | NoIDField(collection: string)
    | IDParseError(collection: string)
    | ObjectConversionError
    | DataParseError(dataFile: Path)
    | TraverseError
    | DestCreationError(target: Path)
    | SrcReadError(source: Path)
    | PassThrough(cause: string)
    | DeflateError(destination: Path)
}
