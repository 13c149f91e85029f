/** The error taxonomy of src/error.rs. Messages that the source formats
    into strings are kept as the structured values they are built from. */
module Errors {
  import opened Wrappers

  /** The two `std::io::Error` kinds the model can produce. */
  datatype IoKind = NotFound | UnexpectedEof

  /** Why an import was refused (`DromosError::Import` messages). */
  datatype ImportReason =
    | ReadFailed(path: string)
    | RevisionMismatch(imported: int, local: int)
    | InvalidHash(text: string)
    | UnknownRomType(text: string)
    | ChecksumMismatch(diffPath: string, expected: string, computed: string)

  datatype DromosError =
    | Io(kind: IoKind)
    | Database
    | Json
    | InvalidNesFile(path: string)
    | UnsupportedRomType(extension: string)
    | RomNotFound(hash: string)
    | RomAlreadyExists(hash: string)
    | DiffAlreadyExists(source: int, target: int)
    | DiffApplication
    | NoPath(from: string, to: string)
    | Export(message: string)
    | Import(reason: ImportReason)

  /** `crate::error::Result<T>`. */
  type Outcome<T> = Result<T, DromosError>
}
