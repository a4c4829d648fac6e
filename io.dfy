/** Errors and result values shared by the whole model: Rust's `io::ErrorKind`,
  * an `io::Error` as a kind plus its rendered message, `Option` and `io::Result`. */
module Io {

  datatype Option<T> = None | Some(value: T)

  /** The `io::ErrorKind` values that the modelled code creates, inspects or propagates. */
  datatype ErrorKind =
    | NotFound
    | AlreadyExists
    | InvalidInput
    | InvalidData
    | PermissionDenied
    | NotADirectory
    | IsADirectory
    | DirectoryNotEmpty
    | InvalidFilename
    | Other

  /** `io::Error::new(kind, message)`: the kind and the text `Display` prints. */
  datatype IoError = IoError(kind: ErrorKind, msg: string)

  /** `io::Result<T>`. */
  datatype Result<T> = Ok(value: T) | Err(error: IoError)

  /** The unit value `()`. */
  datatype Unit = Unit
}
