/** The failures the binding surfaces to Python. */
module Errors {

  /** The kind of a `std::io::Error`; the operating system's detail is not modelled. */
  datatype IoErrorKind = NotFound | PermissionDenied | UnexpectedEof | OtherIo

  datatype IoError = IoError(kind: IoErrorKind)

  /** The Python exceptions the binding raises. */
  datatype PyError =
      /** A Python `int` that does not fit the Rust parameter's integer type. */
    | OverflowError(argument: string)
      /** Raised explicitly by `get_for_file` for a path that is not a regular file. */
    | FileNotFoundError(message: string)
      /** A `std::io::Error` passed on with `?`. */
    | OSError(cause: IoError)
      /** A Rust panic, from `.unwrap()` on a failed hash computation. */
    | PanicException(cause: IoError)
}
