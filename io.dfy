/** Values shared by every part of the model: bytes, paths, I/O errors and results. */
module Io {

  /** One byte of file content. */
  newtype Byte = b: int | 0 <= b < 256

  /** A file-system path, compared as a plain string. */
  type Path = string

  /** The kinds of I/O error the model tells apart. */
  datatype IoError = NotFound | PermissionDenied | IsADirectory | Interrupted | OtherError

  datatype Option<T> = None | Some(value: T)

  /** `std::io::Result`: a value, or the error that stopped the operation. */
  datatype Result<T> = Ok(value: T) | Err(error: IoError)
}
