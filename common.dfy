/** Values shared by the modules of the model: bytes and the error-path wrappers. */
module Common {

  /** One octet of a file, an IV or a key. */
  newtype byte = b: int | 0 <= b < 256

  type Bytes = seq<byte>

  datatype Option<+T> = None | Some(value: T)

  datatype Result<+R, +E> = Success(value: R) | Failure(error: E)
}
