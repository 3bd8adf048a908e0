/** Results of operations that can fail, bytes and digests. */
module Wrappers {

  datatype Option<+T> = None | Some(value: T)

  datatype Result<+T, +E> = Success(value: T) | Failure(error: E)

  type byte = b: int | 0 <= b < 256

  /** The result of a hash function, which the model leaves open. */
  type Digest = seq<byte>
}
