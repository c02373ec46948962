/** Optional values, results that may fail, and `Min`, shared by the media
    modules. */
module Wrappers {

  /** A value that may be absent (a null pointer or a -1 index in the source). */
  datatype Option<+T> = None | Some(value: T)

  /** Either a value or the reason the operation failed. */
  datatype Result<+R, +E> = Success(value: R) | Failure(error: E)

  /** The smaller of two integers. */
  function Min(a: int, b: int): int
  {
    if a <= b then a else b
  }
}
