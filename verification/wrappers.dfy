/** Option and Result: the engine's nullable particle pointer and its
    out-of-range or overrunning memory accesses, made explicit. */
module Wrappers {

  /** A value that may be absent (a null pointer in the engine). */
  datatype Option<+T> = None | Some(value: T)

  /** Either a value or the reason no well-defined value exists. */
  datatype Result<+T, +E> = Success(value: T) | Failure(error: E)
}
