/** Small shared vocabulary: optional values, results, and PostgreSQL's `integer` range. */
module Prelude {

  /** A value that may be absent (Python's `None`). */
  datatype Option<+T> = None | Some(value: T)

  /** The outcome of a Python call that either returns a value or raises. */
  datatype Result<+T, +E> = Success(value: T) | Failure(error: E)

  /** Bounds of PostgreSQL's `integer` (and `serial`) column type: signed 32 bits. */
  const Int32Min: int := -0x8000_0000
  const Int32Max: int := 0x7FFF_FFFF

  predicate InInt32(x: int) {
    Int32Min <= x <= Int32Max
  }
}
