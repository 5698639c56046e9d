/** Small value types shared by every part of the routing pipeline model. */
module Common {

  /** A value that may be absent: a missing cell, a failed service call. */
  datatype Option<+T> = None | Some(value: T)

  /** The outcome of an operation that can raise an error. */
  datatype Result<+T, +E> = Success(value: T) | Failure(error: E)

  /** A (latitude, longitude) pair in decimal degrees. */
  type Coord = (real, real)

  /** A time window in minutes after 06:00: arrival must lie in [lo, hi]. */
  datatype Window = Window(lo: int, hi: int)
}
