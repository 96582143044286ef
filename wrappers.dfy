/** The optional-value and result types shared by the other modules. */
module Wrappers {

  /** A value that may be absent: Python's `None` or a present value. */
  datatype Option<+T> = None | Some(value: T) {

    /** The present value, or `default` when absent. */
    function GetOr(default: T): T {
      match this
      case Some(v) => v
      case None => default
    }
  }

  /** Either a result or the error the source raises instead. */
  datatype Result<+R, +E> = Success(value: R) | Failure(error: E)
}

/** Octets, as Python `bytes` holds them. */
module Bytes {
  type Byte = x: int | 0 <= x < 256
}
