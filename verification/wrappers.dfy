/** Absent values and error results shared by the whole model. */
module Wrappers {

  /** Python's `None` versus a present value; also a missing (NaN) table cell. */
  datatype Option<+T> = None | Some(value: T) {

    /** This value when present, otherwise `other` (the step a fill takes). */
    function OrElse(other: Option<T>): (r: Option<T>) {
      if Some? then this else other
    }
  }

  /** A computed value or the exception the source would raise. */
  datatype Result<+T, +E> = Success(value: T) | Failure(error: E)
}
