/** Failure-carrying return values used where the source returns `null`,
    throws, or produces a value outside the reals (NaN, Infinity). */
module Wrappers {

  datatype Option<+T> = None | Some(value: T)

  datatype Result<+T, +E> = Ok(value: T) | Err(error: E)
}
