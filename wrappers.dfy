/** Optional values and results with an error, used wherever the wrapper
    reads a property that may be `undefined` or throws. */
module Wrappers {

  datatype Option<+T> = None | Some(value: T)

  datatype Result<+T, +E> = Ok(value: T) | Err(error: E)

  /** The outcome of a check that has no value of its own. */
  datatype Outcome<+E> = Pass | Fail(error: E)
}
