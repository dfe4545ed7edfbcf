/** Option and Result, the two failure-carrying shapes the model uses for
    Python's `None` and for exceptions that end a run. */
module Wrappers {

  datatype Option<+T> = None | Some(value: T)

  datatype Result<+R, +E> = Ok(value: R) | Err(error: E)
}
