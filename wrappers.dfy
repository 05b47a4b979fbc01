/** The two failure-carrying datatypes the model uses: Option stands for a
    JavaScript value that may be null, Result for an operation that either
    produces a value or throws. */
module Wrappers {

  datatype Option<+T> = None | Some(value: T)

  datatype Result<+R, +E> = Ok(value: R) | Err(error: E)
}
