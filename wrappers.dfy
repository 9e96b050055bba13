/** The failure-carrying datatypes of the model: Option for a value that may be
    absent, Result for an operation that may raise one of the converter's errors. */
module Wrappers {

  datatype Option<+T> = None | Some(value: T)

  datatype Result<+R, +E> = Success(value: R) | Failure(error: E)
}
