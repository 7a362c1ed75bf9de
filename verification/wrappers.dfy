/** The `Option` and `Result` datatypes used across the model. `Option` stands for a
    JavaScript value that may be `undefined`; `Result` for a call that may throw. */
module Wrappers {

  datatype Option<+T> = None | Some(value: T)

  datatype Result<+R, +E> = Success(value: R) | Failure(error: E)
}
