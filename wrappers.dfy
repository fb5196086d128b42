/**
 * Plain `Option` and `Result` datatypes: `Option` for "nothing to do"
 * outcomes and `Result` for operations that raise an error in the modelled
 * program.
 */
module Wrappers {

  datatype Option<+T> = None | Some(value: T)

  datatype Result<+R, +E> = Success(value: R) | Failure(error: E)
}
