/** The success/failure datatype used for the fallible operations of the model. */
module Wrappers {

  /** Either a value or an error, the shape of Rust's `Result<T, E>`. */
  datatype Result<+T, +E> = Success(value: T) | Failure(error: E)
}
