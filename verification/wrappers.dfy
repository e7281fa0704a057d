/** Small failure-carrying datatypes shared by the other modules. */
module Wrappers {

  /** An optional value: `None` plays the role of `std::string::npos`. */
  datatype Option<+T> = None | Some(value: T)

  /** The outcome of an operation that either produces a value or stops with an error. */
  datatype Result<+T, +E> = Ok(value: T) | Err(error: E)
}
