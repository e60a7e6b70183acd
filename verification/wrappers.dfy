/** Option and Result values for the source's "nothing here" and thrown-exception paths. */
module Wrappers {
  datatype Option<T> = None | Some(value: T)

  /** The reasons an operation of the core gives up. */
  datatype Error =
    | NotFound        // a std::runtime_error for an item, property or key that is not there
    | InvalidArgument // a std::invalid_argument for a malformed constructor argument

  /** The result of an operation that returns nothing but may throw. */
  datatype Outcome = Pass | Fail(error: Error)

  datatype Result<T> = Ok(value: T) | Err(error: Error)
}
