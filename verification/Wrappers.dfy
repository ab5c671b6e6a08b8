/** Results of operations that may give no answer, or fail. */
module Wrappers {
  datatype Option<T> = Some(value: T) | None

  datatype Result<T> = Ok(value: T) | Failure
}
