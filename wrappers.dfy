/** The result of an operation that the source lets raise an exception. */
module Wrappers {

  datatype Result<T> = Ok(value: T) | Err(message: string)
}
