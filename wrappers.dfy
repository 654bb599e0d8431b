/** Result type used for the operations that raise in the original program. */
module Wrappers {

  datatype Result<+T, +E> = Success(value: T) | Failure(error: E)
}
