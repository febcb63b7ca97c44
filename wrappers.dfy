/** The failure-carrying result used for the error paths of the program. */
module Wrappers {

  datatype Result<T, E> = Success(value: T) | Failure(error: E)
}
