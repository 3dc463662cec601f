/** Success/failure results, used for the errors the simulation reports (a path that does not
    decode, a configuration that is refused) instead of exiting the process. */
module Wrappers {

  datatype Result<+T, +E> = Success(value: T) | Failure(error: E)
}
