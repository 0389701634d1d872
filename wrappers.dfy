/** The two result shapes the pipeline needs: an optional value (Python's `None`
    versus a present object) and a value-or-error (a raised exception). */
module Wrappers {

  datatype Option<+T> = None | Some(value: T)

  datatype Result<+R, +E> = Success(value: R) | Failure(error: E)
}
