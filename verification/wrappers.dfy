/** Failure-carrying datatypes shared by the validator and the scheduler. */
module Wrappers {

  /** An optional value: `None` where the program has nothing (Python's `None`). */
  datatype Option<+T> = None | Some(value: T)

  /** Either the value a step computed or the error that stopped it. */
  datatype Result<+R, +E> = Success(value: R) | Failure(error: E)
}
