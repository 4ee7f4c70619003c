/** Failure-carrying wrappers shared by every module of the model. */
module Wrappers {

  /** `None` stands for an absent value; where a JavaScript number is
      modelled, it stands for NaN. */
  datatype Option<+T> = None | Some(value: T)

  /** The outcome of an operation that either returns or throws. */
  datatype Result<+R, +E> = Success(value: R) | Failure(error: E)
}
