/** Failure-carrying datatypes used by the reaction parser. */
module Wrappers {

  /** An optional value: `None` stands for an absent (empty) piece of text. */
  datatype Option<+T> = None | Some(value: T)

  /** Either a computed value or the error that aborted the computation. */
  datatype Result<+T, +E> = Ok(value: T) | Err(error: E)
}
