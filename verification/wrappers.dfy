/** Failure-carrying result types shared by every stage of the assembler. */
module Wrappers {

  datatype Option<+T> = None | Some(value: T)

  /** The outcome of a fallible stage: a value, or the first error met. */
  datatype Result<+T, +E> = Ok(value: T) | Err(error: E)
}
