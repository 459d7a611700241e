/** Option stands for a Java reference that may be null. */
module Wrappers {

  datatype Option<+T> = None | Some(value: T)

  /** Outcome of an operation that can throw: Ok, or the Java exception it raises. */
  datatype Result<+T> = Ok(value: T) | Err(error: JavaError)

  datatype JavaError = ArrayIndexOutOfBounds(index: int, length: nat)
}
