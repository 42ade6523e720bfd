/** Option, Result and Outcome: the model's stand-ins for Java's null and thrown exceptions. */
module Wrappers {

  /** A possibly-null Java reference: `None` is `null`. */
  datatype Option<+T> = None | Some(value: T)

  /** The value of a Java call that returns normally (`Success`) or throws (`Failure`). */
  datatype Result<+R, +E> = Success(value: R) | Failure(error: E)

  /** The value of a `void` Java call: it returns (`Pass`) or throws (`Fail`). */
  datatype Outcome<+E> = Pass | Fail(error: E)
}
