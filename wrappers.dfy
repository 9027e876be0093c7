/** Option and Result, standing in for Java's null returns and thrown exceptions. */
module Wrappers {

  /** `None` plays the role of a Java `null` return. */
  datatype Option<+T> = None | Some(value: T)

  /** The exceptions the modelled Java code throws. */
  datatype Error =
    | IllegalArgument
    | NoSuchElement
    | IndexOutOfBounds
    | IllegalState

  /** `Failure(e)` stands for a thrown exception `e`. */
  datatype Result<+T> = Success(value: T) | Failure(error: Error)

  /** `Fail(e)` stands for a `void` method that threw `e`. */
  datatype Outcome = Pass | Fail(error: Error)
}
