/** Option stands for a C# reference that may be null; Result for a call that
    either returns a value or throws. */
module Wrappers {

  datatype Option<+T> = None | Some(value: T)

  datatype Result<+R, +E> = Ok(value: R) | Err(error: E)

  /** The exceptions the core raises. */
  datatype Failure =
    | InvalidComparison(thisType: string, otherType: string)  // ArgumentException from ValueObject.Equals
    | NullReference                                           // dereferencing a null reference
}
