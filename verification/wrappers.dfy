/** Option and Result, standing for C#'s nullable references and for exceptions. */
module Wrappers {

  /** A value that may be missing (a C# `null`). */
  datatype Option<+T> = None | Some(value: T)

  /** A value, or the exception the source code would throw instead. */
  datatype Result<+T, +E> = Ok(value: T) | Err(error: E)

  /** The exceptions the modelled code can raise. */
  datatype Failure =
    | NullReference        // a member access through null
    | ArgumentOutOfRange   // a list index or substring outside its bounds
    | Overflow             // a TimeSpan that does not fit in 64-bit ticks
    | ArgumentNull         // a LINQ operator applied to a null list
}
