/** Wrappers for C#'s nullable values and thrown exceptions. */
module Common {

  /** A value that C# may hold as `null`. */
  datatype Option<+T> = None | Some(value: T)

  /** The outcome of a C# call that either returns a value or throws. */
  datatype Result<+T> = Ok(value: T) | Err(reason: string)
}
