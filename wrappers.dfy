/** Result shapes used across the model. */
module Wrappers {

  /** A present value, or the C# `null` that a lookup returns when nothing matches. */
  datatype Option<+T> = None | Some(value: T)

  /** The outcome of an operation that returns nothing but may throw. */
  datatype Outcome<+E> = Pass | Fail(error: E)
}
