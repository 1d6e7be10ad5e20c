/** Option and Result: how the model spells Java's null and Java's exceptions. */
module Wrappers {

  /** A possibly-null reference: `None` is Java's `null`. */
  datatype Option<+T> = None | Some(value: T)

  /** The outcome of a Java call: a returned value, or the exception it threw. */
  datatype Result<+T, +E> = Ok(value: T) | Err(error: E)
}
