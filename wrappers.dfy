/** Option and Result, the two wrappers the model needs for the source's
    std::optional slots and for its thrown exceptions. */
module Wrappers {

  /** An optional value: std::optional, default-constructed as None. */
  datatype Option<+T> = None | Some(value: T)

  /** The outcome of an operation that either returns a value or raises an
      error (the source's exceptions). */
  datatype Result<+R, +E> = Ok(value: R) | Err(error: E)
}
