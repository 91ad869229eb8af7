/** Wrappers standing for JavaScript's `false`/`undefined` sentinels and
    thrown errors. */
module Wrappers {

  /** A value that may be absent: `undefined`, `null` or the `false` sentinel. */
  datatype Option<+T> = None | Some(value: T)

  /** The outcome of an operation that either returns a value or throws an error. */
  datatype Result<+T, +E> = Ok(value: T) | Err(error: E)
}
