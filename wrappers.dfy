/** Small wrappers used across the model. */
module Wrappers {

  /** Python's `X | None`. */
  datatype Option<+T> = None | Some(value: T)

  /** The result of a computation that either returns a value or never returns:
      the Python code recurses without bound and eventually raises RecursionError. */
  datatype Outcome<+T> = Ok(value: T) | RecursionError
}
