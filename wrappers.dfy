/** The optional value used across the model for JavaScript's `null`/missing
    values and Python's `None`. */
module Wrappers {
  datatype Option<+T> = None | Some(value: T)
}
