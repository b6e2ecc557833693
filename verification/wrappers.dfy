/** Failure-compatible option type shared by the other modules. */
module Wrappers {

  /** `None` stands for Python's `None` and for a value that could not be produced. */
  datatype Option<+T> = None | Some(value: T)
}
