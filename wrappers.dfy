/** The optional-value datatype shared by the modules of this project. */
module Wrappers {
  /** A value that may be missing: Python's `None` where a method falls off its end. */
  datatype Option<T> = None | Some(value: T)
}
