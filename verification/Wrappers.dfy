module Wrappers {
  /** A value that may be missing: a null pointer, or a call that did not come back. */
  datatype Option<+T> = None | Some(value: T)
}
