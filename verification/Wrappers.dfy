module Wrappers {
  /** The usual stand-in for a value that may be absent. */
  datatype Option<+T> = None | Some(value: T)
}
