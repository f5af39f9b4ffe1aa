/** The optional value used wherever the extension tests for null or undefined. */
module Wrappers {
  datatype Option<+T> = None | Some(value: T)
}
