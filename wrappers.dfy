/** The optional value used across the model: a match that may be absent, a file that may be unreadable. */
module Wrappers {
  datatype Option<+T> = None | Some(value: T)
}
