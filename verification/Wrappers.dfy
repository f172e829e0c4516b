/** Stands in for a pointer or an optional that may hold nothing. */
module Wrappers {
  datatype Option<+T> = None | Some(value: T)
}
