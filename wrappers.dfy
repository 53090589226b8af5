/** Wrappers: the optional value used for lookups that may fail. */
module Wrappers {
  datatype Option<+T> = None | Some(value: T)
}
