/** The optional value used for the cached table slot and for lookups that may fail. */
module Wrappers {
  datatype Option<+T> = None | Some(value: T)
}
