/** Optional values: a key that may be absent from an event record. */
module Wrappers {
  datatype Option<+T> = None | Some(value: T)
}
