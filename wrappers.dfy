/** A Go `nil`-able result: a pointer that is either absent or points at a record. */
module Wrappers {
  datatype Option<+T> = None | Some(value: T)
}
