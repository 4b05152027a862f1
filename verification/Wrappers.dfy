/** Optional values: Go's nil pointers and slices, Python's None. */
module Wrappers {
  datatype Option<+T> = None | Some(value: T)
}
