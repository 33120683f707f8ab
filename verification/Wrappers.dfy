/** Optional values: a Go pointer to a value, or a lookup that may fail. */
module Wrappers {
  datatype Option<+T> = None | Some(value: T)
}
