/** Optional values, for the C functions that either store a result or fail. */
module Wrappers {
  datatype Option<+T> = None | Some(value: T)
}
