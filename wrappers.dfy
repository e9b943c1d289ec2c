/** Optional values, for searches that may find nothing. */
module Wrappers {
  datatype Option<+T> = None | Some(value: T)
}
