/** Optional values, for request fields and options that may be absent. */
module Wrappers {
  datatype Option<T> = None | Some(value: T)
}
