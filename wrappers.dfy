/** Optional values, used for the C idioms "null pointer" and "not found". */
module Wrappers {
  datatype Option<T> = None | Some(value: T)
}
