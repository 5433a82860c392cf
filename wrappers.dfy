/** Optional values, for columns that may be NULL and searches that may fail. */
module Wrappers {

  datatype Option<+T> = None | Some(value: T)
}
