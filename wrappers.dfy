/** Optional values, used for the source's error returns and missing dictionary keys. */
module Wrappers {
  datatype Option<+T> = None | Some(value: T)
}
