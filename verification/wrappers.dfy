/** Optional values: a dictionary key that may be absent, a regex that may not match. */
module Wrappers {
  datatype Option<+T> = None | Some(value: T)
}
