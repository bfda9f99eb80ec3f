/** Optional values, used for a match that may fail and a conversion that may raise. */
module Wrappers {
  datatype Option<+T> = None | Some(value: T)
}
