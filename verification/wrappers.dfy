/** Optional values, as returned by the collections' `pop` operations. */
module Wrappers {

  datatype Option<+T> = None | Some(value: T)
}
