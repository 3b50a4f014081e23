/** Optional values: the matrix cells that may still be unset, and the result of a search that may fail. */
module Wrappers {

  datatype Option<+T> = None | Some(value: T)
}
