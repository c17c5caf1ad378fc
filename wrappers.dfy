/** Optional values: a cell that may be null, a column that may be missing. */
module Wrappers {
  datatype Option<+T> = None | Some(value: T)
}
