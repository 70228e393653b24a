/** Optional values: a missing storage record, a failed `find`, an `indexOf` of -1. */
module Wrappers {
  datatype Option<+T> = None | Some(value: T)
}
