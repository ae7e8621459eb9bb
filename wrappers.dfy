/** Optional values: a Python value that may be None, or a search that may find nothing. */
module Wrappers {

  datatype Option<+T> = None | Some(value: T)
}
