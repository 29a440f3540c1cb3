/** Optional values: a directory that may be missing, a match that may fail. */
module Wrappers {

  datatype Option<+T> = None | Some(value: T)
}
