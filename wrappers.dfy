/** Optional values: SQL NULL, JavaScript null/undefined, and "no result". */
module Wrappers {
  datatype Option<+T> = None | Some(value: T)
}
