/** Optional values: SQL NULL, JavaScript null and undefined. */
module Wrappers {

  datatype Option<+T> = None | Some(value: T)
}
