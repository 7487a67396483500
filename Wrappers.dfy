/** Optional values, used for stream reads and interpreter failures. */
module Wrappers {
  datatype Option<+T> = None | Some(value: T)
}
