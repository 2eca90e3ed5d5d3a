/** Optional values, used where the C code returns a NULL pointer or takes an exit path. */
module Wrappers {
  datatype Option<+T> = None | Some(value: T)
}
