/** Optional values: a reference record that may be missing, a field that may be absent. */
module Wrappers {
  datatype Option<+T> = None | Some(value: T)
}
