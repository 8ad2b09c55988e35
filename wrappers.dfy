/** Optional values, standing for the source's null pointers, `npos` results
    and thrown exceptions. */
module Wrappers {
  datatype Option<+T> = None | Some(value: T)
}
