/** Optional values, used for "no image", "no active element" and "no target". */
module Wrappers {
  datatype Option<+T> = None | Some(value: T)
}
