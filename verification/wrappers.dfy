/** Optional values: a `localStorage` entry that may be missing, a trail
    element that may or may not be evicted. */
module Wrappers {
  datatype Option<+T> = None | Some(value: T)
}
