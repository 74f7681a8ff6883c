/** Optional values: an absent annotation file, a failed image decode. */
module Wrappers {
  datatype Option<+T> = None | Some(value: T)
}
