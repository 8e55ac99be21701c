/** Optional results: the NULL pointer a lookup returns when nothing is found. */
module Wrappers {

  datatype Option<+T> = None | Some(value: T)
}
