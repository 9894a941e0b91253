/** Optional values: the model's replacement for the nil sentinel that a cache miss returns. */
module Wrappers {
  datatype Option<+T> = None | Some(value: T)
}
