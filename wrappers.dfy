/** Optional values used across the model. */
module Wrappers {

  datatype Option<+T> = None | Some(value: T)
}
