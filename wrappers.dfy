/** Optional values: the model's stand-in for a Python function that may return `None`. */
module Wrappers {
  datatype Option<+T> = None | Some(value: T)
}
