/** Optional values: the model's stand-in for Python's `None` return. */
module Wrappers {

  /** `None` where the source returns `None`, `Some(v)` where it returns a value. */
  datatype Option<+T> = None | Some(value: T)
}
