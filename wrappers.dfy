/** Optional values. `None` stands for Go's nil error throughout the model. */
module Wrappers {
  datatype Option<+T> = None | Some(value: T)
}
