/** Optional values. `None` stands for a floating-point result that is not a number. */
module Wrappers {
  datatype Option<+T> = None | Some(value: T)
}
