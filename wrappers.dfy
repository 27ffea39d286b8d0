/** Optional values: `None` stands for JavaScript's `null` and for an operation that throws. */
module Wrappers {
  datatype Option<+T> = None | Some(value: T)
}
