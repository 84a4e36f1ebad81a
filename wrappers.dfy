/** Optional values: JavaScript's `undefined` (a missing property) is `None`. */
module Wrappers {
  datatype Option<+T> = None | Some(value: T)
}
