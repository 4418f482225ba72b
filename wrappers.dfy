/** Optional values: a JavaScript lookup that may yield `undefined`. */
module Wrappers {
  datatype Option<+T> = None | Some(value: T)
}
