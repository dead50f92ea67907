/** Optional values: `None` is a value that is not there (an absent field, or `NaN` from `parseFloat`). */
module Wrappers {
  datatype Option<+T> = None | Some(value: T)
}
