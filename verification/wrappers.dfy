/** Optional values, used for JavaScript's `undefined` array slot and for `NaN`. */
module Wrappers {

  datatype Option<+T> = None | Some(value: T)
}
