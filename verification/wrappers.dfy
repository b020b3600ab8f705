/** Optional values, used wherever the source yields `undefined` or fails. */
module Wrappers {

  datatype Option<+T> = None | Some(value: T)
}
