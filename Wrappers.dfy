/** Optional values: JavaScript's `null`/`undefined` for an absent attribute,
    element text or array element. */
module Wrappers {

  datatype Option<+T> = None | Some(value: T)
}
