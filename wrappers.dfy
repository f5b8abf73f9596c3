/** Optional values: JavaScript's `null`/`undefined` results and regex "no match". */
module Wrappers {

  datatype Option<+T> = None | Some(value: T)
}
