/** Optional values: a JSON field that may be `null`. */
module Wrappers {

  datatype Option<+T> = None | Some(value: T)
}
