/** Optional values, for things that may be absent (a JSON member, a file). */
module Wrappers {

  datatype Option<+T> = None | Some(value: T)
}
