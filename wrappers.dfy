/** Optional values, for results that the source leaves undefined or absent. */
module Wrappers {

  datatype Option<+T> = None | Some(value: T)
}
