/** Optional values, used for the instance crop a detection may or may not produce. */
module Wrappers {

  datatype Option<+T> = None | Some(value: T)
}
