/** Optional values: the script's `undefined` for a missing pull request or a missing match. */
module Wrappers {

  datatype Option<+T> = None | Some(value: T)
}
