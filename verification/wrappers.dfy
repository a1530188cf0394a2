/** Optional values, used for the cells of a parsed roll-list line that may be missing. */
module Wrappers {

  datatype Option<+T> = None | Some(value: T)
}
