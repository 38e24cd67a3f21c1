/** Optional values, used for missing JSON fields and partial parses. */
module Wrappers {

  datatype Option<+T> = None | Some(value: T)
}
