/** Optional values: the results of repository queries that may legitimately be absent. */
module Wrappers {

  datatype Option<+T> = None | Some(value: T)
}
