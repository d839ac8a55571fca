/** Optional values, used for absent attributes, failed lookups and failed reads. */
module Wrappers {

  datatype Option<+T> = None | Some(value: T)
}
