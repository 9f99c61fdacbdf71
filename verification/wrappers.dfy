/** The optional value used for misses and for the eviction callback's argument. */
module Wrappers {

  datatype Option<+T> = None | Some(value: T)
}
