/** Optional values, standing in for Java's `Optional` and for `null` results. */
module Wrappers {
  datatype Option<+T> = None | Some(value: T)
}
