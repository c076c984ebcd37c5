/** Optional values: an attribute that `getAttribute` may return as null,
    a storage entry that may be missing, a click that may hit no card. */
module Wrappers {
  datatype Option<+T> = None | Some(value: T)
}
