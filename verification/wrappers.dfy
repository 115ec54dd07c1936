/** Optional values, standing in for `std::optional` and nullable pointers. */
module Wrappers {
  datatype Option<T> = None | Some(value: T)
}
