/** Optional values: the model's stand-in for a missing (NaN) cell or an absent result. */
module Wrappers {

  datatype Option<+T> = None | Some(value: T)
}
