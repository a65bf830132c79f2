/** Optional values: a missing cell of the dataset (pandas NaN) is `None`. */
module Wrappers {

  datatype Option<+T> = None | Some(value: T)
}
