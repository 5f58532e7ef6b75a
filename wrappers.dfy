/** Optional values: a missing cell (NaN or NaT in the data frame) is None. */
module Wrappers {

  datatype Option<+T> = None | Some(value: T)
}
