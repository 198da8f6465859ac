/** Optional values: pandas' NaN ("not a number", an undefined cell) is `None`. */
module Wrappers {

  datatype Option<+T> = None | Some(value: T)
}
