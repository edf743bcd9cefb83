/** A missing value (a pandas NaN cell, an SQL NULL) or a present one. */
module Wrappers {

  datatype Option<+T> = None | Some(value: T)
}
