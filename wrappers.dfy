/** A missing value: pandas' NaN in a numeric cell, or a key absent from a dictionary. */
module Wrappers {

  datatype Option<+T> = None | Some(value: T)
}
