/** Option and Result, used for absent dictionary keys, for the converter's
    "no block" case and for the KeyError the text extractor can raise. */
module Wrappers {
  datatype Option<+T> = None | Some(value: T)

  datatype Result<+R, +E> = Ok(value: R) | Err(error: E)
}
