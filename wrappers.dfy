/** Option and Result wrappers used by the geometry codecs. */
module Wrappers {

  /** An optional value; `None` stands for a NULL database column. */
  datatype Option<+T> = None | Some(value: T)

  /** The outcome of an operation that may raise. */
  datatype Result<+R, +E> = Ok(value: R) | Err(error: E)
}
