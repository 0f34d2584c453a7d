/** Option and Result values used for Python's `None` and for raised exceptions. */
module Optional {

  /** `None` stands for Python's `None`; `Some(v)` for a present value. */
  datatype Option<+T> = None | Some(value: T)

  /** The outcome of a computation that may raise: `Err(e)` is the exception `e` propagating. */
  datatype Result<+T, +E> = Ok(value: T) | Err(error: E)
}
