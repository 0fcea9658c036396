/** Option and result types shared by the pool and the mask models.
    `MemReserver<T, N>` and `Mask<N>` signal every failure by throwing; here a
    failing operation returns `Failure(e)` and no new state. */
module Wrappers {

  /** An optional value: an empty pool slot is `None`, an occupied one `Some(obj)`. */
  datatype Option<+T> = None | Some(value: T)

  /** The outcome of an operation that can throw: the value it returns, or the
      kind of exception it throws. */
  datatype Result<+R, +E> = Success(value: R) | Failure(error: E)
}
