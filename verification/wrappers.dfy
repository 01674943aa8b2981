/** Option and Result: the two failure-carrying shapes the model needs.
    `None` stands for JavaScript's NaN / null, `Failure` for a thrown exception. */
module Wrappers {

  datatype Option<+T> = None | Some(value: T)

  datatype Result<+R, +E> = Success(value: R) | Failure(error: E)
}
