/** Option and Result types used for the lookups and parses that can fail. */
module Results {

  datatype Option<+T> = None | Some(value: T)

  /** `Failure` stands for a raised Python exception; `error` says which one. */
  datatype Result<+R, +E> = Success(value: R) | Failure(error: E)
}
