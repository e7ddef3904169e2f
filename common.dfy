/** Option and Result values for the controller's "element may be absent" and "validation may fail" paths. */
module Common {
  datatype Option<+T> = None | Some(value: T)

  datatype Result<+T, +E> = Success(value: T) | Failure(error: E)
}
