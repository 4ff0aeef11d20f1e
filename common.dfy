/** Value wrappers shared by the services: Java's nullable references and
    thrown exceptions are modelled as Option and Result values. */
module Common {

  /** A Java reference that may be null. */
  datatype Option<+T> = None | Some(value: T)

  /** The outcome of a call that either returns a value or throws. */
  datatype Result<+T, +E> = Success(value: T) | Failure(error: E)
}
