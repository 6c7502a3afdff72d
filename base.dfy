/** Shared vocabulary: nullable references, results, and the .NET exceptions the library raises. */
module Base {

  /** A reference that may be null: None stands for `null`. */
  datatype Option<+T> = None | Some(value: T)

  /** The value of an operation that either returns or throws. */
  datatype Result<+T, +E> = Success(value: T) | Failure(error: E)

  /** The exceptions the disposables can raise. */
  datatype Exception =
    | ArgumentNull(paramName: string)   // System.ArgumentNullException, with the parameter's name
    | NullReference                     // System.NullReferenceException, from dereferencing a null list

  /** How a call that returns nothing ends: normally, or by throwing. */
  datatype Outcome = Done | Threw(exception: Exception)
}
