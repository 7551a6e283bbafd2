/** The success-or-error value returned where the scripts would raise, and an optional value for a lookup that may miss. */
module Results {

  datatype Result<+T, +E> = Success(value: T) | Failure(error: E)

  datatype Option<+T> = None | Some(value: T)
}
