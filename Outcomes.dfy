/** Outcomes of the container's operations: the two error kinds the
    container reports, and the success/failure wrappers that carry them. */
module Outcomes {

  /** The only two failures: inserting a key that is already stored, and
      asking an empty collection for its minimum or maximum key. */
  datatype Error = DuplicateKey | EmptyCollection

  /** A value that may be absent: stands for a nullable `TValue?`, whose
      absent case is the type's default value. */
  datatype Option<T> = None | Some(value: T)

  /** Either a result or the error that replaced it. */
  datatype Result<T> = Success(value: T) | Failure(error: Error)

  /** Success without a result, or the error that was raised. */
  datatype Outcome = Pass | Fail(error: Error)
}
