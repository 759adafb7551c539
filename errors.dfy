/** Failure-carrying values shared by every module of the mapper layer.

    The mapper package reports three kinds of error of its own
    (pkg/mapper/errors.go), the sanitizer one more (pkg/sanitizer/errors.go),
    and backends that sit on real storage pass the storage engine's error
    through unchanged; `StorageFailure` stands for the latter. */
module Errors {

  datatype Option<T> = None | Some(value: T)

  /** What made a configuration of backends unusable at start-up. The Go code
      renders each of these into the message of `ErrMapConfigSetup`. */
  datatype SetupProblem =
    | NoMappers
    | NilConfigurer
    | DuplicateSingletonType(typ: string)
    | DuplicateName(name: string)
    | MapperFailed(name: string)
    | PersistorNotFound(name: string)
    | PersistorReadonly(name: string)

  datatype Error =
    | MapConfigSetup(problem: SetupProblem)
    | OperationNotSupported(operation: string)
    | InvalidMapper(name: string)
    | InvalidPath(path: string, reason: string)
    | StorageFailure(message: string)

  /** A value or the error that prevented it (Go's `(T, error)` results). */
  datatype Result<T> = Ok(value: T) | Err(error: Error)

  /** The result of an operation that returns only an `error`. */
  datatype Outcome = Pass | Fail(error: Error)
}
