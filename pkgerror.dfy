/**
 * The application's error taxonomy (package pkg/error). The concrete codes and
 * messages are not part of this model: the catalog of named errors is a
 * parameter, constrained by `Valid` to what is known about it.
 */
module PkgError {

  import opened Wrappers
  import opened Errors

  /** A typed application error: code, HTTP status, message and an optional underlying cause. */
  datatype CustomError = CustomError(code: string, httpCode: int, msg: string, cause: Option<Error>)
  {
    /** Attaches `err` as the cause; nothing else about the error changes. */
    function WithError(err: Error): (r: CustomError)
      ensures r.code == code && r.httpCode == httpCode && r.msg == msg
      ensures r.cause == Some(err)
    {
      this.(cause := Some(err))
    }
  }

  /** The named errors the core uses. */
  datatype Catalog = Catalog(
    noError: CustomError,
    invalidParams: CustomError,
    systemError: CustomError,
    employeeNotFound: CustomError,
    employeeIsExist: CustomError)
  {
    /** What is known of the catalog: no entry carries a cause, the codes are distinct, and the observed statuses. */
    predicate Valid()
    {
      && noError.cause.None? && invalidParams.cause.None? && systemError.cause.None?
      && employeeNotFound.cause.None? && employeeIsExist.cause.None?
      && noError.code != invalidParams.code && noError.code != systemError.code
      && noError.code != employeeNotFound.code && noError.code != employeeIsExist.code
      && invalidParams.code != systemError.code && invalidParams.code != employeeNotFound.code
      && invalidParams.code != employeeIsExist.code && systemError.code != employeeNotFound.code
      && systemError.code != employeeIsExist.code && employeeNotFound.code != employeeIsExist.code
      && invalidParams.httpCode == 400
      && systemError.httpCode == 500
      && 400 <= employeeNotFound.httpCode < 500
    }

    /** `IsNoError`: the error carries the no-error sentinel's code. */
    predicate IsNoError(e: CustomError)
    {
      e.code == noError.code
    }
  }

  /** Attaching a cause never turns an error into the sentinel or the sentinel into an error. */
  lemma WithErrorKeepsKind(cat: Catalog, e: CustomError, cause: Error)
    ensures cat.IsNoError(e.WithError(cause)) <==> cat.IsNoError(e)
  {
  }

  /** The sentinel is the only catalog entry that `IsNoError` accepts, with or without a cause. */
  lemma OnlyNoErrorIsNoError(cat: Catalog, cause: Error)
    requires cat.Valid()
    ensures cat.IsNoError(cat.noError)
    ensures !cat.IsNoError(cat.invalidParams.WithError(cause))
    ensures !cat.IsNoError(cat.systemError.WithError(cause))
    ensures !cat.IsNoError(cat.employeeNotFound.WithError(cause))
    ensures !cat.IsNoError(cat.employeeIsExist.WithError(cause))
  {
  }
}
