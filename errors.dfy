/**
 * Go `error` values as far as the core inspects them: gorm's record-not-found
 * sentinel, plain errors made by `errors.New`, and errors that wrap another one
 * (`fmt.Errorf` with `%w`). Values are compared the way Go compares comparable
 * errors: by identity of the sentinel, by contents otherwise.
 */
module Errors {

  datatype Error =
    | RecordNotFound                      // gorm.ErrRecordNotFound
    | Failure(text: string)               // errors.New(text)
    | Wrapped(text: string, inner: Error) // fmt.Errorf(text + "%w", inner)

  /** gorm's ErrDuplicatedKey, returned when an insert reuses a taken primary key. */
  const ErrDuplicatedKey: Error := Failure("duplicated key not allowed")

  /** The text `err.Error()` returns. */
  function Message(err: Error): string
  {
    match err
    case RecordNotFound => "record not found"
    case Failure(text) => text
    case Wrapped(text, inner) => text + Message(inner)
  }

  /** The chain `errors.Unwrap` walks from `err`, starting with `err` itself. */
  function Chain(err: Error): (c: seq<Error>)
    ensures |c| >= 1 && c[0] == err
  {
    match err
    case Wrapped(_, inner) => [err] + Chain(inner)
    case _ => [err]
  }

  /** Go's `errors.Is(err, target)`: some error on `err`'s chain equals `target`. */
  function ErrorsIs(err: Error, target: Error): (r: bool)
    ensures r <==> target in Chain(err)
  {
    err == target || (err.Wrapped? && ErrorsIs(err.inner, target))
  }

  /**
   * The service's not-found test, `errors.Is(gorm.ErrRecordNotFound, err)`,
   * with the arguments in the order the source writes them.
   */
  predicate IsRecordNotFound(err: Error)
  {
    ErrorsIs(RecordNotFound, err)
  }

  /** Because the arguments are reversed, only the bare sentinel counts as "not found". */
  lemma IsRecordNotFoundIsExactSentinel(err: Error)
    ensures IsRecordNotFound(err) <==> err == RecordNotFound
  {
  }

  /** A wrapped not-found error is one that the conventional order would recognise and the reversed order misses. */
  lemma WrappedNotFoundIsMissed(text: string)
    ensures ErrorsIs(Wrapped(text, RecordNotFound), RecordNotFound)
    ensures !IsRecordNotFound(Wrapped(text, RecordNotFound))
  {
    assert Chain(Wrapped(text, RecordNotFound)) == [Wrapped(text, RecordNotFound), RecordNotFound];
  }
}
