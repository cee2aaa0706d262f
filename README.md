# Employee service and repository, modelled in Dafny

This project models the core of a small CRUD backend for employee records (Go, echo + gorm). The core is
the employee service and the repository beneath it, plus a few helpers around them. The model covers:

- **Service** (`Service`, `ServiceLaws`). The five service operations (`GetEmployees`, `GetEmployeeByID`,
  `CreateEmployee`, `EditEmployee`, `DeleteEmployeeByID`) are pure functions from a repository state to an
  `Outcome`: the new state, the result pointer and the `CustomError`. The `EmployeeService` class then
  performs the same sequence of repository calls on a repository object. The local `txSuccess` flag and the
  deferred rollback are written out. Create and edit share one transactional half, `SaveInTransaction`:
  begin, one write, then rollback or commit. Each method is proved to end in exactly the state, result and error its
  outcome function gives. The lemmas about the outcome functions cover:
  - error translation, where only the exact not-found sentinel becomes `EmployeeNotFound`;
  - the email pre-check;
  - the transaction discipline. Once `TxBegin` succeeds, exactly one of commit and rollback follows, and it
    is the last call;
  - two quirks of the source. A failed commit is reported as success, and an edit saves the row exactly as
    loaded.
- **Repository** (`Repository`). `Store` is the repository state as a value. It holds:
  - the committed rows and the rows an open transaction sees;
  - the active handle (`handler.Tx`: the default DB or a transaction);
  - the next storage-assigned id;
  - a failure oracle (the error storage returns to each kind of call);
  - a call log.

  Each repository call is a step on that state. `DefaultRepository` holds the same state in fields, and its
  methods are proved to follow the steps and to keep the invariant: ids are unique and assigned.
- **Query semantics** (`Scopes`, `RepoHelpers`, `Strings`, `Like`). The gorm scopes are given a meaning over a
  sequence of rows:
  - case-insensitive substring filters on first and last name;
  - an id-membership filter;
  - AND-composition of the filters;
  - ordering by creation time, newest first;
  - offset/limit pagination;
  - counting;
  - first-row lookups.

  `Like` gives SQL `LIKE` its meaning and shows that the `%v%`, `v%` and `%v` patterns the repository builds
  mean "contains", "starts with" and "ends with" for input without `%`, `_` or the escape character `\`.
- **Helpers** (`Handler`, `ResponseUtil`, `Constant`, `Copy`, `Errors`, `PkgError`, `GoInt`):
  - page-request defaulting;
  - the JSON success and error envelopes;
  - column-name parsing;
  - the field-by-field copies that replace the reflective copy;
  - Go error values and `errors.Is`;
  - the `CustomError` taxonomy;
  - Go's 64-bit `int`/`uint` conversions.

The package `pkg/error` is not part of this model. Its catalog of named errors is a parameter (`Catalog`),
and `Catalog.Valid` gives what is known of it:
- the codes are distinct and no entry carries a cause;
- `InvalidParams` is HTTP 400, `SystemError` is 500, and `EmployeeNotFound` is a 4xx status.

The reflective `copyutil` is not part of this model either. Its conversion of the request's `HireDate` text
to a time is a parameter of the service (`hireDateOf`). Production mode is a parameter of the envelope
functions.

Two behaviours of the code are easy to misread, and the model keeps them as written:
- **Deleting an id that does not exist.** service/employee.go:154-156 maps a not-found error from
  `DeleteEmployee` to `EmployeeNotFound`. gorm's `Delete` reports no error for an absent id
  (repository/employee.go:107-109), so an absent id gives the no-error sentinel. That branch is taken only
  when storage itself fails with the not-found sentinel (`ServiceLaws.DeleteEmployeeByIDTranslation`).
- **Editing.** `EditEmployee` never copies the request onto the loaded row before `UpdateEmployee`
  (service/employee.go:111-134). It saves the row exactly as loaded, so the request's names, email and hire
  date never reach storage (`ServiceLaws.EditIgnoresRequestFields`).

## Model

| member | source | states |
|---|---|---|
| GoInt.WrapInt64 | repository/repository.go:66 | the 64-bit result differs from the exact value by a multiple of 2^64, and is the exact value when that fits |
| GoInt.IntToUint | service/employee.go:50 | `uint(i)` is `i` for non-negative `i` and `i + 2^64` for negative `i` |
| GoInt.UintToInt | model/employee.go:13 | `int(u)` is `u` below 2^63 and `u - 2^64` from 2^63 up to 2^64 |
| GoInt.UintIntRoundTrip | service/employee.go:50 | converting a `uint` to `int` and back gives the original |
| GoInt.IntUintRoundTrip | service/employee.go:50 | converting an `int` to `uint` and back gives the original |
| Errors.Chain | service/employee.go:53 | the unwrap chain starts with the error itself |
| Errors.ErrorsIs | service/employee.go:53 | `errors.Is(err, target)` holds exactly when `target` is on `err`'s unwrap chain |
| Errors.IsRecordNotFoundIsExactSentinel | service/employee.go:53 | with the arguments reversed as written, only the bare not-found sentinel is recognised |
| Errors.WrappedNotFoundIsMissed | service/employee.go:114 | a wrapped not-found error is found by the conventional argument order and missed by the reversed one |
| PkgError.CustomError.WithError | service/employee.go:54 | attaching a cause keeps code, HTTP status and message, and sets the cause |
| PkgError.WithErrorKeepsKind | service/employee.go:56 | attaching a cause never changes whether an error is the no-error sentinel |
| PkgError.OnlyNoErrorIsNoError | service/employee.go:106 | in a valid catalog only the sentinel passes `IsNoError`, with or without a cause attached |
| Copy.ToResult | service/employee.go:59 | the result shape carries every field of the row, the id converted to `int` |
| Copy.ToResults | service/employee.go:44 | the copy of a slice has the same length and order, element by element |
| Copy.ToEntity | model/employee.go:12-20 | the reverse copy carries every field back, the id converted to `uint` |
| Copy.ToResultRoundTrip | service/employee.go:59 | copying a row to its result shape and back loses nothing for ids that fit a `uint` |
| Copy.FromCreateRequest | service/employee.go:92-93 | the new row has the request's names and email, the converted hire date, and zero id and timestamps |
| Strings.LowerChar | repository/repository.go:91 | ASCII upper-case letters map to lower case and every other character is unchanged |
| Strings.Lower | repository/repository.go:91 | lower-casing keeps the length and maps each character |
| Strings.LowerIdempotent | repository/repository.go:91-92 | lower-casing twice is lower-casing once |
| Strings.Contains | repository/repository.go:78-80 | the substring test that `%v%` stands for; its meaning is `ContainsIffOccurs` |
| Strings.ContainsFold | repository/employee.go:17-18 | the case-insensitive substring test that `ilike '%v%'` stands for, on ASCII-lower-cased text; `Like.ILikeAroundIsContainsFold` ties it to `ilike` |
| Strings.ContainsIffOccurs | repository/repository.go:78-80 | the substring test holds exactly when the pattern occurs at some position |
| Strings.ContainsFoldEmpty | repository/employee.go:14-16 | the empty pattern occurs in every string |
| Like.Like | repository/employee.go:17-18 | SQL `LIKE`: `%` matches any run, `_` any one character, anything else itself, with no escape character; its properties are the lemmas below |
| Like.ILike | repository/employee.go:17-18 | `ilike`, as `LIKE` on both sides lower-cased |
| Like.PercentMatchesAll | repository/repository.go:78-80 | the pattern `%` matches every string |
| Like.LiteralIsEquality | repository/employee.go:17-18 | a pattern without wildcards or backslashes matches only itself |
| Like.PercentAfterIsPrefix | repository/repository.go:82-84 | `v%` matches exactly the strings starting with `v`, for `v` without `%`, `_` or `\` |
| Like.PercentBeforeIsSuffix | repository/repository.go:86-88 | `%v` matches exactly the strings ending with `v`, for `v` without `%`, `_` or `\` |
| Like.PercentAroundIsContains | repository/repository.go:78-80 | `%v%` matches exactly the strings containing `v`, for `v` without `%`, `_` or `\` |
| Like.ILikeAroundIsContainsFold | repository/employee.go:17-18 | `ilike '%v%'` holds exactly when `v` occurs in the column ignoring case |
| RepoHelpers.Paginate | repository/repository.go:58-69 | a non-positive page number counts as 1 and a non-positive size as 10; the limit is at least 1 and the offset skips the earlier pages and is never negative |
| RepoHelpers.PaginateAsWritten | repository/repository.go:58-69 | the 64-bit computation has the same limit, and its offset is the exact offset modulo 2^64 |
| RepoHelpers.PaginateAsWrittenAgrees | repository/repository.go:66-67 | without overflow the 64-bit window equals the exact window |
| RepoHelpers.PaginateOverflow | repository/repository.go:66 | page 2^62 of size 4 should start at 2^64-4, but the 64-bit offset is -4 |
| RepoHelpers.WithAlias | repository/repository.go:71-76 | an empty alias leaves the column unchanged; otherwise the result is `alias.column` |
| RepoHelpers.WithPercentAround | repository/repository.go:78-80 | the value enclosed in `%` on both sides |
| RepoHelpers.WithPercentAfter | repository/repository.go:82-84 | the value followed by `%` |
| RepoHelpers.WithPercentBefore | repository/repository.go:86-88 | the value preceded by `%` |
| RepoHelpers.GetSortDir | repository/repository.go:90-95 | the result is always `asc` or `desc`, and it is `asc` exactly when the lower-cased input is `asc` |
| RepoHelpers.GetSortDirIdempotent | repository/repository.go:90-95 | applying the sort-direction choice twice equals applying it once |
| Scopes.Select | repository/employee.go:18 | a `Where` never adds rows |
| Scopes.SelectMultiset | repository/employee.go:18 | a `Where` keeps every matching row as often as it occurs and drops every other row |
| Scopes.SelectAll | repository/employee.go:14-16 | a condition that every row meets changes nothing |
| Scopes.SelectSelect | repository/employee.go:47-52 | two `Where`s in a row are one `Where` on the conjunction |
| Scopes.SelectAppend | repository/employee.go:18 | filtering distributes over concatenation |
| Scopes.SelectSubset | repository/employee.go:18 | every kept row comes from the input and meets the condition |
| Scopes.NameMatchesIsContainsFold | repository/employee.go:17-18 | the name condition is case-insensitive substring containment |
| Scopes.WhereFirstNameContains | repository/employee.go:12-20 | an empty name keeps every row; otherwise the rows whose first name contains it, ignoring case |
| Scopes.WhereLastNameContains | repository/employee.go:21-29 | an empty name keeps every row; otherwise the rows whose last name contains it, ignoring case |
| Scopes.WhereEmployeeIDIn | repository/employee.go:31-39 | an empty id list keeps every row; otherwise the rows whose id is in the list |
| Scopes.FilterIds | repository/employee.go:42-45 | a nil filter id gives no ids; otherwise exactly that id |
| Scopes.IdFilterMeaning | repository/employee.go:42-45 | a row passes the id scope exactly when the filter has no id or the row has that id |
| Scopes.Where | repository/employee.go:48-51 | the three scopes applied in the source's order, names first, then the id list; `WhereIsConjunction` gives its meaning |
| Scopes.WhereIsConjunction | repository/employee.go:47-52 | the three scopes together keep exactly the rows that meet all three conditions |
| Scopes.InsertByCreatedDesc | repository/employee.go:53 | inserting into a newest-first sequence keeps it newest-first and adds exactly that row |
| Scopes.ConsSorted | repository/employee.go:53 | a row newer than the head keeps a newest-first sequence newest-first when placed before it |
| Scopes.OrderByCreatedDesc | repository/employee.go:53 | the ordering is newest-first and a permutation of its input |
| Scopes.FindAllEmployees | repository/employee.go:57-70 | the rows are newest-first and never more than are stored |
| Scopes.FindAllEmployeesContents | repository/employee.go:57-70 | the rows are exactly the stored rows matching the filter, each as often as it is stored |
| Scopes.Page | repository/repository.go:67 | a contiguous slice starting at the offset, clipped to the rows, of at most `limit` rows |
| Scopes.PageIsSlice | repository/repository.go:67 | a page holds at most `limit` rows; it is the slice from the offset when the offset is inside the rows, and empty past the end |
| Scopes.FindEmployees | repository/employee.go:41-55 | the unpaginated ordered list cut to the `paginate` window; its meaning is `FindEmployeesIsSlice` |
| Scopes.FindEmployeesIsSlice | repository/employee.go:41-55 | the paginated list is the slice of the unpaginated list that the exact `paginate` window selects: at most one page size long, starting at the offset, empty past the end |
| Scopes.FindEmployeesAsWritten | repository/repository.go:66-67 | whenever the 64-bit offset does not wrap, the paginated list is the page at exactly the offset and limit the source computes |
| Scopes.EmptyFilterFirstPage | repository/employee.go:41-55 | with no filter, page 1 of size 10 is the first ten rows of the full ordered list |
| Scopes.CountMatching | repository/employee.go:78-83 | the number of stored rows meeting the filter, counted one by one; `SelectCount` ties it to the scopes |
| Scopes.CountEmployees | repository/employee.go:72-85 | the count equals the length of the unpaginated list for the same filter |
| Scopes.SelectCount | repository/employee.go:78-83 | the number of rows a `Where` keeps is the number of stored rows that match |
| Scopes.FirstById | repository/employee.go:91-95 | any row returned is stored and has that id; none means no stored row has it |
| Scopes.FirstByEmail | repository/employee.go:97-101 | any row returned is stored, has that email and the lowest id among such rows; none means no stored row has it |
| Repository.Replace | repository/employee.go:103-105 | saving overwrites exactly the rows keyed by the saved id and keeps the rest |
| Repository.RemoveId | repository/employee.go:107-109 | the rows the delete leaves: all but those keyed by the id, in order; `DeleteThenGone` states it |
| Repository.Store.TxBegin | repository/repository.go:38-42 | `Tx = DB.Begin()`: the handle becomes a transaction that sees the committed rows, and `Begin`'s error is returned; stated by `TxBeginOpensTransaction` |
| Repository.Store.TxCommit | repository/repository.go:44-49 | the transaction's rows are published unless the commit fails, and the handle goes back to the default either way; stated by `CommitAndRollbackRevertHandle` and `CommitPublishesRollbackDiscards` |
| Repository.Store.TxRollback | repository/repository.go:51-56 | the transaction's rows are dropped and the handle goes back to the default whatever the error; stated by the same two lemmas |
| Repository.Store.FindEmployees | repository/employee.go:41-55 | the paginated filtered list of the active rows, or no rows with the storage error; the list is `Scopes.FindEmployees` |
| Repository.Store.FindAllEmployees | repository/employee.go:57-70 | the filtered newest-first list of the active rows, or no rows with the storage error |
| Repository.Store.CountEmployees | repository/employee.go:72-85 | the filtered count of the active rows, or 0 with the storage error |
| Repository.Store.Insert | repository/employee.go:87-89 | `Create`'s insert: appends the row to the active rows, with the next storage id when its id is zero; `InsertKeepsValid` and `CreateThenFind` state it |
| Repository.Store.CreateEmployee | repository/employee.go:87-89 | the storage error, a duplicate key for a taken id, or the insert; `CreateEmployeeKeepsValid` and `CreateThenFind` state it |
| Repository.Store.FindEmployeeByID | repository/employee.go:91-95 | `Where("id=?").First`: the row with that id, or the zero row with not-found or the storage error; stated by `FindEmployeeByIDMeaning` |
| Repository.Store.FindEmployeeByEmail | repository/employee.go:97-101 | `Where("email=?").First`: the lowest-id row with that email, or the zero row with not-found or the storage error; stated by `FindEmployeeByEmailMeaning` |
| Repository.Store.UpdateEmployee | repository/employee.go:103-105 | gorm `Save`: overwrites the row keyed by the id, or inserts when there is none; stated by `UpdateThenFind` |
| Repository.Store.DeleteEmployee | repository/employee.go:107-109 | gorm `Delete` by primary key: removes that row, and an absent id is no error; stated by `DeleteThenGone` |
| Repository.RowsValidGrow | repository/employee.go:87-89 | raising the next id keeps the id invariant |
| Repository.SelectKeepsRowsValid | repository/employee.go:107-109 | removing rows keeps ids unique and assigned |
| Repository.FirstByIdFindsUnique | repository/employee.go:91-95 | with unique ids, the lookup by a stored row's id returns that row |
| Repository.RowsValidAppend | repository/employee.go:87-89 | appending a row whose id is assigned, below the new next id and not already stored keeps the id invariant |
| Repository.InsertKeepsValid | repository/employee.go:87-89 | inserting a row with a fresh or storage-assigned id keeps ids unique and assigned |
| Repository.TxBeginKeepsValid | repository/repository.go:38-42 | beginning a transaction keeps the invariant |
| Repository.TxCommitKeepsValid | repository/repository.go:44-49 | committing keeps the invariant |
| Repository.TxRollbackKeepsValid | repository/repository.go:51-56 | rolling back keeps the invariant |
| Repository.CreateEmployeeKeepsValid | repository/employee.go:87-89 | a create keeps the invariant whatever its outcome |
| Repository.UpdateEmployeeKeepsValid | repository/employee.go:103-105 | an update keeps the invariant whatever its outcome |
| Repository.DeleteEmployeeKeepsValid | repository/employee.go:107-109 | a delete keeps the invariant whatever its outcome |
| Repository.TxBeginOpensTransaction | repository/repository.go:38-42 | `TxBegin` makes the active handle a fresh transaction over the committed rows and returns that transaction's error |
| Repository.CommitAndRollbackRevertHandle | repository/repository.go:44-56 | commit and rollback both put the default handle back, whether or not they fail, and return their error |
| Repository.CommitPublishesRollbackDiscards | repository/repository.go:44-56 | rollback keeps the committed rows; commit publishes the transaction's rows exactly when it succeeds |
| Repository.WritesInTransactionKeepDb | repository/employee.go:87-109 | inside a transaction, create, update and delete leave the committed rows alone |
| Repository.ReadsOnlyLog | repository/employee.go:41-101 | the five reads change nothing but the call log |
| Repository.FindEmployeeByIDMeaning | repository/employee.go:91-95 | a successful lookup returns a stored row with that id; not-found with the zero row comes exactly when no row has it |
| Repository.FindEmployeeByEmailMeaning | repository/employee.go:97-101 | a successful lookup returns a stored row with that email; not-found with the zero row comes exactly when no row has it |
| Repository.CreateThenFind | repository/employee.go:87-95 | a created row gets a fresh id, keeps its other fields, and is found by that id afterwards |
| Repository.UpdateThenFind | repository/employee.go:103-105 | after a save, the lookup by the saved id returns the saved row with the saved names |
| Repository.DeleteThenGone | repository/employee.go:107-109 | after a delete, no row has that id, every other row remains in order, and the lookup is not-found |
| Repository.DefaultRepository.constructor | repository/repository.go:32-36 | a repository over a database already holding the given rows with valid ids, on the default handle, with no calls made |
| Repository.DefaultRepository.TxBegin | repository/repository.go:38-42 | the object's new state and error are those of the `TxBegin` step |
| Repository.DefaultRepository.TxCommit | repository/repository.go:44-49 | the object's new state and error are those of the `TxCommit` step |
| Repository.DefaultRepository.TxRollback | repository/repository.go:51-56 | the object's new state and error are those of the `TxRollback` step |
| Repository.DefaultRepository.FindEmployees | repository/employee.go:41-55 | returns the paginated filtered list of the active rows, or no rows with the storage error |
| Repository.DefaultRepository.FindAllEmployees | repository/employee.go:57-70 | returns the filtered ordered list of the active rows, or no rows with the storage error |
| Repository.DefaultRepository.CountEmployees | repository/employee.go:72-85 | returns the filtered count of the active rows, or 0 with the storage error |
| Repository.DefaultRepository.Insert | repository/employee.go:87-89 | appends the row to the active rows, assigning the next id when it has none |
| Repository.DefaultRepository.CreateEmployee | repository/employee.go:87-89 | inserts through the active handle and fills in the id; a taken id is a duplicate key; a storage error changes nothing |
| Repository.DefaultRepository.FindEmployeeByID | repository/employee.go:91-95 | returns the row with that id, or the zero row with not-found or the storage error |
| Repository.DefaultRepository.FindEmployeeByEmail | repository/employee.go:97-101 | returns the lowest-id row with that email, or the zero row with not-found or the storage error |
| Repository.DefaultRepository.UpdateEmployee | repository/employee.go:103-105 | overwrites the row keyed by the id, or inserts when there is none |
| Repository.DefaultRepository.DeleteEmployee | repository/employee.go:107-109 | removes the row keyed by the id; an absent id is not an error |
| Service.LookupError | service/employee.go:51-57 | the exact not-found sentinel becomes `EmployeeNotFound`, any other error `SystemError`, each with that error as cause |
| Service.GetEmployeesOutcome | service/employee.go:36-46 | `FindAllEmployees`, then a bare `SystemError` on failure or the copied rows with the sentinel; stated by `GetEmployeesResult` |
| Service.GetEmployeeByIDOutcome | service/employee.go:48-61 | the lookup by id converted to `uint`, with the not-found translation; stated by `GetEmployeeByIDTranslation` |
| Service.SaveInTransaction | service/employee.go:77-106 | the half shared with the edit at lines 120-146: begin, one write, then rollback if the write failed or commit if it succeeded, reporting success even when the commit fails; stated by `SaveCallLog` and `SaveTxDiscipline` |
| Service.CreateEmployeeOutcome | service/employee.go:63-107 | the email pre-check, then the transactional insert of the copied request; stated by `CreateStages` and the create lemmas |
| Service.EditEmployeeOutcome | service/employee.go:109-147 | the lookup by id, then the transactional save of the row as loaded; stated by `EditStages` and the edit lemmas |
| Service.DeleteEmployeeByIDOutcome | service/employee.go:149-161 | the delete by id converted to `uint`, with the not-found translation; stated by `DeleteEmployeeByIDTranslation` |
| Service.EmployeeService.constructor | service/employee.go:29-34 | the service holds the given repository |
| Service.EmployeeService.GetEmployees | service/employee.go:36-46 | the repository state, result and error are those of the list outcome |
| Service.EmployeeService.GetEmployeeByID | service/employee.go:48-61 | the repository state, result and error are those of the fetch outcome |
| Service.EmployeeService.CreateEmployee | service/employee.go:63-107 | the repository state, result and error are those of the create outcome, including the deferred rollback |
| Service.EmployeeService.EditEmployee | service/employee.go:109-147 | the repository state, result and error are those of the edit outcome, including the deferred rollback |
| Service.EmployeeService.DeleteEmployeeByID | service/employee.go:149-161 | the repository state and error are those of the delete outcome |
| ServiceLaws.NewCallsAfter | service/employee.go:63-107 | the calls made between two states are what was appended to the log |
| ServiceLaws.GetEmployeesResult | service/employee.go:36-46 | a storage error gives a nil result and `SystemError`; otherwise a same-length, same-order copy of the rows with the sentinel |
| ServiceLaws.GetEmployeesErrorHasNoCause | service/employee.go:40-43 | the list's `SystemError` carries no cause |
| ServiceLaws.GetEmployeeByIDTranslation | service/employee.go:48-61 | not-found maps to `EmployeeNotFound`, other errors to `SystemError`; there is a result exactly when a stored row has the id, and then it is that row's copy |
| ServiceLaws.DeleteEmployeeByIDTranslation | service/employee.go:149-161 | storage errors translate as for the fetch; otherwise the sentinel, and the row with that id is gone while the others remain |
| ServiceLaws.SaveCallLog | service/employee.go:77-106 | the transaction shared by create and edit (lines 120-146 for the edit) calls begin alone when begin fails, and otherwise the write and then rollback if the write failed or commit if it succeeded |
| ServiceLaws.SaveTxDiscipline | service/employee.go:77-106 | the transaction returns the sentinel exactly when its last call is the commit; a failed begin or write is `SystemError` with that cause, no result, and the committed rows unchanged; the handle is the default after rollback or commit and still the transaction after a failed begin |
| ServiceLaws.LookupThenSave | service/employee.go:66-106 | a lookup followed by the transaction makes the lookup's call and then the transaction's calls |
| ServiceLaws.EmailPreCheckMeaning | service/employee.go:66-75 | the pre-check passes on a not-found lookup, or when no row carries the requested non-empty email |
| ServiceLaws.CreateStages | service/employee.go:63-107 | a request that passes the pre-check goes on to the transaction with the copied request after only the lookup; any other ends at the lookup with `SystemError` for a storage failure or `EmployeeIsExist` for a taken email |
| ServiceLaws.CreateCallLog | service/employee.go:63-107 | each path of create makes its own fixed sequence of repository calls |
| ServiceLaws.CreatePreCheck | service/employee.go:66-75 | an error other than not-found gives `SystemError` and a taken email `EmployeeIsExist`; neither begins a transaction or inserts |
| ServiceLaws.CreateTxDiscipline | service/employee.go:77-106 | a failed begin is followed by nothing; after a successful begin exactly one of rollback and commit is the last call; the sentinel comes back exactly when that call is the commit |
| ServiceLaws.CreateCommitted | service/employee.go:94-106 | a successful insert returns the copy of the new row with a fresh id and the sentinel; the row is published only if the commit succeeds, and a failed commit is still reported as success |
| ServiceLaws.CreateBeginFailure | service/employee.go:78-82 | a failed begin gives `SystemError` with that cause, calls no rollback, and leaves the handle as the begin left it |
| ServiceLaws.CreateFailureKeepsDb | service/employee.go:63-107 | every failed create leaves the committed rows untouched |
| ServiceLaws.EditStages | service/employee.go:109-147 | a lookup that finds the row goes on to the transaction with that row as loaded; any other ends at the lookup with the fetch's error translation |
| ServiceLaws.EditCallLog | service/employee.go:109-147 | each path of edit makes its own fixed sequence of repository calls |
| ServiceLaws.EditLookup | service/employee.go:111-118 | a failed lookup gives the fetch's error translation and begins no transaction |
| ServiceLaws.EditTxDiscipline | service/employee.go:120-146 | a failed begin is followed by nothing; after a successful begin exactly one of rollback and commit is the last call; the sentinel comes back exactly when that call is the commit |
| ServiceLaws.EditIgnoresRequestFields | service/employee.go:111-134 | the request's names, email and hire date have no effect on the edit |
| ServiceLaws.ReplaceWithSelf | repository/employee.go:103-105 | saving a stored row unchanged leaves the rows as they were |
| ServiceLaws.EditSavesRowAsLoaded | service/employee.go:134-146 | a successful edit returns the stored row's copy with the sentinel and leaves the committed rows as they were |
| ServiceLaws.EditFailureKeepsDb | service/employee.go:109-147 | every failed edit leaves the committed rows untouched |
| Handler.PageRequestRef.constructor | model/employee.go:9 | the page request holds the given values |
| Handler.Defaulted | cmd/app/handler/handler.go:22-29 | a zero page number becomes 1 and a zero size 10; every other value, negatives included, stays |
| Handler.DefaultPageRequest | cmd/app/handler/handler.go:22-29 | the pointed-to page request becomes its defaulted value and nothing else changes |
| Handler.DefaultedIdempotent | cmd/app/handler/handler.go:22-29 | defaulting twice equals defaulting once |
| Handler.PaginateAfterDefaulting | cmd/app/handler/handler.go:22-29 | `paginate` after defaulting gives the same window as `paginate` on the raw values |
| ResponseUtil.CreateSuccessResponse | pkg/util/responseutil/responseutil.go:13-20 | status `SUCCESS`, code `0000`, data and pagination passed through, and no error fields |
| ResponseUtil.CreateErrorResponse | pkg/util/responseutil/responseutil.go:22-33 | status `ERROR`, the error's code and message, and no data; the remark is present exactly outside production with a cause, and then it is the cause's text |
| ResponseUtil.SendSuccessResponse | pkg/util/responseutil/responseutil.go:35-37 | HTTP 200, and the body is exactly the success envelope for that data and pagination |
| ResponseUtil.SendErrorResponse | pkg/util/responseutil/responseutil.go:39-41 | the error's own HTTP status, and the body is exactly the error envelope for that error and mode |
| ResponseUtil.CatalogStatuses | pkg/util/responseutil/responseutil.go:39-41 | `SystemError` is sent as 500, `InvalidParams` as 400, and `EmployeeNotFound` as a 4xx status, with or without a cause |
| ResponseUtil.ProductionHidesCause | pkg/util/responseutil/responseutil.go:28-31 | in production the envelope is the same whatever the cause |
| ResponseUtil.DiagnosticModeShowsCause | pkg/util/responseutil/responseutil.go:28-31 | outside production the remark is the cause's text |
| Constant.ParseEmployeeColumnName | constant/employee_column_name.go:21-28 | no error exactly for one of the four names, and then the column is that name; otherwise `""` and an error whose text is the input |
| Constant.ParseRoundTrip | constant/employee_column_name.go:14-26 | every declared column parses back to itself without error |
| Constant.ColumnsDistinct | constant/employee_column_name.go:7-12 | the four column names are pairwise distinct, so at most one matches |
| Constant.ColumnsAreLowerCase | constant/employee_column_name.go:7-12 | every column name is its own lower-case form |
| Constant.CaseSensitive | constant/employee_column_name.go:23 | matching is case-sensitive: no spelling that differs from a column name only in letter case is a column name |

## Left out

- Scopes.OrderByCreatedDesc: rows with equal `createdAt` keep their table order in the model. The source's `ORDER BY created_at desc` (repository/employee.go:53) leaves their order to the database, which may differ from query to query. So `FindEmployeesIsSlice` and `FindAllEmployees` speak of one fixed order, and pages requested separately could overlap or skip tied rows in the source.
- Repository.Store.TxCommit: on the default handle, with no transaction open, gorm's `Commit` and `Rollback` fail with an invalid-transaction error. The model gives only the failure oracle's error there. The service never reaches this case: it commits or rolls back only after a successful `TxBegin` (`ServiceLaws.SaveCallLog`).
- Repository.Store.TxRollback: the same.
- Scopes.FindEmployees: pages with the exact-arithmetic `RepoHelpers.Paginate`, the corrected half of the Findings row. For a page whose offset reaches 2^63 it therefore differs from the source, whose 64-bit offset wraps, possibly to a negative value. `Scopes.FindEmployeesAsWritten` shows the two agree whenever the offset does not wrap. What gorm does with a wrapped or negative offset is not part of this model.
- Scopes.FindEmployeesIsSlice: states the slice at the exact window, not at the source's wrapped 64-bit window, for the reason given in the line above.
- Repository.DefaultRepository.FindEmployees: built on `Scopes.FindEmployees`, so it has the same exact-arithmetic paging.
- Repository.Store.FindEmployees: the same.
- Like.Like: has no escape character. PostgreSQL's default escape `\` is not modelled, so every statement about the patterns requires input without `\` as well as without `%` and `_`.
- HTTP handlers, routing and request binding/validation (`RegisterHandlers` and cmd/app/handler/employee.go): they are echo I/O, and the validator is not part of this model.
- The echo and request contexts, and context cancellation: a cancelled request shows up only as a storage error, which the failure oracle already covers.
- Logging in every file: it has no effect on state or results.
- `panic`/`recover` in the deferred rollback: Dafny has no panics, so only the normal-return paths are modelled. The deferred guard is written as a final `if !txSuccess`.
- Concurrency on the shared `handler.Tx`: requests are modelled one at a time.
- SQL text, `ilike` collation and gorm internals. Lower-casing is ASCII only. LIKE metacharacters in user input are not escaped by the source, and that wildcard leakage is not modelled: the name filters are plain case-insensitive substring tests.
- Storage-assigned timestamps (`CreatedAt`, `UpdatedAt`): storage keeps the timestamps it is given. `Time` is an opaque ordered value.
- The `HireDate` string-to-time conversion inside the reflective copy: it is a parameter of the service (`hireDateOf`), not specified.
- The concrete codes and messages of `pkg/error`: a parameter (`Catalog`), constrained only by `Catalog.Valid`.
- `config.Data.IsEnvProduction`: production mode is a parameter of the envelope functions.
- Queries on a handle whose `Begin` failed: after a failed `TxBegin` the model keeps serving the committed rows through the transaction slot, whereas gorm would fail every later call on that handle. `ServiceLaws.CreateBeginFailure` records only that the handle is left switched.
- Storage faults are one fixed error per kind of call. Every service operation makes each kind of call at most once, so this loses nothing per request.
- `FindEmployeeByEmail` is missing from the `Repository` interface the service is typed against (repository/repository.go:13-26). It is part of the model anyway, because the service calls it.
- The test scaffolding and mocks.

## Findings

| source | as written | input that shows it | evidently intended | confidence | as-written member | corrected member |
|---|---|---|---|---|---|---|
| repository/repository.go:66 | `offset := (pageNum - 1) * pageSize` in 64-bit `int` wraps around for large page numbers | `pageNum = 2^62`, `pageSize = 4`: the offset becomes -4 | the offset of the requested page, `(pageNum - 1) * pageSize` without wrap-around (2^64 - 4 here), never negative | not executed | RepoHelpers.PaginateAsWritten, RepoHelpers.PaginateOverflow | RepoHelpers.Paginate |
