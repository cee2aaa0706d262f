/**
 * The employee service (service/employee.go): the request-level operations
 * over the repository. Each operation is first given as a function from the
 * repository state to an `Outcome`; `EmployeeService` then runs the same
 * sequence of repository calls on a `DefaultRepository` object, with the
 * local `txSuccess` flag and the deferred rollback written out.
 */
module Service {

  import opened Wrappers
  import opened GoInt
  import opened Errors
  import opened PkgError
  import opened Entity
  import opened Model
  import opened Copy
  import opened Repository

  /** What a service call leaves behind: the repository state, the result pointer (nil is `None`) and the error. */
  datatype Outcome<T> = Outcome(store: Store, result: Option<T>, err: CustomError)

  /** The cause attached when the email is already taken. */
  const ErrEmailTaken: Error := Failure("Employee `email` is already created.")

  /** The translation of a lookup or delete error: the exact not-found sentinel is `EmployeeNotFound`, anything else `SystemError`. */
  function LookupError(cat: Catalog, e: Error): (r: CustomError)
    ensures r.cause == Some(e)
    ensures e == RecordNotFound ==> r == cat.employeeNotFound.WithError(e)
    ensures e != RecordNotFound ==> r == cat.systemError.WithError(e)
  {
    IsRecordNotFoundIsExactSentinel(e);
    (if IsRecordNotFound(e) then cat.employeeNotFound else cat.systemError).WithError(e)
  }

  function GetEmployeesOutcome(cat: Catalog, s: Store, f: GetEmployeesFilter): Outcome<seq<EmployeeResult>>
  {
    var found := s.FindAllEmployees(f);
    if found.err.Some? then Outcome(found.store, None, cat.systemError)
    else Outcome(found.store, Some(ToResults(found.value)), cat.noError)
  }

  function GetEmployeeByIDOutcome(cat: Catalog, s: Store, req: GetEmployeeByIDRequest): Outcome<EmployeeResult>
  {
    var found := s.FindEmployeeByID(IntToUint(req.employeeID));
    if found.err.Some? then Outcome(found.store, None, LookupError(cat, found.err.value))
    else Outcome(found.store, Some(ToResult(found.value)), cat.noError)
  }

  /** The write the service makes inside its transaction: `CreateEmployee` inserts, `EditEmployee` saves. */
  datatype Write = Create | Update

  /**
   * The half that `CreateEmployee` and `EditEmployee` share once their lookup
   * lets them through: begin, write `row`, then roll back if the write failed
   * or commit if it succeeded. A failed commit is not reported; a failed begin
   * registers no rollback.
   */
  function SaveInTransaction(cat: Catalog, s: Store, w: Write, row: Employee): Outcome<EmployeeResult>
  {
    var begin := s.TxBegin();
    if begin.err.Some? then Outcome(begin.store, None, cat.systemError.WithError(begin.err.value))
    else
      var saved := if w == Create then begin.store.CreateEmployee(row) else begin.store.UpdateEmployee(row);
      if saved.err.Some? then
        Outcome(saved.store.TxRollback().store, None, cat.systemError.WithError(saved.err.value))
      else
        Outcome(saved.store.TxCommit().store, Some(ToResult(saved.value)), cat.noError)
  }

  /** `CreateEmployee`: the email pre-check, then the transactional insert of the copied request. */
  function CreateEmployeeOutcome(cat: Catalog, hireDateOf: string -> Time, s: Store, req: CreateEmployeeRequest): Outcome<EmployeeResult>
  {
    var found := s.FindEmployeeByEmail(req.email);
    if found.err.Some? && !IsRecordNotFound(found.err.value) then
      Outcome(found.store, None, cat.systemError.WithError(found.err.value))
    else if found.value.email != "" then
      Outcome(found.store, None, cat.employeeIsExist.WithError(ErrEmailTaken))
    else
      SaveInTransaction(cat, found.store, Create, FromCreateRequest(req, hireDateOf(req.hireDate)))
  }

  /**
   * `EditEmployee`: looks the row up, then saves it exactly as loaded inside
   * a transaction. The request's name, email and hire date are never applied.
   */
  function EditEmployeeOutcome(cat: Catalog, s: Store, req: EditEmployeeRequest): Outcome<EmployeeResult>
  {
    var found := s.FindEmployeeByID(IntToUint(req.employeeID));
    if found.err.Some? then Outcome(found.store, None, LookupError(cat, found.err.value))
    else SaveInTransaction(cat, found.store, Update, found.value)
  }

  /** `DeleteEmployeeByID` returns only an error; its `result` is always `None`. */
  function DeleteEmployeeByIDOutcome(cat: Catalog, s: Store, req: DeleteEmployeeByIDRequest): Outcome<()>
  {
    var deleted := s.DeleteEmployee(IntToUint(req.employeeID));
    if deleted.err.Some? then Outcome(deleted.store, None, LookupError(cat, deleted.err.value))
    else Outcome(deleted.store, None, cat.noError)
  }

  /**
   * `EmployeeServiceImpl`. The error catalog and the hire-date conversion
   * hidden in the reflective copy are given at construction.
   */
  class EmployeeService {
    const repo: DefaultRepository
    const catalog: Catalog
    const hireDateOf: string -> Time

    constructor (repo: DefaultRepository, catalog: Catalog, hireDateOf: string -> Time)
      ensures this.repo == repo && this.catalog == catalog && this.hireDateOf == hireDateOf
    {
      this.repo := repo;
      this.catalog := catalog;
      this.hireDateOf := hireDateOf;
    }

    method GetEmployees(filter: GetEmployeesFilter) returns (results: Option<seq<EmployeeResult>>, err: CustomError)
      requires repo.Valid()
      modifies repo
      ensures repo.Valid()
      ensures var o := GetEmployeesOutcome(catalog, old(repo.State()), filter);
              repo.State() == o.store && results == o.result && err == o.err
    {
      var employees, e := repo.FindAllEmployees(filter);
      if e.Some? {
        return None, catalog.systemError;
      }
      results, err := Some(ToResults(employees)), catalog.noError;
    }

    method GetEmployeeByID(req: GetEmployeeByIDRequest) returns (result: Option<EmployeeResult>, err: CustomError)
      requires repo.Valid()
      modifies repo
      ensures repo.Valid()
      ensures var o := GetEmployeeByIDOutcome(catalog, old(repo.State()), req);
              repo.State() == o.store && result == o.result && err == o.err
    {
      var employee, e := repo.FindEmployeeByID(IntToUint(req.employeeID));
      if e.Some? {
        if IsRecordNotFound(e.value) {
          return None, catalog.employeeNotFound.WithError(e.value);
        }
        return None, catalog.systemError.WithError(e.value);
      }
      result, err := Some(ToResult(employee)), catalog.noError;
    }

    method CreateEmployee(req: CreateEmployeeRequest) returns (result: Option<EmployeeResult>, err: CustomError)
      requires repo.Valid()
      modifies repo
      ensures repo.Valid()
      ensures var o := CreateEmployeeOutcome(catalog, hireDateOf, old(repo.State()), req);
              repo.State() == o.store && result == o.result && err == o.err
    {
      var employeeFound, e := repo.FindEmployeeByEmail(req.email);
      if e.Some? && !IsRecordNotFound(e.value) {
        return None, catalog.systemError.WithError(e.value);
      }
      if employeeFound.email != "" {
        return None, catalog.employeeIsExist.WithError(ErrEmailTaken);
      }
      var txSuccess := false;
      e := repo.TxBegin();
      if e.Some? {
        return None, catalog.systemError.WithError(e.value);
      }
      // from here on every exit passes through the deferred rollback below
      var employee := FromCreateRequest(req, hireDateOf(req.hireDate));
      employee, e := repo.CreateEmployee(employee);
      if e.Some? {
        result, err := None, catalog.systemError.WithError(e.value);
      } else {
        e := repo.TxCommit();
        result, err := Some(ToResult(employee)), catalog.noError;
        txSuccess := true;
      }
      if !txSuccess {
        e := repo.TxRollback();
      }
    }

    method EditEmployee(req: EditEmployeeRequest) returns (result: Option<EmployeeResult>, err: CustomError)
      requires repo.Valid()
      modifies repo
      ensures repo.Valid()
      ensures var o := EditEmployeeOutcome(catalog, old(repo.State()), req);
              repo.State() == o.store && result == o.result && err == o.err
    {
      var employee, e := repo.FindEmployeeByID(IntToUint(req.employeeID));
      if e.Some? {
        if IsRecordNotFound(e.value) {
          return None, catalog.employeeNotFound.WithError(e.value);
        }
        return None, catalog.systemError.WithError(e.value);
      }
      var txSuccess := false;
      e := repo.TxBegin();
      if e.Some? {
        return None, catalog.systemError.WithError(e.value);
      }
      // from here on every exit passes through the deferred rollback below
      employee, e := repo.UpdateEmployee(employee);
      if e.Some? {
        result, err := None, catalog.systemError.WithError(e.value);
      } else {
        e := repo.TxCommit();
        result, err := Some(ToResult(employee)), catalog.noError;
        txSuccess := true;
      }
      if !txSuccess {
        e := repo.TxRollback();
      }
    }

    method DeleteEmployeeByID(req: DeleteEmployeeByIDRequest) returns (err: CustomError)
      requires repo.Valid()
      modifies repo
      ensures repo.Valid()
      ensures var o := DeleteEmployeeByIDOutcome(catalog, old(repo.State()), req);
              repo.State() == o.store && err == o.err
    {
      var e := repo.DeleteEmployee(IntToUint(req.employeeID));
      if e.Some? {
        if IsRecordNotFound(e.value) {
          return catalog.employeeNotFound.WithError(e.value);
        }
        return catalog.systemError.WithError(e.value);
      }
      return catalog.noError;
    }
  }
}
