/**
 * The repository (repository/repository.go, repository/employee.go) as a
 * state machine. `Store` is its state as a value and gives each operation
 * as a pure step; `DefaultRepository` is the object the service holds, whose
 * methods update its fields exactly as the steps say.
 *
 * Storage is abstract: `db` are the committed rows, `tx` the rows as an open
 * transaction sees them, `handle` which of the two the repository's active
 * handle (`handler.Tx`) currently is, and `faults` the failure oracle: the
 * error, if any, that storage answers to each kind of call.
 */
module Repository {

  import opened Wrappers
  import opened Errors
  import opened Entity
  import opened Model
  import Scopes

  /** `handler.Tx`: the plain database handle, or a transaction begun on it. */
  datatype Handle = DefaultDB | Transaction

  /** The repository calls, as recorded in the call log. */
  datatype Op =
    | TxBeginOp | TxCommitOp | TxRollbackOp
    | FindEmployeesOp | FindAllEmployeesOp | CountEmployeesOp
    | CreateEmployeeOp | FindEmployeeByIDOp | FindEmployeeByEmailOp
    | UpdateEmployeeOp | DeleteEmployeeOp

  /** The outcome of one repository call: the new state, the value returned, and the error returned. */
  datatype Step<T> = Step(store: Store, value: T, err: Option<Error>)

  predicate UniqueIds(rows: seq<Employee>)
  {
    forall i, j :: 0 <= i < j < |rows| ==> rows[i].id != rows[j].id
  }

  /** Every stored row has an assigned id below `next`, and no two rows share one. */
  predicate RowsValid(rows: seq<Employee>, next: nat)
  {
    UniqueIds(rows) && forall i :: 0 <= i < |rows| ==> 1 <= rows[i].id < next
  }

  predicate HasId(rows: seq<Employee>, id: nat)
  {
    Scopes.FirstById(rows, id).Some?
  }

  /** The rows with the row keyed by `e.id` overwritten by `e`. */
  function Replace(rows: seq<Employee>, e: Employee): (r: seq<Employee>)
    ensures |r| == |rows|
    ensures forall i :: 0 <= i < |rows| ==> r[i] == if rows[i].id == e.id then e else rows[i]
  {
    seq(|rows|, i requires 0 <= i < |rows| => if rows[i].id == e.id then e else rows[i])
  }

  /** The rows without the one keyed by `id`. */
  function RemoveId(rows: seq<Employee>, id: nat): seq<Employee>
  {
    Scopes.Select(rows, (r: Employee) => r.id != id)
  }

  datatype Store = Store(
    db: seq<Employee>,
    tx: seq<Employee>,
    handle: Handle,
    nextId: nat,
    faults: map<Op, Error>,
    log: seq<Op>)
  {
    predicate Valid()
    {
      nextId >= 1 && RowsValid(db, nextId) && RowsValid(tx, nextId)
    }

    /** The rows the active handle sees. */
    function Rows(): seq<Employee>
    {
      if handle == Transaction then tx else db
    }

    /** The state with the rows of the active handle replaced. */
    function WithRows(rows: seq<Employee>): Store
    {
      if handle == Transaction then this.(tx := rows) else this.(db := rows)
    }

    /** The error the oracle makes storage answer to a call of kind `op`. */
    function Fault(op: Op): Option<Error>
    {
      if op in faults then Some(faults[op]) else None
    }

    function Called(op: Op): Store
    {
      this.(log := log + [op])
    }

    /** `TxBegin`: the active handle becomes a new transaction on the database; its error is returned. */
    function TxBegin(): Step<()>
    {
      Step(Called(TxBeginOp).(handle := Transaction, tx := db), (), Fault(TxBeginOp))
    }

    /** `TxCommit`: the transaction's rows become the database's unless the commit fails; the handle reverts regardless. */
    function TxCommit(): Step<()>
    {
      var err := Fault(TxCommitOp);
      var committed := if handle == Transaction && err.None? then tx else db;
      Step(Called(TxCommitOp).(db := committed, handle := DefaultDB), (), err)
    }

    /** `TxRollback`: the transaction's rows are dropped and the handle reverts, whatever the error. */
    function TxRollback(): Step<()>
    {
      Step(Called(TxRollbackOp).(handle := DefaultDB), (), Fault(TxRollbackOp))
    }

    function FindEmployees(f: GetEmployeesFilter): Step<seq<Employee>>
    {
      var err := Fault(FindEmployeesOp);
      Step(Called(FindEmployeesOp), if err.Some? then [] else Scopes.FindEmployees(Rows(), f), err)
    }

    function FindAllEmployees(f: GetEmployeesFilter): Step<seq<Employee>>
    {
      var err := Fault(FindAllEmployeesOp);
      Step(Called(FindAllEmployeesOp), if err.Some? then [] else Scopes.FindAllEmployees(Rows(), f), err)
    }

    function CountEmployees(f: GetEmployeesFilter): Step<nat>
    {
      var err := Fault(CountEmployeesOp);
      Step(Called(CountEmployeesOp), if err.Some? then 0 else Scopes.CountEmployees(Rows(), f), err)
    }

    /** Appends `e` to the active rows, with a storage-assigned id when `e.id` is zero. */
    function Insert(e: Employee): Step<Employee>
    {
      var id := if e.id == 0 then nextId else e.id;
      var saved := e.(id := id);
      Step(WithRows(Rows() + [saved]).(nextId := if id + 1 > nextId then id + 1 else nextId), saved, None)
    }

    /** `CreateEmployee` (gorm `Create`): inserts the row and fills in its id; a taken id is a duplicate key. */
    function CreateEmployee(e: Employee): Step<Employee>
    {
      var s := Called(CreateEmployeeOp);
      if Fault(CreateEmployeeOp).Some? then Step(s, e, Fault(CreateEmployeeOp))
      else if e.id != 0 && HasId(Rows(), e.id) then Step(s, e, Some(ErrDuplicatedKey))
      else s.Insert(e)
    }

    /** `FindEmployeeByID`: the row with that id, or the zero row and not-found. */
    function FindEmployeeByID(id: nat): Step<Employee>
    {
      var s := Called(FindEmployeeByIDOp);
      if Fault(FindEmployeeByIDOp).Some? then Step(s, ZeroEmployee, Fault(FindEmployeeByIDOp))
      else match Scopes.FirstById(Rows(), id)
        case None => Step(s, ZeroEmployee, Some(RecordNotFound))
        case Some(e) => Step(s, e, None)
    }

    /**
     * `FindEmployeeByEmail`: the lowest-id row with that email, or the zero
     * row and not-found. It is missing from the `Repository` interface the
     * service is typed against, but the service calls it.
     */
    function FindEmployeeByEmail(email: string): Step<Employee>
    {
      var s := Called(FindEmployeeByEmailOp);
      if Fault(FindEmployeeByEmailOp).Some? then Step(s, ZeroEmployee, Fault(FindEmployeeByEmailOp))
      else match Scopes.FirstByEmail(Rows(), email)
        case None => Step(s, ZeroEmployee, Some(RecordNotFound))
        case Some(e) => Step(s, e, None)
    }

    /** `UpdateEmployee` (gorm `Save`): overwrites the row keyed by `e.id`, or inserts `e` when there is none. */
    function UpdateEmployee(e: Employee): Step<Employee>
    {
      var s := Called(UpdateEmployeeOp);
      if Fault(UpdateEmployeeOp).Some? then Step(s, e, Fault(UpdateEmployeeOp))
      else if e.id != 0 && HasId(Rows(), e.id) then Step(s.WithRows(Replace(Rows(), e)), e, None)
      else s.Insert(e)
    }

    /** `DeleteEmployee` (gorm `Delete`): removes the row keyed by `id`; an absent id is not an error. */
    function DeleteEmployee(id: nat): Step<()>
    {
      var s := Called(DeleteEmployeeOp);
      if Fault(DeleteEmployeeOp).Some? then Step(s, (), Fault(DeleteEmployeeOp))
      else Step(s.WithRows(RemoveId(Rows(), id)), (), None)
    }
  }

  // ---- the invariant is kept by every step ----

  lemma RowsValidGrow(rows: seq<Employee>, n: nat, m: nat)
    requires RowsValid(rows, n) && n <= m
    ensures RowsValid(rows, m)
  {
  }

  lemma {:induction false} SelectKeepsRowsValid(rows: seq<Employee>, keep: Employee -> bool, n: nat)
    requires RowsValid(rows, n)
    ensures RowsValid(Scopes.Select(rows, keep), n)
  {
    if rows != [] {
      SelectKeepsRowsValid(rows[1..], keep, n);
      var tail := Scopes.Select(rows[1..], keep);
      var r := Scopes.Select(rows, keep);
      if keep(rows[0]) {
        assert r == [rows[0]] + tail;
        forall k | 0 <= k < |tail|
          ensures tail[k].id != rows[0].id
        {
          Scopes.SelectSubset(rows[1..], keep, tail[k]);
          var m :| 0 <= m < |rows[1..]| && rows[1..][m] == tail[k];
          assert rows[m + 1] == tail[k];
        }
        forall i, j | 0 <= i < j < |r|
          ensures r[i].id != r[j].id
        {
          assert r[j] == tail[j - 1];
          if i > 0 {
            assert r[i] == tail[i - 1];
          }
        }
      } else {
        assert r == tail;
      }
    }
  }

  lemma FirstByIdFindsUnique(rows: seq<Employee>, e: Employee)
    requires UniqueIds(rows) && e in rows
    ensures Scopes.FirstById(rows, e.id) == Some(e)
  {
    var x := Scopes.FirstById(rows, e.id).value;
    var i :| 0 <= i < |rows| && rows[i] == e;
    var j :| 0 <= j < |rows| && rows[j] == x;
    assert i == j;
  }

  /** Appending a row whose id is new and below the new bound keeps the rows valid. */
  lemma RowsValidAppend(rows: seq<Employee>, n: nat, x: Employee, m: nat)
    requires RowsValid(rows, n) && n <= m && 1 <= x.id < m
    requires forall r :: r in rows ==> r.id != x.id
    ensures RowsValid(rows + [x], m)
  {
    var grown := rows + [x];
    forall i, j | 0 <= i < j < |grown|
      ensures grown[i].id != grown[j].id
    {
      if j == |rows| {
        assert grown[i] == rows[i] && rows[i] in rows;
      } else {
        assert grown[i] == rows[i] && grown[j] == rows[j];
      }
    }
  }

  lemma InsertKeepsValid(s: Store, e: Employee)
    requires s.Valid()
    requires e.id == 0 || !HasId(s.Rows(), e.id)
    ensures s.Insert(e).store.Valid()
  {
    var id := if e.id == 0 then s.nextId else e.id;
    var next := if id + 1 > s.nextId then id + 1 else s.nextId;
    assert forall r :: r in s.Rows() ==> r.id != id by {
      if e.id != 0 {
        assert Scopes.FirstById(s.Rows(), e.id).None?;
      }
    }
    var x := e.(id := id);
    RowsValidAppend(s.Rows(), s.nextId, x, next);
    if s.handle == Transaction {
      assert s.Insert(e).store == s.(tx := s.tx + [x], nextId := next);
      RowsValidGrow(s.db, s.nextId, next);
    } else {
      assert s.Insert(e).store == s.(db := s.db + [x], nextId := next);
      RowsValidGrow(s.tx, s.nextId, next);
    }
  }

  lemma TxBeginKeepsValid(s: Store)
    requires s.Valid()
    ensures s.TxBegin().store.Valid()
  {
  }

  lemma TxCommitKeepsValid(s: Store)
    requires s.Valid()
    ensures s.TxCommit().store.Valid()
  {
  }

  lemma TxRollbackKeepsValid(s: Store)
    requires s.Valid()
    ensures s.TxRollback().store.Valid()
  {
  }

  lemma CreateEmployeeKeepsValid(s: Store, e: Employee)
    requires s.Valid()
    ensures s.CreateEmployee(e).store.Valid()
  {
    if s.Fault(CreateEmployeeOp).None? && !(e.id != 0 && HasId(s.Rows(), e.id)) {
      InsertKeepsValid(s.Called(CreateEmployeeOp), e);
    }
  }

  lemma UpdateEmployeeKeepsValid(s: Store, e: Employee)
    requires s.Valid()
    ensures s.UpdateEmployee(e).store.Valid()
  {
    var c := s.Called(UpdateEmployeeOp);
    if s.Fault(UpdateEmployeeOp).None? {
      if e.id != 0 && HasId(s.Rows(), e.id) {
        var rows := Replace(s.Rows(), e);
        assert forall i :: 0 <= i < |rows| ==> rows[i].id == s.Rows()[i].id;
        assert RowsValid(rows, s.nextId);
      } else {
        InsertKeepsValid(c, e);
      }
    }
  }

  lemma DeleteEmployeeKeepsValid(s: Store, id: nat)
    requires s.Valid()
    ensures s.DeleteEmployee(id).store.Valid()
  {
    SelectKeepsRowsValid(s.Rows(), (r: Employee) => r.id != id, s.nextId);
  }

  // ---- properties of the steps ----

  /** `TxBegin` makes the active handle a fresh transaction over the committed rows and returns its error. */
  lemma TxBeginOpensTransaction(s: Store)
    ensures var t := s.TxBegin();
            t.store.handle == Transaction && t.store.tx == s.db && t.store.db == s.db && t.err == s.Fault(TxBeginOp)
  {
  }

  /** Commit and rollback both revert the handle to the default, whether or not they fail. */
  lemma CommitAndRollbackRevertHandle(s: Store)
    ensures s.TxCommit().store.handle == DefaultDB && s.TxCommit().err == s.Fault(TxCommitOp)
    ensures s.TxRollback().store.handle == DefaultDB && s.TxRollback().err == s.Fault(TxRollbackOp)
  {
  }

  /** Rollback keeps the committed rows; commit publishes the transaction's rows exactly when it succeeds. */
  lemma CommitPublishesRollbackDiscards(s: Store)
    requires s.handle == Transaction
    ensures s.TxRollback().store.db == s.db
    ensures s.TxCommit().store.db == if s.Fault(TxCommitOp).None? then s.tx else s.db
  {
  }

  /** Inside a transaction, writes change only the transaction's rows. */
  lemma WritesInTransactionKeepDb(s: Store, e: Employee, id: nat)
    requires s.handle == Transaction
    ensures s.CreateEmployee(e).store.db == s.db
    ensures s.UpdateEmployee(e).store.db == s.db
    ensures s.DeleteEmployee(id).store.db == s.db
  {
  }

  /** Reads leave storage untouched; only the call is logged. */
  lemma ReadsOnlyLog(s: Store, f: GetEmployeesFilter, id: nat, email: string)
    ensures s.FindEmployees(f).store == s.Called(FindEmployeesOp)
    ensures s.FindAllEmployees(f).store == s.Called(FindAllEmployeesOp)
    ensures s.CountEmployees(f).store == s.Called(CountEmployeesOp)
    ensures s.FindEmployeeByID(id).store == s.Called(FindEmployeeByIDOp)
    ensures s.FindEmployeeByEmail(email).store == s.Called(FindEmployeeByEmailOp)
  {
  }

  /** `FindEmployeeByID` answers with a row carrying that id, or with not-found exactly when no row has it. */
  lemma FindEmployeeByIDMeaning(s: Store, id: nat)
    requires s.Fault(FindEmployeeByIDOp).None?
    ensures var t := s.FindEmployeeByID(id);
            && (t.err.None? ==> t.value in s.Rows() && t.value.id == id)
            && (t.err.Some? <==> forall e :: e in s.Rows() ==> e.id != id)
            && (t.err.Some? ==> t.err == Some(RecordNotFound) && t.value == ZeroEmployee)
  {
  }

  /** `FindEmployeeByEmail` answers with a row carrying that email, or with not-found exactly when no row has it. */
  lemma FindEmployeeByEmailMeaning(s: Store, email: string)
    requires s.Fault(FindEmployeeByEmailOp).None?
    ensures var t := s.FindEmployeeByEmail(email);
            && (t.err.None? ==> t.value in s.Rows() && t.value.email == email)
            && (t.err.Some? <==> forall e :: e in s.Rows() ==> e.email != email)
            && (t.err.Some? ==> t.err == Some(RecordNotFound) && t.value == ZeroEmployee)
  {
  }

  /** A created row gets a fresh id, keeps every other field, and is found by that id afterwards. */
  lemma CreateThenFind(s: Store, e: Employee)
    requires s.Valid() && e.id == 0
    requires s.Fault(CreateEmployeeOp).None? && s.Fault(FindEmployeeByIDOp).None?
    ensures var c := s.CreateEmployee(e);
            && c.err.None?
            && c.value == e.(id := s.nextId)
            && (forall r :: r in s.Rows() ==> r.id != c.value.id)
            && c.store.FindEmployeeByID(c.value.id).value == c.value
            && c.store.FindEmployeeByID(c.value.id).err.None?
  {
    var c := s.CreateEmployee(e);
    CreateEmployeeKeepsValid(s, e);
    assert c.value in c.store.Rows();
    FirstByIdFindsUnique(c.store.Rows(), c.value);
  }

  /** After `UpdateEmployee(e)` the row found by the saved id is the saved row, which carries `e`'s fields. */
  lemma UpdateThenFind(s: Store, e: Employee)
    requires s.Valid()
    requires s.Fault(UpdateEmployeeOp).None? && s.Fault(FindEmployeeByIDOp).None?
    ensures var u := s.UpdateEmployee(e);
            && u.err.None?
            && (e.id != 0 ==> u.value == e)
            && u.value == e.(id := u.value.id)
            && u.store.FindEmployeeByID(u.value.id).value == u.value
            && u.store.FindEmployeeByID(u.value.id).err.None?
  {
    var u := s.UpdateEmployee(e);
    UpdateEmployeeKeepsValid(s, e);
    if e.id != 0 && HasId(s.Rows(), e.id) {
      var x := Scopes.FirstById(s.Rows(), e.id).value;
      var k :| 0 <= k < |s.Rows()| && s.Rows()[k] == x;
      assert u.store.Rows()[k] == e;
    } else {
      assert u.value in u.store.Rows();
    }
    assert u.value in u.store.Rows();
    FirstByIdFindsUnique(u.store.Rows(), u.value);
  }

  /** After `DeleteEmployee(id)` no row has that id, every other row is still there in order, and a lookup is not-found. */
  lemma DeleteThenGone(s: Store, id: nat)
    requires s.Fault(DeleteEmployeeOp).None? && s.Fault(FindEmployeeByIDOp).None?
    ensures var d := s.DeleteEmployee(id);
            && d.err.None?
            && d.store.Rows() == Scopes.Select(s.Rows(), (r: Employee) => r.id != id)
            && (forall r :: r in d.store.Rows() <==> r in s.Rows() && r.id != id)
            && d.store.FindEmployeeByID(id).err == Some(RecordNotFound)
  {
    var d := s.DeleteEmployee(id);
    Scopes.SelectMultiset(s.Rows(), (r: Employee) => r.id != id);
    assert forall r :: r in d.store.Rows() <==> multiset(d.store.Rows())[r] > 0;
  }

  // ---- the object ----

  /** `DefaultRepository` with its `handler`: the state `Store` describes, held in fields and updated in place. */
  class DefaultRepository {
    var db: seq<Employee>
    var tx: seq<Employee>
    var handle: Handle
    var nextId: nat
    var faults: map<Op, Error>
    var log: seq<Op>

    function State(): Store
      reads this
    {
      Store(db, tx, handle, nextId, faults, log)
    }

    predicate Valid()
      reads this
    {
      State().Valid()
    }

    /**
     * `Default(handler)`: a repository over a database that already holds
     * `rows`, whose next storage-assigned id is `nextId`, on the default handle,
     * with the given failure oracle and no calls made yet.
     */
    constructor (rows: seq<Employee>, nextId: nat, faults: map<Op, Error>)
      requires nextId >= 1 && RowsValid(rows, nextId)
      ensures Valid()
      ensures State() == Store(rows, rows, DefaultDB, nextId, faults, [])
    {
      db, tx, handle, this.nextId := rows, rows, DefaultDB, nextId;
      this.faults, log := faults, [];
    }

    method TxBegin() returns (err: Option<Error>)
      requires Valid()
      modifies this
      ensures Valid()
      ensures var t := old(State()).TxBegin(); State() == t.store && err == t.err
    {
      TxBeginKeepsValid(State());
      log := log + [TxBeginOp];
      tx := db;
      handle := Transaction;
      err := State().Fault(TxBeginOp);
    }

    method TxCommit() returns (err: Option<Error>)
      requires Valid()
      modifies this
      ensures Valid()
      ensures var t := old(State()).TxCommit(); State() == t.store && err == t.err
    {
      TxCommitKeepsValid(State());
      log := log + [TxCommitOp];
      err := State().Fault(TxCommitOp);
      if handle == Transaction && err.None? {
        db := tx;
      }
      handle := DefaultDB;
    }

    method TxRollback() returns (err: Option<Error>)
      requires Valid()
      modifies this
      ensures Valid()
      ensures var t := old(State()).TxRollback(); State() == t.store && err == t.err
    {
      log := log + [TxRollbackOp];
      err := State().Fault(TxRollbackOp);
      handle := DefaultDB;
    }

    method FindEmployees(f: GetEmployeesFilter) returns (employees: seq<Employee>, err: Option<Error>)
      requires Valid()
      modifies this
      ensures Valid()
      ensures var t := old(State()).FindEmployees(f); State() == t.store && employees == t.value && err == t.err
    {
      var rows := State().Rows();
      log := log + [FindEmployeesOp];
      err := State().Fault(FindEmployeesOp);
      employees := if err.Some? then [] else Scopes.FindEmployees(rows, f);
    }

    method FindAllEmployees(f: GetEmployeesFilter) returns (employees: seq<Employee>, err: Option<Error>)
      requires Valid()
      modifies this
      ensures Valid()
      ensures var t := old(State()).FindAllEmployees(f); State() == t.store && employees == t.value && err == t.err
    {
      var rows := State().Rows();
      log := log + [FindAllEmployeesOp];
      err := State().Fault(FindAllEmployeesOp);
      employees := if err.Some? then [] else Scopes.FindAllEmployees(rows, f);
    }

    method CountEmployees(f: GetEmployeesFilter) returns (count: nat, err: Option<Error>)
      requires Valid()
      modifies this
      ensures Valid()
      ensures var t := old(State()).CountEmployees(f); State() == t.store && count == t.value && err == t.err
    {
      var rows := State().Rows();
      log := log + [CountEmployeesOp];
      err := State().Fault(CountEmployeesOp);
      count := if err.Some? then 0 else Scopes.CountEmployees(rows, f);
    }

    /** Appends a row to the active handle's rows, assigning an id when it has none. */
    method Insert(employee: Employee) returns (saved: Employee)
      requires Valid()
      requires employee.id == 0 || !HasId(State().Rows(), employee.id)
      modifies this
      ensures Valid()
      ensures var t := old(State()).Insert(employee); State() == t.store && saved == t.value
    {
      InsertKeepsValid(State(), employee);
      var id := if employee.id == 0 then nextId else employee.id;
      saved := employee.(id := id);
      if handle == Transaction {
        tx := tx + [saved];
      } else {
        db := db + [saved];
      }
      if id + 1 > nextId {
        nextId := id + 1;
      }
    }

    /** Inserts the row; `saved` is the row as filled in through the Go pointer. */
    method CreateEmployee(employee: Employee) returns (saved: Employee, err: Option<Error>)
      requires Valid()
      modifies this
      ensures Valid()
      ensures var t := old(State()).CreateEmployee(employee); State() == t.store && saved == t.value && err == t.err
    {
      log := log + [CreateEmployeeOp];
      saved := employee;
      err := State().Fault(CreateEmployeeOp);
      if err.None? {
        var rows := State().Rows();
        if employee.id != 0 && HasId(rows, employee.id) {
          err := Some(ErrDuplicatedKey);
        } else {
          saved := Insert(employee);
        }
      }
    }

    method FindEmployeeByID(id: nat) returns (employee: Employee, err: Option<Error>)
      requires Valid()
      modifies this
      ensures Valid()
      ensures var t := old(State()).FindEmployeeByID(id); State() == t.store && employee == t.value && err == t.err
    {
      var rows := State().Rows();
      log := log + [FindEmployeeByIDOp];
      employee, err := ZeroEmployee, State().Fault(FindEmployeeByIDOp);
      if err.None? {
        var found := Scopes.FirstById(rows, id);
        if found.Some? {
          employee := found.value;
        } else {
          err := Some(RecordNotFound);
        }
      }
    }

    method FindEmployeeByEmail(email: string) returns (employee: Employee, err: Option<Error>)
      requires Valid()
      modifies this
      ensures Valid()
      ensures var t := old(State()).FindEmployeeByEmail(email); State() == t.store && employee == t.value && err == t.err
    {
      var rows := State().Rows();
      log := log + [FindEmployeeByEmailOp];
      employee, err := ZeroEmployee, State().Fault(FindEmployeeByEmailOp);
      if err.None? {
        var found := Scopes.FirstByEmail(rows, email);
        if found.Some? {
          employee := found.value;
        } else {
          err := Some(RecordNotFound);
        }
      }
    }

    method UpdateEmployee(employee: Employee) returns (saved: Employee, err: Option<Error>)
      requires Valid()
      modifies this
      ensures Valid()
      ensures var t := old(State()).UpdateEmployee(employee); State() == t.store && saved == t.value && err == t.err
    {
      UpdateEmployeeKeepsValid(State(), employee);
      log := log + [UpdateEmployeeOp];
      saved := employee;
      err := State().Fault(UpdateEmployeeOp);
      if err.None? {
        var rows := State().Rows();
        if employee.id != 0 && HasId(rows, employee.id) {
          if handle == Transaction {
            tx := Replace(rows, employee);
          } else {
            db := Replace(rows, employee);
          }
        } else {
          saved := Insert(employee);
        }
      }
    }

    method DeleteEmployee(id: nat) returns (err: Option<Error>)
      requires Valid()
      modifies this
      ensures Valid()
      ensures var t := old(State()).DeleteEmployee(id); State() == t.store && err == t.err
    {
      DeleteEmployeeKeepsValid(State(), id);
      log := log + [DeleteEmployeeOp];
      err := State().Fault(DeleteEmployeeOp);
      if err.None? {
        var rows := RemoveId(State().Rows(), id);
        if handle == Transaction {
          tx := rows;
        } else {
          db := rows;
        }
      }
    }
  }
}
