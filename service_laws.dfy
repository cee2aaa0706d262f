/**
 * What the service promises, stated over the outcome functions that
 * `Service.EmployeeService`'s methods are proved to follow: the translation
 * of storage errors, the email pre-check, and the transaction discipline of
 * create and edit (begin, one write, then exactly one of commit or rollback).
 */
module ServiceLaws {

  import opened Wrappers
  import opened GoInt
  import opened Errors
  import opened PkgError
  import opened Entity
  import opened Model
  import opened Copy
  import opened Repository
  import opened Service
  import Scopes

  /** The repository calls made between two states, in order. */
  function NewCalls(s: Store, t: Store): seq<Op>
  {
    if |s.log| <= |t.log| then t.log[|s.log|..] else []
  }

  function Last(calls: seq<Op>): Op
    requires calls != []
  {
    calls[|calls| - 1]
  }

  lemma NewCallsAfter(s: Store, t: Store, calls: seq<Op>)
    requires t.log == s.log + calls
    ensures NewCalls(s, t) == calls
  {
    assert t.log[|s.log|..] == calls;
  }

  // ---- list and single-row reads ----

  /**
   * `GetEmployees`: a storage error gives a nil result and the bare
   * `SystemError`; otherwise a field-for-field copy of the rows, in order.
   */
  lemma GetEmployeesResult(cat: Catalog, s: Store, f: GetEmployeesFilter)
    ensures var o := GetEmployeesOutcome(cat, s, f);
            && o.store == s.Called(FindAllEmployeesOp)
            && (s.Fault(FindAllEmployeesOp).Some? ==> o.result.None? && o.err == cat.systemError)
            && (s.Fault(FindAllEmployeesOp).None? ==>
                  var rows := Scopes.FindAllEmployees(s.Rows(), f);
                  && o.err == cat.noError && o.result.Some? && |o.result.value| == |rows|
                  && forall i :: 0 <= i < |rows| ==> o.result.value[i] == ToResult(rows[i]))
  {
  }

  /** A failed list read attaches no cause, for any catalog `Valid` describes. */
  lemma GetEmployeesErrorHasNoCause(cat: Catalog, s: Store, f: GetEmployeesFilter)
    requires cat.Valid() && s.Fault(FindAllEmployeesOp).Some?
    ensures GetEmployeesOutcome(cat, s, f).err.cause.None?
    ensures !cat.IsNoError(GetEmployeesOutcome(cat, s, f).err)
  {
  }

  /**
   * `GetEmployeeByID`: the exact not-found sentinel becomes `EmployeeNotFound`,
   * every other storage error `SystemError`, each with the error as cause;
   * otherwise the copy of the row with the requested id.
   */
  lemma GetEmployeeByIDTranslation(cat: Catalog, s: Store, req: GetEmployeeByIDRequest)
    ensures var o := GetEmployeeByIDOutcome(cat, s, req);
            var id := IntToUint(req.employeeID);
            && o.store == s.Called(FindEmployeeByIDOp)
            && (s.Fault(FindEmployeeByIDOp).Some? ==>
                  o.result.None? && o.err == LookupError(cat, s.Fault(FindEmployeeByIDOp).value))
            && (s.Fault(FindEmployeeByIDOp).None? && (forall e :: e in s.Rows() ==> e.id != id) ==>
                  o.result.None? && o.err == cat.employeeNotFound.WithError(RecordNotFound))
            && (o.result.Some? ==>
                  o.err == cat.noError && exists e :: e in s.Rows() && e.id == id && o.result.value == ToResult(e))
            && (o.result.Some? <==> s.Fault(FindEmployeeByIDOp).None? && exists e :: e in s.Rows() && e.id == id)
  {
    if s.Fault(FindEmployeeByIDOp).None? {
      FindEmployeeByIDMeaning(s, IntToUint(req.employeeID));
    }
  }

  /**
   * `DeleteEmployeeByID`: storage errors translate as in `GetEmployeeByID`;
   * otherwise the row is gone and the sentinel is returned, also when no row
   * had that id.
   */
  lemma DeleteEmployeeByIDTranslation(cat: Catalog, s: Store, req: DeleteEmployeeByIDRequest)
    ensures var o := DeleteEmployeeByIDOutcome(cat, s, req);
            var id := IntToUint(req.employeeID);
            && o.result.None?
            && (s.Fault(DeleteEmployeeOp).Some? ==>
                  o.store == s.Called(DeleteEmployeeOp) && o.err == LookupError(cat, s.Fault(DeleteEmployeeOp).value))
            && (s.Fault(DeleteEmployeeOp).None? ==>
                  o.err == cat.noError && forall e :: e in o.store.Rows() <==> e in s.Rows() && e.id != id)
  {
    var id := IntToUint(req.employeeID);
    if s.Fault(DeleteEmployeeOp).None? {
      var rows := s.DeleteEmployee(id).store.Rows();
      Scopes.SelectMultiset(s.Rows(), (r: Employee) => r.id != id);
      assert forall e :: e in rows <==> multiset(rows)[e] > 0;
    }
  }

  // ---- the transaction shared by create and edit ----

  /** The repository call that makes the write. */
  function WriteOp(w: Write): Op
  {
    if w == Create then CreateEmployeeOp else UpdateEmployeeOp
  }

  /** The call lists of the transaction's three paths: the begin alone, or the write and then rollback or commit. */
  function SaveCalls(beginFails: bool, writeFails: bool, write: Op): seq<Op>
  {
    if beginFails then [TxBeginOp]
    else if writeFails then [TxBeginOp, write, TxRollbackOp]
    else [TxBeginOp, write, TxCommitOp]
  }

  /** The calls each path of the transaction makes: begin, then the write and exactly one of rollback or commit. */
  lemma SaveCallLog(cat: Catalog, s: Store, w: Write, row: Employee)
    requires w == Create ==> row.id == 0
    ensures var o := SaveInTransaction(cat, s, w, row);
            var calls := NewCalls(s, o.store);
            && o.store.log == s.log + calls
            && calls == SaveCalls(s.Fault(TxBeginOp).Some?, s.Fault(WriteOp(w)).Some?, WriteOp(w))
  {
    var o := SaveInTransaction(cat, s, w, row);
    var begin := s.TxBegin();
    if s.Fault(TxBeginOp).Some? {
      NewCallsAfter(s, o.store, [TxBeginOp]);
    } else {
      var saved := if w == Create then begin.store.CreateEmployee(row) else begin.store.UpdateEmployee(row);
      assert saved.store.log == s.log + [TxBeginOp, WriteOp(w)];
      assert saved.err == s.Fault(WriteOp(w));
      if saved.err.Some? {
        assert o.store == saved.store.TxRollback().store;
        NewCallsAfter(s, o.store, [TxBeginOp, WriteOp(w), TxRollbackOp]);
      } else {
        assert o.store == saved.store.TxCommit().store;
        NewCallsAfter(s, o.store, [TxBeginOp, WriteOp(w), TxCommitOp]);
      }
    }
  }

  /**
   * What the transaction reports: the sentinel exactly when it ends in the
   * commit, and then the copy of the written row; a failure of begin or of
   * the write is `SystemError` with that cause and leaves the committed rows
   * as they were. After a rollback or commit the handle is the default one;
   * after a failed begin it is still the transaction.
   */
  lemma SaveTxDiscipline(cat: Catalog, s: Store, w: Write, row: Employee)
    requires cat.Valid()
    requires w == Create ==> row.id == 0
    ensures var o := SaveInTransaction(cat, s, w, row);
            var calls := NewCalls(s, o.store);
            && calls != [] && (cat.IsNoError(o.err) <==> Last(calls) == TxCommitOp)
            && (|calls| == 3 ==> o.store.handle == DefaultDB)
            && (s.Fault(TxBeginOp).Some? ==>
                  o.err == cat.systemError.WithError(s.Fault(TxBeginOp).value) && o.store.handle == Transaction)
            && (s.Fault(TxBeginOp).None? && s.Fault(WriteOp(w)).Some? ==>
                  o.err == cat.systemError.WithError(s.Fault(WriteOp(w)).value))
            && (!cat.IsNoError(o.err) ==> o.result.None? && o.store.db == s.db)
  {
    SaveCallLog(cat, s, w, row);
    if s.Fault(TxBeginOp).Some? {
      OnlyNoErrorIsNoError(cat, s.Fault(TxBeginOp).value);
    } else if s.Fault(WriteOp(w)).Some? {
      OnlyNoErrorIsNoError(cat, s.Fault(WriteOp(w)).value);
    } else {
      OnlyNoErrorIsNoError(cat, RecordNotFound);
    }
  }

  lemma PrefixSaveCalls(op: Op, beginFails: bool, writeFails: bool, write: Op)
    ensures [op] + SaveCalls(beginFails, writeFails, write)
         == if beginFails then [op, TxBeginOp]
            else if writeFails then [op, TxBeginOp, write, TxRollbackOp]
            else [op, TxBeginOp, write, TxCommitOp]
  {
  }

  /** The calls of a lookup followed by the transaction: the lookup's call, then the transaction's. */
  lemma LookupThenSave(cat: Catalog, s: Store, op: Op, w: Write, row: Employee)
    requires w == Create ==> row.id == 0
    ensures var o := SaveInTransaction(cat, s.Called(op), w, row);
            var calls := NewCalls(s, o.store);
            && o.store.log == s.log + calls
            && calls == if s.Fault(TxBeginOp).Some? then [op, TxBeginOp]
                        else if s.Fault(WriteOp(w)).Some? then [op, TxBeginOp, WriteOp(w), TxRollbackOp]
                        else [op, TxBeginOp, WriteOp(w), TxCommitOp]
  {
    var t := s.Called(op);
    SaveCallLog(cat, t, w, row);
    var o := SaveInTransaction(cat, t, w, row);
    var tail := SaveCalls(s.Fault(TxBeginOp).Some?, s.Fault(WriteOp(w)).Some?, WriteOp(w));
    assert o.store.log == t.log + tail;
    assert o.store.log == s.log + ([op] + tail);
    NewCallsAfter(s, o.store, [op] + tail);
    PrefixSaveCalls(op, s.Fault(TxBeginOp).Some?, s.Fault(WriteOp(w)).Some?, WriteOp(w));
  }

  // ---- create ----

  /**
   * Whether `CreateEmployee`'s pre-check lets the request through: the lookup
   * reported not-found, or it succeeded without finding a row that carries the
   * requested, non-empty email. A row with an empty email never blocks.
   */
  predicate EmailPreCheckPasses(s: Store, email: string)
  {
    || s.Fault(FindEmployeeByEmailOp) == Some(RecordNotFound)
    || (s.Fault(FindEmployeeByEmailOp).None? && (email == "" || forall e :: e in s.Rows() ==> e.email != email))
  }

  /** `EmailPreCheckPasses` is exactly the condition under which the service goes on past the lookup. */
  lemma EmailPreCheckMeaning(s: Store, email: string)
    ensures var found := s.FindEmployeeByEmail(email);
            EmailPreCheckPasses(s, email) <==>
              !(found.err.Some? && !IsRecordNotFound(found.err.value)) && found.value.email == ""
  {
    var fault := s.Fault(FindEmployeeByEmailOp);
    if fault.Some? {
      IsRecordNotFoundIsExactSentinel(fault.value);
    } else {
      FindEmployeeByEmailMeaning(s, email);
    }
  }

  /**
   * `CreateEmployee` in two stages: a request that passes the pre-check goes on
   * to the transactional insert of its copy, after exactly the lookup; one that
   * does not ends at the lookup with `SystemError` for a storage failure and
   * `EmployeeIsExist` for a taken email.
   */
  lemma CreateStages(cat: Catalog, hireDateOf: string -> Time, s: Store, req: CreateEmployeeRequest)
    ensures var o := CreateEmployeeOutcome(cat, hireDateOf, s, req);
            var t := s.Called(FindEmployeeByEmailOp);
            var fault := s.Fault(FindEmployeeByEmailOp);
            && (EmailPreCheckPasses(s, req.email) ==>
                  o == SaveInTransaction(cat, t, Create, FromCreateRequest(req, hireDateOf(req.hireDate))))
            && (!EmailPreCheckPasses(s, req.email) ==>
                  o == Outcome(t, None, if fault.Some? then cat.systemError.WithError(fault.value)
                                        else cat.employeeIsExist.WithError(ErrEmailTaken)))
  {
    EmailPreCheckMeaning(s, req.email);
    var fault := s.Fault(FindEmployeeByEmailOp);
    if fault.Some? {
      IsRecordNotFoundIsExactSentinel(fault.value);
    }
  }

  /** The calls each path of `CreateEmployee` makes. */
  lemma CreateCallLog(cat: Catalog, hireDateOf: string -> Time, s: Store, req: CreateEmployeeRequest)
    ensures var o := CreateEmployeeOutcome(cat, hireDateOf, s, req);
            var calls := NewCalls(s, o.store);
            && o.store.log == s.log + calls
            && calls == if !EmailPreCheckPasses(s, req.email) then [FindEmployeeByEmailOp]
                        else if s.Fault(TxBeginOp).Some? then [FindEmployeeByEmailOp, TxBeginOp]
                        else if s.Fault(CreateEmployeeOp).Some? then [FindEmployeeByEmailOp, TxBeginOp, CreateEmployeeOp, TxRollbackOp]
                        else [FindEmployeeByEmailOp, TxBeginOp, CreateEmployeeOp, TxCommitOp]
  {
    CreateStages(cat, hireDateOf, s, req);
    if EmailPreCheckPasses(s, req.email) {
      LookupThenSave(cat, s, FindEmployeeByEmailOp, Create, FromCreateRequest(req, hireDateOf(req.hireDate)));
    } else {
      NewCallsAfter(s, s.Called(FindEmployeeByEmailOp), [FindEmployeeByEmailOp]);
    }
  }

  /**
   * The pre-check: a lookup that fails otherwise gives `SystemError`, a taken
   * email `EmployeeIsExist`; in both cases the email lookup is the only call,
   * so no transaction begins and nothing is inserted.
   */
  lemma CreatePreCheck(cat: Catalog, hireDateOf: string -> Time, s: Store, req: CreateEmployeeRequest)
    ensures var o := CreateEmployeeOutcome(cat, hireDateOf, s, req);
            && (EmailPreCheckPasses(s, req.email) <==> TxBeginOp in NewCalls(s, o.store))
            && (!EmailPreCheckPasses(s, req.email) ==> o.store == s.Called(FindEmployeeByEmailOp) && o.result.None?)
            && (s.Fault(FindEmployeeByEmailOp).Some? && s.Fault(FindEmployeeByEmailOp) != Some(RecordNotFound) ==>
                  o.err == cat.systemError.WithError(s.Fault(FindEmployeeByEmailOp).value))
            && (s.Fault(FindEmployeeByEmailOp).None? && !EmailPreCheckPasses(s, req.email) ==>
                  o.err == cat.employeeIsExist.WithError(ErrEmailTaken))
  {
    CreateStages(cat, hireDateOf, s, req);
    CreateCallLog(cat, hireDateOf, s, req);
  }

  /**
   * The transaction discipline of `CreateEmployee`: the call sequence is one
   * of four, decided by the pre-check and the faults. Once `TxBegin` succeeds,
   * exactly one of commit and rollback follows, as the last call, and the
   * handle is back on the default; a failed `TxBegin` registers no rollback.
   * The sentinel is returned exactly when the last call is the commit.
   */
  lemma CreateTxDiscipline(cat: Catalog, hireDateOf: string -> Time, s: Store, req: CreateEmployeeRequest)
    requires cat.Valid()
    ensures var o := CreateEmployeeOutcome(cat, hireDateOf, s, req);
            var calls := NewCalls(s, o.store);
            var passes := EmailPreCheckPasses(s, req.email);
            && o.store.log == s.log + calls
            && (calls == [FindEmployeeByEmailOp] <==> !passes)
            && (calls == [FindEmployeeByEmailOp, TxBeginOp] <==> passes && s.Fault(TxBeginOp).Some?)
            && (calls == [FindEmployeeByEmailOp, TxBeginOp, CreateEmployeeOp, TxRollbackOp] <==>
                  passes && s.Fault(TxBeginOp).None? && s.Fault(CreateEmployeeOp).Some?)
            && (calls == [FindEmployeeByEmailOp, TxBeginOp, CreateEmployeeOp, TxCommitOp] <==>
                  passes && s.Fault(TxBeginOp).None? && s.Fault(CreateEmployeeOp).None?)
            && calls != [] && (cat.IsNoError(o.err) <==> Last(calls) == TxCommitOp)
            && (|calls| == 4 ==> o.store.handle == DefaultDB)
  {
    CreateStages(cat, hireDateOf, s, req);
    CreateCallLog(cat, hireDateOf, s, req);
    if EmailPreCheckPasses(s, req.email) {
      var row := FromCreateRequest(req, hireDateOf(req.hireDate));
      LookupThenSave(cat, s, FindEmployeeByEmailOp, Create, row);
      SaveTxDiscipline(cat, s.Called(FindEmployeeByEmailOp), Create, row);
    } else {
      var fault := s.Fault(FindEmployeeByEmailOp);
      OnlyNoErrorIsNoError(cat, if fault.Some? then fault.value else ErrEmailTaken);
    }
  }

  /**
   * A create that passes the pre-check, begins and inserts returns the
   * sentinel and the copy of the new row, which has a fresh id. The row is
   * in the database afterwards only if the commit succeeded: a failed commit
   * is only logged, still reported as success, and not followed by a rollback.
   */
  lemma CreateCommitted(cat: Catalog, hireDateOf: string -> Time, s: Store, req: CreateEmployeeRequest)
    requires s.Valid()
    requires EmailPreCheckPasses(s, req.email) && s.Fault(TxBeginOp).None? && s.Fault(CreateEmployeeOp).None?
    ensures var o := CreateEmployeeOutcome(cat, hireDateOf, s, req);
            var saved := FromCreateRequest(req, hireDateOf(req.hireDate)).(id := s.nextId);
            && o.err == cat.noError
            && o.result == Some(ToResult(saved))
            && (forall e :: e in s.db ==> e.id != saved.id)
            && o.store.db == (if s.Fault(TxCommitOp).None? then s.db + [saved] else s.db)
            && o.store.handle == DefaultDB
            && o.store.Valid()
  {
    CreateStages(cat, hireDateOf, s, req);
    var row := FromCreateRequest(req, hireDateOf(req.hireDate));
    var found := s.Called(FindEmployeeByEmailOp);
    var begin := found.TxBegin();
    var created := begin.store.CreateEmployee(row);
    TxBeginKeepsValid(found);
    CreateEmployeeKeepsValid(begin.store, row);
    TxCommitKeepsValid(created.store);
  }

  /** A `TxBegin` failure is `SystemError`; no rollback is registered, so the active handle is left as the failed begin set it. */
  lemma CreateBeginFailure(cat: Catalog, hireDateOf: string -> Time, s: Store, req: CreateEmployeeRequest)
    requires EmailPreCheckPasses(s, req.email) && s.Fault(TxBeginOp).Some?
    ensures var o := CreateEmployeeOutcome(cat, hireDateOf, s, req);
            && o.result.None?
            && o.err == cat.systemError.WithError(s.Fault(TxBeginOp).value)
            && o.store.handle == Transaction
            && o.store.db == s.db
  {
    CreateStages(cat, hireDateOf, s, req);
  }

  /** Every create that does not return the sentinel leaves the committed rows as they were. */
  lemma CreateFailureKeepsDb(cat: Catalog, hireDateOf: string -> Time, s: Store, req: CreateEmployeeRequest)
    requires cat.Valid()
    ensures var o := CreateEmployeeOutcome(cat, hireDateOf, s, req);
            !cat.IsNoError(o.err) ==> o.result.None? && o.store.db == s.db
  {
    CreateStages(cat, hireDateOf, s, req);
    if EmailPreCheckPasses(s, req.email) {
      SaveTxDiscipline(cat, s.Called(FindEmployeeByEmailOp), Create, FromCreateRequest(req, hireDateOf(req.hireDate)));
    }
  }

  // ---- edit ----

  /** Whether the edit's lookup yields a row: no storage error and some row with that id. */
  predicate LookupFinds(s: Store, id: nat)
  {
    s.Fault(FindEmployeeByIDOp).None? && exists e :: e in s.Rows() && e.id == id
  }

  /**
   * `EditEmployee` in two stages: a lookup that finds the row goes on to the
   * transactional save of that row, after exactly the lookup; one that does
   * not ends at the lookup with the error translated as for `GetEmployeeByID`.
   */
  lemma EditStages(cat: Catalog, s: Store, req: EditEmployeeRequest)
    ensures var o := EditEmployeeOutcome(cat, s, req);
            var id := IntToUint(req.employeeID);
            var t := s.Called(FindEmployeeByIDOp);
            var fault := s.Fault(FindEmployeeByIDOp);
            && (LookupFinds(s, id) ==> o == SaveInTransaction(cat, t, Update, s.FindEmployeeByID(id).value))
            && (!LookupFinds(s, id) ==>
                  o == Outcome(t, None, LookupError(cat, if fault.Some? then fault.value else RecordNotFound)))
  {
    if s.Fault(FindEmployeeByIDOp).None? {
      FindEmployeeByIDMeaning(s, IntToUint(req.employeeID));
    }
  }

  /** The calls each path of `EditEmployee` makes. */
  lemma EditCallLog(cat: Catalog, s: Store, req: EditEmployeeRequest)
    ensures var o := EditEmployeeOutcome(cat, s, req);
            var calls := NewCalls(s, o.store);
            && o.store.log == s.log + calls
            && calls == if !LookupFinds(s, IntToUint(req.employeeID)) then [FindEmployeeByIDOp]
                        else if s.Fault(TxBeginOp).Some? then [FindEmployeeByIDOp, TxBeginOp]
                        else if s.Fault(UpdateEmployeeOp).Some? then [FindEmployeeByIDOp, TxBeginOp, UpdateEmployeeOp, TxRollbackOp]
                        else [FindEmployeeByIDOp, TxBeginOp, UpdateEmployeeOp, TxCommitOp]
  {
    var id := IntToUint(req.employeeID);
    EditStages(cat, s, req);
    if LookupFinds(s, id) {
      LookupThenSave(cat, s, FindEmployeeByIDOp, Update, s.FindEmployeeByID(id).value);
    } else {
      NewCallsAfter(s, s.Called(FindEmployeeByIDOp), [FindEmployeeByIDOp]);
    }
  }

  /** A failed lookup ends the edit with the `GetEmployeeByID` translation, before any transaction. */
  lemma EditLookup(cat: Catalog, s: Store, req: EditEmployeeRequest)
    ensures var o := EditEmployeeOutcome(cat, s, req);
            var id := IntToUint(req.employeeID);
            && (LookupFinds(s, id) <==> TxBeginOp in NewCalls(s, o.store))
            && (!LookupFinds(s, id) ==> o.store == s.Called(FindEmployeeByIDOp) && o.result.None?)
            && (s.Fault(FindEmployeeByIDOp).Some? ==> o.err == LookupError(cat, s.Fault(FindEmployeeByIDOp).value))
            && (s.Fault(FindEmployeeByIDOp).None? && !LookupFinds(s, id) ==>
                  o.err == cat.employeeNotFound.WithError(RecordNotFound))
  {
    EditStages(cat, s, req);
    EditCallLog(cat, s, req);
  }

  /** The transaction discipline of `EditEmployee`, as for create with the lookup by id and the update. */
  lemma EditTxDiscipline(cat: Catalog, s: Store, req: EditEmployeeRequest)
    requires cat.Valid()
    ensures var o := EditEmployeeOutcome(cat, s, req);
            var calls := NewCalls(s, o.store);
            var finds := LookupFinds(s, IntToUint(req.employeeID));
            && o.store.log == s.log + calls
            && (calls == [FindEmployeeByIDOp] <==> !finds)
            && (calls == [FindEmployeeByIDOp, TxBeginOp] <==> finds && s.Fault(TxBeginOp).Some?)
            && (calls == [FindEmployeeByIDOp, TxBeginOp, UpdateEmployeeOp, TxRollbackOp] <==>
                  finds && s.Fault(TxBeginOp).None? && s.Fault(UpdateEmployeeOp).Some?)
            && (calls == [FindEmployeeByIDOp, TxBeginOp, UpdateEmployeeOp, TxCommitOp] <==>
                  finds && s.Fault(TxBeginOp).None? && s.Fault(UpdateEmployeeOp).None?)
            && calls != [] && (cat.IsNoError(o.err) <==> Last(calls) == TxCommitOp)
            && (|calls| == 4 ==> o.store.handle == DefaultDB)
  {
    var id := IntToUint(req.employeeID);
    EditStages(cat, s, req);
    EditCallLog(cat, s, req);
    if LookupFinds(s, id) {
      var row := s.FindEmployeeByID(id).value;
      LookupThenSave(cat, s, FindEmployeeByIDOp, Update, row);
      SaveTxDiscipline(cat, s.Called(FindEmployeeByIDOp), Update, row);
    } else {
      var fault := s.Fault(FindEmployeeByIDOp);
      OnlyNoErrorIsNoError(cat, if fault.Some? then fault.value else RecordNotFound);
    }
  }

  /** The request's name, email and hire date have no effect on an edit: only its id is read. */
  lemma EditIgnoresRequestFields(cat: Catalog, s: Store, req: EditEmployeeRequest,
                                 firstName: string, lastName: string, email: string, hireDate: string)
    ensures EditEmployeeOutcome(cat, s, req)
         == EditEmployeeOutcome(cat, s, EditEmployeeRequest(req.employeeID, firstName, lastName, email, hireDate))
  {
  }

  lemma ReplaceWithSelf(rows: seq<Employee>, e: Employee)
    requires UniqueIds(rows) && e in rows
    ensures Replace(rows, e) == rows
  {
    var k :| 0 <= k < |rows| && rows[k] == e;
    assert forall i :: 0 <= i < |rows| && rows[i].id == e.id ==> i == k;
  }

  /**
   * An edit through the default handle that finds the row saves it exactly as
   * loaded: it returns the sentinel and the copy of the stored row, and the
   * committed rows are unchanged whether or not the commit succeeds.
   */
  lemma EditSavesRowAsLoaded(cat: Catalog, s: Store, req: EditEmployeeRequest)
    requires s.Valid() && s.handle == DefaultDB
    requires LookupFinds(s, IntToUint(req.employeeID))
    requires s.Fault(TxBeginOp).None? && s.Fault(UpdateEmployeeOp).None?
    ensures var o := EditEmployeeOutcome(cat, s, req);
            && o.err == cat.noError
            && (exists e :: e in s.db && e.id == IntToUint(req.employeeID) && o.result == Some(ToResult(e)))
            && o.store.db == s.db
            && o.store.handle == DefaultDB
  {
    var id := IntToUint(req.employeeID);
    FindEmployeeByIDMeaning(s, id);
    var found := s.FindEmployeeByID(id);
    var e := found.value;
    assert e in s.db && e.id == id;
    var begin := found.store.TxBegin();
    assert begin.store.Rows() == s.db;
    if e.id != 0 && HasId(s.db, e.id) {
      ReplaceWithSelf(s.db, e);
    } else {
      FirstByIdFindsUnique(s.db, e);
      assert false;
    }
  }

  /** Every edit that does not return the sentinel leaves the committed rows as they were. */
  lemma EditFailureKeepsDb(cat: Catalog, s: Store, req: EditEmployeeRequest)
    requires cat.Valid()
    ensures var o := EditEmployeeOutcome(cat, s, req);
            !cat.IsNoError(o.err) ==> o.result.None? && o.store.db == s.db
  {
    EditStages(cat, s, req);
    if LookupFinds(s, IntToUint(req.employeeID)) {
      SaveTxDiscipline(cat, s.Called(FindEmployeeByIDOp), Update, s.FindEmployeeByID(IntToUint(req.employeeID)).value);
    }
  }
}
