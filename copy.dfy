/**
 * Field-by-field copies between the entity and the request/result shapes,
 * in place of the reflective `copyutil.Copy`.
 */
module Copy {

  import opened GoInt
  import opened Entity
  import opened Model

  /** Entity to result shape: every shared field is copied, the id converted from `uint` to `int`. */
  function ToResult(e: Employee): (r: EmployeeResult)
    ensures r.id == UintToInt(e.id)
    ensures r.createdAt == e.createdAt && r.updatedAt == e.updatedAt && r.hireDate == e.hireDate
    ensures r.firstName == e.firstName && r.lastName == e.lastName && r.email == e.email
  {
    EmployeeResult(UintToInt(e.id), e.createdAt, e.updatedAt, e.hireDate, e.firstName, e.lastName, e.email)
  }

  /** The copy of a slice of entities: same length, same order, each element copied. */
  function ToResults(es: seq<Employee>): (rs: seq<EmployeeResult>)
    ensures |rs| == |es|
    ensures forall i :: 0 <= i < |es| ==> rs[i] == ToResult(es[i])
  {
    seq(|es|, i requires 0 <= i < |es| => ToResult(es[i]))
  }

  /** The inverse direction, result shape to entity. */
  function ToEntity(r: EmployeeResult): (e: Employee)
    ensures e.id == IntToUint(r.id)
    ensures e.createdAt == r.createdAt && e.updatedAt == r.updatedAt && e.hireDate == r.hireDate
    ensures e.firstName == r.firstName && e.lastName == r.lastName && e.email == r.email
  {
    Employee(IntToUint(r.id), r.createdAt, r.updatedAt, r.firstName, r.lastName, r.email, r.hireDate)
  }

  /** The copy loses nothing for ids that fit a `uint`. */
  lemma ToResultRoundTrip(e: Employee)
    requires e.id < TWO_64
    ensures ToEntity(ToResult(e)) == e
  {
    UintIntRoundTrip(e.id);
  }

  /**
   * The entity built from a create request: the request's names and email,
   * the converted hire date, and zero id and timestamps for storage to fill in.
   */
  function FromCreateRequest(req: CreateEmployeeRequest, hireDate: Time): (e: Employee)
    ensures e.id == 0 && e.createdAt == ZeroTime && e.updatedAt == ZeroTime
    ensures e.firstName == req.firstName && e.lastName == req.lastName && e.email == req.email
    ensures e.hireDate == hireDate
  {
    ZeroEmployee.(firstName := req.firstName, lastName := req.lastName, email := req.email, hireDate := hireDate)
  }
}
