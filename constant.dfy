/** Sortable column names (constant/employee_column_name.go). */
module Constant {

  import opened Wrappers
  import opened Errors
  import opened Strings

  type EmployeeColumn = string

  const EmployeeColumnFirstName: EmployeeColumn := "first_name"
  const EmployeeColumnLastName: EmployeeColumn := "last_name"
  const EmployeeColumnEmail: EmployeeColumn := "email"
  const EmployeeColumnHireDate: EmployeeColumn := "hire_date"

  const EmployeeColumns: seq<EmployeeColumn> :=
    [EmployeeColumnFirstName, EmployeeColumnLastName, EmployeeColumnEmail, EmployeeColumnHireDate]

  /**
   * `ParseEmployeeColumnName`: the column spelled exactly `str`, or `""` and
   * an error whose text is `str`. The search is the source's loop with its
   * early return.
   */
  method ParseEmployeeColumnName(str: string) returns (column: EmployeeColumn, err: Option<Error>)
    ensures err.None? <==> str in EmployeeColumns
    ensures err.None? ==> column == str
    ensures err.Some? ==> column == "" && err.value == Failure(str) && Message(err.value) == str
  {
    for i := 0 to |EmployeeColumns|
      invariant forall k :: 0 <= k < i ==> EmployeeColumns[k] != str
    {
      var t := EmployeeColumns[i];
      if str == t {
        return t, None;
      }
    }
    return "", Some(Failure(str));
  }

  /** Every declared column parses back to itself without error. */
  method ParseRoundTrip(c: EmployeeColumn) returns (ok: bool)
    requires c in EmployeeColumns
    ensures ok
  {
    var column, err := ParseEmployeeColumnName(c);
    ok := column == c && err.None?;
  }

  /** The four names are distinct, so at most one of them matches any input. */
  lemma ColumnsDistinct()
    ensures forall i, j :: 0 <= i < j < |EmployeeColumns| ==> EmployeeColumns[i] != EmployeeColumns[j]
  {
    assert EmployeeColumnFirstName[0] != EmployeeColumnLastName[0];
    assert EmployeeColumnFirstName[0] != EmployeeColumnEmail[0];
    assert EmployeeColumnFirstName[0] != EmployeeColumnHireDate[0];
    assert EmployeeColumnLastName[0] != EmployeeColumnEmail[0];
    assert EmployeeColumnLastName[0] != EmployeeColumnHireDate[0];
    assert EmployeeColumnEmail[0] != EmployeeColumnHireDate[0];
  }

  /** Every column name is already lower case. */
  lemma ColumnsAreLowerCase()
    ensures forall c :: c in EmployeeColumns ==> Lower(c) == c
  {
    forall c | c in EmployeeColumns
      ensures Lower(c) == c
    {
      assert forall i :: 0 <= i < |c| ==> !('A' <= c[i] <= 'Z');
    }
  }

  /**
   * Matching is case-sensitive: any other spelling of a column name that
   * differs from it only in letter case is not a column name, so parsing it fails.
   */
  lemma CaseSensitive()
    ensures forall c, s :: c in EmployeeColumns && s != c && Lower(s) == Lower(c) ==> s !in EmployeeColumns
  {
    ColumnsAreLowerCase();
  }
}
