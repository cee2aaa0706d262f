/**
 * The meaning of the employee queries of repository/employee.go over a
 * table of rows: the three `where*` scopes, ordering by creation time,
 * pagination, counting, and the single-row lookups `First` performs.
 */
module Scopes {

  import opened Wrappers
  import opened Entity
  import opened Model
  import opened Strings
  import opened RepoHelpers
  import GoInt

  /** The rows of `rows` that `keep` accepts, in their original order. */
  function Select(rows: seq<Employee>, keep: Employee -> bool): (r: seq<Employee>)
    ensures |r| <= |rows|
  {
    if rows == [] then []
    else (if keep(rows[0]) then [rows[0]] else []) + Select(rows[1..], keep)
  }

  /** Each accepted row is kept as often as it occurs, each rejected row dropped. */
  lemma {:induction false} SelectMultiset(rows: seq<Employee>, keep: Employee -> bool)
    ensures forall e :: multiset(Select(rows, keep))[e] == if keep(e) then multiset(rows)[e] else 0
  {
    if rows != [] {
      SelectMultiset(rows[1..], keep);
      assert rows == [rows[0]] + rows[1..];
    }
  }

  /** Selecting with a filter that accepts everything changes nothing. */
  lemma {:induction false} SelectAll(rows: seq<Employee>, keep: Employee -> bool)
    requires forall e :: keep(e)
    ensures Select(rows, keep) == rows
  {
    if rows != [] {
      SelectAll(rows[1..], keep);
    }
  }

  /** Two selections in a row are one selection by the conjunction. */
  lemma {:induction false} SelectSelect(rows: seq<Employee>, p: Employee -> bool, q: Employee -> bool, pq: Employee -> bool)
    requires forall e :: pq(e) == (p(e) && q(e))
    ensures Select(Select(rows, p), q) == Select(rows, pq)
  {
    if rows != [] {
      SelectSelect(rows[1..], p, q, pq);
      var head := if p(rows[0]) then [rows[0]] else [];
      assert Select(rows, p) == head + Select(rows[1..], p);
      SelectAppend(head, Select(rows[1..], p), q);
    }
  }

  lemma {:induction false} SelectAppend(a: seq<Employee>, b: seq<Employee>, keep: Employee -> bool)
    ensures Select(a + b, keep) == Select(a, keep) + Select(b, keep)
  {
    if a != [] {
      assert (a + b)[1..] == a[1..] + b;
      SelectAppend(a[1..], b, keep);
    } else {
      assert a + b == b;
    }
  }

  /** Selection preserves any property of individual rows. */
  lemma {:induction false} SelectSubset(rows: seq<Employee>, keep: Employee -> bool, e: Employee)
    requires e in Select(rows, keep)
    ensures e in rows && keep(e)
  {
    SelectMultiset(rows, keep);
    assert multiset(Select(rows, keep))[e] > 0;
  }

  // ---- scopes ----

  predicate FirstNameMatches(name: string, e: Employee)
  {
    name == "" || ContainsFold(e.firstName, name)
  }

  predicate LastNameMatches(name: string, e: Employee)
  {
    name == "" || ContainsFold(e.lastName, name)
  }

  predicate IdMatches(ids: seq<int>, e: Employee)
  {
    |ids| == 0 || e.id in ids
  }

  /** The scope is skipped for an empty name; skipping loses nothing, since the empty name occurs in every name. */
  lemma NameMatchesIsContainsFold(name: string, e: Employee)
    ensures FirstNameMatches(name, e) <==> ContainsFold(e.firstName, name)
    ensures LastNameMatches(name, e) <==> ContainsFold(e.lastName, name)
  {
    ContainsFoldEmpty(e.firstName);
    ContainsFoldEmpty(e.lastName);
  }

  /** `whereEmployeeFirstNameContains(name, "")`: `first_name ilike '%name%'`, no restriction for an empty name. */
  function WhereFirstNameContains(name: string, rows: seq<Employee>): (r: seq<Employee>)
    ensures name == "" ==> r == rows
    ensures r == Select(rows, e => FirstNameMatches(name, e))
  {
    if name == "" then
      SelectAll(rows, e => FirstNameMatches(name, e));
      rows
    else
      SelectSelect(rows, (_: Employee) => true, (e: Employee) => ContainsFold(e.firstName, name), e => FirstNameMatches(name, e));
      SelectAll(rows, (_: Employee) => true);
      Select(rows, (e: Employee) => ContainsFold(e.firstName, name))
  }

  /** `whereEmployeeLastNameContains(name, "")`: `last_name ilike '%name%'`, no restriction for an empty name. */
  function WhereLastNameContains(name: string, rows: seq<Employee>): (r: seq<Employee>)
    ensures name == "" ==> r == rows
    ensures r == Select(rows, e => LastNameMatches(name, e))
  {
    if name == "" then
      SelectAll(rows, e => LastNameMatches(name, e));
      rows
    else
      SelectSelect(rows, (_: Employee) => true, (e: Employee) => ContainsFold(e.lastName, name), e => LastNameMatches(name, e));
      SelectAll(rows, (_: Employee) => true);
      Select(rows, (e: Employee) => ContainsFold(e.lastName, name))
  }

  /** `whereEmployeeIDIn(ids, "")`: `id in ids`, no restriction for an empty list. */
  function WhereEmployeeIDIn(ids: seq<int>, rows: seq<Employee>): (r: seq<Employee>)
    ensures |ids| == 0 ==> r == rows
    ensures r == Select(rows, e => IdMatches(ids, e))
  {
    if |ids| == 0 then
      SelectAll(rows, e => IdMatches(ids, e));
      rows
    else
      SelectSelect(rows, (_: Employee) => true, (e: Employee) => e.id in ids, e => IdMatches(ids, e));
      SelectAll(rows, (_: Employee) => true);
      Select(rows, (e: Employee) => e.id in ids)
  }

  /** The `employeeIDs` list the queries build from the optional filter id. */
  function FilterIds(f: GetEmployeesFilter): (ids: seq<int>)
    ensures f.id.None? ==> ids == []
    ensures f.id.Some? ==> ids == [f.id.value]
  {
    if f.id.Some? then [f.id.value] else []
  }

  /** A nil filter id imposes nothing; otherwise only the row with exactly that id passes. */
  lemma IdFilterMeaning(f: GetEmployeesFilter, e: Employee)
    ensures IdMatches(FilterIds(f), e) <==> (f.id.None? || e.id == f.id.value)
  {
  }

  /** A row passes the filter when it passes every scope. */
  predicate Matches(f: GetEmployeesFilter, e: Employee)
  {
    FirstNameMatches(f.firstName, e) && LastNameMatches(f.lastName, e) && IdMatches(FilterIds(f), e)
  }

  /** The three scopes applied one after the other. */
  function Where(f: GetEmployeesFilter, rows: seq<Employee>): seq<Employee>
  {
    WhereEmployeeIDIn(FilterIds(f), WhereLastNameContains(f.lastName, WhereFirstNameContains(f.firstName, rows)))
  }

  /** The scopes compose by AND: applying all three is one selection by `Matches`, in table order. */
  lemma WhereIsConjunction(f: GetEmployeesFilter, rows: seq<Employee>)
    ensures Where(f, rows) == Select(rows, e => Matches(f, e))
  {
    var p1 := e => FirstNameMatches(f.firstName, e);
    var p2 := e => LastNameMatches(f.lastName, e);
    var p3 := e => IdMatches(FilterIds(f), e);
    var p12 := e => FirstNameMatches(f.firstName, e) && LastNameMatches(f.lastName, e);
    SelectSelect(rows, p1, p2, p12);
    SelectSelect(rows, p12, p3, e => Matches(f, e));
  }

  // ---- ordering ----

  predicate SortedByCreatedDesc(rows: seq<Employee>)
  {
    forall i, j :: 0 <= i < j < |rows| ==> rows[i].createdAt >= rows[j].createdAt
  }

  function InsertByCreatedDesc(e: Employee, rows: seq<Employee>): (r: seq<Employee>)
    requires SortedByCreatedDesc(rows)
    ensures SortedByCreatedDesc(r)
    ensures multiset(r) == multiset(rows) + multiset{e}
  {
    if rows == [] then [e]
    else if e.createdAt >= rows[0].createdAt then [e] + rows
    else
      assert rows == [rows[0]] + rows[1..];
      var rest := InsertByCreatedDesc(e, rows[1..]);
      ConsSorted(rows[0], e, rows[1..], rest);
      [rows[0]] + rest
  }

  /** A row at least as new as everything in `rows` and than `e` may head any sorted arrangement of them. */
  lemma ConsSorted(h: Employee, e: Employee, rows: seq<Employee>, rest: seq<Employee>)
    requires SortedByCreatedDesc([h] + rows)
    requires e.createdAt < h.createdAt
    requires SortedByCreatedDesc(rest)
    requires multiset(rest) == multiset(rows) + multiset{e}
    ensures SortedByCreatedDesc([h] + rest)
  {
    forall x | x in rest
      ensures x.createdAt <= h.createdAt
    {
      assert x in multiset(rest);
      if x != e {
        assert x in multiset(rows);
        var k :| 0 <= k < |rows| && rows[k] == x;
        assert ([h] + rows)[k + 1] == x && ([h] + rows)[0] == h;
      }
    }
    var r := [h] + rest;
    forall i, j | 0 <= i < j < |r|
      ensures r[i].createdAt >= r[j].createdAt
    {
      assert r[j] == rest[j - 1];
      if i > 0 {
        assert r[i] == rest[i - 1];
      } else {
        assert rest[j - 1] in rest;
      }
    }
  }

  /** `Order("created_at desc")`: the same rows, newest first. */
  function OrderByCreatedDesc(rows: seq<Employee>): (r: seq<Employee>)
    ensures SortedByCreatedDesc(r)
    ensures multiset(r) == multiset(rows)
    ensures |r| == |rows|
  {
    if rows == [] then []
    else
      assert rows == [rows[0]] + rows[1..];
      InsertByCreatedDesc(rows[0], OrderByCreatedDesc(rows[1..]))
  }

  // ---- the queries ----

  /** `FindAllEmployees`: the rows passing the filter, newest first. */
  function FindAllEmployees(rows: seq<Employee>, f: GetEmployeesFilter): (r: seq<Employee>)
    ensures SortedByCreatedDesc(r)
    ensures |r| <= |rows|
  {
    OrderByCreatedDesc(Where(f, rows))
  }

  /** The list holds exactly the stored rows that pass the filter, each as often as it is stored. */
  lemma FindAllEmployeesContents(rows: seq<Employee>, f: GetEmployeesFilter)
    ensures forall e :: multiset(FindAllEmployees(rows, f))[e] == if Matches(f, e) then multiset(rows)[e] else 0
  {
    WhereIsConjunction(f, rows);
    SelectMultiset(rows, e => Matches(f, e));
  }

  function Min(a: int, b: int): int
  {
    if a <= b then a else b
  }

  /** `Offset(w.offset).Limit(w.limit)`: the contiguous run of at most `limit` rows starting at `offset`. */
  function Page(rows: seq<Employee>, w: Window): (r: seq<Employee>)
    ensures |r| == Min(w.limit, |rows| - Min(w.offset, |rows|))
    ensures r == rows[Min(w.offset, |rows|)..Min(w.offset, |rows|) + |r|]
  {
    var start := Min(w.offset, |rows|);
    rows[start..start + Min(w.limit, |rows| - start)]
  }

  /** `FindEmployees`: `FindAllEmployees` with `paginate` applied after the ordering. */
  function FindEmployees(rows: seq<Employee>, f: GetEmployeesFilter): seq<Employee>
  {
    Page(FindAllEmployees(rows, f), Paginate(f.pageRequest.pageNum, f.pageRequest.pageSize))
  }

  /** A page is a contiguous slice of the unpaginated result, at most one page size long. */
  lemma FindEmployeesIsSlice(rows: seq<Employee>, f: GetEmployeesFilter)
    ensures var all := FindAllEmployees(rows, f);
            var w := Paginate(f.pageRequest.pageNum, f.pageRequest.pageSize);
            var page := FindEmployees(rows, f);
            && |page| <= w.limit
            && (f.pageRequest.pageSize > 0 ==> |page| <= f.pageRequest.pageSize)
            && (f.pageRequest.pageSize <= 0 ==> |page| <= DefaultPageSize)
            && (w.offset < |all| ==> page == all[w.offset..w.offset + |page|])
            && (w.offset >= |all| ==> page == [])
  {
    var all := FindAllEmployees(rows, f);
    var w := Paginate(f.pageRequest.pageNum, f.pageRequest.pageSize);
    assert FindEmployees(rows, f) == Page(all, w);
    PageIsSlice(all, w);
  }

  /**
   * Whenever the source's 64-bit offset does not wrap, `FindEmployees` pages
   * at exactly the window the source computes: that offset (never negative)
   * and that limit.
   */
  lemma FindEmployeesAsWritten(rows: seq<Employee>, f: GetEmployeesFilter)
    requires Paginate(f.pageRequest.pageNum, f.pageRequest.pageSize).offset < GoInt.TWO_63
    ensures var aw := PaginateAsWritten(f.pageRequest.pageNum, f.pageRequest.pageSize);
            && 0 <= aw.0 && 1 <= aw.1
            && FindEmployees(rows, f) == Page(FindAllEmployees(rows, f), Window(aw.0, aw.1))
  {
    PaginateAsWrittenAgrees(f.pageRequest.pageNum, f.pageRequest.pageSize);
  }

  lemma PageIsSlice(all: seq<Employee>, w: Window)
    ensures |Page(all, w)| <= w.limit
    ensures w.offset < |all| ==> Page(all, w) == all[w.offset..w.offset + |Page(all, w)|]
    ensures w.offset >= |all| ==> Page(all, w) == []
  {
  }

  /** An empty filter on page 1 of 10 gives the ten newest rows (or all, if fewer). */
  lemma EmptyFilterFirstPage(rows: seq<Employee>)
    ensures var f := GetEmployeesFilter("", "", None, PageRequest(1, 10));
            && FindAllEmployees(rows, f) == OrderByCreatedDesc(rows)
            && FindEmployees(rows, f) == OrderByCreatedDesc(rows)[..Min(10, |rows|)]
  {
    var f := GetEmployeesFilter("", "", None, PageRequest(1, 10));
    assert Where(f, rows) == rows;
    var all := OrderByCreatedDesc(rows);
    assert FindAllEmployees(rows, f) == all;
    var w := Paginate(1, 10);
    assert w == Window(0, 10);
    PageIsSlice(all, w);
    assert FindEmployees(rows, f) == Page(all, w);
  }

  /** The number of stored rows that pass the filter. */
  function CountMatching(rows: seq<Employee>, f: GetEmployeesFilter): nat
  {
    if rows == [] then 0
    else (if Matches(f, rows[0]) then 1 else 0) + CountMatching(rows[1..], f)
  }

  /** `CountEmployees`: the same scopes without pagination, so the size of `FindAllEmployees`. */
  function CountEmployees(rows: seq<Employee>, f: GetEmployeesFilter): (n: nat)
    ensures n == |FindAllEmployees(rows, f)|
  {
    WhereIsConjunction(f, rows);
    SelectCount(rows, f);
    CountMatching(rows, f)
  }

  lemma {:induction false} SelectCount(rows: seq<Employee>, f: GetEmployeesFilter)
    ensures |Select(rows, e => Matches(f, e))| == CountMatching(rows, f)
  {
    if rows != [] {
      SelectCount(rows[1..], f);
    }
  }

  // ---- single-row lookups ----

  /** `Where("id=?", id).First(...)`: a stored row with that id, if any. */
  function FirstById(rows: seq<Employee>, id: int): (r: Option<Employee>)
    ensures r.Some? ==> r.value in rows && r.value.id == id
    ensures r.None? ==> forall e :: e in rows ==> e.id != id
  {
    if rows == [] then None
    else if rows[0].id == id then Some(rows[0])
    else FirstById(rows[1..], id)
  }

  /** `Where("email=?", email).First(...)`: among the rows with that email, the one with the smallest id. */
  function FirstByEmail(rows: seq<Employee>, email: string): (r: Option<Employee>)
    ensures r.Some? ==> r.value in rows && r.value.email == email
    ensures r.Some? ==> forall e :: e in rows && e.email == email ==> r.value.id <= e.id
    ensures r.None? ==> forall e :: e in rows ==> e.email != email
  {
    if rows == [] then None
    else
      var rest := FirstByEmail(rows[1..], email);
      assert forall e :: e in rows ==> e == rows[0] || e in rows[1..];
      if rows[0].email != email then rest
      else if rest.Some? && rest.value.id < rows[0].id then rest
      else Some(rows[0])
  }
}
