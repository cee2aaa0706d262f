/** The pure helpers of repository/repository.go: pagination, column aliasing, LIKE patterns, sort direction. */
module RepoHelpers {

  import opened GoInt
  import opened Strings

  const DefaultPageNum: int := 1
  const DefaultPageSize: int := 10

  /** An SQL `OFFSET`/`LIMIT` pair. */
  datatype Window = Window(offset: nat, limit: nat)

  /**
   * `paginate` with exact arithmetic: non-positive page numbers become 1,
   * non-positive sizes become 10, and the offset skips the pages before this one.
   * This is the intended behaviour; `PaginateAsWritten` is the source's 64-bit version.
   */
  function Paginate(pageNum: int, pageSize: int): (w: Window)
    ensures w.limit >= 1
    ensures w.limit == if pageSize <= 0 then DefaultPageSize else pageSize
    ensures w.offset == ((if pageNum <= 0 then DefaultPageNum else pageNum) - 1) * w.limit
    ensures pageNum <= 1 ==> w.offset == 0
  {
    var num := if pageNum <= 0 then DefaultPageNum else pageNum;
    var size := if pageSize <= 0 then DefaultPageSize else pageSize;
    Window((num - 1) * size, size)
  }

  /** `paginate` as the source computes it, in Go's 64-bit `int`: the product wraps around. */
  function PaginateAsWritten(pageNum: Int64, pageSize: Int64): (r: (Int64, Int64))
    ensures r.1 == Paginate(pageNum, pageSize).limit
    ensures (Paginate(pageNum, pageSize).offset - r.0) % TWO_64 == 0
  {
    var num := if pageNum <= 0 then DefaultPageNum else pageNum;
    var size := if pageSize <= 0 then DefaultPageSize else pageSize;
    (WrapInt64((num - 1) * size), size)
  }

  /** When the product fits an `int`, the source computes the intended window. */
  lemma PaginateAsWrittenAgrees(pageNum: Int64, pageSize: Int64)
    requires Paginate(pageNum, pageSize).offset < TWO_63
    ensures PaginateAsWritten(pageNum, pageSize) == (Paginate(pageNum, pageSize).offset, Paginate(pageNum, pageSize).limit)
  {
  }

  /** Page 2^62 of size 4: the intended offset is 2^64 - 4, the source's wraps to -4. */
  lemma PaginateOverflow()
    ensures Paginate(0x4000_0000_0000_0000, 4).offset == 0xFFFF_FFFF_FFFF_FFFC
    ensures PaginateAsWritten(0x4000_0000_0000_0000, 4).0 == -4
  {
  }

  /** `withAlias`: the column, qualified by the alias when there is one. */
  function WithAlias(column: string, alias: string): (r: string)
    ensures alias == "" ==> r == column
    ensures alias != "" ==> r == alias + "." + column
  {
    if alias == "" then column else alias + "." + column
  }

  /** `withPercentAround`: the LIKE pattern matching texts that contain `v`. */
  function WithPercentAround(v: string): (r: string)
    ensures |r| == |v| + 2 && r[0] == '%' && r[|r| - 1] == '%' && r[1..|r| - 1] == v
  {
    "%" + v + "%"
  }

  /** `withPercentAfter`: the LIKE pattern matching texts that start with `v`. */
  function WithPercentAfter(v: string): (r: string)
    ensures |r| == |v| + 1 && r[|r| - 1] == '%' && r[..|r| - 1] == v
  {
    v + "%"
  }

  /** `withPercentBefore`: the LIKE pattern matching texts that end with `v`. */
  function WithPercentBefore(v: string): (r: string)
    ensures |r| == |v| + 1 && r[0] == '%' && r[1..] == v
  {
    "%" + v
  }

  /** `getSortDir`: "asc" exactly when the input lower-cases to "asc", otherwise "desc". */
  function GetSortDir(sortDir: string): (r: string)
    ensures r == "asc" || r == "desc"
    ensures r == "asc" <==> Lower(sortDir) == "asc"
  {
    if Lower(sortDir) == "asc" then Lower(sortDir) else "desc"
  }

  lemma GetSortDirIdempotent(sortDir: string)
    ensures GetSortDir(GetSortDir(sortDir)) == GetSortDir(sortDir)
  {
    assert Lower("asc") == "asc";
  }
}
