/** `defaultPageRequest` (cmd/app/handler/handler.go): the page request defaults the handlers apply before listing. */
module Handler {

  import opened GoInt
  import opened Model
  import RepoHelpers

  /** A `*model.PageRequest`: the page request the handler owns and updates in place. */
  class PageRequestRef {
    var pageNum: Int64
    var pageSize: Int64

    constructor (p: PageRequest)
      ensures Value() == p
    {
      pageNum := p.pageNum;
      pageSize := p.pageSize;
    }

    function Value(): PageRequest
      reads this
    {
      PageRequest(pageNum, pageSize)
    }
  }

  /** The page request after defaulting: a zero page number becomes 1 and a zero size 10; other values, negatives included, stay. */
  function Defaulted(p: PageRequest): (r: PageRequest)
    ensures r.pageNum != 0 && r.pageSize != 0
    ensures p.pageNum != 0 ==> r.pageNum == p.pageNum
    ensures p.pageSize != 0 ==> r.pageSize == p.pageSize
    ensures p.pageNum == 0 ==> r.pageNum == RepoHelpers.DefaultPageNum
    ensures p.pageSize == 0 ==> r.pageSize == RepoHelpers.DefaultPageSize
  {
    PageRequest(if p.pageNum == 0 then 1 else p.pageNum, if p.pageSize == 0 then 10 else p.pageSize)
  }

  /** `defaultPageRequest(pr)`: only the two fields of the pointed-to request change, as `Defaulted` says. */
  method DefaultPageRequest(pr: PageRequestRef)
    modifies pr
    ensures pr.Value() == Defaulted(old(pr.Value()))
  {
    if pr.pageNum == 0 {
      pr.pageNum := 1;
    }
    if pr.pageSize == 0 {
      pr.pageSize := 10;
    }
  }

  /** Defaulting twice is defaulting once. */
  lemma DefaultedIdempotent(p: PageRequest)
    ensures Defaulted(Defaulted(p)) == Defaulted(p)
  {
  }

  /** Defaulting first does not change the window `paginate` computes: `paginate` already treats zero as missing. */
  lemma PaginateAfterDefaulting(p: PageRequest)
    ensures var d := Defaulted(p);
            RepoHelpers.Paginate(d.pageNum, d.pageSize) == RepoHelpers.Paginate(p.pageNum, p.pageSize)
  {
  }
}
