/** Offset/limit slicing of a listing (pkg/utils/pagination.go). Go's `int`
    is modelled as an unbounded integer, so `Offset + Limit` never wraps. */
module Pagination {

  datatype Page = Page(offset: int, limit: int)

  /** `DefaultPagination`: the first hundred entries. */
  const DefaultPagination: Page := Page(0, 100)

  function Min(a: int, b: int): int { if a <= b then a else b }

  function Max(a: int, b: int): int { if a <= b then b else a }

  /** `Paginate`: the entries from `offset` (a negative offset counts as 0)
      up to `limit` of them; an offset at or past the end, or a limit that
      is not positive, gives the empty listing. */
  function Paginate<T>(list: seq<T>, page: Page): (r: seq<T>)
    ensures page.offset >= |list| ==> r == []
    ensures page.limit <= 0 ==> r == []
    ensures |r| <= Max(page.limit, 0) && (page.offset < |list| ==> Max(page.offset, 0) + |r| <= |list|)
    ensures page.offset < |list| && page.limit > 0 ==>
              |r| == Min(page.limit, |list| - Max(page.offset, 0))
    ensures forall i :: 0 <= i < |r| ==> r[i] == list[Max(page.offset, 0) + i]
  {
    if page.offset >= |list| then []
    else
      var offset := if page.offset < 0 then 0 else page.offset;
      var rightBound := Min(offset + page.limit, |list|);
      if rightBound < offset then [] else list[offset..rightBound]
  }

  /** A negative offset reads the same page as offset 0. */
  lemma NegativeOffsetIsZero<T>(list: seq<T>, offset: int, limit: int)
    requires offset < 0
    ensures Paginate(list, Page(offset, limit)) == Paginate(list, Page(0, limit))
  {
  }

  /** Two consecutive pages read back-to-back are the page that spans both. */
  lemma ConsecutivePages<T>(list: seq<T>, k: nat, n: nat)
    requires k > 0 && n > 0
    ensures Paginate(list, Page(0, k)) + Paginate(list, Page(k, n)) == Paginate(list, Page(0, k + n))
  {
    var a, b, c := Paginate(list, Page(0, k)), Paginate(list, Page(k, n)), Paginate(list, Page(0, k + n));
    assert |a + b| == |c|;
    forall i | 0 <= i < |c| ensures (a + b)[i] == c[i] {
      if i >= |a| {
        assert (a + b)[i] == b[i - |a|];
      }
    }
  }

  /** A page that starts at 0 and is at least as long as the listing is the
      listing itself. */
  lemma WholePage<T>(list: seq<T>, limit: int)
    requires limit >= |list|
    ensures Paginate(list, Page(0, limit)) == list
  {
  }
}
