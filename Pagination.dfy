/** Page arithmetic of the pagination control (`components/pagination.tsx`).
    The count and page size are JavaScript numbers; the model takes them
    as integers and spells out what division by a zero page size gives. */
module Pagination {

  /** `Math.ceil(totalCount / perPage)`: an integer, or one of the
      non-finite numbers a zero page size produces. */
  datatype PageCount = Finite(n: int) | PosInfinity | NegInfinity | NotANumber

  /** The least integer at or above `a / b`, for `b > 0`. */
  function CeilDiv(a: int, b: int): (r: int)
    requires b > 0
    ensures (r - 1) * b < a <= r * b
  {
    -((-a) / b)
  }

  /** `Math.ceil(totalCount / perPage)`: the ceiling of the quotient for a
      non-zero page size, whatever the signs; an infinity with the count's
      sign for a zero page size, and `NaN` for zero over zero. */
  function TotalPages(totalCount: int, perPage: int): (r: PageCount)
    ensures r.Finite? <==> perPage != 0
    ensures perPage > 0 ==> (r.n - 1) * perPage < totalCount <= r.n * perPage
    ensures perPage < 0 ==> r.n * perPage <= totalCount < (r.n - 1) * perPage
    ensures r == PosInfinity <==> perPage == 0 && totalCount > 0
    ensures r == NegInfinity <==> perPage == 0 && totalCount < 0
  {
    if perPage > 0 then Finite(CeilDiv(totalCount, perPage))
    else if perPage < 0 then Finite(CeilDiv(-totalCount, -perPage))
    else if totalCount > 0 then PosInfinity
    else if totalCount < 0 then NegInfinity
    else NotANumber
  }

  /** `totalPages <= 1`; every comparison with `NaN` is false. */
  predicate AtMostOne(p: PageCount) {
    match p
    case Finite(n) => n <= 1
    case NegInfinity => true
    case PosInfinity => false
    case NotANumber => false
  }

  /** `page >= totalPages`. */
  predicate AtOrPast(page: int, p: PageCount) {
    match p
    case Finite(n) => page >= n
    case NegInfinity => true
    case PosInfinity => false
    case NotANumber => false
  }

  /** What the control shows: nothing, or the two buttons with their
      state and the pages they ask for. */
  datatype PaginationView =
    | Hidden
    | Shown(prevDisabled: bool, nextDisabled: bool, prevPage: int, nextPage: int, totalPages: PageCount)

  /** `Pagination`. */
  function Render(page: int, totalCount: int, perPage: int): PaginationView {
    var totalPages := TotalPages(totalCount, perPage);
    if AtMostOne(totalPages) then Hidden
    else Shown(page <= 1, AtOrPast(page, totalPages), page - 1, page + 1, totalPages)
  }

  /** With a positive page size the page count is the ceiling of the
      quotient: the fewest pages of `perPage` rows holding `totalCount`
      rows, zero exactly when there are none. */
  lemma PageCountFits(totalCount: nat, perPage: int)
    requires perPage > 0
    ensures var p := TotalPages(totalCount, perPage);
            && p.Finite? && p.n >= 0
            && (p.n == 0 <==> totalCount == 0)
            && p.n * perPage >= totalCount
            && (p.n > 0 ==> (p.n - 1) * perPage < totalCount)
  {
  }

  /** With a positive page size the control is shown exactly when the
      rows do not fit on one page. */
  lemma ShownIffMoreThanOnePage(page: int, totalCount: nat, perPage: int)
    requires perPage > 0
    ensures Render(page, totalCount, perPage).Shown? <==> totalCount > perPage
  {
    PageCountFits(totalCount, perPage);
    var n := TotalPages(totalCount, perPage).n;
    if totalCount > perPage {
      assert n * perPage >= totalCount > 1 * perPage;
    } else {
      assert (n - 1) * perPage < 1 * perPage;
    }
  }

  /** From a page in range, Previous is enabled exactly off the first
      page and Next exactly off the last, and an enabled button asks for
      a page that is again in range. */
  lemma ButtonsStayInRange(page: int, totalCount: int, perPage: int)
    requires perPage > 0
    requires var v := Render(page, totalCount, perPage);
             v.Shown? && 1 <= page <= v.totalPages.n
    ensures var v := Render(page, totalCount, perPage);
            && (!v.prevDisabled <==> page > 1)
            && (!v.nextDisabled <==> page < v.totalPages.n)
            && (!v.prevDisabled ==> 1 <= v.prevPage <= v.totalPages.n && v.prevPage == page - 1)
            && (!v.nextDisabled ==> 1 <= v.nextPage <= v.totalPages.n && v.nextPage == page + 1)
  {
  }

  /** A zero page size with rows to show gives an endless count: the
      control is shown and Next is never disabled; with no rows at all
      the count is not a number, and the control is shown as well. */
  lemma ZeroPageSize(page: int, totalCount: int)
    ensures totalCount > 0 ==> Render(page, totalCount, 0).Shown? && !Render(page, totalCount, 0).nextDisabled
    ensures totalCount == 0 ==> Render(page, totalCount, 0).Shown? && !Render(page, totalCount, 0).nextDisabled
    ensures totalCount < 0 ==> Render(page, totalCount, 0).Hidden?
  {
  }
}
