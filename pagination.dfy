/** The generic pager `getPaginated<T>(repo, page, itemsPerPage)`: turns a
    0-based page and a page size into the repository's limit and offset, and
    wraps the page it gets back with the page metadata. */
module Pagination {
  import opened Common

  datatype PageInfo = PageInfo(
    currentPage: int,
    itemsPerPage: int,
    totalItems: nat,
    totalPages: nat,
    hasNextPage: bool,
    hasPreviousPage: bool)

  datatype Paginated<T> = Paginated(data: T, pagination: PageInfo)

  /** `Math.ceil(a / b)` for a whole `a >= 0` and `b >= 1`: the least `q`
      with `a <= q * b`. */
  function CeilDiv(a: nat, b: int): (q: nat)
    requires b >= 1
    ensures (q - 1) * b < a <= q * b
    ensures q == 0 <==> a == 0
  {
    var q := (a + b - 1) / b;
    var rem := (a + b - 1) % b;
    assert a + b - 1 == q * b + rem && 0 <= rem < b;
    assert (q - 1) * b == q * b - b;
    q
  }

  /** `offset = page * itemsPerPage`. */
  function Offset(page: int, itemsPerPage: int): int {
    page * itemsPerPage
  }

  /** The metadata of page `page` (0-based) of `totalItems` rows: the
      1-based page number, the echoed page size and total, the least number
      of pages that holds every row, and whether pages follow or precede. */
  function Metadata(page: int, itemsPerPage: int, totalItems: nat): (m: PageInfo)
    requires itemsPerPage >= 1
    ensures m.currentPage == page + 1
    ensures m.itemsPerPage == itemsPerPage && m.totalItems == totalItems
    ensures m.totalPages == 0 <==> totalItems == 0
    ensures totalItems > 0 ==> (m.totalPages - 1) * itemsPerPage < totalItems <= m.totalPages * itemsPerPage
    ensures m.hasNextPage <==> (page + 1) * itemsPerPage < totalItems
    ensures m.hasPreviousPage <==> page > 0
  {
    var totalPages := CeilDiv(totalItems, itemsPerPage);
    var currentPage := page + 1;
    if currentPage < totalPages then
      MulMonotone(currentPage, totalPages - 1, itemsPerPage);
      PageInfo(currentPage, itemsPerPage, totalItems, totalPages, true, currentPage > 1)
    else
      MulMonotone(totalPages, currentPage, itemsPerPage);
      PageInfo(currentPage, itemsPerPage, totalItems, totalPages, false, currentPage > 1)
  }

  /** `getPaginated<T>(repo, page, itemsPerPage)`. `fetch` is the
      repository's `getPaginated(limit, offset)` and `totalCount` what its
      `count({ deleted: false })` returned; both read the same state. The
      pager relies on the repository rejecting a limit below one or a negative
      offset, as every repository of the system does. */
  function GetPaginated<T>(fetch: (int, int) -> Result<T>, totalCount: nat, page: int, itemsPerPage: int)
    : (r: Result<Paginated<T>>)
    requires forall limit, offset :: limit < 1 || offset < 0 ==> fetch(limit, offset).Err?
    ensures r.Err? <==> fetch(itemsPerPage, Offset(page, itemsPerPage)).Err?
    ensures r.Err? ==> r.error == fetch(itemsPerPage, Offset(page, itemsPerPage)).error
    ensures r.Ok? ==> itemsPerPage >= 1 && page >= 0
    ensures r.Ok? ==> r.value.data == fetch(itemsPerPage, Offset(page, itemsPerPage)).value
    ensures r.Ok? ==> r.value.pagination == Metadata(page, itemsPerPage, totalCount)
  {
    match fetch(itemsPerPage, Offset(page, itemsPerPage))
    case Err(e) => Err(e)
    case Ok(items) =>
      Ok(Paginated(items, Metadata(page, itemsPerPage, totalCount)))
  }

  /** With a page size of at least one, the offset is negative exactly when
      the page is; so the pager fails exactly on a page below zero or a page
      size below one. */
  lemma OffsetSign(page: int, itemsPerPage: int)
    requires itemsPerPage >= 1
    ensures Offset(page, itemsPerPage) < 0 <==> page < 0
  {
    if page < 0 {
      MulMonotone(page, -1, itemsPerPage);
    } else {
      MulMonotone(0, page, itemsPerPage);
    }
  }

  lemma MulMonotone(a: int, b: int, c: int)
    requires a <= b && c >= 0
    ensures a * c <= b * c
  {
    assert b * c - a * c == (b - a) * c;
  }

  /** The example of a listing with 25 rows and 10 per page: its first page
      has a next page but no previous one, out of three. */
  lemma FirstOfThreePages()
    ensures Metadata(0, 10, 25) == PageInfo(1, 10, 25, 3, true, false)
  {
  }
}
