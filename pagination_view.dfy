/**
  The rules of `components/DataGrid/Pagination.tsx`: the page count and the item range shown, the
  page-size change, the window of at most five page buttons and the disabled states of the
  first/previous/next/last buttons.
*/
module PaginationView {
  import opened Wrappers
  import opened GridTypes
  import opened IntMath
  import opened GridHelpers
  import opened GridReducer

  /** `Math.ceil(total / pageSize)` */
  function TotalPages(p: PaginationState): int
    requires p.pageSize > 0
  {
    CeilDiv(p.total, p.pageSize)
  }

  /** The first item shown, counting from 1. */
  function StartItem(p: PaginationState): int {
    (p.page - 1) * p.pageSize + 1
  }

  /** The last item shown. */
  function EndItem(p: PaginationState): int {
    Min(p.page * p.pageSize, p.total)
  }

  /**
    On an existing page of a non-empty list the caption's range `startItem..endItem` is exactly the
    page `paginateData` cuts from those rows: it is non-empty, inside `1..total`, and at most one
    page long.
  */
  lemma PageItems(p: PaginationState, rows: seq<User>)
    requires p.pageSize > 0 && p.total == |rows|
    requires 1 <= p.page <= TotalPages(p)
    ensures 1 <= StartItem(p) <= EndItem(p) <= p.total
    ensures EndItem(p) - StartItem(p) + 1 <= p.pageSize
    ensures PaginateData(rows, p.page, p.pageSize) == rows[StartItem(p) - 1..EndItem(p)]
  {
    var ps := p.pageSize;
    CeilDivBounds(p.total, ps);
    MulMonotone(ps, p.page - 1, TotalPages(p) - 1);
    assert ps * (TotalPages(p) - 1) == ps * TotalPages(p) - ps;
    MulNonNegative(p.page - 1, ps);
    MulDistributes(p.page - 1, ps);
    PaginateWindow(rows, p.page, ps);
  }

  /** `handlePageChange(n)` dispatches this patch. */
  function PageChangePatch(newPage: int): PaginationPatch {
    PaginationPatch(Some(newPage), None, None)
  }

  /** `handlePageSizeChange(n)` dispatches this patch. */
  function PageSizePatch(newPageSize: int): PaginationPatch {
    PaginationPatch(Some(1), Some(newPageSize), None)
  }

  /** Changing the page size goes back to page 1 and keeps the total. */
  lemma PageSizeChangeResets(state: GridState, newPageSize: int)
    ensures Reduce(state, SetPagination(PageSizePatch(newPageSize))).pagination
         == PaginationState(1, newPageSize, state.pagination.total)
  {
  }

  /** The numbers on the page buttons (`Array.from({ length: Math.min(5, totalPages) }, ...)`). */
  function PageButtons(page: int, totalPages: int): seq<int> {
    var n := Max(0, Min(5, totalPages));
    seq(n, i requires 0 <= i < n =>
      if totalPages <= 5 then i + 1
      else if page <= 3 then i + 1
      else if page >= totalPages - 2 then totalPages - 4 + i
      else page - 2 + i)
  }

  /**
    There are `min(5, totalPages)` buttons. Up to five pages they are `1..totalPages`; beyond that
    they are five consecutive existing pages around the current one.
  */
  lemma PageButtonsSpec(page: int, totalPages: int)
    requires totalPages >= 0
    ensures var r := PageButtons(page, totalPages);
            && |r| == Min(5, totalPages)
            && (totalPages <= 5 ==> forall i | 0 <= i < |r| :: r[i] == i + 1)
            && (forall i | 0 <= i < |r| :: r[i] == r[0] + i)
            && (totalPages > 5 && 1 <= page <= totalPages ==>
                  1 <= r[0] && r[4] <= totalPages && page in r)
  {
    var r := PageButtons(page, totalPages);
    if totalPages > 5 && 1 <= page <= totalPages {
      assert page == r[page - r[0]];
    }
  }

  // ---------------------------------------------------------------------------
  // Disabled states
  // ---------------------------------------------------------------------------

  /** First and previous are disabled on page 1. */
  predicate BackDisabled(p: PaginationState) {
    p.page == 1
  }

  /** Next and last as written: disabled only when the page equals the page count. */
  predicate ForwardDisabled(p: PaginationState)
    requires p.pageSize > 0
  {
    p.page == TotalPages(p)
  }

  /** Next and last as evidently intended: disabled from the last page on. */
  predicate ForwardDisabledIntended(p: PaginationState)
    requires p.pageSize > 0
  {
    p.page >= TotalPages(p)
  }

  /**
    From an existing page other than page 1, the first button (page 1) and the previous button
    (page - 1) both move to an existing page and keep the page size and total.
  */
  lemma BackStaysOnPages(state: GridState)
    requires state.pagination.pageSize > 0
    requires 1 <= state.pagination.page <= TotalPages(state.pagination)
    requires !BackDisabled(state.pagination)
    ensures var p := state.pagination;
            var first := Reduce(state, SetPagination(PageChangePatch(1))).pagination;
            var prev := Reduce(state, SetPagination(PageChangePatch(p.page - 1))).pagination;
            && first == p.(page := 1) && prev == p.(page := p.page - 1)
            && 1 <= first.page <= TotalPages(first) && 1 <= prev.page <= TotalPages(prev)
  {
  }

  /**
    With no rows there are no pages, yet next and last stay enabled on page 1, and the last
    button dispatches page 0, whose caption starts at item -49.
  */
  lemma ForwardEnabledWithoutRows(state: GridState)
    requires state.pagination == PaginationState(1, 50, 0)
    ensures TotalPages(state.pagination) == 0
    ensures !ForwardDisabled(state.pagination)
    ensures var next := Reduce(state, SetPagination(PageChangePatch(TotalPages(state.pagination))));
            next.pagination.page == 0 && StartItem(next.pagination) == -49
  {
  }

  /**
    With the intended test an enabled next or last button leads to an existing page, and on an
    existing page the two tests agree.
  */
  lemma ForwardIntendedStaysOnPages(p: PaginationState)
    requires p.pageSize > 0 && p.page >= 1
    ensures !ForwardDisabledIntended(p) ==> 1 <= p.page + 1 <= TotalPages(p)
    ensures p.page <= TotalPages(p) ==> (ForwardDisabled(p) <==> ForwardDisabledIntended(p))
  {
  }
}
