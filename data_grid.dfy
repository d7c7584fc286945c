/**
  The rules of `components/DataGrid/DataGrid.tsx`: the displayed-row pipeline, the item height and
  windowing constants, the rows handed to the row renderer, navigation by swipe, refresh, the
  theme toggle and the derived list of visible columns. `isMobile` (a window-width test in the
  source) is a parameter.
*/
module DataGridView {
  import opened Wrappers
  import opened GridTypes
  import opened IntMath
  import opened GridHelpers
  import opened GridReducer
  import opened VirtualScroll
  import opened Touch
  import opened PaginationView

  // ===========================================================================
  // processedData
  // ===========================================================================

  /** `processedData`: sort (only with a non-empty sort model), then search and filter. */
  function ProcessedData(state: GridState): seq<User> {
    var sorted := if |state.sortModel| > 0 then SortData(state.data, state.sortModel) else state.data;
    Survivors(sorted, state.filterModel, state.searchQuery)
  }

  /** The memoised computation itself, running the filter loop. */
  method ProcessData(state: GridState) returns (rows: seq<User>)
    ensures rows == ProcessedData(state)
  {
    rows := state.data;
    if |state.sortModel| > 0 {
      rows := SortData(rows, state.sortModel);
    }
    rows := FilterData(rows, state.filterModel, state.searchQuery);
  }

  /**
    The displayed rows are the loaded rows that pass the search and every filter, each as often as
    it was loaded; they are in sort order when the sort keys are consistent, and in load order when
    there is no sort model.
  */
  lemma ProcessedDataSpec(state: GridState)
    ensures var p := ProcessedData(state);
            && |p| <= |state.data|
            && (forall x :: multiset(p)[x] ==
                  if Passes(x, state.filterModel, state.searchQuery) then multiset(state.data)[x] else 0)
            && (KeysConsistent(state.sortModel) ==> Sorted(p, state.sortModel))
            && (state.sortModel == [] ==> Subsequence(p, state.data))
  {
    var sorted := if |state.sortModel| > 0 then SortData(state.data, state.sortModel) else state.data;
    SortDataSpec(state.data, state.sortModel);
    SurvivorsSubsequence(sorted, state.filterModel, state.searchQuery);
    forall x ensures multiset(ProcessedData(state))[x] ==
        if Passes(x, state.filterModel, state.searchQuery) then multiset(state.data)[x] else 0 {
      SurvivorsCount(sorted, state.filterModel, state.searchQuery, x);
    }
    if KeysConsistent(state.sortModel) {
      SurvivorsSorted(sorted, state.filterModel, state.searchQuery, state.sortModel);
    }
  }

  // ===========================================================================
  // Windowing constants
  // ===========================================================================

  /** The row height by density, taller on mobile. */
  function ItemHeight(density: Density, isMobile: bool): int {
    match density
    case Compact => if isMobile then 36 else 32
    case Comfortable => if isMobile then 64 else 56
    case Standard => if isMobile then 48 else 44
  }

  function ContainerHeight(isMobile: bool): int {
    if isMobile then 400 else 500
  }

  function Overscan(isMobile: bool): int {
    if isMobile then 3 else 5
  }

  /**
    Every row height is positive, as the windowing formula needs; rows grow with density and are
    taller on mobile, where the viewport is shorter and the overscan smaller.
  */
  lemma LayoutConstants(density: Density, isMobile: bool)
    ensures ItemHeight(density, isMobile) > 0
    ensures ItemHeight(Compact, isMobile) < ItemHeight(Standard, isMobile) < ItemHeight(Comfortable, isMobile)
    ensures ItemHeight(density, false) < ItemHeight(density, true)
    ensures ContainerHeight(true) < ContainerHeight(false) && Overscan(true) < Overscan(false)
    ensures ContainerHeight(isMobile) > 0 && Overscan(isMobile) >= 0
  {
  }

  /** The window the grid body uses for the displayed rows at a scroll offset. */
  function GridWindow(state: GridState, isMobile: bool, scrollTop: int): Window {
    LayoutConstants(state.density, isMobile);
    VirtualWindow(|ProcessedData(state)|, ItemHeight(state.density, isMobile), ContainerHeight(isMobile),
                  Overscan(isMobile), scrollTop)
  }

  // ===========================================================================
  // The rendered rows
  // ===========================================================================

  /** `processedData.slice(startIndex, endIndex + 1)`, each row paired with the index it is rendered with. */
  function RenderedRows(rows: seq<User>, w: Window): seq<(int, User)> {
    var shown := Slice(rows, w.startIndex, w.endIndex + 1);
    seq(|shown|, k requires 0 <= k < |shown| => (w.startIndex + k, shown[k]))
  }

  /**
    For a non-negative scroll offset the rendered rows are exactly the rows of the window, each
    carrying its own index, and every row whose band meets the viewport is among them.
  */
  lemma RenderedRowsSpec(rows: seq<User>, itemHeight: int, containerHeight: int, overscan: int, scrollTop: int)
    requires itemHeight > 0 && containerHeight >= 0 && overscan >= 0 && scrollTop >= 0
    ensures var w := VirtualWindow(|rows|, itemHeight, containerHeight, overscan, scrollTop);
            var r := RenderedRows(rows, w);
            && |r| == (if w.startIndex <= w.endIndex then w.endIndex - w.startIndex + 1 else 0)
            && (forall k | 0 <= k < |r| :: r[k].0 == w.startIndex + k && 0 <= r[k].0 < |rows| && rows[r[k].0] == r[k].1)
            && (forall i | 0 <= i < |rows| && i * itemHeight < scrollTop + containerHeight && scrollTop < (i + 1) * itemHeight ::
                  0 <= i - w.startIndex < |r| && r[i - w.startIndex] == (i, rows[i]))
  {
    var w := VirtualWindow(|rows|, itemHeight, containerHeight, overscan, scrollTop);
    WindowInBounds(|rows|, itemHeight, containerHeight, overscan, scrollTop);
    CeilDivBounds(scrollTop + containerHeight, itemHeight);
    MulCancelStrict(itemHeight, -1, CeilDiv(scrollTop + containerHeight, itemHeight));
    assert w.endIndex >= -1;
    forall i | 0 <= i < |rows| && i * itemHeight < scrollTop + containerHeight && scrollTop < (i + 1) * itemHeight
      ensures w.startIndex <= i <= w.endIndex
    {
      WindowCovers(|rows|, itemHeight, containerHeight, overscan, scrollTop, i);
    }
  }

  // ===========================================================================
  // Swipe navigation, refresh, theme
  // ===========================================================================

  /** The swipe effect: the page it moves to, if it dispatches at all. */
  function SwipePage(isSwipe: bool, direction: Option<SwipeDirection>, p: PaginationState): Option<int>
    requires p.pageSize > 0
  {
    if isSwipe && direction == Some(Right) && p.page > 1 then Some(p.page - 1)
    else if isSwipe && direction == Some(Left) then
      (if p.page < TotalPages(p) then Some(p.page + 1) else None)
    else None
  }

  /**
    One evaluation of the effect, which is what one swipe is evidently meant to do: a right swipe
    goes back one page from page 2 on, a left swipe forward one page while there is a next page;
    nothing else moves. From a page in `[1, totalPages]` it never leaves that range.
  */
  lemma SwipeNavigation(isSwipe: bool, direction: Option<SwipeDirection>, p: PaginationState)
    requires p.pageSize > 0
    ensures var r := SwipePage(isSwipe, direction, p);
            && (r.Some? ==> isSwipe && (direction == Some(Left) || direction == Some(Right)))
            && (r == Some(p.page - 1) <==> isSwipe && direction == Some(Right) && p.page > 1)
            && (r == Some(p.page + 1) <==> isSwipe && direction == Some(Left) && p.page < TotalPages(p))
            && (r.Some? && 1 <= p.page <= TotalPages(p) ==> 1 <= r.value <= TotalPages(p))
            && (r.Some? && p.page >= 1 ==> r.value >= 1)
  {
  }

  /**
    The effect as the program runs it. It depends on `state.pagination`, every SET_PAGINATION
    stores a new pagination object, and the touch state keeps its classification until the next
    touch starts, so the effect runs again after each page it dispatches, until it dispatches
    nothing. The result is the state it comes to rest in.
  */
  function SwipeSettle(isSwipe: bool, direction: Option<SwipeDirection>, state: GridState): GridState
    requires state.pagination.pageSize > 0
    decreases if direction == Some(Left) then TotalPages(state.pagination) - state.pagination.page
              else state.pagination.page
  {
    match SwipePage(isSwipe, direction, state.pagination)
    case None => state
    case Some(q) => SwipeSettle(isSwipe, direction, Reduce(state, SetPagination(PageChangePatch(q))))
  }

  /** As written, one left swipe from an existing page runs on to the last page. */
  lemma {:induction false} SwipeLeftRunsToLastPage(state: GridState)
    requires state.pagination.pageSize > 0
    requires 1 <= state.pagination.page <= TotalPages(state.pagination)
    ensures SwipeSettle(true, Some(Left), state)
         == state.(pagination := state.pagination.(page := TotalPages(state.pagination)))
    decreases TotalPages(state.pagination) - state.pagination.page
  {
    if state.pagination.page < TotalPages(state.pagination) {
      SwipeLeftRunsToLastPage(Reduce(state, SetPagination(PageChangePatch(state.pagination.page + 1))));
    }
  }

  /** As written, one right swipe from any page from 1 on runs back to page 1. */
  lemma {:induction false} SwipeRightRunsToFirstPage(state: GridState)
    requires state.pagination.pageSize > 0
    requires state.pagination.page >= 1
    ensures SwipeSettle(true, Some(Right), state) == state.(pagination := state.pagination.(page := 1))
    decreases state.pagination.page
  {
    if state.pagination.page > 1 {
      SwipeRightRunsToFirstPage(Reduce(state, SetPagination(PageChangePatch(state.pagination.page - 1))));
    }
  }

  /** One left swipe on page 1 of 20 ends on page 20 rather than page 2. */
  lemma SwipeSkipsToLastPage(state: GridState)
    requires state.pagination == PaginationState(1, 50, 1000)
    ensures SwipePage(true, Some(Left), state.pagination) == Some(2)
    ensures SwipeSettle(true, Some(Left), state).pagination.page == 20
  {
    assert TotalPages(state.pagination) == 20;
    SwipeLeftRunsToLastPage(state);
  }

  /** A release the recogniser did not classify as a swipe never changes the page. */
  lemma NonSwipeStaysPut(deltaX: int, deltaY: int, duration: int, p: PaginationState)
    requires p.pageSize > 0
    requires !IsSwipe(deltaX, deltaY, duration)
    ensures SwipePage(IsSwipe(deltaX, deltaY, duration), Classify(deltaX, deltaY, duration), p) == None
  {
  }

  /** `handleRefresh` dispatches this patch. */
  function RefreshPatch(): PaginationPatch {
    PaginationPatch(Some(1), None, None)
  }

  /** Refreshing goes to page 1 and keeps the page size and total. */
  lemma RefreshGoesToFirstPage(state: GridState)
    ensures var p := Reduce(state, SetPagination(RefreshPatch())).pagination;
            p == state.pagination.(page := 1)
  {
  }

  /** `toggleTheme` */
  function ToggleTheme(t: Theme): Theme {
    if t == Light then Dark else Light
  }

  /** The toggle always changes the theme and two toggles restore it. */
  lemma ToggleThemeInvolution(t: Theme)
    ensures ToggleTheme(t) != t && ToggleTheme(ToggleTheme(t)) == t
  {
  }

  // ===========================================================================
  // Visible columns
  // ===========================================================================

  /** `state.columns.filter((col) => state.visibleColumns.includes(col.id))` */
  function VisibleColumnsOf(columns: seq<Column>, visible: seq<string>): seq<Column>
    decreases |columns|
  {
    if columns == [] then []
    else VisibleColumnsOf(columns[..|columns| - 1], visible)
         + (if columns[|columns| - 1].id in visible then [columns[|columns| - 1]] else [])
  }

  /**
    The positions in `columns` of the visible columns: the `k`-th visible column is
    `columns[VisiblePositions(columns, visible)[k]]`, and the positions increase.
  */
  function VisiblePositions(columns: seq<Column>, visible: seq<string>): (r: seq<int>)
    ensures |r| == |VisibleColumnsOf(columns, visible)|
    ensures forall k | 0 <= k < |r| :: 0 <= r[k] < |columns| && columns[r[k]] == VisibleColumnsOf(columns, visible)[k]
    ensures forall k, l | 0 <= k < l < |r| :: r[k] < r[l]
    decreases |columns|
  {
    if columns == [] then []
    else
      var n := |columns| - 1;
      var init := VisiblePositions(columns[..n], visible);
      assert forall k | 0 <= k < |init| :: columns[init[k]] == columns[..n][init[k]];
      init + (if columns[n].id in visible then [n] else [])
  }

  /**
    A column is shown exactly when it is in `columns` and its id is visible; their order is the
    column order, as `VisiblePositions` states.
  */
  lemma {:induction false} VisibleColumnsSpec(columns: seq<Column>, visible: seq<string>)
    ensures forall c :: c in VisibleColumnsOf(columns, visible) <==> c in columns && c.id in visible
    ensures |VisibleColumnsOf(columns, visible)| <= |columns|
    ensures visible == Ids(columns) ==> VisibleColumnsOf(columns, visible) == columns
    decreases |columns|
  {
    if columns != [] {
      var n := |columns| - 1;
      VisibleColumnsSpec(columns[..n], visible);
      assert columns == columns[..n] + [columns[n]];
    }
    if visible == Ids(columns) {
      VisibleColumnsPrefix(columns, |columns|);
      assert columns[..|columns|] == columns;
    }
  }

  /** The shown columns of a prefix of `columns` are a prefix of the shown columns. */
  lemma {:induction false} VisibleColumnsOfPrefix(columns: seq<Column>, visible: seq<string>, n: nat)
    requires n <= |columns|
    ensures VisibleColumnsOf(columns[..n], visible) <= VisibleColumnsOf(columns, visible)
    decreases |columns| - n
  {
    if n < |columns| {
      VisibleColumnsOfPrefix(columns, visible, n + 1);
      assert columns[..n + 1][..n] == columns[..n];
    } else {
      assert columns[..n] == columns;
    }
  }

  /** All of a prefix is visible when every column is. */
  lemma {:induction false} VisibleColumnsPrefix(columns: seq<Column>, n: nat)
    requires n <= |columns|
    ensures VisibleColumnsOf(columns[..n], Ids(columns)) == columns[..n]
    decreases n
  {
    if n > 0 {
      VisibleColumnsPrefix(columns, n - 1);
      assert columns[..n][..n - 1] == columns[..n - 1];
      assert columns[n - 1].id == Ids(columns)[n - 1];
    }
  }
}
