/**
  The grid store of `contexts/DataGridContext.tsx`: the initial columns and state, and `gridReducer`,
  the transition function from a state and an action to the next state.
*/
module GridReducer {
  import opened Wrappers
  import opened Text
  import opened GridTypes
  import GridHelpers

  // ===========================================================================
  // Initial state
  // ===========================================================================

  function DataColumn(id: string, header: string, kind: ColumnType, width: int): Column {
    Column(id, header, kind, Some(width), None, Some(true), Some(true), None, None, Some(true))
  }

  /** `initialColumns`: eight data columns and the non-sortable, non-filterable actions column. */
  const InitialColumns: seq<Column> := [
    DataColumn("id", "ID", NumberColumn, 80),
    DataColumn("name", "Name", TextColumn, 150),
    DataColumn("email", "Email", TextColumn, 200),
    DataColumn("role", "Role", SelectColumn, 120),
    DataColumn("department", "Department", SelectColumn, 130),
    DataColumn("salary", "Salary", NumberColumn, 120),
    DataColumn("joinDate", "Join Date", DateColumn, 120),
    DataColumn("status", "Status", SelectColumn, 100),
    Column("actions", "Actions", ActionsColumn, Some(120), None, Some(false), Some(false), None, None, Some(true))
  ]

  /** The ids of the columns whose `visible` flag is truthy, in column order. */
  function VisibleIds(columns: seq<Column>): seq<string> {
    if columns == [] then []
    else (if columns[0].visible == Some(true) then [columns[0].id] else []) + VisibleIds(columns[1..])
  }

  function Ids(columns: seq<Column>): seq<string> {
    seq(|columns|, i requires 0 <= i < |columns| => columns[i].id)
  }

  /** `initialState` */
  function InitialState(): GridState {
    GridState([], InitialColumns, VisibleIds(InitialColumns), PinnedColumns([], []), [], [], {},
              PaginationState(1, 50, 0), false, None, "", Standard, Light)
  }

  // ===========================================================================
  // Helpers over the copies the reducer builds
  // ===========================================================================

  /** `s.filter((id) => id !== x)` */
  function Remove(s: seq<string>, x: string): (r: seq<string>)
    ensures forall y :: y in r <==> y in s && y != x
    ensures |r| <= |s|
  {
    if s == [] then [] else (if s[0] == x then [] else [s[0]]) + Remove(s[1..], x)
  }

  /** The filter keeps the other ids in their order: filtering a concatenation filters each part. */
  lemma {:induction false} RemoveAppend(a: seq<string>, b: seq<string>, x: string)
    ensures Remove(a + b, x) == Remove(a, x) + Remove(b, x)
    decreases |b|
  {
    if b == [] {
      assert a + b == a;
    } else {
      var init, last := b[..|b| - 1], b[|b| - 1];
      assert b == init + [last];
      assert a + b == (a + init) + [last];
      RemoveSnoc(a + init, x, last);
      RemoveSnoc(init, x, last);
      RemoveAppend(a, init, x);
    }
  }

  lemma {:induction false} RemoveAbsent(s: seq<string>, x: string)
    requires x !in s
    ensures Remove(s, x) == s
  {
    if s != [] {
      RemoveAbsent(s[1..], x);
      assert s == [s[0]] + s[1..];
    }
  }

  lemma {:induction false} RemoveSnoc(s: seq<string>, x: string, y: string)
    ensures Remove(s + [y], x) == Remove(s, x) + (if y == x then [] else [y])
  {
    if s != [] {
      RemoveSnoc(s[1..], x, y);
      assert (s + [y])[1..] == s[1..] + [y];
    }
  }

  /** TOGGLE_COLUMN_VISIBILITY on the visible list: a visible id is filtered out, a hidden one appended. */
  function ToggleId(visible: seq<string>, id: string): seq<string> {
    if id in visible then Remove(visible, id) else visible + [id]
  }

  /** The splice start index of `Array.prototype.splice`: negative counts from the end, then clamped. */
  function SpliceIndex(i: int, len: nat): (r: nat)
    ensures r <= len
  {
    GridHelpers.ClampIndex(i, len)
  }

  /** `splice(from, 1)` removes an element only when the resolved index is inside the list. */
  predicate ReorderDefined(columns: seq<Column>, fromIndex: int) {
    SpliceIndex(fromIndex, |columns|) < |columns|
  }

  /** `splice(from, 1)` followed by `splice(to, 0, moved)` on a copy of `columns`. */
  function Reorder(columns: seq<Column>, fromIndex: int, toIndex: int): seq<Column>
    requires ReorderDefined(columns, fromIndex)
  {
    var f := SpliceIndex(fromIndex, |columns|);
    var rest := columns[..f] + columns[f + 1..];
    var t := SpliceIndex(toIndex, |rest|);
    rest[..t] + [columns[f]] + rest[t..]
  }

  function SetWidth(columns: seq<Column>, columnId: string, width: int): seq<Column> {
    seq(|columns|, i requires 0 <= i < |columns| =>
      if columns[i].id == columnId then columns[i].(width := Some(width)) else columns[i])
  }

  function Pin(pins: PinnedColumns, columnId: string, side: Side): PinnedColumns {
    var left := Remove(pins.left, columnId);
    var right := Remove(pins.right, columnId);
    match side
    case PinLeft => PinnedColumns(left + [columnId], right)
    case PinRight => PinnedColumns(left, right + [columnId])
    case PinNone => PinnedColumns(left, right)
  }

  function ToggleSelection(selected: set<string>, rowId: string): set<string> {
    if rowId in selected then selected - {rowId} else selected + {rowId}
  }

  function RowIds(data: seq<User>): set<string> {
    set i | 0 <= i < |data| :: IntToString(data[i].id)
  }

  function MergePagination(p: PaginationState, patch: PaginationPatch): PaginationState {
    PaginationState(Pick(patch.page, p.page), Pick(patch.pageSize, p.pageSize), Pick(patch.total, p.total))
  }

  function UpdateRows(data: seq<User>, rowId: string, patch: UserPatch): seq<User> {
    seq(|data|, i requires 0 <= i < |data| =>
      if IntToString(data[i].id) == rowId then Merge(data[i], patch) else data[i])
  }

  // ===========================================================================
  // gridReducer
  // ===========================================================================

  /**
    The actions the reducer handles without producing an ill-formed state: a reorder must take its
    column from inside the list (otherwise `splice` returns nothing and `undefined` is inserted
    into `columns`).
  */
  predicate Dispatchable(state: GridState, action: GridAction) {
    action.ReorderColumns? ==> ReorderDefined(state.columns, action.fromIndex)
  }

  /** `gridReducer(state, action)` */
  function Reduce(state: GridState, action: GridAction): GridState
    requires Dispatchable(state, action)
  {
    match action
    case SetData(rows) => state.(data := rows)
    case SetLoading(b) => state.(loading := b)
    case SetError(m) => state.(error := m)
    case SetColumns(cs) => state.(columns := cs)
    case ToggleColumnVisibility(id) =>
      state.(visibleColumns := ToggleId(state.visibleColumns, id))
    case ReorderColumns(f, t) => state.(columns := Reorder(state.columns, f, t))
    case PinColumn(id, side) => state.(pinnedColumns := Pin(state.pinnedColumns, id, side))
    case ResizeColumn(id, w) => state.(columns := SetWidth(state.columns, id, w))
    case SetSort(m) => state.(sortModel := m)
    case SetFilter(m) => state.(filterModel := m)
    case SetSearch(q) => state.(searchQuery := q)
    case SelectRow(id) => state.(selectedRows := ToggleSelection(state.selectedRows, id))
    case SelectAllRows(all) => state.(selectedRows := if all then RowIds(state.data) else {})
    case SetPagination(patch) => state.(pagination := MergePagination(state.pagination, patch))
    case SetDensity(d) => state.(density := d)
    case SetTheme(t) => state.(theme := t)
    case UpdateRow(id, patch) => state.(data := UpdateRows(state.data, id, patch))
  }

  // ===========================================================================
  // Nothing else changes
  // ===========================================================================

  /** The fields of `GridState`. */
  datatype StateField =
    | DataField | ColumnsField | VisibleField | PinnedField | SortField | FilterField | SelectionField
    | PaginationField | LoadingField | ErrorField | SearchField | DensityField | ThemeField

  predicate Agree(s: GridState, t: GridState, f: StateField) {
    match f
    case DataField => s.data == t.data
    case ColumnsField => s.columns == t.columns
    case VisibleField => s.visibleColumns == t.visibleColumns
    case PinnedField => s.pinnedColumns == t.pinnedColumns
    case SortField => s.sortModel == t.sortModel
    case FilterField => s.filterModel == t.filterModel
    case SelectionField => s.selectedRows == t.selectedRows
    case PaginationField => s.pagination == t.pagination
    case LoadingField => s.loading == t.loading
    case ErrorField => s.error == t.error
    case SearchField => s.searchQuery == t.searchQuery
    case DensityField => s.density == t.density
    case ThemeField => s.theme == t.theme
  }

  /** The one field each action writes. */
  function Writes(action: GridAction): StateField {
    match action
    case SetData(_) => DataField
    case SetLoading(_) => LoadingField
    case SetError(_) => ErrorField
    case SetColumns(_) => ColumnsField
    case ToggleColumnVisibility(_) => VisibleField
    case ReorderColumns(_, _) => ColumnsField
    case PinColumn(_, _) => PinnedField
    case ResizeColumn(_, _) => ColumnsField
    case SetSort(_) => SortField
    case SetFilter(_) => FilterField
    case SetSearch(_) => SearchField
    case SelectRow(_) => SelectionField
    case SelectAllRows(_) => SelectionField
    case SetPagination(_) => PaginationField
    case SetDensity(_) => DensityField
    case SetTheme(_) => ThemeField
    case UpdateRow(_, _) => DataField
  }

  /** Every action leaves every field other than the one it writes as it was. */
  lemma ReduceWritesOneField(state: GridState, action: GridAction, f: StateField)
    requires Dispatchable(state, action)
    requires f != Writes(action)
    ensures Agree(state, Reduce(state, action), f)
  {
  }

  /**
    The plain setters store their payload: data, loading flag, error, columns, sort model, filter
    model, search query, density and theme.
  */
  lemma SettersStorePayload(state: GridState, action: GridAction)
    requires Dispatchable(state, action)
    ensures var r := Reduce(state, action);
            && (action.SetData? ==> r.data == action.rows)
            && (action.SetLoading? ==> r.loading == action.isLoading)
            && (action.SetError? ==> r.error == action.message)
            && (action.SetColumns? ==> r.columns == action.newColumns)
            && (action.SetSort? ==> r.sortModel == action.newSortModel)
            && (action.SetFilter? ==> r.filterModel == action.newFilterModel)
            && (action.SetSearch? ==> r.searchQuery == action.query)
            && (action.SetDensity? ==> r.density == action.newDensity)
            && (action.SetTheme? ==> r.theme == action.newTheme)
  {
  }

  // ===========================================================================
  // TOGGLE_COLUMN_VISIBILITY
  // ===========================================================================

  /**
    A visible id is removed (every occurrence); a hidden one is appended at the end. No other id
    changes membership.
  */
  lemma ToggleVisibility(state: GridState, id: string)
    ensures var r := Reduce(state, ToggleColumnVisibility(id)).visibleColumns;
            && (id in r <==> id !in state.visibleColumns)
            && (forall y | y != id :: y in r <==> y in state.visibleColumns)
            && (id !in state.visibleColumns ==> r == state.visibleColumns + [id])
  {
  }

  /** Toggling twice restores the membership of every id, and restores the list itself when the id was hidden. */
  lemma ToggleTwice(state: GridState, id: string)
    ensures var twice := Reduce(Reduce(state, ToggleColumnVisibility(id)), ToggleColumnVisibility(id));
            && (forall y :: y in twice.visibleColumns <==> y in state.visibleColumns)
            && (id !in state.visibleColumns ==> twice == state)
  {
    var once := Reduce(state, ToggleColumnVisibility(id));
    if id !in state.visibleColumns {
      RemoveSnoc(state.visibleColumns, id, id);
      RemoveAbsent(state.visibleColumns, id);
    }
  }

  // ===========================================================================
  // PIN_COLUMN
  // ===========================================================================

  predicate PinsDisjoint(pins: PinnedColumns) {
    forall y :: y in pins.left ==> y !in pins.right
  }

  /**
    After a pin the id is on the chosen side only (on neither for `"none"`), every other id keeps its
    sides, and the two sides stay disjoint.
  */
  lemma PinPlacesOnce(state: GridState, id: string, side: Side)
    ensures var p := Reduce(state, PinColumn(id, side)).pinnedColumns;
            && (id in p.left <==> side == PinLeft)
            && (id in p.right <==> side == PinRight)
            && (forall y | y != id :: (y in p.left <==> y in state.pinnedColumns.left) &&
                                      (y in p.right <==> y in state.pinnedColumns.right))
            && (PinsDisjoint(state.pinnedColumns) ==> PinsDisjoint(p))
  {
  }

  /** No action of the reducer can break the disjointness of the pinned sides. */
  lemma ReducePreservesPinsDisjoint(state: GridState, action: GridAction)
    requires Dispatchable(state, action)
    requires PinsDisjoint(state.pinnedColumns)
    ensures PinsDisjoint(Reduce(state, action).pinnedColumns)
  {
    if action.PinColumn? {
      PinPlacesOnce(state, action.columnId, action.side);
    }
  }

  // ===========================================================================
  // REORDER_COLUMNS
  // ===========================================================================

  /**
    A reorder within range is a permutation of the columns in which the moved column sits at the
    target index; every other column keeps its relative order.
  */
  lemma ReorderMoves(state: GridState, fromIndex: int, toIndex: int)
    requires 0 <= fromIndex < |state.columns| && 0 <= toIndex < |state.columns|
    ensures var cs := state.columns;
            var r := Reduce(state, ReorderColumns(fromIndex, toIndex)).columns;
            && |r| == |cs|
            && multiset(r) == multiset(cs)
            && r[toIndex] == cs[fromIndex]
            && r[..toIndex] + r[toIndex + 1..] == cs[..fromIndex] + cs[fromIndex + 1..]
  {
    var cs := state.columns;
    var rest := cs[..fromIndex] + cs[fromIndex + 1..];
    var r := Reduce(state, ReorderColumns(fromIndex, toIndex)).columns;
    assert r == rest[..toIndex] + [cs[fromIndex]] + rest[toIndex..];
    assert cs == cs[..fromIndex] + [cs[fromIndex]] + cs[fromIndex + 1..];
    assert rest == rest[..toIndex] + rest[toIndex..];
    assert r[..toIndex] == rest[..toIndex];
    assert r[toIndex + 1..] == rest[toIndex..];
    calc {
      multiset(r);
      multiset(rest[..toIndex]) + multiset{cs[fromIndex]} + multiset(rest[toIndex..]);
      multiset(rest) + multiset{cs[fromIndex]};
      multiset(cs[..fromIndex]) + multiset(cs[fromIndex + 1..]) + multiset{cs[fromIndex]};
      multiset(cs);
    }
  }

  // ===========================================================================
  // RESIZE_COLUMN
  // ===========================================================================

  /**
    A resize keeps the length and order of the columns, sets the width of every column with the
    id to exactly the payload (no clamping), and changes nothing else.
  */
  lemma ResizeOnlyWidth(state: GridState, id: string, width: int)
    ensures var cs := state.columns;
            var r := Reduce(state, ResizeColumn(id, width)).columns;
            && |r| == |cs|
            && (forall i | 0 <= i < |r| :: r[i].(width := cs[i].width) == cs[i])
            && (forall i | 0 <= i < |r| :: r[i].width == if cs[i].id == id then Some(width) else cs[i].width)
            && ((forall i | 0 <= i < |cs| :: cs[i].id != id) ==> r == cs)
  {
  }

  // ===========================================================================
  // SELECT_ROW / SELECT_ALL_ROWS
  // ===========================================================================

  /** Selecting a row flips its membership and no other; doing it twice is the identity. */
  lemma SelectRowFlips(state: GridState, id: string)
    ensures var r := Reduce(state, SelectRow(id));
            && (id in r.selectedRows <==> id !in state.selectedRows)
            && r.selectedRows - {id} == state.selectedRows - {id}
            && Reduce(r, SelectRow(id)) == state
  {
    var r := Reduce(state, SelectRow(id));
    assert Reduce(r, SelectRow(id)).selectedRows == state.selectedRows;
  }

  /** Select-all selects exactly the stringified ids of the loaded rows; clearing empties the selection. */
  lemma SelectAll(state: GridState, all: bool)
    ensures var r := Reduce(state, SelectAllRows(all)).selectedRows;
            && (all ==> forall s :: s in r <==> exists i | 0 <= i < |state.data| :: IntToString(state.data[i].id) == s)
            && (!all ==> r == {})
  {
  }

  // ===========================================================================
  // SET_PAGINATION
  // ===========================================================================

  /** The patch overwrites the fields it holds and no other; in particular the page is not reset. */
  lemma SetPaginationMerges(state: GridState, patch: PaginationPatch)
    ensures var p := Reduce(state, SetPagination(patch)).pagination;
            && p.page == (if patch.page.Some? then patch.page.value else state.pagination.page)
            && p.pageSize == (if patch.pageSize.Some? then patch.pageSize.value else state.pagination.pageSize)
            && p.total == (if patch.total.Some? then patch.total.value else state.pagination.total)
  {
  }

  // ===========================================================================
  // UPDATE_ROW
  // ===========================================================================

  /**
    An update merges the patch into exactly the rows whose stringified id is `id`, keeps the
    length, and changes nothing when no row has that id.
  */
  lemma UpdateRowMerges(state: GridState, id: string, patch: UserPatch)
    ensures var d := state.data;
            var r := Reduce(state, UpdateRow(id, patch)).data;
            && |r| == |d|
            && (forall i | 0 <= i < |d| && IntToString(d[i].id) == id :: r[i] == Merge(d[i], patch))
            && (forall i | 0 <= i < |d| && IntToString(d[i].id) != id :: r[i] == d[i])
            && ((forall i | 0 <= i < |d| :: IntToString(d[i].id) != id) ==> r == d)
  {
  }

  /** A merged row takes each field from the patch where present and keeps the rest. */
  lemma MergeFields(u: User, p: UserPatch)
    ensures var m := Merge(u, p);
            && (p.name.Some? ==> m.name == p.name.value) && (p.name.None? ==> m.name == u.name)
            && (p.salary.Some? ==> m.salary == p.salary.value) && (p.salary.None? ==> m.salary == u.salary)
            && (p.status.Some? ==> m.status == p.status.value) && (p.status.None? ==> m.status == u.status)
            && m.id == (if p.id.Some? then p.id.value else u.id)
            && m.email == (if p.email.Some? then p.email.value else u.email)
            && m.role == (if p.role.Some? then p.role.value else u.role)
            && m.department == (if p.department.Some? then p.department.value else u.department)
            && m.joinDate == (if p.joinDate.Some? then p.joinDate.value else u.joinDate)
            && m.avatar == (if p.avatar.Some? then p.avatar else u.avatar)
            && (p == UserPatch(None, None, None, None, None, None, None, None, None) ==> m == u)
  {
  }

  // ===========================================================================
  // Initial state
  // ===========================================================================

  /**
    Every initial column is visible, so `visibleColumns` starts as all nine ids in column order;
    nothing is pinned, selected or filtered, and the first page of 50 rows is shown.
  */
  lemma InitialStateShape()
    ensures var s := InitialState();
            && s.visibleColumns == Ids(InitialColumns)
            && |s.visibleColumns| == 9
            && s.visibleColumns[0] == "id" && s.visibleColumns[8] == "actions"
            && PinsDisjoint(s.pinnedColumns)
            && s.pagination == PaginationState(1, 50, 0)
            && s.selectedRows == {} && s.filterModel == [] && s.sortModel == []
  {
    var cs := InitialColumns;
    assert VisibleIds(cs[8..]) == ["actions"];
    assert VisibleIds(cs[7..]) == ["status", "actions"];
    assert VisibleIds(cs[6..]) == ["joinDate", "status", "actions"];
    assert VisibleIds(cs[5..]) == ["salary", "joinDate", "status", "actions"];
    assert VisibleIds(cs[4..]) == ["department", "salary", "joinDate", "status", "actions"];
    assert VisibleIds(cs[3..]) == ["role", "department", "salary", "joinDate", "status", "actions"];
    assert VisibleIds(cs[2..]) == ["email", "role", "department", "salary", "joinDate", "status", "actions"];
    assert VisibleIds(cs[1..]) == ["name", "email", "role", "department", "salary", "joinDate", "status", "actions"];
  }

  /**
    No initial column declares `pinnable` or `resizable`, so the header shows neither a pin button
    nor a resize handle for the default column set.
  */
  lemma InitialColumnsNotPinnableOrResizable()
    ensures forall i | 0 <= i < |InitialColumns| ::
              InitialColumns[i].pinnable == None && InitialColumns[i].resizable == None
  {
  }
}
