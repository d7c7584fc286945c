/**
  The rules of `components/DataGrid/DataGridHeader.tsx`: the sort-toggle cycle, the per-column text
  filter, the select-all checkbox, the pin button, the resize width and the reorder dispatched on
  a header drop.
*/
module Header {
  import opened Wrappers
  import opened Text
  import opened GridTypes
  import opened IntMath
  import opened GridReducer
  import opened DataGridView

  // ===========================================================================
  // handleSort
  // ===========================================================================

  /** At most one sort key per field. */
  predicate UniqueFields(model: SortModel) {
    forall i, j | 0 <= i < j < |model| :: model[i].field != model[j].field
  }

  predicate HasField(model: SortModel, field: string) {
    exists i | 0 <= i < |model| :: model[i].field == field
  }

  /** `sortModel.find((sort) => sort.field === field)` */
  function FindSort(model: SortModel, field: string): Option<SortKey> {
    if model == [] then None
    else if model[0].field == field then Some(model[0])
    else FindSort(model[1..], field)
  }

  /** The search finds nothing exactly when no key has the field, and otherwise the first key that has it. */
  lemma {:induction false} FindSortSpec(model: SortModel, field: string)
    ensures FindSort(model, field).None? <==> !HasField(model, field)
    ensures FindSort(model, field).Some? ==>
              exists i | 0 <= i < |model| :: model[i] == FindSort(model, field).value && model[i].field == field &&
                forall j | 0 <= j < i :: model[j].field != field
  {
    if model != [] && model[0].field != field {
      var tail := model[1..];
      FindSortSpec(tail, field);
      var r := FindSort(tail, field);
      if r.Some? {
        var i :| 0 <= i < |tail| && tail[i] == r.value && tail[i].field == field &&
                 forall j | 0 <= j < i :: tail[j].field != field;
        assert model[i + 1] == r.value;
        forall j | 0 <= j < i + 1 ensures model[j].field != field {
          if j > 0 { assert model[j] == tail[j - 1]; }
        }
      } else {
        forall i | 0 <= i < |model| ensures model[i].field != field {
          if i > 0 { assert model[i] == tail[i - 1]; }
        }
      }
    } else if model != [] {
      assert model[0].field == field;
    }
  }

  /** `sortModel.filter((sort) => sort.field !== field)` */
  function RemoveField(model: SortModel, field: string): (r: SortModel)
    ensures |r| <= |model|
  {
    if model == [] then [] else (if model[0].field == field then [] else [model[0]]) + RemoveField(model[1..], field)
  }

  /** The filter keeps exactly the entries on other fields. */
  lemma {:induction false} RemoveFieldMembers(model: SortModel, field: string)
    ensures forall k :: k in RemoveField(model, field) <==> k in model && k.field != field
  {
    if model != [] {
      RemoveFieldMembers(model[1..], field);
      assert model == [model[0]] + model[1..];
    }
  }

  /** `handleSort(columnId)`: absent becomes ascending at the end, ascending becomes descending, descending is removed. */
  function HandleSort(model: SortModel, field: string): SortModel {
    match FindSort(model, field)
    case None => model + [SortKey(field, Asc)]
    case Some(k) =>
      if k.sort == Asc then
        seq(|model|, i requires 0 <= i < |model| =>
          if model[i].field == field then model[i].(sort := Desc) else model[i])
      else RemoveField(model, field)
  }

  lemma {:induction false} RemoveFieldAbsent(model: SortModel, field: string)
    requires !HasField(model, field)
    ensures RemoveField(model, field) == model
  {
    if model != [] {
      assert !HasField(model[1..], field) by {
        forall i | 0 <= i < |model[1..]| ensures model[1..][i].field != field {
          assert model[1..][i] == model[i + 1];
        }
      }
      RemoveFieldAbsent(model[1..], field);
      assert model == [model[0]] + model[1..];
    }
  }

  lemma {:induction false} RemoveFieldSnoc(model: SortModel, field: string, k: SortKey)
    ensures RemoveField(model + [k], field) == RemoveField(model, field) + (if k.field == field then [] else [k])
  {
    if model != [] {
      RemoveFieldSnoc(model[1..], field, k);
      assert (model + [k])[1..] == model[1..] + [k];
    }
  }

  /**
    The filter keeps the surviving keys in their order, and so in their priority: filtering a
    concatenation filters each part.
  */
  lemma {:induction false} RemoveFieldAppend(a: SortModel, b: SortModel, field: string)
    ensures RemoveField(a + b, field) == RemoveField(a, field) + RemoveField(b, field)
    decreases |b|
  {
    if b == [] {
      assert a + b == a;
    } else {
      var init, last := b[..|b| - 1], b[|b| - 1];
      assert b == init + [last];
      assert a + b == (a + init) + [last];
      RemoveFieldSnoc(a + init, field, last);
      RemoveFieldSnoc(init, field, last);
      RemoveFieldAppend(a, init, field);
    }
  }

  /** Removing a field keeps one key per field. */
  lemma {:induction false} RemoveFieldUnique(model: SortModel, field: string)
    requires UniqueFields(model)
    ensures UniqueFields(RemoveField(model, field))
  {
    if model != [] {
      var tail := model[1..];
      assert UniqueFields(tail) by {
        forall i, j | 0 <= i < j < |tail| ensures tail[i].field != tail[j].field {
          assert tail[i] == model[i + 1] && tail[j] == model[j + 1];
        }
      }
      RemoveFieldUnique(tail, field);
      RemoveFieldMembers(tail, field);
      var rest := RemoveField(tail, field);
      if model[0].field != field {
        var r := [model[0]] + rest;
        forall i, j | 0 <= i < j < |r| ensures r[i].field != r[j].field {
          if i == 0 {
            assert r[j] in rest;
            var m :| 0 <= m < |tail| && tail[m] == r[j];
            assert model[m + 1] == r[j];
          } else {
            assert r[i] == rest[i - 1] && r[j] == rest[j - 1];
          }
        }
      }
    }
  }

  /**
    The three cases of a click: an absent field is appended as ascending; an ascending key turns
    descending in place with every other key unchanged; a descending key is removed and every
    other key kept.
  */
  lemma HandleSortCases(model: SortModel, field: string)
    ensures var r := HandleSort(model, field);
            && (!HasField(model, field) ==> r == model + [SortKey(field, Asc)])
            && (FindSort(model, field) == Some(SortKey(field, Asc)) ==>
                  |r| == |model| &&
                  forall i | 0 <= i < |model| ::
                    r[i] == if model[i].field == field then SortKey(field, Desc) else model[i])
            && (FindSort(model, field) == Some(SortKey(field, Desc)) ==>
                  !HasField(r, field) && forall k: SortKey | k.field != field :: k in r <==> k in model)
  {
    FindSortSpec(model, field);
    var r := HandleSort(model, field);
    if FindSort(model, field) == Some(SortKey(field, Desc)) {
      RemoveFieldMembers(model, field);
      assert !HasField(r, field) by {
        forall i | 0 <= i < |r| ensures r[i].field != field {
          assert r[i] in r;
        }
      }
    }
  }

  /** A click keeps the model at one key per field. */
  lemma HandleSortUnique(model: SortModel, field: string)
    requires UniqueFields(model)
    ensures UniqueFields(HandleSort(model, field))
  {
    FindSortSpec(model, field);
    match FindSort(model, field)
    case None => {
      var r := HandleSort(model, field);
      forall i, j | 0 <= i < j < |r| ensures r[i].field != r[j].field {
        if j == |model| {
          assert r[i] == model[i];
        } else {
          assert r[i] == model[i] && r[j] == model[j];
        }
      }
    }
    case Some(k) => {
      if k.sort != Asc {
        RemoveFieldUnique(model, field);
      }
    }
  }

  /** Three clicks on a column that is not sorted return to the original model. */
  lemma ThreeClicksRestore(model: SortModel, field: string)
    requires !HasField(model, field)
    ensures HandleSort(HandleSort(HandleSort(model, field), field), field) == model
  {
    FindSortSpec(model, field);
    var m1 := model + [SortKey(field, Asc)];
    FindSortSpec(m1, field);
    assert FindSort(m1, field) == Some(SortKey(field, Asc)) by {
      assert m1[|model|].field == field;
      assert HasField(m1, field);
      forall j | 0 <= j < |model| ensures m1[j].field != field {
        assert m1[j] == model[j];
      }
      var i :| 0 <= i < |m1| && m1[i] == FindSort(m1, field).value && m1[i].field == field;
    }
    var m2 := HandleSort(m1, field);
    assert m2 == model + [SortKey(field, Desc)] by {
      forall i | 0 <= i < |m2| ensures m2[i] == (model + [SortKey(field, Desc)])[i] {
        if i < |model| {
          assert m1[i] == model[i];
          assert model[i].field != field;
        }
      }
    }
    FindSortSpec(m2, field);
    assert FindSort(m2, field) == Some(SortKey(field, Desc)) by {
      assert m2[|model|].field == field;
      assert HasField(m2, field);
      forall j | 0 <= j < |model| ensures m2[j].field != field {
        assert m2[j] == model[j];
      }
      var i :| 0 <= i < |m2| && m2[i] == FindSort(m2, field).value && m2[i].field == field;
    }
    RemoveFieldSnoc(model, field, SortKey(field, Desc));
    RemoveFieldAbsent(model, field);
  }

  // ===========================================================================
  // handleFilter
  // ===========================================================================

  /** `filterModel[field]` */
  function Lookup(filters: FilterModel, field: string): Option<FilterEntry> {
    if filters == [] then None
    else if filters[0].field == field then Some(filters[0])
    else Lookup(filters[1..], field)
  }

  /** `filterModel[e.field] = e`: an existing key keeps its position, a new key goes last. */
  function Assign(filters: FilterModel, e: FilterEntry): FilterModel {
    if filters == [] then [e]
    else if filters[0].field == e.field then [e] + filters[1..]
    else [filters[0]] + Assign(filters[1..], e)
  }

  /** `delete filterModel[field]` */
  function Delete(filters: FilterModel, field: string): FilterModel {
    if filters == [] then []
    else (if filters[0].field == field then [] else [filters[0]]) + Delete(filters[1..], field)
  }

  /** `handleFilter(columnId, value)`: a non-empty value sets a `contains` filter, an empty value clears the column. */
  function HandleFilter(filters: FilterModel, field: string, value: string): FilterModel {
    if value != "" then Assign(filters, FilterEntry(field, Contains, Str(value))) else Delete(filters, field)
  }

  lemma {:induction false} AssignSpec(filters: FilterModel, e: FilterEntry, k: string)
    ensures Lookup(Assign(filters, e), k) == if k == e.field then Some(e) else Lookup(filters, k)
    ensures forall x :: x in Assign(filters, e) ==> x == e || x in filters
  {
    if filters != [] && filters[0].field != e.field {
      AssignSpec(filters[1..], e, k);
    }
  }

  lemma {:induction false} DeleteSpec(filters: FilterModel, field: string, k: string)
    ensures Lookup(Delete(filters, field), k) == if k == field then None else Lookup(filters, k)
    ensures forall x :: x in Delete(filters, field) ==> x in filters && x.field != field
  {
    if filters != [] {
      var tail := filters[1..];
      DeleteSpec(tail, field, k);
      if filters[0].field != field {
        var r := [filters[0]] + Delete(tail, field);
        assert r[0] == filters[0] && r[1..] == Delete(tail, field);
      } else {
        assert Delete(filters, field) == Delete(tail, field);
      }
    }
  }

  lemma {:induction false} AssignUnique(filters: FilterModel, e: FilterEntry)
    requires UniqueKeys(filters)
    ensures UniqueKeys(Assign(filters, e))
  {
    if filters != [] {
      var tail := filters[1..];
      assert UniqueKeys(tail) by {
        forall i, j | 0 <= i < j < |tail| ensures tail[i].field != tail[j].field {
          assert tail[i] == filters[i + 1] && tail[j] == filters[j + 1];
        }
      }
      if filters[0].field == e.field {
        var r := [e] + tail;
        forall i, j | 0 <= i < j < |r| ensures r[i].field != r[j].field {
          assert r[j] == filters[j];
          if i > 0 { assert r[i] == filters[i]; }
        }
      } else {
        AssignUnique(tail, e);
        var rest := Assign(tail, e);
        var r := [filters[0]] + rest;
        forall i, j | 0 <= i < j < |r| ensures r[i].field != r[j].field {
          if i == 0 {
            AssignSpec(tail, e, e.field);
            assert r[j] in rest;
            if r[j] != e {
              var m :| 0 <= m < |tail| && tail[m] == r[j];
              assert filters[m + 1] == r[j];
            }
          } else {
            assert r[i] == rest[i - 1] && r[j] == rest[j - 1];
          }
        }
      }
    }
  }

  lemma {:induction false} DeleteUnique(filters: FilterModel, field: string)
    requires UniqueKeys(filters)
    ensures UniqueKeys(Delete(filters, field))
  {
    if filters != [] {
      var tail := filters[1..];
      assert UniqueKeys(tail) by {
        forall i, j | 0 <= i < j < |tail| ensures tail[i].field != tail[j].field {
          assert tail[i] == filters[i + 1] && tail[j] == filters[j + 1];
        }
      }
      DeleteUnique(tail, field);
      var rest := Delete(tail, field);
      if filters[0].field != field {
        var r := [filters[0]] + rest;
        forall i, j | 0 <= i < j < |r| ensures r[i].field != r[j].field {
          if i == 0 {
            DeleteSpec(tail, field, field);
            assert r[j] in rest;
            var m :| 0 <= m < |tail| && tail[m] == r[j];
            assert filters[m + 1] == r[j];
          } else {
            assert r[i] == rest[i - 1] && r[j] == rest[j - 1];
          }
        }
      }
    }
  }

  /**
    After typing `value` into a column's filter box the column's entry is a `contains` filter on
    `value`, or gone for an empty value; every other column's entry is untouched, and the model
    still has one entry per column.
  */
  lemma HandleFilterSpec(filters: FilterModel, field: string, value: string, k: string)
    ensures var r := HandleFilter(filters, field, value);
            && Lookup(r, field) == (if value != "" then Some(FilterEntry(field, Contains, Str(value))) else None)
            && (k != field ==> Lookup(r, k) == Lookup(filters, k))
            && (UniqueKeys(filters) ==> UniqueKeys(r))
  {
    if value != "" {
      var e := FilterEntry(field, Contains, Str(value));
      AssignSpec(filters, e, field);
      AssignSpec(filters, e, k);
      if UniqueKeys(filters) { AssignUnique(filters, e); }
    } else {
      DeleteSpec(filters, field, field);
      DeleteSpec(filters, field, k);
      if UniqueKeys(filters) { DeleteUnique(filters, field); }
    }
  }

  // ===========================================================================
  // handleSelectAll
  // ===========================================================================

  /** `handleSelectAll` as written: select all unless the selection is as large as the loaded page. */
  function SelectAllPayload(state: GridState): bool {
    !(|state.selectedRows| == |state.data|)
  }

  /** What the checkbox evidently means: select all unless every loaded row is already selected. */
  function SelectAllPayloadIntended(state: GridState): bool {
    !(forall i | 0 <= i < |state.data| :: IntToString(state.data[i].id) in state.selectedRows)
  }

  /** As written, the click dispatches `false` exactly when the sizes agree, and `true` otherwise. */
  lemma SelectAllBySize(state: GridState)
    ensures var r := Reduce(state, SelectAllRows(SelectAllPayload(state))).selectedRows;
            && (|state.selectedRows| == |state.data| ==> r == {})
            && (|state.selectedRows| != |state.data| ==> r == RowIds(state.data))
  {
  }

  /**
    The size test is wrong once the selection holds ids of rows that are not loaded (rows of
    another page): one stale id and one unselected loaded row make the click clear the selection
    instead of selecting the row.
  */
  lemma SelectAllStaleSelection()
    ensures var row := User(1, "A", "a@x", "Developer", "Design", 1, "2021-01-01", Active, None);
            var state := InitialState().(data := [row], selectedRows := {"2"});
            var r := Reduce(state, SelectAllRows(SelectAllPayload(state))).selectedRows;
            "1" !in state.selectedRows && "1" !in r && r == {}
  {
    var row := User(1, "A", "a@x", "Developer", "Design", 1, "2021-01-01", Active, None);
    assert IntToString(1) == "1";
    assert |{"2"}| == 1;
  }

  /** With the intended test a click selects every loaded row unless all were selected, in which case it clears. */
  lemma SelectAllIntended(state: GridState)
    ensures var r := Reduce(state, SelectAllRows(SelectAllPayloadIntended(state))).selectedRows;
            && (SelectAllPayloadIntended(state) ==> forall i | 0 <= i < |state.data| :: IntToString(state.data[i].id) in r)
            && (!SelectAllPayloadIntended(state) ==> r == {})
  {
  }

  // ===========================================================================
  // Pin button and resize handle
  // ===========================================================================

  /** The header pin button: an unpinned column is pinned left, a column pinned on either side is unpinned. */
  function HeaderPinSide(pins: PinnedColumns, id: string): Side {
    var current := if id in pins.left then PinLeft else if id in pins.right then PinRight else PinNone;
    if current == PinNone then PinLeft else PinNone
  }

  /** After the header pin click the column is pinned left exactly when it was pinned nowhere, and never right. */
  lemma HeaderPinToggles(state: GridState, id: string)
    ensures var p := Reduce(state, PinColumn(id, HeaderPinSide(state.pinnedColumns, id))).pinnedColumns;
            && (id in p.left <==> id !in state.pinnedColumns.left && id !in state.pinnedColumns.right)
            && id !in p.right
  {
    PinPlacesOnce(state, id, HeaderPinSide(state.pinnedColumns, id));
  }

  /** `column.width || 150`: a missing or zero width counts as 150. */
  function StartWidth(width: Option<int>): int {
    if width.Some? && width.value != 0 then width.value else 150
  }

  /** The width a resize drag dispatches when the pointer is at `clientX`, having started at `startX`. */
  function ResizeWidth(width: Option<int>, startX: int, clientX: int): int {
    Max(50, StartWidth(width) + (clientX - startX))
  }

  /**
    A resize never goes below 50 pixels; above that it follows the pointer exactly, it grows with
    the pointer, and returning the pointer to where it started restores the start width.
  */
  lemma ResizeWidthSpec(width: Option<int>, startX: int, clientX: int, clientX2: int)
    ensures ResizeWidth(width, startX, clientX) >= 50
    ensures StartWidth(width) + (clientX - startX) >= 50 ==>
              ResizeWidth(width, startX, clientX) == StartWidth(width) + (clientX - startX)
    ensures clientX <= clientX2 ==> ResizeWidth(width, startX, clientX) <= ResizeWidth(width, startX, clientX2)
    ensures StartWidth(width) >= 50 ==> ResizeWidth(width, startX, startX) == StartWidth(width)
    ensures width.None? ==> ResizeWidth(width, startX, startX) == 150
  {
  }

  /** The resize handle sets the dragged column's width to at least 50. */
  lemma ResizeDispatchBounded(state: GridState, id: string, width: Option<int>, startX: int, clientX: int)
    ensures var r := Reduce(state, ResizeColumn(id, ResizeWidth(width, startX, clientX))).columns;
            forall i | 0 <= i < |r| && r[i].id == id :: r[i].width.Some? && r[i].width.value >= 50
  {
    ResizeOnlyWidth(state, id, ResizeWidth(width, startX, clientX));
    var r := Reduce(state, ResizeColumn(id, ResizeWidth(width, startX, clientX))).columns;
    forall i | 0 <= i < |r| && r[i].id == id ensures r[i].width.Some? && r[i].width.value >= 50 {
      assert state.columns[i].id == id;
    }
  }

  // ===========================================================================
  // Header drop
  // ===========================================================================

  /**
    The header drop as written: the indices are positions among the visible columns, passed
    unchanged to `REORDER_COLUMNS`, which indexes the full column list.
  */
  function HeaderDrop(state: GridState, fromVisible: int, toVisible: int): GridState
    requires Dispatchable(state, ReorderColumns(fromVisible, toVisible))
  {
    Reduce(state, ReorderColumns(fromVisible, toVisible))
  }

  /**
    With a hidden column before the dragged one the wrong column moves: with columns a, b, c and b
    hidden, dragging c (visible position 1) onto a (visible position 0) moves b and leaves c last.
  */
  lemma HeaderDropMovesWrongColumn(base: GridState)
    ensures var a := DataColumn("a", "A", TextColumn, 100);
            var b := DataColumn("b", "B", TextColumn, 100);
            var c := DataColumn("c", "C", TextColumn, 100);
            var state := base.(columns := [a, b, c], visibleColumns := ["a", "c"]);
            var shown := VisibleColumnsOf(state.columns, state.visibleColumns);
            && shown == [a, c]
            && HeaderDrop(state, 1, 0).columns == [b, a, c]
            && HeaderDrop(state, 1, 0).columns[0] != shown[1]
  {
    var a := DataColumn("a", "A", TextColumn, 100);
    var b := DataColumn("b", "B", TextColumn, 100);
    var c := DataColumn("c", "C", TextColumn, 100);
    var cs := [a, b, c];
    var vis := ["a", "c"];
    assert "b" !in vis && "a" in vis && "c" in vis;
    assert cs[..2] == [a, b] && [a, b][..1] == [a] && [a][..0] == [];
    assert VisibleColumnsOf([a], vis) == [a];
    assert VisibleColumnsOf([a, b], vis) == [a];
    assert VisibleColumnsOf(cs, vis) == [a, c];
    var state := base.(columns := cs, visibleColumns := vis);
    assert cs[..1] + cs[2..] == [a, c];
    assert Reorder(cs, 1, 0) == [b, a, c];
    assert HeaderDrop(state, 1, 0).columns == Reorder(cs, 1, 0);
  }

  /** The drop with visible positions translated to positions in the full column list. */
  function HeaderDropCorrected(state: GridState, fromVisible: int, toVisible: int): GridState
    requires 0 <= fromVisible < |VisibleColumnsOf(state.columns, state.visibleColumns)|
    requires 0 <= toVisible < |VisibleColumnsOf(state.columns, state.visibleColumns)|
  {
    var positions := VisiblePositions(state.columns, state.visibleColumns);
    Reduce(state, ReorderColumns(positions[fromVisible], positions[toVisible]))
  }

  /**
    The corrected drop moves the dragged column, and only it, to where the target column stood,
    keeping the set of columns.
  */
  lemma HeaderDropCorrectedMoves(state: GridState, fromVisible: int, toVisible: int)
    requires 0 <= fromVisible < |VisibleColumnsOf(state.columns, state.visibleColumns)|
    requires 0 <= toVisible < |VisibleColumnsOf(state.columns, state.visibleColumns)|
    ensures var shown := VisibleColumnsOf(state.columns, state.visibleColumns);
            var positions := VisiblePositions(state.columns, state.visibleColumns);
            var r := HeaderDropCorrected(state, fromVisible, toVisible).columns;
            && multiset(r) == multiset(state.columns)
            && r[positions[toVisible]] == shown[fromVisible]
  {
    var positions := VisiblePositions(state.columns, state.visibleColumns);
    ReorderMoves(state, positions[fromVisible], positions[toVisible]);
  }
}
