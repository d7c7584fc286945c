/**
  The rules of `components/DataGrid/ColumnManager.tsx`: resetting column visibility to the
  defaults by dispatching toggles, the row projection used by the export buttons, and the
  left/right pin buttons.
*/
module ColumnManager {
  import opened Wrappers
  import opened GridTypes
  import opened GridReducer

  // ===========================================================================
  // resetColumns
  // ===========================================================================

  /** `columns.filter((col) => col.visible !== false).map((col) => col.id)`: a missing flag counts as visible. */
  function DefaultVisibleIds(columns: seq<Column>): seq<string> {
    if columns == [] then []
    else (if columns[0].visible != Some(false) then [columns[0].id] else []) + DefaultVisibleIds(columns[1..])
  }

  /**
    The ids `resetColumns` toggles, in column order: those whose membership in the visible list
    (as it stood when the reset started) differs from their membership in the defaults.
  */
  function ResetToggles(columns: seq<Column>, visible: seq<string>, defaults: seq<string>): seq<string>
    decreases |columns|
  {
    if columns == [] then []
    else
      var n := |columns| - 1;
      var id := columns[n].id;
      ResetToggles(columns[..n], visible, defaults) + (if (id in visible) != (id in defaults) then [id] else [])
  }

  /** The visible list after dispatching a toggle for each id in turn. */
  function ApplyToggles(visible: seq<string>, ids: seq<string>): seq<string>
    decreases |ids|
  {
    if ids == [] then visible
    else ToggleId(ApplyToggles(visible, ids[..|ids| - 1]), ids[|ids| - 1])
  }

  /**
    `resetColumns`: every decision reads the visible list captured when the reset started, while
    the toggles take effect one after another in the store; nothing but the visible list changes.
  */
  method ResetColumns(state: GridState) returns (s: GridState)
    ensures s == state.(visibleColumns := ApplyToggles(state.visibleColumns,
                         ResetToggles(state.columns, state.visibleColumns, DefaultVisibleIds(state.columns))))
  {
    var defaults := DefaultVisibleIds(state.columns);
    s := state;
    var i := 0;
    while i < |state.columns|
      invariant 0 <= i <= |state.columns|
      invariant s == state.(visibleColumns := ApplyToggles(state.visibleColumns,
                              ResetToggles(state.columns[..i], state.visibleColumns, defaults)))
    {
      var id := state.columns[i].id;
      ghost var before := ResetToggles(state.columns[..i], state.visibleColumns, defaults);
      ResetTogglesStep(state.columns, state.visibleColumns, defaults, i);
      if (!(id in state.visibleColumns) && id in defaults) || (id in state.visibleColumns && !(id in defaults)) {
        ToggleDispatch(s, id);
        s := Reduce(s, ToggleColumnVisibility(id));
        ApplyTogglesSnoc(state.visibleColumns, before, id);
      } else {
        assert before + [] == before;
      }
      i := i + 1;
    }
    assert state.columns[..i] == state.columns;
  }

  lemma ResetTogglesStep(columns: seq<Column>, visible: seq<string>, defaults: seq<string>, i: int)
    requires 0 <= i < |columns|
    ensures ResetToggles(columns[..i + 1], visible, defaults)
         == ResetToggles(columns[..i], visible, defaults)
            + (if (columns[i].id in visible) != (columns[i].id in defaults) then [columns[i].id] else [])
  {
    assert columns[..i + 1][..i] == columns[..i];
  }

  lemma ToggleDispatch(s: GridState, id: string)
    ensures Reduce(s, ToggleColumnVisibility(id)) == s.(visibleColumns := ToggleId(s.visibleColumns, id))
  {
  }

  lemma ApplyTogglesSnoc(visible: seq<string>, ids: seq<string>, id: string)
    ensures ApplyToggles(visible, ids + [id]) == ToggleId(ApplyToggles(visible, ids), id)
  {
    assert (ids + [id])[..|ids|] == ids;
  }

  // ---------------------------------------------------------------------------
  // What the reset achieves
  // ---------------------------------------------------------------------------

  predicate UniqueIds(columns: seq<Column>) {
    forall i, j | 0 <= i < j < |columns| :: columns[i].id != columns[j].id
  }

  predicate Odd(n: nat) {
    n % 2 == 1
  }

  /** An id ends up visible when it was and was toggled an even number of times, or vice versa. */
  lemma {:induction false} ApplyTogglesEffect(visible: seq<string>, ids: seq<string>, y: string)
    ensures (y in ApplyToggles(visible, ids)) == ((y in visible) != Odd(multiset(ids)[y]))
    decreases |ids|
  {
    if ids != [] {
      var n := |ids| - 1;
      ApplyTogglesEffect(visible, ids[..n], y);
      assert ids == ids[..n] + [ids[n]];
      assert multiset(ids)[y] == multiset(ids[..n])[y] + (if ids[n] == y then 1 else 0);
    }
  }

  /** An id toggled once when its membership differs from `target`, and never otherwise, ends up with membership `target`. */
  lemma ToggledIfDiffers(visible: seq<string>, ids: seq<string>, y: string, target: bool)
    requires multiset(ids)[y] == if (y in visible) != target then 1 else 0
    ensures (y in ApplyToggles(visible, ids)) == target
  {
    ApplyTogglesEffect(visible, ids, y);
  }

  /** The toggle list has each id as often as the columns do when its membership differs, and not at all otherwise. */
  lemma {:induction false} ResetTogglesCount(columns: seq<Column>, visible: seq<string>, defaults: seq<string>, y: string)
    ensures multiset(ResetToggles(columns, visible, defaults))[y]
         == if (y in visible) != (y in defaults) then multiset(Ids(columns))[y] else 0
    decreases |columns|
  {
    if columns != [] {
      var n := |columns| - 1;
      ResetTogglesCount(columns[..n], visible, defaults, y);
      assert Ids(columns) == Ids(columns[..n]) + [columns[n].id];
    }
  }

  lemma {:induction false} UniqueIdsCount(columns: seq<Column>, y: string)
    requires UniqueIds(columns)
    ensures multiset(Ids(columns))[y] == if y in Ids(columns) then 1 else 0
    decreases |columns|
  {
    if columns != [] {
      var n := |columns| - 1;
      var init := columns[..n];
      assert UniqueIds(init) by {
        forall i, j | 0 <= i < j < |init| ensures init[i].id != init[j].id {
          assert init[i] == columns[i] && init[j] == columns[j];
        }
      }
      UniqueIdsCount(init, y);
      assert Ids(columns) == Ids(init) + [columns[n].id];
    }
  }

  lemma {:induction false} DefaultVisibleIdsSpec(columns: seq<Column>)
    ensures forall y :: y in DefaultVisibleIds(columns) <==>
              exists i | 0 <= i < |columns| :: columns[i].id == y && columns[i].visible != Some(false)
  {
    if columns != [] {
      DefaultVisibleIdsSpec(columns[1..]);
      forall y ensures y in DefaultVisibleIds(columns) <==>
          exists i | 0 <= i < |columns| :: columns[i].id == y && columns[i].visible != Some(false) {
        if y in DefaultVisibleIds(columns[1..]) {
          var i :| 0 <= i < |columns[1..]| && columns[1..][i].id == y && columns[1..][i].visible != Some(false);
          assert columns[i + 1] == columns[1..][i];
        }
        if exists i | 0 <= i < |columns| :: columns[i].id == y && columns[i].visible != Some(false) {
          var i :| 0 <= i < |columns| && columns[i].id == y && columns[i].visible != Some(false);
          if i > 0 { assert columns[1..][i - 1] == columns[i]; }
        }
      }
    }
  }

  /** With distinct ids a column is among the defaults exactly when its own flag is not `false`. */
  lemma UniqueDefault(columns: seq<Column>, i: int)
    requires UniqueIds(columns)
    requires 0 <= i < |columns|
    ensures columns[i].id in DefaultVisibleIds(columns) <==> columns[i].visible != Some(false)
  {
    DefaultVisibleIdsSpec(columns);
    if columns[i].id in DefaultVisibleIds(columns) {
      var j :| 0 <= j < |columns| && columns[j].id == columns[i].id && columns[j].visible != Some(false);
      assert j == i;
    }
  }

  /** A column keeps or gets its default visibility: the toggle list names it once exactly when its visibility differed. */
  lemma ResetColumnDefault(columns: seq<Column>, visible: seq<string>, i: int)
    requires UniqueIds(columns)
    requires 0 <= i < |columns|
    ensures columns[i].id in ApplyToggles(visible, ResetToggles(columns, visible, DefaultVisibleIds(columns)))
        <==> columns[i].visible != Some(false)
  {
    var defaults := DefaultVisibleIds(columns);
    var toggles := ResetToggles(columns, visible, defaults);
    var y := columns[i].id;
    ResetTogglesCount(columns, visible, defaults, y);
    assert Ids(columns)[i] == y;
    UniqueIdsCount(columns, y);
    ToggledIfDiffers(visible, toggles, y, y in defaults);
    UniqueDefault(columns, i);
  }

  /**
    With distinct column ids the reset leaves every column visible exactly when its flag is not
    `false` and leaves ids that name no column as they were.
  */
  lemma ResetRestoresDefaults(columns: seq<Column>, visible: seq<string>)
    requires UniqueIds(columns)
    ensures var r := ApplyToggles(visible, ResetToggles(columns, visible, DefaultVisibleIds(columns)));
            && (forall i | 0 <= i < |columns| :: columns[i].id in r <==> columns[i].visible != Some(false))
            && (forall y | y !in Ids(columns) :: y in r <==> y in visible)
  {
    var defaults := DefaultVisibleIds(columns);
    var toggles := ResetToggles(columns, visible, defaults);
    var r := ApplyToggles(visible, toggles);
    forall i | 0 <= i < |columns| ensures columns[i].id in r <==> columns[i].visible != Some(false) {
      ResetColumnDefault(columns, visible, i);
    }
    forall y | y !in Ids(columns) ensures y in r <==> y in visible {
      ResetTogglesCount(columns, visible, defaults, y);
      ToggledIfDiffers(visible, toggles, y, y in visible);
    }
  }

  // ===========================================================================
  // handleExport
  // ===========================================================================

  /** An exported row: the keys of the JavaScript object in insertion order with their values. */
  type ExportedRow = seq<(string, Value)>

  /** `obj[key]` */
  function Get(obj: ExportedRow, key: string): Option<Value> {
    if obj == [] then None
    else if obj[0].0 == key then Some(obj[0].1)
    else Get(obj[1..], key)
  }

  /** `obj[key] = v`: an existing key keeps its position, a new key goes last. */
  function Put(obj: ExportedRow, key: string, v: Value): ExportedRow {
    if obj == [] then [(key, v)]
    else if obj[0].0 == key then [(key, v)] + obj[1..]
    else [obj[0]] + Put(obj[1..], key, v)
  }

  predicate UniqueKeyList(obj: ExportedRow) {
    forall i, j | 0 <= i < j < |obj| :: obj[i].0 != obj[j].0
  }

  /** The object `handleExport` builds for one row after visiting the first ids of `visible`. */
  function Projection(row: User, visible: seq<string>): ExportedRow
    decreases |visible|
  {
    if visible == [] then []
    else
      var n := |visible| - 1;
      var obj := Projection(row, visible[..n]);
      if visible[n] != "actions" then Put(obj, visible[n], Field(row, visible[n])) else obj
  }

  /** The `forEach` over the visible ids that fills `filteredRow`. */
  method ExportRow(row: User, visible: seq<string>) returns (obj: ExportedRow)
    ensures obj == Projection(row, visible)
  {
    obj := [];
    var i := 0;
    while i < |visible|
      invariant 0 <= i <= |visible|
      invariant obj == Projection(row, visible[..i])
    {
      assert visible[..i + 1][..i] == visible[..i];
      var id := visible[i];
      if id != "actions" {
        obj := Put(obj, id, Field(row, id));
      }
      i := i + 1;
    }
    assert visible[..i] == visible;
  }

  /** `state.data.map(...)`: one exported object per loaded row, in order. */
  method ExportData(data: seq<User>, visible: seq<string>) returns (out: seq<ExportedRow>)
    ensures |out| == |data|
    ensures forall i | 0 <= i < |data| :: out[i] == Projection(data[i], visible)
  {
    out := [];
    for i := 0 to |data|
      invariant |out| == i
      invariant forall k | 0 <= k < i :: out[k] == Projection(data[k], visible)
    {
      var obj := ExportRow(data[i], visible);
      out := out + [obj];
    }
  }

  lemma {:induction false} PutSpec(obj: ExportedRow, key: string, v: Value, k: string)
    ensures Get(Put(obj, key, v), k) == if k == key then Some(v) else Get(obj, k)
    ensures forall p :: p in Put(obj, key, v) ==> p == (key, v) || p in obj
  {
    if obj != [] && obj[0].0 != key {
      PutSpec(obj[1..], key, v, k);
    }
  }

  lemma {:induction false} PutUnique(obj: ExportedRow, key: string, v: Value)
    requires UniqueKeyList(obj)
    ensures UniqueKeyList(Put(obj, key, v))
  {
    if obj != [] {
      var tail := obj[1..];
      assert UniqueKeyList(tail) by {
        forall i, j | 0 <= i < j < |tail| ensures tail[i].0 != tail[j].0 {
          assert tail[i] == obj[i + 1] && tail[j] == obj[j + 1];
        }
      }
      if obj[0].0 == key {
        var r := [(key, v)] + tail;
        forall i, j | 0 <= i < j < |r| ensures r[i].0 != r[j].0 {
          assert r[j] == obj[j];
          if i > 0 { assert r[i] == obj[i]; }
        }
      } else {
        PutUnique(tail, key, v);
        var rest := Put(tail, key, v);
        var r := [obj[0]] + rest;
        forall i, j | 0 <= i < j < |r| ensures r[i].0 != r[j].0 {
          if i == 0 {
            PutSpec(tail, key, v, key);
            assert r[j] in rest;
            if r[j] != (key, v) {
              var m :| 0 <= m < |tail| && tail[m] == r[j];
              assert obj[m + 1] == r[j];
            }
          } else {
            assert r[i] == rest[i - 1] && r[j] == rest[j - 1];
          }
        }
      }
    }
  }

  /**
    An exported row has one key per visible column other than `actions`, no other keys, and under
    each key the row's value in that column.
  */
  lemma {:induction false} ProjectionSpec(row: User, visible: seq<string>, k: string)
    ensures Get(Projection(row, visible), k) == if k in visible && k != "actions" then Some(Field(row, k)) else None
    ensures UniqueKeyList(Projection(row, visible))
    decreases |visible|
  {
    if visible != [] {
      var n := |visible| - 1;
      ProjectionSpec(row, visible[..n], k);
      assert visible == visible[..n] + [visible[n]];
      if visible[n] != "actions" {
        PutSpec(Projection(row, visible[..n]), visible[n], Field(row, visible[n]), k);
        PutUnique(Projection(row, visible[..n]), visible[n], Field(row, visible[n]));
      }
    }
  }

  // ===========================================================================
  // Pin buttons
  // ===========================================================================

  /** The two pin buttons of a column's row in the manager. */
  datatype PinButton = LeftButton | RightButton

  /** The side a pin button dispatches: it unpins a column already pinned on its side. */
  function ManagerPinSide(pins: PinnedColumns, id: string, button: PinButton): Side {
    match button
    case LeftButton => if id in pins.left then PinNone else PinLeft
    case RightButton => if id in pins.right then PinNone else PinRight
  }

  /**
    The left button toggles the column's left pin; either way the column ends up not pinned right.
    The right button is the mirror image.
  */
  lemma ManagerPinToggles(state: GridState, id: string)
    ensures var l := Reduce(state, PinColumn(id, ManagerPinSide(state.pinnedColumns, id, LeftButton))).pinnedColumns;
            (id in l.left <==> id !in state.pinnedColumns.left) && id !in l.right
    ensures var r := Reduce(state, PinColumn(id, ManagerPinSide(state.pinnedColumns, id, RightButton))).pinnedColumns;
            (id in r.right <==> id !in state.pinnedColumns.right) && id !in r.left
  {
    PinPlacesOnce(state, id, ManagerPinSide(state.pinnedColumns, id, LeftButton));
    PinPlacesOnce(state, id, ManagerPinSide(state.pinnedColumns, id, RightButton));
  }
}
