/**
  The drag-reorder tracker of `hooks/useDragAndDrop.ts`. The drop callback is not called from the
  model: `Drop` returns the `(from, to)` pair it would be called with, if any.
*/
module DragDrop {
  import opened Wrappers

  /** The pair `handleDrop` passes to its callback, if it calls it. */
  datatype Move = Move(fromIndex: int, toIndex: int)

  /** The callback fires for a tracked drag (index not -1) that ends on a different index. */
  function DropMove(draggedIndex: int, targetIndex: int): (r: Option<Move>)
    ensures r.Some? <==> draggedIndex != -1 && draggedIndex != targetIndex
    ensures r.Some? ==> r.value.fromIndex != r.value.toIndex
  {
    if draggedIndex != -1 && draggedIndex != targetIndex then Some(Move(draggedIndex, targetIndex)) else None
  }

  /** The `DragState` of one hook; the dragged item has the type `T` of whatever the caller drags. */
  class DragTracker<T> {
    var isDragging: bool
    var draggedItem: Option<T>
    var draggedIndex: int
    var dropTarget: Option<int>

    /** Not dragging, no item, index -1, no target. */
    predicate Idle()
      reads this
    {
      !isDragging && draggedItem == None && draggedIndex == -1 && dropTarget == None
    }

    constructor()
      ensures Idle()
    {
      isDragging, draggedItem, draggedIndex, dropTarget := false, None, -1, None;
    }

    /** `handleDragStart(item, index)` */
    method DragStart(item: T, index: int)
      modifies this
      ensures isDragging && draggedItem == Some(item) && draggedIndex == index && dropTarget == None
    {
      isDragging, draggedItem, draggedIndex, dropTarget := true, Some(item), index, None;
    }

    /** `handleDragOver(index)`: only the target changes. */
    method DragOver(index: int)
      modifies this
      ensures dropTarget == Some(index)
      ensures isDragging == old(isDragging) && draggedItem == old(draggedItem) && draggedIndex == old(draggedIndex)
    {
      dropTarget := Some(index);
    }

    /** `handleDragEnd`: back to idle from any state. */
    method DragEnd()
      modifies this
      ensures Idle()
    {
      isDragging, draggedItem, draggedIndex, dropTarget := false, None, -1, None;
    }

    /**
      `handleDrop(targetIndex, onDrop)`: returns the move `onDrop` is called with, if any, and
      leaves the tracker idle either way. A drop while idle never fires.
    */
    method Drop(targetIndex: int) returns (fired: Option<Move>)
      modifies this
      ensures fired == DropMove(old(draggedIndex), targetIndex)
      ensures old(Idle()) ==> fired == None
      ensures Idle()
    {
      fired := DropMove(draggedIndex, targetIndex);
      DragEnd();
    }
  }

  /** Dragging from `i` over `over` and dropping on `j` reports the move exactly when `i` is not -1 and differs from `j`. */
  method DragThenDrop<T>(d: DragTracker<T>, item: T, i: int, over: int, j: int) returns (fired: Option<Move>)
    modifies d
    ensures fired == (if i != -1 && i != j then Some(Move(i, j)) else None)
    ensures d.Idle()
  {
    d.DragStart(item, i);
    d.DragOver(over);
    fired := d.Drop(j);
  }
}
