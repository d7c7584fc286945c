/**
  The windowing formula of `hooks/useVirtualScroll.ts`: from the scroll offset, the fixed item
  height, the container height, the item count and the overscan, the inclusive index range to
  render, the full scroll height and the offset of the first rendered row.
*/
module VirtualScroll {
  import opened IntMath

  /** What the hook returns besides the scroll handler. */
  datatype Window = Window(startIndex: int, endIndex: int, totalHeight: int, offsetY: int)

  /** `visibleRange`, `totalHeight` and `offsetY` for the current `scrollTop`. */
  function VirtualWindow(itemCount: int, itemHeight: int, containerHeight: int, overscan: int, scrollTop: int): Window
    requires itemHeight > 0
  {
    var startIndex := Max(0, FloorDiv(scrollTop, itemHeight) - overscan);
    var endIndex := Min(itemCount - 1, CeilDiv(scrollTop + containerHeight, itemHeight) + overscan);
    Window(startIndex, endIndex, itemCount * itemHeight, startIndex * itemHeight)
  }

  // ---------------------------------------------------------------------------
  // Properties of the window
  // ---------------------------------------------------------------------------

  /** The range never starts before the first item and never ends after the last one. */
  lemma WindowInBounds(itemCount: int, itemHeight: int, containerHeight: int, overscan: int, scrollTop: int)
    requires itemHeight > 0
    ensures var w := VirtualWindow(itemCount, itemHeight, containerHeight, overscan, scrollTop);
            && w.startIndex >= 0
            && w.endIndex <= itemCount - 1
            && (itemCount <= 0 ==> w.endIndex < w.startIndex)
            && (itemCount == 0 && scrollTop >= 0 && containerHeight >= 0 && overscan >= 0 ==> w.endIndex == -1)
  {
    if scrollTop + containerHeight >= 0 {
      CeilDivBounds(scrollTop + containerHeight, itemHeight);
      MulCancelStrict(itemHeight, -1, CeilDiv(scrollTop + containerHeight, itemHeight));
    }
  }

  /** Every item whose band meets the viewport is inside the rendered range. */
  lemma WindowCovers(itemCount: int, itemHeight: int, containerHeight: int, overscan: int, scrollTop: int, i: int)
    requires itemHeight > 0 && overscan >= 0
    requires 0 <= i < itemCount
    requires i * itemHeight < scrollTop + containerHeight && scrollTop < (i + 1) * itemHeight
    ensures var w := VirtualWindow(itemCount, itemHeight, containerHeight, overscan, scrollTop);
            w.startIndex <= i <= w.endIndex
  {
    var h := itemHeight;
    FloorDivBounds(scrollTop, h);
    assert h * FloorDiv(scrollTop, h) < h * (i + 1);
    MulCancelStrict(h, FloorDiv(scrollTop, h), i + 1);
    CeilDivBounds(scrollTop + containerHeight, h);
    assert h * i < h * CeilDiv(scrollTop + containerHeight, h);
    MulCancelStrict(h, i, CeilDiv(scrollTop + containerHeight, h));
  }

  /**
    The range holds at most `ceil(containerHeight / itemHeight) + 2 * overscan + 2` items: one for
    a partly visible first row and one for the row the ceiling adds at the bottom.
  */
  lemma WindowBounded(itemCount: int, itemHeight: int, containerHeight: int, overscan: int, scrollTop: int)
    requires itemHeight > 0
    ensures var w := VirtualWindow(itemCount, itemHeight, containerHeight, overscan, scrollTop);
            w.endIndex - w.startIndex + 1 <= CeilDiv(containerHeight, itemHeight) + 2 * overscan + 2
  {
    var h := itemHeight;
    var q := FloorDiv(scrollTop, h);
    var r := scrollTop - h * q;
    FloorDivBounds(scrollTop, h);
    assert scrollTop + containerHeight == h * q + (r + containerHeight);
    CeilDivAddMultiple(q, r + containerHeight, h);
    CeilDivShift(r, containerHeight, h);
  }

  /**
    The bound `ceil(containerHeight / itemHeight) + 2 * overscan` is not met: at the top of a
    list of ten 10-pixel rows in a 50-pixel container without overscan, six rows are rendered.
  */
  lemma WindowExceedsTightBound()
    ensures var w := VirtualWindow(10, 10, 50, 0, 0);
            w.startIndex == 0 && w.endIndex == 5 &&
            w.endIndex - w.startIndex + 1 > CeilDiv(50, 10) + 2 * 0
  {
  }

  /** The scroll height is the height of all items and the offset is that of the first rendered one, never past the end. */
  lemma WindowHeights(itemCount: int, itemHeight: int, containerHeight: int, overscan: int, scrollTop: int)
    requires itemHeight > 0
    ensures var w := VirtualWindow(itemCount, itemHeight, containerHeight, overscan, scrollTop);
            && w.totalHeight == itemCount * itemHeight
            && w.offsetY == w.startIndex * itemHeight
            && (w.startIndex <= w.endIndex ==> w.offsetY < w.totalHeight)
  {
    var w := VirtualWindow(itemCount, itemHeight, containerHeight, overscan, scrollTop);
    if w.startIndex <= w.endIndex {
      MulMonotone(itemHeight, w.startIndex + 1, itemCount);
      assert itemHeight * (w.startIndex + 1) == w.startIndex * itemHeight + itemHeight;
    }
  }

  /** Scrolling down never moves either end of the range up. */
  lemma WindowMonotone(itemCount: int, itemHeight: int, containerHeight: int, overscan: int, top1: int, top2: int)
    requires itemHeight > 0 && top1 <= top2
    ensures var w1 := VirtualWindow(itemCount, itemHeight, containerHeight, overscan, top1);
            var w2 := VirtualWindow(itemCount, itemHeight, containerHeight, overscan, top2);
            w1.startIndex <= w2.startIndex && w1.endIndex <= w2.endIndex
  {
    FloorDivMonotone(top1, top2, itemHeight);
    CeilDivMonotone(top1 + containerHeight, top2 + containerHeight, itemHeight);
  }
}
