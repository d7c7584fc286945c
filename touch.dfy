/**
  The swipe recogniser of `hooks/useTouch.ts`: a touch record updated by the start, move and end
  handlers, and the classification of a release as a swipe with a direction. The clock reading
  that `Date.now()` supplies is a parameter.
*/
module Touch {
  import opened Wrappers

  datatype SwipeDirection = Left | Right | Up | Down

  function Abs(x: int): int {
    if x < 0 then -x else x
  }

  /** A release is a swipe when it moved more than 50 pixels in under 300 milliseconds. */
  predicate IsSwipe(deltaX: int, deltaY: int, duration: int) {
    deltaX * deltaX + deltaY * deltaY > 50 * 50 && duration < 300
  }

  /** The dominant axis decides; a tie counts as vertical. */
  function DirectionOf(deltaX: int, deltaY: int): SwipeDirection {
    if Abs(deltaX) > Abs(deltaY) then (if deltaX > 0 then Right else Left)
    else (if deltaY > 0 then Down else Up)
  }

  /** The `direction` the end handler stores: none for a release that is not a swipe. */
  function Classify(deltaX: int, deltaY: int, duration: int): (r: Option<SwipeDirection>)
    ensures r.None? <==> !IsSwipe(deltaX, deltaY, duration)
  {
    if IsSwipe(deltaX, deltaY, duration) then Some(DirectionOf(deltaX, deltaY)) else None
  }

  /**
    Comparing the squared distance with 2500 decides the same as comparing the Euclidean distance
    `Math.sqrt(dx * dx + dy * dy)` with 50.
  */
  lemma SquaredDistanceThreshold(distance: real, deltaX: int, deltaY: int)
    requires distance >= 0.0 && distance * distance == (deltaX * deltaX + deltaY * deltaY) as real
    ensures distance > 50.0 <==> deltaX * deltaX + deltaY * deltaY > 2500
  {
    if distance > 50.0 {
      assert distance * distance > 50.0 * distance >= 2500.0;
    } else {
      assert distance * distance <= 50.0 * distance <= 2500.0;
    }
  }

  /**
    The four directions: horizontal exactly when the horizontal movement is strictly larger, and
    then right exactly for a positive `deltaX`; otherwise down exactly for a positive `deltaY`.
  */
  lemma DirectionCases(deltaX: int, deltaY: int)
    ensures var d := DirectionOf(deltaX, deltaY);
            && ((d == Left || d == Right) <==> Abs(deltaX) > Abs(deltaY))
            && (d == Right <==> Abs(deltaX) > Abs(deltaY) && deltaX > 0)
            && (d == Down <==> Abs(deltaX) <= Abs(deltaY) && deltaY > 0)
  {
  }

  /** A swipe always moved: a release with no movement, or one that took 300 ms or more, is not a swipe. */
  lemma NoSwipeWithoutMovement(deltaX: int, deltaY: int, duration: int)
    ensures (deltaX == 0 && deltaY == 0) || duration >= 300 ==> Classify(deltaX, deltaY, duration) == None
    ensures Classify(deltaX, deltaY, duration).Some? ==> Abs(deltaX) > 35 || Abs(deltaY) > 35
  {
    if Abs(deltaX) <= 35 && Abs(deltaY) <= 35 {
      assert deltaX * deltaX <= 35 * 35 by {
        assert deltaX * deltaX == Abs(deltaX) * Abs(deltaX);
      }
      assert deltaY * deltaY <= 35 * 35 by {
        assert deltaY * deltaY == Abs(deltaY) * Abs(deltaY);
      }
    }
  }

  /** The state of one `useTouch` hook: the `TouchState` record and the start-time ref. */
  class TouchTracker {
    var startX: int
    var startY: int
    var currentX: int
    var currentY: int
    var deltaX: int
    var deltaY: int
    var isSwipe: bool
    var direction: Option<SwipeDirection>
    var touchStart: int

    /** The deltas are the distance from the start point to the current point. */
    predicate Consistent()
      reads this
    {
      deltaX == currentX - startX && deltaY == currentY - startY
    }

    /** A direction is recorded exactly for a swipe. */
    predicate DirectionMatches()
      reads this
    {
      direction.None? <==> !isSwipe
    }

    constructor()
      ensures startX == 0 && startY == 0 && currentX == 0 && currentY == 0
      ensures deltaX == 0 && deltaY == 0 && !isSwipe && direction == None && touchStart == 0
      ensures Consistent() && DirectionMatches()
    {
      startX, startY, currentX, currentY := 0, 0, 0, 0;
      deltaX, deltaY := 0, 0;
      isSwipe, direction := false, None;
      touchStart := 0;
    }

    /** `handleTouchStart`: a new gesture starts at the touch point at time `now`. */
    method TouchStart(x: int, y: int, now: int)
      modifies this
      ensures startX == x && startY == y && currentX == x && currentY == y
      ensures deltaX == 0 && deltaY == 0 && !isSwipe && direction == None
      ensures touchStart == now
      ensures Consistent() && DirectionMatches()
    {
      touchStart := now;
      startX, startY, currentX, currentY := x, y, x, y;
      deltaX, deltaY := 0, 0;
      isSwipe, direction := false, None;
    }

    /** `handleTouchMove`: the finger is now at `(x, y)`; the classification is left as it was. */
    method TouchMove(x: int, y: int)
      modifies this
      ensures currentX == x && currentY == y
      ensures Consistent()
      ensures startX == old(startX) && startY == old(startY) && touchStart == old(touchStart)
      ensures isSwipe == old(isSwipe) && direction == old(direction)
    {
      deltaX := x - startX;
      deltaY := y - startY;
      currentX, currentY := x, y;
    }

    /**
      `handleTouchEnd` at time `now`: classifies the gesture from the recorded deltas and the
      time since the start; positions and deltas are kept.
    */
    method TouchEnd(now: int)
      modifies this
      ensures isSwipe == IsSwipe(old(deltaX), old(deltaY), now - old(touchStart))
      ensures direction == Classify(old(deltaX), old(deltaY), now - old(touchStart))
      ensures DirectionMatches()
      ensures startX == old(startX) && startY == old(startY) && currentX == old(currentX) && currentY == old(currentY)
      ensures deltaX == old(deltaX) && deltaY == old(deltaY) && touchStart == old(touchStart)
    {
      var duration := now - touchStart;
      isSwipe := IsSwipe(deltaX, deltaY, duration);
      direction := Classify(deltaX, deltaY, duration);
    }
  }

  /** A whole gesture: start, one move, end. The direction depends only on where the finger went and how fast. */
  method Gesture(t: TouchTracker, x0: int, y0: int, t0: int, x1: int, y1: int, t1: int)
    modifies t
    ensures t.direction == Classify(x1 - x0, y1 - y0, t1 - t0)
    ensures t.Consistent() && t.DirectionMatches()
  {
    t.TouchStart(x0, y0, t0);
    t.TouchMove(x1, y1);
    t.TouchEnd(t1);
  }
}
