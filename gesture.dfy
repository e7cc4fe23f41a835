/**
 * Swipe detection (`useGesture.ts`): a touch starts tracking, each move
 * that is more horizontal than vertical records the distance and the
 * direction, and the end of the touch calls the callback for that
 * direction when the distance reached the threshold. Touch coordinates
 * are integers here; which callbacks exist is given as two flags.
 */
module Gesture {
  import opened JsString
  import opened Types

  const DefaultThreshold: int := 100

  /** Moves farther than this horizontally stop the page from scrolling. */
  const ScrollGuard: int := 10

  datatype Point = Point(x: int, y: int)

  function Abs(n: int): nat
  {
    if n < 0 then -n else n
  }

  /** The composable's state: where the touch started, whether it is
      tracked, and what the last horizontal move recorded. */
  datatype State = State(
    startX: int,
    startY: int,
    isTracking: bool,
    isSwiping: bool,
    swipeDistance: int,
    swipeDirection: Option<SwipeDirection>)

  const Initial: State := State(0, 0, false, false, 0, None)

  /** `handleTouchStart`; an event without a touch is ignored. */
  function Start(st: State, touch: Option<Point>): State
  {
    if touch.None? then st
    else State(touch.value.x, touch.value.y, true, false, 0, None)
  }

  predicate Horizontal(st: State, p: Point)
  {
    Abs(p.x - st.startX) > Abs(p.y - st.startY)
  }

  /** `handleTouchMove`. */
  function Move(st: State, touch: Option<Point>): State
  {
    if !st.isTracking || touch.None? || !Horizontal(st, touch.value) then st
    else
      var dx := touch.value.x - st.startX;
      st.(isSwiping := true, swipeDistance := Abs(dx), swipeDirection := Some(if dx > 0 then Right else Left))
  }

  /** Whether `handleTouchMove` calls `preventDefault`. */
  predicate PreventsScroll(st: State, touch: Option<Point>)
  {
    st.isTracking && touch.Some? && Horizontal(st, touch.value) && Abs(touch.value.x - st.startX) > ScrollGuard
  }

  /** The callback `handleTouchEnd` calls, if any. */
  function Fired(st: State, threshold: int, hasRight: bool, hasLeft: bool): Option<SwipeDirection>
  {
    if !st.isTracking || st.swipeDistance < threshold then None
    else if st.swipeDirection == Some(Right) && hasRight then Some(Right)
    else if st.swipeDirection == Some(Left) && hasLeft then Some(Left)
    else None
  }

  /** The state after `handleTouchCancel`, and after `handleTouchEnd` of a
      tracked touch. */
  function Reset(st: State): State
  {
    st.(isTracking := false, isSwiping := false, swipeDistance := 0, swipeDirection := None)
  }

  /** `handleTouchEnd`: an untracked touch changes nothing. */
  function End(st: State): State
  {
    if !st.isTracking then st else Reset(st)
  }

  /** A swipe from `p` to `q` calls the right-swipe callback exactly when
      it is more horizontal than vertical and went at least the threshold
      to the right, and the left one symmetrically. */
  lemma SwipeSpec(st: State, p: Point, q: Point, threshold: int, hasRight: bool, hasLeft: bool)
    ensures Fired(Move(Start(st, Some(p)), Some(q)), threshold, hasRight, hasLeft) == Some(Right) <==>
      Abs(q.x - p.x) > Abs(q.y - p.y) && q.x - p.x > 0 && q.x - p.x >= threshold && hasRight
    ensures Fired(Move(Start(st, Some(p)), Some(q)), threshold, hasRight, hasLeft) == Some(Left) <==>
      Abs(q.x - p.x) > Abs(q.y - p.y) && q.x - p.x < 0 && p.x - q.x >= threshold && hasLeft
  {
  }

  /** The moves of one touch, in order. */
  function Moves(st: State, qs: seq<Point>): State
  {
    if qs == [] then st else Move(Moves(st, qs[..|qs| - 1]), Some(qs[|qs| - 1]))
  }

  /** The last of the moves that is more horizontal than vertical
      relative to the start `p`. */
  function LastHorizontal(p: Point, qs: seq<Point>): (r: Option<Point>)
    ensures r.Some? ==> r.value in qs && Abs(r.value.x - p.x) > Abs(r.value.y - p.y)
  {
    if qs == [] then None
    else if Abs(qs[|qs| - 1].x - p.x) > Abs(qs[|qs| - 1].y - p.y) then Some(qs[|qs| - 1])
    else LastHorizontal(p, qs[..|qs| - 1])
  }

  /** The state a touch started at `p` is in after it moved to `last`, its
      last horizontal position (None: there was none). */
  function Swiped(p: Point, last: Option<Point>): State
  {
    if last.None? then State(p.x, p.y, true, false, 0, None)
    else
      var dx := last.value.x - p.x;
      State(p.x, p.y, true, true, Abs(dx), Some(if dx > 0 then Right else Left))
  }

  /** Whatever the moves of a touch, it ends in the state its last
      horizontal move left: a later move that is mostly vertical does not
      undo a swipe, and one back towards the start does not either unless
      it is itself horizontal. */
  lemma {:induction false} MovesSpec(st: State, p: Point, qs: seq<Point>)
    ensures Moves(Start(st, Some(p)), qs) == Swiped(p, LastHorizontal(p, qs))
  {
    if qs != [] {
      MovesSpec(st, p, qs[..|qs| - 1]);
    }
  }

  /** After a touch ends or is cancelled nothing is tracked: further moves
      are ignored and a second end calls nothing. */
  lemma ResetSpec(st: State, q: Option<Point>, threshold: int, hasRight: bool, hasLeft: bool)
    ensures !End(st).isTracking && !Reset(st).isTracking
    ensures Move(End(st), q) == End(st) && Move(Reset(st), q) == Reset(st)
    ensures Fired(End(st), threshold, hasRight, hasLeft).None?
    ensures st.isTracking ==> End(st).swipeDistance == 0 && End(st).swipeDirection.None?
  {
  }

  class Swipe {
    const threshold: int
    const hasRight: bool
    const hasLeft: bool
    var startX: int
    var startY: int
    var isTracking: bool
    var isSwiping: bool
    var swipeDistance: int
    var swipeDirection: Option<SwipeDirection>

    function Snapshot(): State
      reads this
    {
      State(startX, startY, isTracking, isSwiping, swipeDistance, swipeDirection)
    }

    /** `useGesture(el, { threshold, onSwipeRight, onSwipeLeft })`. */
    constructor (threshold: Option<int>, onSwipeRight: bool, onSwipeLeft: bool)
      ensures this.threshold == (if threshold.Some? then threshold.value else DefaultThreshold)
      ensures hasRight == onSwipeRight && hasLeft == onSwipeLeft
      ensures Snapshot() == Initial
    {
      this.threshold := if threshold.Some? then threshold.value else DefaultThreshold;
      hasRight := onSwipeRight;
      hasLeft := onSwipeLeft;
      startX := 0;
      startY := 0;
      isTracking := false;
      isSwiping := false;
      swipeDistance := 0;
      swipeDirection := None;
    }

    method TouchStart(touch: Option<Point>)
      modifies this
      ensures Snapshot() == Start(old(Snapshot()), touch)
    {
      if touch.None? {
        return;
      }
      startX := touch.value.x;
      startY := touch.value.y;
      isTracking := true;
      isSwiping := false;
      swipeDistance := 0;
      swipeDirection := None;
    }

    /** `handleTouchMove`; `preventDefault` says whether scrolling was
        stopped. */
    method TouchMove(touch: Option<Point>) returns (preventDefault: bool)
      modifies this
      ensures Snapshot() == Move(old(Snapshot()), touch)
      ensures preventDefault == PreventsScroll(old(Snapshot()), touch)
    {
      preventDefault := false;
      if !isTracking || touch.None? {
        return;
      }
      var deltaX := touch.value.x - startX;
      var deltaY := touch.value.y - startY;
      if Abs(deltaX) > Abs(deltaY) {
        isSwiping := true;
        swipeDistance := Abs(deltaX);
        swipeDirection := if deltaX > 0 then Some(Right) else Some(Left);
        if Abs(deltaX) > ScrollGuard {
          preventDefault := true;
        }
      }
    }

    /** `handleTouchEnd`; `fired` is the callback it called. */
    method TouchEnd() returns (fired: Option<SwipeDirection>)
      modifies this
      ensures fired == Fired(old(Snapshot()), threshold, hasRight, hasLeft)
      ensures Snapshot() == End(old(Snapshot()))
    {
      fired := None;
      if !isTracking {
        return;
      }
      if swipeDistance >= threshold {
        if swipeDirection == Some(Right) && hasRight {
          fired := Some(Right);
        } else if swipeDirection == Some(Left) && hasLeft {
          fired := Some(Left);
        }
      }
      isTracking := false;
      isSwiping := false;
      swipeDistance := 0;
      swipeDirection := None;
    }

    method TouchCancel()
      modifies this
      ensures Snapshot() == Reset(old(Snapshot()))
    {
      isTracking := false;
      isSwiping := false;
      swipeDistance := 0;
      swipeDirection := None;
    }
  }
}
