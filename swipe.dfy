/**
 * Swipe-to-delete on the activity list and on the history list. Each list keeps one set of
 * tracking variables shared by all of its rows: where and when the touch started, whether
 * the gesture was classified as a horizontal swipe, and the row being tracked. The visual
 * easing of the reveal is not modelled; the reveal is the clamped distance it is computed from.
 */
module Swipe {
  import opened Wrappers
  import opened JsMath

  /** A move counts as a horizontal swipe beyond this many pixels. */
  const HorizontalThreshold: int := 10
  /** The reveal never goes past the width of the delete area. */
  const MaxReveal: int := 80
  /** A swipe this far, in any time, commits to deleting. */
  const CommitDistance: int := 50
  /** A quick flick needs this distance ... */
  const FlickDistance: int := 30
  /** ... and less than this many milliseconds. */
  const FlickTime: int := 200

  /** The move is mostly sideways and longer than the threshold. */
  predicate IsHorizontal(diffX: int, diffY: nat)
  {
    Abs(diffX) > diffY && Abs(diffX) > HorizontalThreshold
  }

  /** What a touch move does to the row: nothing, reveal the delete area by `offset` pixels, or close it. */
  datatype Move = Ignored | Reveal(offset: int) | Close

  /** A move `diffX` to the left (negative: to the right) and `diffY` vertically from the start. */
  function Classify(diffX: int, diffY: nat): (m: Move)
    ensures m != Ignored <==> IsHorizontal(diffX, diffY)
    ensures m.Reveal? <==> IsHorizontal(diffX, diffY) && diffX > 0
    ensures m.Reveal? ==>
      0 < m.offset && m.offset <= diffX && m.offset <= MaxReveal && (m.offset == diffX || m.offset == MaxReveal)
    ensures m == Close <==> IsHorizontal(diffX, diffY) && diffX < -HorizontalThreshold
  {
    if IsHorizontal(diffX, diffY) then
      if diffX > 0 then Reveal(if diffX < MaxReveal then diffX else MaxReveal)
      else if diffX < -HorizontalThreshold then Close
      else assert false; Close
    else Ignored
  }

  /** A horizontal move that does not go left goes right beyond the threshold: every
      classified swipe either reveals or closes. */
  lemma HorizontalRevealsOrCloses(diffX: int, diffY: nat)
    requires IsHorizontal(diffX, diffY)
    ensures Classify(diffX, diffY).Reveal? || Classify(diffX, diffY) == Close
  {
  }

  /** Whether releasing `diffX` pixels to the left of the start, `elapsed` ms after it, deletes. */
  function Commits(diffX: int, elapsed: int): (c: bool)
    ensures c ==> diffX > FlickDistance
    ensures diffX > CommitDistance ==> c
    ensures FlickDistance < diffX <= CommitDistance ==> (c <==> elapsed < FlickTime)
  {
    diffX > CommitDistance || (diffX > FlickDistance && elapsed < FlickTime)
  }

  /** Going further, or releasing sooner, never turns a commit into a snap back. */
  lemma CommitsMonotone(diffX: int, elapsed: int, further: int, sooner: int)
    requires Commits(diffX, elapsed) && diffX <= further && sooner <= elapsed
    ensures Commits(further, sooner)
  {
  }

  /** What releasing the touch does: nothing, open the delete prompt for the row, or slide the row back. */
  datatype EndAction = NoAction | OpenDelete(rowId: string) | SnapBack

  /** The release of a touch on row `rowId`: only a gesture classified as a swipe acts. */
  function Release(swiped: bool, rowId: string, diffX: int, elapsed: int): (a: EndAction)
    ensures a.OpenDelete? <==> swiped && Commits(diffX, elapsed)
    ensures a.OpenDelete? ==> a.rowId == rowId
    ensures a == NoAction <==> !swiped
  {
    if !swiped then NoAction
    else if Commits(diffX, elapsed) then OpenDelete(rowId)
    else SnapBack
  }

  /** The two lists: the history list also keeps a second flag, `hasSwiped`. */
  datatype ListKind = ActivityList | HistoryList

  /** The tracking variables of one list, shared by all its rows. */
  class SwipeController {
    const kind: ListKind
    var touchStartX: int
    var touchStartY: int
    var isSwiping: bool
    /** Only the history list has it; it is set and cleared together with `isSwiping`. */
    var hasSwiped: bool
    /** The row being tracked (`currentWrapper` and its card), by its data id; None between gestures. */
    var current: Option<string>
    var startTime: int

    /** Nothing is classified without a row being tracked, and `hasSwiped` adds nothing to `isSwiping`. */
    predicate Valid()
      reads this
    {
      && (current.None? ==> !isSwiping)
      && (kind == ActivityList ==> !hasSwiped)
      && (kind == HistoryList ==> hasSwiped == isSwiping)
    }

    /** The variables as the list's setup declares them. */
    constructor (kind: ListKind)
      ensures Valid() && this.kind == kind
      ensures touchStartX == 0 && touchStartY == 0 && startTime == 0
      ensures !isSwiping && !hasSwiped && current.None?
    {
      this.kind := kind;
      touchStartX, touchStartY, startTime := 0, 0, 0;
      isSwiping, hasSwiped, current := false, false, None;
    }

    /** `touchstart` on row `rowId` at (x, y), time `now`: start tracking it, whatever was tracked before. */
    method TouchStart(rowId: string, x: int, y: int, now: int)
      requires Valid()
      modifies this
      ensures Valid()
      ensures touchStartX == x && touchStartY == y && startTime == now
      ensures !isSwiping && !hasSwiped && current == Some(rowId)
    {
      touchStartX, touchStartY := x, y;
      isSwiping := false;
      if kind == HistoryList {
        hasSwiped := false;
      }
      current := Some(rowId);
      startTime := now;
    }

    /** `touchmove` to (x, y): classify the move from the start; a swipe, once seen, stays seen
        until the touch ends. Without a tracked row the move is ignored. */
    method TouchMove(x: int, y: int) returns (m: Move)
      requires Valid()
      modifies this
      ensures Valid()
      ensures old(current).None? ==> m == Ignored && unchanged(this)
      ensures old(current).Some? ==> m == Classify(old(touchStartX) - x, Abs(old(touchStartY) - y))
      ensures isSwiping == (old(isSwiping) || m != Ignored)
      ensures touchStartX == old(touchStartX) && touchStartY == old(touchStartY)
      ensures current == old(current) && startTime == old(startTime)
    {
      if current.None? {
        return Ignored;
      }
      var diffX := touchStartX - x;
      var diffY := Abs(touchStartY - y);
      m := Classify(diffX, diffY);
      if IsHorizontal(diffX, diffY) {
        isSwiping := true;
        if kind == HistoryList {
          hasSwiped := true;
        }
      }
    }

    /** `touchend` at x, time `now`: a swipe opens the delete prompt for the tracked row when it
        went far enough, or fast enough, and slides back otherwise; a tap does nothing. The
        tracking is cleared, so later moves and releases are ignored until the next touch. */
    method TouchEnd(x: int, now: int) returns (action: EndAction)
      requires Valid()
      modifies this
      ensures Valid()
      ensures old(current).None? ==> action == NoAction && unchanged(this)
      ensures old(current).Some? ==>
        action == Release(old(isSwiping), old(current).value, old(touchStartX) - x, now - old(startTime))
      ensures current.None? && !isSwiping && !hasSwiped
      ensures touchStartX == old(touchStartX) && touchStartY == old(touchStartY) && startTime == old(startTime)
    {
      if current.None? {
        return NoAction;
      }
      var diffX := touchStartX - x;
      var elapsed := now - startTime;
      var swiped := if kind == HistoryList then isSwiping || hasSwiped else isSwiping;
      action := Release(swiped, current.value, diffX, elapsed);
      isSwiping := false;
      if kind == HistoryList {
        hasSwiped := false;
      }
      current := None;
    }
  }
}
