/**
  Exactly when the display queue of src/system/events.cpp is too short: new_display_msg ignores
  that enqueue failed, so a redraw that finds the queue full is lost.
 */
module DisplayQueue {
  import opened Arithmetic
  import opened Options
  import opened Shapes
  import opened Scene
  import opened Compositor
  import opened WindowManagement

  /** A screen that shows everything but what is asked for, and a root other than the desktop. */
  ghost predicate Showing(p: Picture, pending: seq<DisplayMsg>, s: Stack, i: nat) {
    && UpToDate(p, pending, s) && WellStacked(s.roots, p.width, p.height)
    && i < |s.roots| - 1 && |pending| <= MAX_EVENTS
  }

  /** The messages that a drag posts for pieces. */
  function PieceCount(s: Stack, i: nat, dx: int, dy: int): nat
    requires i < |s.roots|
  {
    |Redraws(UnionPieces(s.roots[i].rect, Moved(s.roots[i], dx, dy).rect))|
  }

  ghost predicate DragKeeps(p: Picture, pending: seq<DisplayMsg>, s: Stack, i: nat, dx: int, dy: int)
    requires i < |s.roots|
  {
    var w := Moved(s.roots[i], dx, dy);
    UpToDate(p, PostAll(pending, DragMsgs(s.roots[i].rect, w.rect)), Stack(Replaced(s.roots, i, w), s.ids))
  }

  ghost predicate RaiseKeeps(p: Picture, pending: seq<DisplayMsg>, s: Stack, i: nat)
    requires i < |s.roots| && Named(s)
  {
    UpToDate(p, Post(pending, RedrawWindow(s.ids[i])), Stack(Raised(s.roots, i), RaisedIds(s.ids, i)))
  }

  /** Whatever is on the screen, with `queued` messages in the queue a drag of `pieces` pieces loses no pixel. */
  ghost predicate DragSafe(queued: nat, pieces: nat) {
    forall p: Picture, pending, s, i: nat, dx, dy ::
      Showing(p, pending, s, i) && |pending| == queued && PieceCount(s, i, dx, dy) == pieces ==>
        DragKeeps(p, pending, s, i, dx, dy)
  }

  ghost predicate RaiseSafe(queued: nat) {
    forall p: Picture, pending, s, i: nat ::
      Showing(p, pending, s, i) && |pending| == queued ==> RaiseKeeps(p, pending, s, i)
  }

  // ---------------------------------------------------------------- a small screen

  /** What a full redraw of the roots gives. */
  function Rendered(roots: seq<Window>, width: nat, height: nat): (p: Picture)
    requires width > 0
    ensures Sized(p) && p.width == width && p.height == height
  {
    Picture(width, height,
            seq(width * height, k requires 0 <= k => Paint(k % width, k / width, roots, None, Pixel(0, 0)).color),
            seq(width * height, k requires 0 <= k => Paint(k % width, k / width, roots, None, Pixel(0, 0)).gid))
  }

  lemma OffsetBack(width: nat, x: nat, y: nat)
    requires x < width
    ensures Offset(width, x, y) % width == x && Offset(width, x, y) / width == y
  {
    Residue(y, width, x);
    var k := Offset(width, x, y);
    assert width * (k / width) == k - k % width == width * y;
    MultipleSmall(width, k / width - y);
    assert width * (k / width - y) == width * (k / width) - width * y;
  }

  lemma RenderedAt(roots: seq<Window>, width: nat, height: nat, x: nat, y: nat)
    requires x < width && y < height
    ensures At(Rendered(roots, width, height), x, y) == Paint(x, y, roots, None, Pixel(0, 0))
  {
    OffsetInside(width, height, x, y);
    OffsetBack(width, x, y);
  }

  lemma RenderedShows(roots: seq<Window>, width: nat, height: nat)
    requires width > 0 && WellStacked(roots, width, height)
    ensures Shows(Rendered(roots, width, height), roots)
  {
    var p := Rendered(roots, width, height);
    forall x: nat, y: nat | x < width && y < height
      ensures ShowsAt(p, roots, x, y)
    {
      RenderedAt(roots, width, height, x, y);
      GaplessCovers(x, y, roots);
      forall q
        ensures Paint(x, y, roots, None, q) == At(p, x, y)
      {
        CoveredIndependent(x, y, roots, None, q, Pixel(0, 0));
      }
    }
  }

  const SIDE := 8

  function Floor(): Window {
    Desktop(Rect(0, 0, SIDE, SIDE), 0, [], SIDE)
  }

  function Pane(left: int, gid: nat): Window {
    Plain(Rect(left, 0, left + 2, 2), gid, 0)
  }

  /** Windows with opaque panes in front of the desktop. */
  function Panes(): Stack {
    Stack([Pane(0, 1), Pane(1, 2), Floor()], [1, 2, 0])
  }

  function MouseOnly(n: nat): seq<DisplayMsg> {
    seq(n, _ => RedrawMouse)
  }

  lemma MouseAsksNothing(n: nat, s: Stack, x: int, y: int)
    requires Named(s)
    ensures !Awaits(MouseOnly(n), s, x, y)
  {
  }

  lemma PanesStacked()
    ensures WellStacked(Panes().roots, SIDE, SIDE) && Named(Panes())
  {
    var roots := Panes().roots;
    assert roots == [Pane(0, 1), Pane(1, 2), Floor()];
  }

  lemma PanesShowing(n: nat, i: nat)
    requires n <= MAX_EVENTS && i < 2
    ensures Showing(Rendered(Panes().roots, SIDE, SIDE), MouseOnly(n), Panes(), i)
  {
    PanesStacked();
    RenderedShows(Panes().roots, SIDE, SIDE);
  }

  // ---------------------------------------------------------------- a lost redraw

  /** A move of the front pane that posts so many pieces: to the side, away, and to a corner. */
  function Shift(pieces: nat): (int, int) {
    if pieces == 1 then (1, 0) else if pieces == 2 then (4, 0) else (1, 1)
  }

  /** A pixel of the last piece that the pane did not cover before. */
  function NewPixel(pieces: nat): (nat, nat) {
    if pieces == 1 then (2, 0) else if pieces == 2 then (4, 0) else (1, 2)
  }

  function PaneMoved(pieces: nat): Window {
    Moved(Pane(0, 1), Shift(pieces).0, Shift(pieces).1)
  }

  function RedrawOf(a: Rect): seq<DisplayMsg> {
    if a.l == a.r || a.t == a.b then [] else [RedrawRect(a)]
  }

  lemma RedrawsOfThree(a: Rect, b: Rect, c: Rect)
    ensures Redraws([a, b, c]) == RedrawOf(a) + RedrawOf(b) + RedrawOf(c)
  {
    RedrawsOfTwo(a, b);
    assert [a, b, c][..2] == [a, b];
  }

  lemma RedrawsOfTwo(a: Rect, b: Rect)
    ensures Redraws([a, b]) == RedrawOf(a) + RedrawOf(b)
  {
    assert [a, b][..1] == [a] && [a][..0] == [];
    assert Redraws([a]) == RedrawOf(a);
  }

  /** The move posts so many pieces, of which only the last contains the new pixel. */
  lemma ShiftPieces(pieces: nat)
    requires 1 <= pieces <= 3
    ensures var msgs := Redraws(UnionPieces(Pane(0, 1).rect, PaneMoved(pieces).rect));
      && |msgs| == pieces
      && forall m :: 0 <= m < pieces - 1 ==> !In(msgs[m].rect, NewPixel(pieces).0, NewPixel(pieces).1)
  {
    var a, b := Pane(0, 1).rect, PaneMoved(pieces).rect;
    var all := UnionPieces(a, b);
    if pieces == 1 {
      assert all == [Rect(1, 0, 3, 0), Rect(0, 0, 3, 2), Rect(0, 2, 2, 2)];
      RedrawsOfThree(all[0], all[1], all[2]);
    } else if pieces == 2 {
      assert all == [a, b];
      RedrawsOfTwo(a, b);
    } else {
      assert all == [Rect(0, 0, 2, 1), Rect(0, 1, 3, 2), Rect(1, 2, 3, 3)];
      RedrawsOfThree(all[0], all[1], all[2]);
    }
  }

  /** Of three windows that are no frames, the first that contains the pixel is on top. */
  lemma TopOfThree(x: int, y: int, a: Window, b: Window, c: Window)
    requires !a.Frame? && !b.Frame? && !c.Frame?
    ensures TopLeaf(x, y, [a, b, c]) ==
      if In(a.rect, x, y) then Some(a) else if In(b.rect, x, y) then Some(b)
      else if In(c.rect, x, y) then Some(c) else None
  {
    assert [a, b, c][1..] == [b, c] && [b, c][1..] == [c] && [c][1..] == [];
    assert TopLeaf(x, y, [c]) == if In(c.rect, x, y) then Some(c) else None;
    assert TopLeaf(x, y, [b, c]) == if In(b.rect, x, y) then Some(b) else TopLeaf(x, y, [c]);
  }

  /** A screen does not show a scene with another window on top at the pixel. */
  lemma StaleAt(roots: seq<Window>, roots': seq<Window>, x: nat, y: nat)
    requires x < SIDE && y < SIDE
    requires TopLeaf(x, y, roots).Some? && TopLeaf(x, y, roots').Some?
    requires !TopLeaf(x, y, roots).value.Frame? && !TopLeaf(x, y, roots').value.Frame?
    requires TopLeaf(x, y, roots).value.gid != TopLeaf(x, y, roots').value.gid
    ensures !ShowsAt(Rendered(roots, SIDE, SIDE), roots', x, y)
  {
    hide Paint, TopLeaf, Rendered, At;
    RenderedAt(roots, SIDE, SIDE, x, y);
    PickIsTopLeaf(x, y, roots, None, Pixel(0, 0));
    PickIsTopLeaf(x, y, roots', None, Pixel(0, 0));
  }

  /** At the new pixel the moved scene differs from the one on the screen. */
  lemma NewPixelStale(pieces: nat)
    requires 1 <= pieces <= 3
    ensures var (x, y) := NewPixel(pieces);
      && x < SIDE && y < SIDE
      && !ShowsAt(Rendered(Panes().roots, SIDE, SIDE), Replaced(Panes().roots, 0, PaneMoved(pieces)), x, y)
  {
    var (x, y) := NewPixel(pieces);
    assert Replaced(Panes().roots, 0, PaneMoved(pieces)) == [PaneMoved(pieces), Pane(1, 2), Floor()];
    TopOfThree(x, y, Pane(0, 1), Pane(1, 2), Floor());
    TopOfThree(x, y, PaneMoved(pieces), Pane(1, 2), Floor());
    StaleAt(Panes().roots, [PaneMoved(pieces), Pane(1, 2), Floor()], x, y);
  }

  function PanesMoved(pieces: nat): Stack {
    Stack(Replaced(Panes().roots, 0, PaneMoved(pieces)), Panes().ids)
  }

  /** The messages that still fit do not ask for the new pixel. */
  lemma LostNotAwaited(queued: nat, pieces: nat)
    requires queued <= MAX_EVENTS && 1 <= pieces <= 3 && queued + pieces > MAX_EVENTS
    ensures Named(PanesMoved(pieces))
    ensures !Awaits(PostAll(MouseOnly(queued), DragMsgs(Pane(0, 1).rect, PaneMoved(pieces).rect)), PanesMoved(pieces),
                    NewPixel(pieces).0, NewPixel(pieces).1)
  {
    var (x, y) := NewPixel(pieces);
    PanesNamed(pieces);
    ShiftPieces(pieces);
    var redraws := Redraws(UnionPieces(Pane(0, 1).rect, PaneMoved(pieces).rect));
    assert |MouseOnly(queued)| == queued;
    hide Redraws, UnionPieces, PaneMoved, NewPixel, MouseOnly, PostAll, PanesMoved, Named;
    LostLast(MouseOnly(queued), redraws, x, y);
    var taken := redraws[..MAX_EVENTS - queued];
    RectsMiss(taken, PanesMoved(pieces), x, y);
    MouseAsksNothing(queued, PanesMoved(pieces), x, y);
    AwaitsMore(MouseOnly(queued), taken, PanesMoved(pieces), x, y);
  }

  lemma PanesNamed(pieces: nat)
    ensures Named(PanesMoved(pieces)) && Pane(0, 1).Plain? && PaneMoved(pieces).Plain?
  {
  }

  /** A queue without room for all pieces takes messages for pieces only, and not for the last one. */
  lemma LostLast(pending: seq<DisplayMsg>, redraws: seq<DisplayMsg>, x: int, y: int)
    requires |pending| <= MAX_EVENTS < |pending| + |redraws|
    requires forall m :: 0 <= m < |redraws| ==> redraws[m].RedrawRect?
    requires forall m :: 0 <= m < |redraws| - 1 ==> !In(redraws[m].rect, x, y)
    ensures var taken := redraws[..MAX_EVENTS - |pending|];
      && PostAll(pending, redraws + [RedrawMouse]) == pending + taken
      && forall m :: 0 <= m < |taken| ==> taken[m].RedrawRect? && !In(taken[m].rect, x, y)
  {
    PostAllTakes(pending, redraws + [RedrawMouse]);
    var taken := redraws[..MAX_EVENTS - |pending|];
    assert (redraws + [RedrawMouse])[..MAX_EVENTS - |pending|] == taken;
  }

  lemma RectsMiss(msgs: seq<DisplayMsg>, s: Stack, x: int, y: int)
    requires Named(s) && forall m :: 0 <= m < |msgs| ==> msgs[m].RedrawRect? && !In(msgs[m].rect, x, y)
    ensures !Awaits(msgs, s, x, y)
  {
  }

  lemma DragBreaks(queued: nat, pieces: nat)
    requires queued <= MAX_EVENTS && 1 <= pieces <= 3 && queued + pieces > MAX_EVENTS
    ensures !DragSafe(queued, pieces)
  {
    var p, pending, s := Rendered(Panes().roots, SIDE, SIDE), MouseOnly(queued), Panes();
    var (dx, dy) := Shift(pieces);
    PanesShowing(queued, 0);
    ShiftPieces(pieces);
    NewPixelStale(pieces);
    LostNotAwaited(queued, pieces);
    assert s.roots[0] == Pane(0, 1) && PaneMoved(pieces) == Moved(s.roots[0], dx, dy);
    hide Paint, TopLeaf, Rendered, WellStacked, Replaced, PostAll, Awaits, DragMsgs, UnionPieces, Redraws, Moved,
         ShowsAt, Shows, NewPixel, Shift, MouseOnly;
    assert !DragKeeps(p, pending, s, 0, dx, dy);
    assert Showing(p, pending, s, 0) && |pending| == queued && PieceCount(s, 0, dx, dy) == pieces;
  }

  /** A drag loses no pixel, whatever is on the screen, exactly when its pieces fit in the queue. */
  lemma DragSafeIff(queued: nat, pieces: nat)
    requires queued <= MAX_EVENTS && pieces <= 3
    ensures DragSafe(queued, pieces) <==> queued + pieces <= MAX_EVENTS
  {
    if queued + pieces > MAX_EVENTS {
      DragBreaks(queued, pieces);
    } else {
      forall p: Picture, pending, s, i: nat, dx, dy |
        Showing(p, pending, s, i) && |pending| == queued && PieceCount(s, i, dx, dy) == pieces
        ensures DragKeeps(p, pending, s, i, dx, dy)
      {
        DragFits(p, pending, s, i, Moved(s.roots[i], dx, dy));
      }
    }
  }

  lemma RaiseBreaks()
    ensures !RaiseSafe(MAX_EVENTS)
  {
    var p, pending, s := Rendered(Panes().roots, SIDE, SIDE), MouseOnly(MAX_EVENTS), Panes();
    var s' := Stack(Raised(s.roots, 1), RaisedIds(s.ids, 1));
    PanesShowing(MAX_EVENTS, 1);
    assert s'.roots == [Pane(1, 2), Pane(0, 1), Floor()] && s'.ids == [2, 1, 0];
    TopOfThree(1, 0, Pane(0, 1), Pane(1, 2), Floor());
    TopOfThree(1, 0, Pane(1, 2), Pane(0, 1), Floor());
    hide Paint, TopLeaf, Rendered, WellStacked, Raised, RaisedIds, Awaits, ShowsAt, Shows;
    StaleAt(s.roots, s'.roots, 1, 0);
    MouseAsksNothing(MAX_EVENTS, s', 1, 0);
    assert !RaiseKeeps(p, pending, s, 1);
    assert Showing(p, pending, s, 1);
  }

  /** Raising a window loses no pixel exactly when the queue is not full. */
  lemma RaiseSafeIff(queued: nat)
    requires queued <= MAX_EVENTS
    ensures RaiseSafe(queued) <==> queued < MAX_EVENTS
  {
    if queued == MAX_EVENTS {
      RaiseBreaks();
    } else {
      forall p: Picture, pending, s, i: nat | Showing(p, pending, s, i) && |pending| == queued
        ensures RaiseKeeps(p, pending, s, i)
      {
        RaiseUpToDate(p, pending, s, i);
      }
    }
  }
}
