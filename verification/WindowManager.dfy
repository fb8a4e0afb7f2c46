/**
  Dragging and raising windows (src/system/events.cpp), which only queue redraws of parts of the
  screen, and the display worker, which carries the redraws out later, one message at a time. The
  queue takes MAX_EVENTS messages; those that find it full are lost.
 */
module WindowManagement {
  import opened Options
  import opened Shapes
  import opened Colors
  import opened Scene
  import opened Compositor

  /** At this pixel the buffers hold what a redraw of `roots` gives, whatever was there before it. */
  ghost predicate ShowsAt(p: Picture, roots: seq<Window>, x: int, y: int)
    requires Sized(p) && 0 <= x < p.width && 0 <= y < p.height
  {
    forall q :: Paint(x, y, roots, None, q) == At(p, x, y)
  }

  /** The buffers hold what a full redraw of `roots` gives. */
  ghost predicate Shows(p: Picture, roots: seq<Window>) {
    && Sized(p)
    && forall x, y :: 0 <= x < p.width && 0 <= y < p.height ==> ShowsAt(p, roots, x, y)
  }

  /** The scenes of this kernel: the desktop at the bottom fills the screen, and no frame has a gap. */
  ghost predicate WellStacked(roots: seq<Window>, width: nat, height: nat) {
    && Fits(roots)
    && roots != [] && roots[|roots| - 1].Desktop? && roots[|roots| - 1].rect == Rect(0, 0, width, height)
    && forall w :: w in roots ==> Gapless(w)
  }

  function Replaced(roots: seq<Window>, i: nat, w: Window): seq<Window>
    requires i < |roots|
  {
    roots[..i] + [w] + roots[i + 1..]
  }

  /** `detach` followed by `push`. */
  function Raised(roots: seq<Window>, i: nat): seq<Window>
    requires i < |roots|
  {
    [roots[i]] + (roots[..i] + roots[i + 1..])
  }

  /** The raised root comes first, and the others stay in their order. */
  lemma RaisedOrder(roots: seq<Window>, i: nat, j: nat)
    requires i < |roots| && j < |roots|
    ensures |Raised(roots, i)| == |roots|
    ensures Raised(roots, i)[if j == i then 0 else if j < i then j + 1 else j] == roots[j]
  {
  }

  // ---------------------------------------------------------------- what a pixel does not depend on

  lemma {:induction false} VisibleAppend(x: int, y: int, a: seq<Window>, b: seq<Window>)
    ensures Visible(x, y, a + b) == Visible(x, y, a) + Visible(x, y, b)
    decreases |a|
  {
    if a == [] {
      assert a + b == b;
    } else {
      assert (a + b)[0] == a[0] && (a + b)[1..] == a[1..] + b;
      VisibleAppend(x, y, a[1..], b);
    }
  }

  /**
    Where a dragged root is in front before and after, an opaque part of it shows at its new place
    what it showed at the old one.
   */
  lemma DraggedShows(x: int, y: int, roots: seq<Window>, i: nat, dx: int, dy: int, p: Pixel, q: Pixel)
    requires i < |roots|
    requires FrontRoot(x, y, roots) == i
    requires FrontRoot(x + dx, y + dy, Replaced(roots, i, Moved(roots[i], dx, dy))) == i
    requires var leaf := TopLeaf(x, y, [roots[i]]);
      leaf.Some? && leaf.value.Plain? && leaf.value.fill / 0x1_0000 % 8 == 0
    ensures Paint(x + dx, y + dy, Replaced(roots, i, Moved(roots[i], dx, dy)), None, p) == Paint(x, y, roots, None, q)
  {
    hide Mix, Alpha;
    var moved := Moved(roots[i], dx, dy);
    assert MovedAll([roots[i]], dx, dy) == [moved];
    LeafTravels(x, y, [roots[i]], dx, dy);
    PixelShows(x, y, roots, q);
    PixelShows(x + dx, y + dy, Replaced(roots, i, moved), p);
    SameColor(Paint(x + dx, y + dy, Replaced(roots, i, moved), None, p).color, Paint(x, y, roots, None, q).color);
  }

  /** Replacing a root changes only pixels of its old or its new rectangle. */
  lemma ReplacedElsewhere(x: int, y: int, roots: seq<Window>, i: nat, w: Window, q: Pixel)
    requires i < |roots| && !In(roots[i].rect, x, y) && !In(w.rect, x, y)
    ensures Paint(x, y, Replaced(roots, i, w), None, q) == Paint(x, y, roots, None, q)
  {
    var r := Replaced(roots, i, w);
    assert roots == roots[..i] + ([roots[i]] + roots[i + 1..]);
    assert r == roots[..i] + ([w] + roots[i + 1..]);
    VisibleAppend(x, y, roots[..i], [roots[i]] + roots[i + 1..]);
    VisibleAppend(x, y, roots[..i], [w] + roots[i + 1..]);
    VisibleAppend(x, y, [roots[i]], roots[i + 1..]);
    VisibleAppend(x, y, [w], roots[i + 1..]);
    PaintVisible(x, y, roots, q);
    PaintVisible(x, y, r, q);
  }

  /** Raising a root changes only pixels of its rectangle. */
  lemma RaisedElsewhere(x: int, y: int, roots: seq<Window>, i: nat, q: Pixel)
    requires i < |roots| && !In(roots[i].rect, x, y)
    ensures Paint(x, y, Raised(roots, i), None, q) == Paint(x, y, roots, None, q)
  {
    assert roots == roots[..i] + ([roots[i]] + roots[i + 1..]);
    VisibleAppend(x, y, roots[..i], [roots[i]] + roots[i + 1..]);
    VisibleAppend(x, y, [roots[i]], roots[i + 1..]);
    VisibleAppend(x, y, [roots[i]], roots[..i] + roots[i + 1..]);
    VisibleAppend(x, y, roots[..i], roots[i + 1..]);
    PaintVisible(x, y, roots, q);
    PaintVisible(x, y, Raised(roots, i), q);
  }

  lemma {:induction false} MovedGapless(w: Window, dx: int, dy: int)
    requires Gapless(w)
    ensures Gapless(Moved(w, dx, dy))
    decreases w
  {
    if w.Frame? {
      var m := Moved(w, dx, dy);
      forall x, y | In(m.rect, x, y) ensures !NoneContains(m.children, x, y) {
        assert In(w.rect, x - dx, y - dy);
        var i :| 0 <= i < |w.children| && In(w.children[i].rect, x - dx, y - dy);
        assert In(m.children[i].rect, x, y);
      }
      forall c | c in m.children ensures Gapless(c) {
        var i :| 0 <= i < |m.children| && m.children[i] == c;
        MovedGapless(w.children[i], dx, dy);
      }
    }
  }

  lemma MovedFitsOne(w: Window, dx: int, dy: int)
    requires Fits([w])
    ensures Fits([Moved(w, dx, dy)])
  {
    MovedFits([w], dx, dy);
    assert MovedAll([w], dx, dy) == [Moved(w, dx, dy)];
  }

  lemma ReplacedStacked(roots: seq<Window>, i: nat, w: Window, width: nat, height: nat)
    requires WellStacked(roots, width, height) && i < |roots| - 1 && Gapless(w) && Fits([w])
    ensures WellStacked(Replaced(roots, i, w), width, height)
  {
    var r := Replaced(roots, i, w);
    forall v | v in r ensures Gapless(v) && (v.Frame? ==> Fits(v.children)) {
      assert v in roots || v == w;
      assert w in [w];
    }
  }

  lemma RaisedStacked(roots: seq<Window>, i: nat, width: nat, height: nat)
    requires WellStacked(roots, width, height) && i < |roots| - 1
    ensures WellStacked(Raised(roots, i), width, height)
  {
    var r := Raised(roots, i);
    assert r[|r| - 1] == roots[|roots| - 1];
    forall v | v in r ensures v in roots { }
  }

  /** Where no root in front of root `j` contains the pixel, painting from root `j` down is painting them all. */
  lemma PaintedFromShows(before: Picture, after: Picture, clip: Rect, roots: seq<Window>, j: nat, x: int, y: int)
    requires WellStacked(roots, before.width, before.height) && j < |roots|
    requires Painted(before, after, clip, roots[j..], None)
    requires 0 <= x < before.width && 0 <= y < before.height && In(clip, x, y)
    requires NoneContains(roots[..j], x, y)
    ensures ShowsAt(after, roots, x, y)
  {
    GaplessCovers(x, y, roots);
    forall q
      ensures Paint(x, y, roots, None, q) == At(after, x, y)
    {
      PaintSkips(x, y, roots, j, None, At(before, x, y));
      CoveredIndependent(x, y, roots, None, q, At(before, x, y));
    }
  }

  lemma StillShows(p: Picture, p': Picture, roots: seq<Window>, roots': seq<Window>, x: int, y: int)
    requires SameSize(p, p') && 0 <= x < p.width && 0 <= y < p.height
    requires ShowsAt(p, roots, x, y) && At(p', x, y) == At(p, x, y)
    requires forall q :: Paint(x, y, roots', None, q) == Paint(x, y, roots, None, q)
    ensures ShowsAt(p', roots', x, y)
  {
  }

  // ---------------------------------------------------------------- queued redraws

  /** A display message; a window's rectangle is looked up when the message is carried out. */
  datatype DisplayMsg = RedrawScreen | RedrawMouse | RedrawWindow(id: nat) | RedrawRect(rect: Rect)

  const MAX_EVENTS := 16
  const RUN_MESSAGES := 10

  /** What enqueue makes of the queue: a message that finds it full is dropped. */
  function Post(pending: seq<DisplayMsg>, msg: DisplayMsg): seq<DisplayMsg> {
    if |pending| < MAX_EVENTS then pending + [msg] else pending
  }

  function PostAll(pending: seq<DisplayMsg>, msgs: seq<DisplayMsg>): seq<DisplayMsg> {
    if msgs == [] then pending
    else Post(PostAll(pending, msgs[..|msgs| - 1]), msgs[|msgs| - 1])
  }

  /** As many of the messages as there are places left are taken, from the first on. */
  lemma {:induction false} PostAllTakes(pending: seq<DisplayMsg>, msgs: seq<DisplayMsg>)
    requires |pending| <= MAX_EVENTS
    ensures PostAll(pending, msgs) ==
      pending + msgs[..if |pending| + |msgs| <= MAX_EVENTS then |msgs| else MAX_EVENTS - |pending|]
  {
    if msgs == [] {
      assert pending + msgs[..0] == pending;
    } else {
      var n := |msgs| - 1;
      PostAllTakes(pending, msgs[..n]);
      assert msgs == msgs[..n] + [msgs[n]];
      if |pending| + |msgs| <= MAX_EVENTS {
        assert msgs[..n][..n] == msgs[..n] && msgs[..|msgs|] == msgs;
      } else {
        assert msgs[..n][..MAX_EVENTS - |pending|] == msgs[..MAX_EVENTS - |pending|];
      }
    }
  }

  /** The stack of roots; `ids` names the windows, so that a message can refer to one. */
  datatype Stack = Stack(roots: seq<Window>, ids: seq<nat>)

  predicate Named(s: Stack) {
    |s.ids| == |s.roots| && forall i, j :: 0 <= i < j < |s.ids| ==> s.ids[i] != s.ids[j]
  }

  /** Window `i` has this name and contains the pixel. */
  predicate WindowAt(s: Stack, i: nat, id: nat, x: int, y: int)
    requires Named(s)
  {
    i < |s.ids| && s.ids[i] == id && In(s.roots[i].rect, x, y)
  }

  ghost predicate Covers(msg: DisplayMsg, s: Stack, x: int, y: int)
    requires Named(s)
  {
    match msg
    case RedrawScreen => true
    case RedrawMouse => false
    case RedrawWindow(id) => exists i: nat :: WindowAt(s, i, id, x, y)
    case RedrawRect(rect) => In(rect, x, y)
  }

  /** Some queued message will repaint the pixel. */
  ghost predicate Awaits(pending: seq<DisplayMsg>, s: Stack, x: int, y: int)
    requires Named(s)
  {
    exists m :: 0 <= m < |pending| && Covers(pending[m], s, x, y)
  }

  ghost predicate UpToDate(p: Picture, pending: seq<DisplayMsg>, s: Stack) {
    && Sized(p) && Named(s)
    && forall x, y :: 0 <= x < p.width && 0 <= y < p.height && !Awaits(pending, s, x, y) ==> ShowsAt(p, s.roots, x, y)
  }

  predicate AsksFor(pending: seq<DisplayMsg>, m: nat, id: nat) {
    m < |pending| && pending[m] == RedrawWindow(id)
  }

  ghost predicate Asked(pending: seq<DisplayMsg>, id: nat) {
    exists m: nat :: AsksFor(pending, m, id)
  }

  ghost predicate AsksLater(pending: seq<DisplayMsg>, m: nat, id: nat) {
    exists m': nat :: m' > m && AsksFor(pending, m', id)
  }

  /**
    A window message repaints its window over those in front of it.  So every window in front has
    a message of its own later in the queue.
   */
  ghost predicate FrontLater(pending: seq<DisplayMsg>, ids: seq<nat>) {
    forall m: nat, i: nat, j: nat :: i < j < |ids| && AsksFor(pending, m, ids[j]) ==> AsksLater(pending, m, ids[i])
  }

  predicate NoWindows(msgs: seq<DisplayMsg>) {
    forall m :: 0 <= m < |msgs| ==> !msgs[m].RedrawWindow?
  }

  predicate KnownWindows(pending: seq<DisplayMsg>, ids: seq<nat>) {
    forall m :: 0 <= m < |pending| && pending[m].RedrawWindow? ==> pending[m].id in ids
  }

  function RaisedIds(ids: seq<nat>, i: nat): seq<nat>
    requires i < |ids|
  {
    [ids[i]] + (ids[..i] + ids[i + 1..])
  }

  lemma AwaitsTail(pending: seq<DisplayMsg>, s: Stack, x: int, y: int)
    requires Named(s) && pending != []
    ensures Awaits(pending, s, x, y) <==> Covers(pending[0], s, x, y) || Awaits(pending[1..], s, x, y)
  {
    if m :| 0 <= m < |pending| && Covers(pending[m], s, x, y) && m > 0 {
      assert pending[1..][m - 1] == pending[m];
    }
  }

  lemma AwaitsMore(pending: seq<DisplayMsg>, more: seq<DisplayMsg>, s: Stack, x: int, y: int)
    requires Named(s)
    ensures Awaits(pending + more, s, x, y) <==> Awaits(pending, s, x, y) || Awaits(more, s, x, y)
  {
    var all := pending + more;
    if m :| 0 <= m < |pending| && Covers(pending[m], s, x, y) { assert all[m] == pending[m]; }
    if m :| 0 <= m < |more| && Covers(more[m], s, x, y) { assert all[|pending| + m] == more[m]; }
    if m :| 0 <= m < |all| && Covers(all[m], s, x, y) {
      if m >= |pending| { assert more[m - |pending|] == all[m]; } else { assert pending[m] == all[m]; }
    }
  }

  lemma FrontLaterTail(pending: seq<DisplayMsg>, ids: seq<nat>)
    requires pending != [] && FrontLater(pending, ids)
    ensures FrontLater(pending[1..], ids)
  {
    var tail := pending[1..];
    forall m: nat, i: nat, j: nat | i < j < |ids| && AsksFor(tail, m, ids[j])
      ensures AsksLater(tail, m, ids[i])
    {
      assert AsksFor(pending, m + 1, ids[j]);
      assert AsksLater(pending, m + 1, ids[i]);
      var m': nat :| m' > m + 1 && AsksFor(pending, m', ids[i]);
      assert AsksFor(tail, m' - 1, ids[i]);
    }
  }

  /** Messages at the end that ask for no window change nothing about window messages. */
  lemma FrontLaterRects(pending: seq<DisplayMsg>, more: seq<DisplayMsg>, ids: seq<nat>)
    requires FrontLater(pending, ids) && NoWindows(more)
    ensures FrontLater(pending + more, ids)
  {
    var all := pending + more;
    forall m | |pending| <= m < |all|
      ensures !all[m].RedrawWindow?
    {
      assert all[m] == more[m - |pending|];
    }
    forall m: nat, i: nat, j: nat | i < j < |ids| && AsksFor(all, m, ids[j])
      ensures AsksLater(all, m, ids[i])
    {
      assert AsksFor(pending, m, ids[j]);
      assert AsksLater(pending, m, ids[i]);
      var m': nat :| m' > m && AsksFor(pending, m', ids[i]);
      assert AsksFor(all, m', ids[i]);
    }
  }

  /** Raising a window and asking for it last. */
  lemma FrontLaterRaised(pending: seq<DisplayMsg>, ids: seq<nat>, i: nat)
    requires i < |ids| && FrontLater(pending, ids) && KnownWindows(pending, ids)
    requires forall a, b :: 0 <= a < b < |ids| ==> ids[a] != ids[b]
    ensures FrontLater(pending + [RedrawWindow(ids[i])], RaisedIds(ids, i))
  {
    var all, raised := pending + [RedrawWindow(ids[i])], RaisedIds(ids, i);
    var last := |pending|;
    assert AsksFor(all, last, ids[i]);
    forall m: nat, a: nat, b: nat | a < b < |raised| && AsksFor(all, m, raised[b])
      ensures AsksLater(all, m, raised[a])
    {
      var b0 := if b <= i then b - 1 else b;
      assert raised[b] == ids[b0] != ids[i];
      assert m < last && AsksFor(pending, m, ids[b0]);
      if a == 0 {
        assert AsksFor(all, last, raised[a]);
      } else {
        var a0 := if a <= i then a - 1 else a;
        assert raised[a] == ids[a0];
        assert AsksLater(pending, m, ids[a0]);
        var m': nat :| m' > m && AsksFor(pending, m', ids[a0]);
        assert AsksFor(all, m', raised[a]);
      }
    }
  }

  // ---------------------------------------------------------------- what a handler leaves up to date

  lemma StillAwaits(pending: seq<DisplayMsg>, s: Stack, s': Stack, x: int, y: int)
    requires Named(s) && Named(s')
    requires forall k: nat, id :: WindowAt(s, k, id, x, y) ==> exists k': nat :: WindowAt(s', k', id, x, y)
    ensures Awaits(pending, s, x, y) ==> Awaits(pending, s', x, y)
  {
    forall m | 0 <= m < |pending| && Covers(pending[m], s, x, y)
      ensures Covers(pending[m], s', x, y)
    {
    }
  }

  lemma AsksMeansAwaits(pending: seq<DisplayMsg>, s: Stack, m: nat, i: nat, id: nat, x: int, y: int)
    requires Named(s) && AsksFor(pending, m, id) && WindowAt(s, i, id, x, y)
    ensures Awaits(pending, s, x, y)
  {
    assert Covers(pending[m], s, x, y);
  }

  /** Dragging: only pixels of the old and the new place change, and messages cover both. */
  lemma DragUpToDate(p: Picture, pending: seq<DisplayMsg>, more: seq<DisplayMsg>, s: Stack, i: nat, w: Window)
    requires UpToDate(p, pending, s) && i < |s.roots|
    requires forall x, y :: In(s.roots[i].rect, x, y) || In(w.rect, x, y) ==>
      Awaits(more, Stack(Replaced(s.roots, i, w), s.ids), x, y)
    ensures UpToDate(p, pending + more, Stack(Replaced(s.roots, i, w), s.ids))
  {
    var s' := Stack(Replaced(s.roots, i, w), s.ids);
    forall x, y | 0 <= x < p.width && 0 <= y < p.height && !Awaits(pending + more, s', x, y)
      ensures ShowsAt(p, s'.roots, x, y)
    {
      AwaitsMore(pending, more, s', x, y);
      assert !In(s.roots[i].rect, x, y) && !In(w.rect, x, y);
      assert forall k: nat, id :: WindowAt(s, k, id, x, y) ==> WindowAt(s', k, id, x, y);
      StillAwaits(pending, s, s', x, y);
      forall q
        ensures Paint(x, y, s'.roots, None, q) == Paint(x, y, s.roots, None, q)
      {
        ReplacedElsewhere(x, y, s.roots, i, w, q);
      }
      StillShows(p, p, s.roots, s'.roots, x, y);
    }
  }

  /** Raising: only pixels of the window change, and its message covers them. */
  lemma RaiseUpToDate(p: Picture, pending: seq<DisplayMsg>, s: Stack, i: nat)
    requires UpToDate(p, pending, s) && i < |s.roots|
    ensures UpToDate(p, pending + [RedrawWindow(s.ids[i])], Stack(Raised(s.roots, i), RaisedIds(s.ids, i)))
  {
    var s', more := Stack(Raised(s.roots, i), RaisedIds(s.ids, i)), [RedrawWindow(s.ids[i])];
    assert Named(s');
    forall x, y | 0 <= x < p.width && 0 <= y < p.height && !Awaits(pending + more, s', x, y)
      ensures ShowsAt(p, s'.roots, x, y)
    {
      AwaitsMore(pending, more, s', x, y);
      if In(s.roots[i].rect, x, y) { AsksMeansAwaits(more, s', 0, 0, s.ids[i], x, y); }
      forall k: nat, id | WindowAt(s, k, id, x, y)
        ensures exists k': nat :: WindowAt(s', k', id, x, y)
      {
        assert WindowAt(s', if k < i then k + 1 else k, id, x, y);
      }
      StillAwaits(pending, s, s', x, y);
      forall q
        ensures Paint(x, y, s'.roots, None, q) == Paint(x, y, s.roots, None, q)
      {
        RaisedElsewhere(x, y, s.roots, i, q);
      }
      StillShows(p, p, s.roots, s'.roots, x, y);
    }
  }

  /** Carrying out a message that paints from root `j` down, when those in front are asked for later. */
  lemma RedrawUpToDate(p: Picture, p': Picture, pending: seq<DisplayMsg>, s: Stack, clip: Rect, j: nat)
    requires pending != [] && UpToDate(p, pending, s) && WellStacked(s.roots, p.width, p.height) && j < |s.roots|
    requires Painted(p, p', clip, s.roots[j..], None)
    requires forall x, y :: 0 <= x < p.width && 0 <= y < p.height && Covers(pending[0], s, x, y) ==> In(clip, x, y)
    requires forall i :: 0 <= i < j ==> Asked(pending[1..], s.ids[i])
    ensures UpToDate(p', pending[1..], s)
  {
    forall x, y | 0 <= x < p.width && 0 <= y < p.height && !Awaits(pending[1..], s, x, y)
      ensures ShowsAt(p', s.roots, x, y)
    {
      AwaitsTail(pending, s, x, y);
      if In(clip, x, y) {
        forall i | 0 <= i < |s.roots[..j]|
          ensures !In(s.roots[..j][i].rect, x, y)
        {
          assert Asked(pending[1..], s.ids[i]);
          var m: nat :| AsksFor(pending[1..], m, s.ids[i]);
          if WindowAt(s, i, s.ids[i], x, y) { AsksMeansAwaits(pending[1..], s, m, i, s.ids[i], x, y); }
        }
        PaintedFromShows(p, p', clip, s.roots, j, x, y);
      } else {
        StillShows(p, p', s.roots, s.roots, x, y);
      }
    }
  }

  /** What a message does to the screen: a window's is painted from that window down. */
  ghost predicate CarriedOut(msg: DisplayMsg, s: Stack, before: Picture, after: Picture)
    requires Named(s)
  {
    match msg
    case RedrawScreen => Painted(before, after, Whole(before), s.roots, None)
    case RedrawMouse => after == before
    case RedrawRect(rect) => Painted(before, after, rect, s.roots, None)
    case RedrawWindow(id) =>
      exists k :: 0 <= k < |s.ids| && s.ids[k] == id && Painted(before, after, s.roots[k].rect, s.roots[k..], None)
  }

  /** The messages for a list of pieces; degenerate ones need none. */
  function Redraws(pieces: seq<Rect>): (msgs: seq<DisplayMsg>)
    ensures |msgs| <= |pieces| && forall m :: 0 <= m < |msgs| ==> msgs[m].RedrawRect?
  {
    if pieces == [] then []
    else
      var last := pieces[|pieces| - 1];
      Redraws(pieces[..|pieces| - 1]) + if last.l == last.r || last.t == last.b then [] else [RedrawRect(last)]
  }

  lemma RedrawsMore(pieces: seq<Rect>, k: nat)
    requires k < |pieces|
    ensures Redraws(pieces[..k + 1]) ==
      if pieces[k].l == pieces[k].r || pieces[k].t == pieces[k].b then Redraws(pieces[..k])
      else Redraws(pieces[..k]) + [RedrawRect(pieces[k])]
  {
    assert pieces[..k + 1][..k] == pieces[..k];
  }

  lemma PostMore(pending: seq<DisplayMsg>, msgs: seq<DisplayMsg>, msg: DisplayMsg)
    ensures PostAll(pending, msgs + [msg]) == Post(PostAll(pending, msgs), msg)
  {
    assert (msgs + [msg])[..|msgs|] == msgs;
  }

  lemma RedrawsNone(pending: seq<DisplayMsg>)
    ensures Redraws([]) == [] && PostAll(pending, []) == pending
  {
  }

  lemma {:induction false} RedrawsAsk(pieces: seq<Rect>)
    ensures forall k :: 0 <= k < |pieces| ==> Queued(pieces[k], Redraws(pieces))
    decreases |pieces|
  {
    if pieces != [] {
      var n := |pieces| - 1;
      RedrawsAsk(pieces[..n]);
      forall k | 0 <= k < |pieces|
        ensures Queued(pieces[k], Redraws(pieces))
      {
        if k < n { assert Queued(pieces[..n][k], Redraws(pieces[..n])); }
      }
    }
  }

  /** The piece is degenerate, or a message asks for it. */
  predicate Queued(piece: Rect, more: seq<DisplayMsg>) {
    piece.l == piece.r || piece.t == piece.b || RedrawRect(piece) in more
  }

  lemma PiecesAwaited(a: Rect, b: Rect, pieces: seq<Rect>, more: seq<DisplayMsg>, s: Stack)
    requires Named(s) && pieces == UnionPieces(a, b)
    requires forall k :: 0 <= k < |pieces| ==> Queued(pieces[k], more)
    ensures forall x, y :: In(a, x, y) || In(b, x, y) ==> Awaits(more, s, x, y)
  {
    UnionExact(a, b);
    forall x, y | In(a, x, y) || In(b, x, y)
      ensures Awaits(more, s, x, y)
    {
      assert InSome(pieces, x, y);
      var k :| 0 <= k < |pieces| && In(pieces[k], x, y);
      assert Queued(pieces[k], more);
      var m :| 0 <= m < |more| && more[m] == RedrawRect(pieces[k]);
      assert Covers(more[m], s, x, y);
    }
  }

  /** The messages of a drag: those for the pieces, then one for the mouse. */
  function DragMsgs(a: Rect, b: Rect): (msgs: seq<DisplayMsg>)
    ensures NoWindows(msgs) && |msgs| <= 4
  {
    Redraws(UnionPieces(a, b)) + [RedrawMouse]
  }

  /** The queue has room for the messages a drag from `a` to `b` posts for its pieces. */
  predicate RoomFor(pending: seq<DisplayMsg>, a: Rect, b: Rect) {
    |pending| + |Redraws(UnionPieces(a, b))| <= MAX_EVENTS
  }

  /** If the messages for the pieces fit, the drag leaves every pixel up to date or asked for. */
  lemma DragFits(p: Picture, pending: seq<DisplayMsg>, s: Stack, i: nat, w: Window)
    requires UpToDate(p, pending, s) && i < |s.roots| && |pending| <= MAX_EVENTS
    requires RoomFor(pending, s.roots[i].rect, w.rect)
    ensures UpToDate(p, PostAll(pending, DragMsgs(s.roots[i].rect, w.rect)), Stack(Replaced(s.roots, i, w), s.ids))
  {
    var pieces := UnionPieces(s.roots[i].rect, w.rect);
    var msgs := DragMsgs(s.roots[i].rect, w.rect);
    var taken := if |pending| + |msgs| <= MAX_EVENTS then |msgs| else MAX_EVENTS - |pending|;
    PostAllTakes(pending, msgs);
    RedrawsAsk(pieces);
    forall k | 0 <= k < |pieces|
      ensures Queued(pieces[k], msgs[..taken])
    {
      assert Queued(pieces[k], Redraws(pieces));
      assert msgs[..|msgs| - 1] == Redraws(pieces);
      assert forall m :: m in Redraws(pieces) ==> m in msgs[..taken];
    }
    PiecesAwaited(s.roots[i].rect, w.rect, pieces, msgs[..taken], Stack(Replaced(s.roots, i, w), s.ids));
    DragUpToDate(p, pending, msgs[..taken], s, i, w);
  }

  lemma PostAllKnown(pending: seq<DisplayMsg>, msgs: seq<DisplayMsg>, ids: seq<nat>)
    requires |pending| <= MAX_EVENTS && NoWindows(msgs) && KnownWindows(pending, ids)
    ensures KnownWindows(PostAll(pending, msgs), ids) && |PostAll(pending, msgs)| <= MAX_EVENTS
    ensures FrontLater(pending, ids) ==> FrontLater(PostAll(pending, msgs), ids)
  {
    PostAllTakes(pending, msgs);
    var taken := msgs[..if |pending| + |msgs| <= MAX_EVENTS then |msgs| else MAX_EVENTS - |pending|];
    if FrontLater(pending, ids) { FrontLaterRects(pending, taken, ids); }
  }

  /** The messages are carried out one after the other. */
  ghost predicate AllCarriedOut(msgs: seq<DisplayMsg>, s: Stack, before: Picture, after: Picture)
    requires Named(s)
    decreases |msgs|
  {
    var n := |msgs| - 1;
    if msgs == [] then after == before
    else exists mid :: AllCarriedOut(msgs[..n], s, before, mid) && CarriedOut(msgs[n], s, mid, after)
  }

  // ---------------------------------------------------------------- the handlers

  class WindowManager {
    const screen: Screen
    var stack: Stack
    var pending: seq<DisplayMsg>

    /** What holds whether or not messages were lost. */
    ghost predicate Sound()
      reads this, screen
    {
      && screen.Valid()
      && WellStacked(stack.roots, screen.width, screen.height)
      && Named(stack)
      && KnownWindows(pending, stack.ids)
      && |pending| <= MAX_EVENTS
    }

    /** Every pixel shows the scene, or a queued message will repaint it. */
    ghost predicate Valid()
      reads this, screen, screen.fb, screen.pick
    {
      Sound() && UpToDate(screen.Shot(), pending, stack) && FrontLater(pending, stack.ids)
    }

    /** Start-up: whatever the screen holds, a full redraw is queued. */
    constructor (screen: Screen, stack: Stack)
      requires screen.Valid() && WellStacked(stack.roots, screen.width, screen.height) && Named(stack)
      ensures Valid() && this.screen == screen && this.stack == stack && pending == [RedrawScreen]
    {
      this.screen := screen;
      this.stack := stack;
      this.pending := [RedrawScreen];
      new;
      ghost var p := screen.Shot();
      assert forall x, y :: Covers(pending[0], stack, x, y);
    }

    /** new_display_msg: nothing tells the caller when the queue is full. */
    method NewDisplayMsg(msg: DisplayMsg)
      requires |pending| <= MAX_EVENTS
      modifies this`pending
      ensures pending == Post(old(pending), msg)
    {
      if |pending| < MAX_EVENTS {
        pending := pending + [msg];
      }
    }

    /** MOUSE_MOVE while dragging root `i`: move it, and ask for the pieces of the union of both places. */
    method Drag(i: nat, dx: int, dy: int)
      requires Sound() && i < |stack.roots| - 1
      modifies this
      ensures Sound() && stack.ids == old(stack.ids)
      ensures dx == 0 && dy == 0 ==> stack == old(stack) && pending == old(pending)
      ensures dx != 0 || dy != 0 ==>
        && stack.roots == old(Replaced(stack.roots, i, Moved(stack.roots[i], dx, dy)))
        && pending == PostAll(old(pending), DragMsgs(old(stack.roots[i].rect), stack.roots[i].rect))
      ensures old(Valid()) && RoomFor(old(pending), old(stack.roots[i].rect), stack.roots[i].rect) ==> Valid()
      ensures old(Valid()) && dx == 0 && dy == 0 ==> Valid()
    {
      if dx == 0 && dy == 0 {
        return;
      }
      ghost var s, pending0 := stack, pending;
      var from := stack.roots[i].rect;
      var moved := Moved(stack.roots[i], dx, dy);
      assert s.roots[i] in s.roots;
      MovedGapless(s.roots[i], dx, dy);
      MovedFitsOne(s.roots[i], dx, dy);
      ReplacedStacked(s.roots, i, moved, screen.width, screen.height);
      stack := stack.(roots := Replaced(stack.roots, i, moved));

      AskForPieces(from, moved.rect);
      NewDisplayMsg(RedrawMouse);
      ghost var msgs := DragMsgs(from, moved.rect);
      PostMore(pending0, Redraws(UnionPieces(from, moved.rect)), RedrawMouse);
      PostAllKnown(pending0, msgs, s.ids);
      if old(Valid()) && RoomFor(pending0, from, moved.rect) {
        DragFits(screen.Shot(), pending0, s, i, moved);
      }
    }

    /** The loop over the pieces of rect_union. */
    method AskForPieces(from: Rect, to: Rect)
      requires |pending| <= MAX_EVENTS
      modifies this`pending
      ensures pending == PostAll(old(pending), Redraws(UnionPieces(from, to))) && |pending| <= MAX_EVENTS
    {
      hide Redraws, PostAll, UnionPieces;
      ghost var pending0 := pending;
      RedrawsNone(pending0);
      var pieces := new Rect[3](_ => Rect(0, 0, 0, 0));
      var n := RectUnion(from, to, pieces);
      ghost var all := pieces[..n];
      for k := 0 to n
        invariant pieces[..n] == all
        invariant pending == PostAll(pending0, Redraws(all[..k])) && |pending| <= MAX_EVENTS
      {
        var rect := pieces[k];
        RedrawsMore(all, k);
        PostMore(pending0, Redraws(all[..k]), RedrawRect(rect));
        if !(rect.l == rect.r || rect.t == rect.b) {
          NewDisplayMsg(RedrawRect(rect));
        }
      }
      assert all[..n] == all;
    }

    /** MOUSE_LEFT_DOWN on root `i`: bring it to the top if it is not there, and ask for its redraw. */
    method Raise(i: nat)
      requires Sound() && i < |stack.roots| - 1
      modifies this
      ensures Sound()
      ensures stack.roots == old(Raised(stack.roots, i)) && stack.ids == old(RaisedIds(stack.ids, i))
      ensures pending == if i == 0 then old(pending) else Post(old(pending), RedrawWindow(old(stack.ids[i])))
      ensures old(Valid()) && (i == 0 || |old(pending)| < MAX_EVENTS) ==> Valid()
    {
      hide UpToDate, WellStacked, FrontLater, Awaits, AllCarriedOut;
      if i == 0 {
        assert Raised(stack.roots, 0) == stack.roots && RaisedIds(stack.ids, 0) == stack.ids;
        return;
      }
      ghost var s := stack;
      var id := stack.ids[i];
      RaisedStacked(s.roots, i, screen.width, screen.height);
      RaisedSame(s.ids, i);
      if old(Valid()) {
        RaiseUpToDate(screen.Shot(), pending, s, i);
        FrontLaterRaised(pending, s.ids, i);
      }
      stack := Stack(Raised(stack.roots, i), RaisedIds(stack.ids, i));
      assert Named(stack);
      NewDisplayMsg(RedrawWindow(id));
    }

    /** The display worker carries out the oldest message. */
    method Redraw()
      requires Sound() && pending != []
      modifies this`pending, screen.fb, screen.pick
      ensures Sound() && pending == old(pending[1..])
      ensures CarriedOut(old(pending[0]), stack, old(screen.Shot()), screen.Shot())
      ensures old(Valid()) ==> Valid()
    {
      ghost var p, queue := screen.Shot(), pending;
      var msg := pending[0];
      var desktop := Rect(0, 0, screen.width, screen.height);
      ghost var clip, j := desktop, 0;
      assert stack.roots[0..] == stack.roots;
      match msg {
        case RedrawScreen =>
          screen.GuiRedrawRect(desktop, stack.roots, None);
        case RedrawMouse =>
          clip := Rect(0, 0, 0, 0);
          EmptyClip(p, clip, stack.roots, None);
        case RedrawRect(rect) =>
          clip := rect;
          RedrawClipped(rect, 0);
        case RedrawWindow(id) =>
          var k :| 0 <= k < |stack.ids| && stack.ids[k] == id;
          clip, j := stack.roots[k].rect, k;
          OnlyWindow(stack, k, id);
          if FrontLater(pending, stack.ids) { LaterInTail(pending, stack.ids, k); }
          RedrawClipped(stack.roots[k].rect, k);
      }
      pending := pending[1..];
      if old(Valid()) {
        RedrawUpToDate(p, screen.Shot(), queue, stack, clip, j);
        FrontLaterTail(queue, stack.ids);
      }
    }

    /** Dragging on an up-to-date screen and letting the worker run shows the moved scene. */
    method DragAndRun(i: nat, dx: int, dy: int)
      requires Valid() && pending == [] && i < |stack.roots| - 1
      modifies this, screen.fb, screen.pick
      ensures Valid() && pending == []
      ensures dx != 0 || dy != 0 ==> stack.roots == old(Replaced(stack.roots, i, Moved(stack.roots[i], dx, dy)))
      ensures Shows(screen.Shot(), stack.roots)
    {
      Drag(i, dx, dy);
      ghost var msgs := pending;
      assert |msgs| <= 4 by {
        PostAllTakes([], DragMsgs(old(stack.roots[i].rect), stack.roots[i].rect));
      }
      Run(true);
    }

    /** gui_redraw_rect from root `j` down, within the desktop. */
    method RedrawClipped(rect: Rect, j: nat)
      requires screen.Valid() && Fits(stack.roots) && j < |stack.roots|
      modifies screen.fb, screen.pick
      ensures Painted(old(screen.Shot()), screen.Shot(), rect, stack.roots[j..], None)
    {
      var clip := Intersect(rect, Rect(0, 0, screen.width, screen.height));
      if clip.Some? {
        screen.GuiRedrawRect(clip.value, stack.roots[j..], None);
      }
    }

    /** One run of the display worker: nothing before its deadline, then at most ten messages. */
    method Run(due: bool)
      requires Sound()
      modifies this`pending, screen.fb, screen.pick
      ensures Sound() && (old(Valid()) ==> Valid())
      ensures !due ==> pending == old(pending) && screen.Shot() == old(screen.Shot())
      ensures due ==> pending == old(pending)[if |old(pending)| < RUN_MESSAGES then |old(pending)| else RUN_MESSAGES..]
      ensures due ==>
        AllCarriedOut(old(pending)[..|old(pending)| - |pending|], stack, old(screen.Shot()), screen.Shot())
      ensures old(Valid()) && due && |old(pending)| <= RUN_MESSAGES ==> Shows(screen.Shot(), stack.roots)
    {
      if !due {
        return;
      }
      var count := if |pending| < RUN_MESSAGES then |pending| else RUN_MESSAGES;
      ghost var queue, before := pending, screen.Shot();
      for n := 0 to count
        invariant Sound() && (old(Valid()) ==> Valid()) && pending == queue[n..]
        invariant AllCarriedOut(queue[..n], stack, before, screen.Shot())
      {
        ghost var mid := screen.Shot();
        Redraw();
        assert queue[..n + 1][..n] == queue[..n];
        assert AllCarriedOut(queue[..n], stack, before, mid) && CarriedOut(queue[n], stack, mid, screen.Shot());
      }
      if pending == [] && old(Valid()) {
        DrainedShows(screen.Shot(), stack);
      }
    }
  }

  lemma RaisedSame(ids: seq<nat>, i: nat)
    requires i < |ids|
    ensures forall id :: id in ids ==> id in RaisedIds(ids, i)
  {
    var raised := RaisedIds(ids, i);
    forall id | id in ids
      ensures id in raised
    {
      var k :| 0 <= k < |ids| && ids[k] == id;
      assert raised[if k < i then k + 1 else if k == i then 0 else k] == id;
    }
  }

  lemma OnlyWindow(s: Stack, k: nat, id: nat)
    requires Named(s) && k < |s.ids| && s.ids[k] == id
    ensures forall x, y :: Covers(RedrawWindow(id), s, x, y) <==> In(s.roots[k].rect, x, y)
  {
    forall x, y
      ensures Covers(RedrawWindow(id), s, x, y) <==> In(s.roots[k].rect, x, y)
    {
      assert In(s.roots[k].rect, x, y) ==> WindowAt(s, k, id, x, y);
      if i: nat :| WindowAt(s, i, id, x, y) { assert i == k; }
    }
  }

  lemma LaterInTail(pending: seq<DisplayMsg>, ids: seq<nat>, k: nat)
    requires pending != [] && k < |ids| && pending[0] == RedrawWindow(ids[k]) && FrontLater(pending, ids)
    ensures forall i :: 0 <= i < k ==> Asked(pending[1..], ids[i])
  {
    forall i | 0 <= i < k
      ensures Asked(pending[1..], ids[i])
    {
      assert AsksFor(pending, 0, ids[k]);
      assert AsksLater(pending, 0, ids[i]);
      var m: nat :| m > 0 && AsksFor(pending, m, ids[i]);
      assert AsksFor(pending[1..], m - 1, ids[i]);
    }
  }

  /** Once the queue is empty the screen shows exactly what a full redraw of the stack gives. */
  lemma DrainedShows(p: Picture, s: Stack)
    requires UpToDate(p, [], s)
    ensures Shows(p, s.roots)
  {
    forall x, y | 0 <= x < p.width && 0 <= y < p.height
      ensures ShowsAt(p, s.roots, x, y)
    {
      assert !Awaits([], s, x, y);
    }
  }
}
