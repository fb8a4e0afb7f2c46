/**
  The window tree of src/system/gui.cpp as values, and what one pixel of it looks like.

  `Paint` is the reference the compositor is measured against: it speaks of one pixel at a time
  and knows nothing of clipping or of splitting rectangles.
 */
module Scene {
  import opened Options
  import opened Shapes
  import opened Colors

  const MAX_WINDOW_LEVELS := 256

  /** One screen position: its framebuffer word and its entry in the pick buffer. */
  datatype Pixel = Pixel(color: Color, gid: nat)

  datatype Window =
    | Desktop(rect: Rect, gid: nat, image: seq<Color>, stride: nat)
    | Plain(rect: Rect, gid: nat, fill: bv32)
    | TextBox(rect: Rect, gid: nat, glyphs: set<(int, int)>)   // lit pixels, relative to the box
    | Frame(rect: Rect, children: seq<Window>)

  // ---------------------------------------------------------------- one pixel

  function ImageAt(image: seq<Color>, stride: nat, x: int, y: int): Color {
    var i := y * stride + x;
    if 0 <= i < |image| then image[i] else 0
  }

  /** A text box lights its glyph pixels in green over its background. */
  function GlyphOver(glyphs: set<(int, int)>, rect: Rect, x: int, y: int, c: Color): Color {
    if (x - rect.l, y - rect.t) in glyphs then GREEN else c
  }

  /** The windows below the root that contains the head of `list`; roots carry no context. */
  function Below(list: seq<Window>, context: Option<seq<Window>>): seq<Window>
    requires list != []
  {
    match context
    case None => list[1..]
    case Some(below) => below
  }

  function Height(context: Option<seq<Window>>, list: seq<Window>): nat {
    match context
    case None => |list|
    case Some(below) => |below| + 1
  }

  /**
    The pixel (x, y) after painting a list of windows over `prior`: the first window that contains
    it decides.  With no context the list is the stack of roots; otherwise its windows belong to a
    root, and `context` is what lies below that root.
   */
  function Paint(x: int, y: int, list: seq<Window>, context: Option<seq<Window>>, prior: Pixel): Pixel
    decreases Height(context, list), list
  {
    if list == [] then prior
    else if In(list[0].rect, x, y) then PaintWindow(x, y, list[0], Below(list, context), prior)
    else Paint(x, y, list[1..], context, prior)
  }

  /** The same for a window known to contain the pixel. */
  function PaintWindow(x: int, y: int, w: Window, below: seq<Window>, prior: Pixel): Pixel
    decreases |below| + 1, w
  {
    match w
    case Desktop(_, gid, image, stride) => Pixel(ImageAt(image, stride, x, y), gid)
    case Plain(_, gid, fill) =>
      var under := if Alpha(fill) != 0 then Paint(x, y, below, None, prior) else prior;
      Pixel(Mix(under.color, fill), gid)
    case TextBox(rect, gid, glyphs) =>
      var under := Paint(x, y, below, None, prior);
      Pixel(GlyphOver(glyphs, rect, x, y, Mix(under.color, TEXT_BACKGROUND)), gid)
    case Frame(_, children) => Paint(x, y, children, Some(below), prior)
  }

  // ---------------------------------------------------------------- facts about one pixel

  predicate NoneContains(list: seq<Window>, x: int, y: int) {
    forall i :: 0 <= i < |list| ==> !In(list[i].rect, x, y)
  }

  /** Windows in front that do not contain the pixel can be skipped. */
  lemma {:induction false} PaintSkips(x: int, y: int, list: seq<Window>, k: nat, context: Option<seq<Window>>,
                                      prior: Pixel)
    requires k <= |list| && NoneContains(list[..k], x, y)
    ensures Paint(x, y, list, context, prior) == Paint(x, y, list[k..], context, prior)
    decreases k
  {
    if k == 0 {
      assert list[0..] == list;
    } else {
      assert list[..k][0] == list[0];
      assert list[1..][..k - 1] == list[..k][1..];
      PaintSkips(x, y, list[1..], k - 1, context, prior);
      assert list[1..][k - 1..] == list[k..];
    }
  }

  /** The roots that contain a pixel, in stacking order. */
  function Visible(x: int, y: int, roots: seq<Window>): seq<Window> {
    if roots == [] then []
    else if In(roots[0].rect, x, y) then [roots[0]] + Visible(x, y, roots[1..])
    else Visible(x, y, roots[1..])
  }

  /** A pixel depends on no root that does not contain it, however deep the blending goes. */
  lemma {:induction false} PaintVisible(x: int, y: int, roots: seq<Window>, prior: Pixel)
    ensures Paint(x, y, roots, None, prior) == Paint(x, y, Visible(x, y, roots), None, prior)
    decreases |roots|
  {
    if roots != [] {
      PaintVisible(x, y, roots[1..], prior);
      if In(roots[0].rect, x, y) {
        var v := Visible(x, y, roots);
        assert v[0] == roots[0] && v[1..] == Visible(x, y, roots[1..]);
        forall q ensures Paint(x, y, roots[1..], None, q) == Paint(x, y, v[1..], None, q) {
          PaintVisible(x, y, roots[1..], q);
        }
        WindowVisible(x, y, roots[0], roots[1..], v[1..], prior);
      }
    }
  }

  lemma {:induction false} WindowVisible(x: int, y: int, w: Window, below: seq<Window>, below': seq<Window>,
                                         prior: Pixel)
    requires forall q :: Paint(x, y, below, None, q) == Paint(x, y, below', None, q)
    ensures PaintWindow(x, y, w, below, prior) == PaintWindow(x, y, w, below', prior)
    decreases w
  {
    if w.Frame? { ListVisible(x, y, w.children, below, below', prior); }
  }

  lemma {:induction false} ListVisible(x: int, y: int, list: seq<Window>, below: seq<Window>, below': seq<Window>,
                                       prior: Pixel)
    requires forall q :: Paint(x, y, below, None, q) == Paint(x, y, below', None, q)
    ensures Paint(x, y, list, Some(below), prior) == Paint(x, y, list, Some(below'), prior)
    decreases list
  {
    if list != [] {
      WindowVisible(x, y, list[0], below, below', prior);
      ListVisible(x, y, list[1..], below, below', prior);
    }
  }

  // ---------------------------------------------------------------- what is opaquely covered

  /** The pixel gets a value that does not depend on what was there before. */
  predicate Covered(x: int, y: int, list: seq<Window>, context: Option<seq<Window>>)
    decreases Height(context, list), list
  {
    list != [] &&
    if In(list[0].rect, x, y) then CoveredBy(x, y, list[0], Below(list, context)) else Covered(x, y, list[1..], context)
  }

  predicate CoveredBy(x: int, y: int, w: Window, below: seq<Window>)
    decreases |below| + 1, w
  {
    match w
    case Desktop(_, _, _, _) => true
    case Plain(_, _, fill) => Alpha(fill) == 0 || Covered(x, y, below, None)
    case TextBox(_, _, _) => Covered(x, y, below, None)
    case Frame(_, children) => Covered(x, y, children, Some(below))
  }

  lemma {:induction false} CoveredIndependent(x: int, y: int, list: seq<Window>, context: Option<seq<Window>>,
                                              p: Pixel, q: Pixel)
    requires Covered(x, y, list, context)
    ensures Paint(x, y, list, context, p) == Paint(x, y, list, context, q)
    decreases Height(context, list), list
  {
    if In(list[0].rect, x, y) {
      WindowIndependent(x, y, list[0], Below(list, context), p, q);
    } else {
      CoveredIndependent(x, y, list[1..], context, p, q);
    }
  }

  lemma {:induction false} WindowIndependent(x: int, y: int, w: Window, below: seq<Window>, p: Pixel, q: Pixel)
    requires CoveredBy(x, y, w, below)
    ensures PaintWindow(x, y, w, below, p) == PaintWindow(x, y, w, below, q)
    decreases |below| + 1, w
  {
    match w
    case Desktop(_, _, _, _) =>
    case Plain(_, _, fill) => if Alpha(fill) != 0 { CoveredIndependent(x, y, below, None, p, q); }
    case TextBox(_, _, _) => CoveredIndependent(x, y, below, None, p, q);
    case Frame(_, children) => CoveredIndependent(x, y, children, Some(below), p, q);
  }

  /** Every pixel of every frame lies in one of its children, all the way down. */
  ghost predicate Gapless(w: Window) {
    w.Frame? ==>
      && (forall x, y :: In(w.rect, x, y) ==> !NoneContains(w.children, x, y))
      && forall c :: c in w.children ==> Gapless(c)
  }

  /** A stack that ends in a desktop over the pixel, without gaps in its frames, covers it. */
  lemma {:induction false} GaplessCovers(x: int, y: int, roots: seq<Window>)
    requires roots != [] && roots[|roots| - 1].Desktop? && In(roots[|roots| - 1].rect, x, y)
    requires forall w :: w in roots ==> Gapless(w)
    ensures Covered(x, y, roots, None)
    decreases |roots|
  {
    if |roots| > 1 { GaplessCovers(x, y, roots[1..]); }
    if In(roots[0].rect, x, y) { GaplessWindow(x, y, roots[0], roots[1..]); }
  }

  lemma {:induction false} GaplessWindow(x: int, y: int, w: Window, below: seq<Window>)
    requires In(w.rect, x, y) && Gapless(w) && (w.Desktop? || Covered(x, y, below, None))
    ensures CoveredBy(x, y, w, below)
    decreases w
  {
    if w.Frame? {
      var i :| 0 <= i < |w.children| && In(w.children[i].rect, x, y);
      GaplessList(x, y, w.children, i, below);
    }
  }

  lemma {:induction false} GaplessList(x: int, y: int, list: seq<Window>, i: nat, below: seq<Window>)
    requires i < |list| && In(list[i].rect, x, y)
    requires (forall c :: c in list ==> Gapless(c)) && Covered(x, y, below, None)
    ensures Covered(x, y, list, Some(below))
    decreases list
  {
    if In(list[0].rect, x, y) {
      GaplessWindow(x, y, list[0], below);
    } else {
      GaplessList(x, y, list[1..], i - 1, below);
    }
  }

  /** Over a gap of a frame nothing is painted, whatever lies below the frame's root. */
  lemma GapUnpainted(x: int, y: int, w: Window, below: seq<Window>, prior: Pixel)
    requires w.Frame? && NoneContains(w.children, x, y)
    ensures PaintWindow(x, y, w, below, prior) == prior
  {
    assert w.children[..|w.children|] == w.children;
    PaintSkips(x, y, w.children, |w.children|, Some(below), prior);
  }

  // ---------------------------------------------------------------- the pick buffer

  /** The topmost leaf at a pixel: frames defer to their children, transparency plays no part. */
  function TopLeaf(x: int, y: int, list: seq<Window>): Option<Window>
    decreases list
  {
    if list == [] then None
    else if !In(list[0].rect, x, y) then TopLeaf(x, y, list[1..])
    else if list[0].Frame? then TopLeaf(x, y, list[0].children)
    else Some(list[0])
  }

  lemma TopLeafIsLeaf(x: int, y: int, list: seq<Window>)
    ensures TopLeaf(x, y, list).Some? ==> !TopLeaf(x, y, list).value.Frame? && In(TopLeaf(x, y, list).value.rect, x, y)
    decreases list
  {
  }

  /** The pick buffer names the topmost leaf, even where that leaf is transparent. */
  lemma {:induction false} PickIsTopLeaf(x: int, y: int, list: seq<Window>, context: Option<seq<Window>>, prior: Pixel)
    ensures TopLeaf(x, y, list).Some? ==> !TopLeaf(x, y, list).value.Frame?
    ensures Paint(x, y, list, context, prior).gid ==
      if TopLeaf(x, y, list).Some? then TopLeaf(x, y, list).value.gid else prior.gid
    decreases list
  {
    TopLeafIsLeaf(x, y, list);
    if list != [] {
      if !In(list[0].rect, x, y) {
        PickIsTopLeaf(x, y, list[1..], context, prior);
      } else if list[0].Frame? {
        PickIsTopLeaf(x, y, list[0].children, Some(Below(list, context)), prior);
      }
    }
  }

  // ---------------------------------------------------------------- the leaf decides

  /** Inside a root, the topmost leaf is painted as if it were the root itself; its siblings do not shine through. */
  lemma {:induction false} LeafDecides(x: int, y: int, list: seq<Window>, below: seq<Window>, prior: Pixel)
    ensures Paint(x, y, list, Some(below), prior) ==
      if TopLeaf(x, y, list).Some? then PaintWindow(x, y, TopLeaf(x, y, list).value, below, prior) else prior
    decreases list
  {
    if list != [] {
      if !In(list[0].rect, x, y) {
        LeafDecides(x, y, list[1..], below, prior);
      } else if list[0].Frame? {
        LeafDecides(x, y, list[0].children, below, prior);
      }
    }
  }

  /** The first root from the front that contains the pixel, or the number of roots. */
  function FrontRoot(x: int, y: int, roots: seq<Window>): (i: nat)
    ensures i <= |roots| && NoneContains(roots[..i], x, y) && (i < |roots| ==> In(roots[i].rect, x, y))
  {
    if roots == [] || In(roots[0].rect, x, y) then 0
    else
      var i := FrontRoot(x, y, roots[1..]);
      assert roots[..i + 1] == [roots[0]] + roots[1..][..i];
      i + 1
  }

  /** What leaf `w` leaves at a pixel, if the roots below its own root leave `under` there. */
  predicate ShowsLeaf(w: Window, x: int, y: int, under: Pixel, p: Pixel) {
    match w
    case Desktop(_, gid, image, stride) =>
      p.gid == gid && (0 <= y * stride + x < |image| ==> p.color == image[y * stride + x])
    case Plain(_, gid, fill) =>
      p.gid == gid && Filled(fill, under.color, p.color)
    case TextBox(rect, gid, glyphs) =>
      p.gid == gid && p.color == if (x - rect.l, y - rect.t) in glyphs then 0x03E0 else Mix(under.color, 0x1_00E0)
    case Frame(_, _) => false
  }

  /**
    A pixel shows the topmost leaf of the first root that contains it: an opaque window its colour,
    the desktop its image, a lit glyph green; transparent leaves are blended over what the roots
    behind that root show.  At a gap, and outside all roots, the pixel stays as it was.
   */
  lemma PixelShows(x: int, y: int, roots: seq<Window>, prior: Pixel)
    ensures var i, p := FrontRoot(x, y, roots), Paint(x, y, roots, None, prior);
      && (i == |roots| ==> p == prior)
      && (i < |roots| ==>
        var leaf := TopLeaf(x, y, [roots[i]]);
        if leaf.None? then p == prior
        else ShowsLeaf(leaf.value, x, y, Paint(x, y, roots[i + 1..], None, prior), p))
  {
    var i := FrontRoot(x, y, roots);
    PaintSkips(x, y, roots, i, None, prior);
    if i < |roots| {
      var below := roots[i + 1..];
      assert roots[i..][0] == roots[i] && roots[i..][1..] == below;
      LeafDecides(x, y, [roots[i]], below, prior);
      TopLeafIsLeaf(x, y, [roots[i]]);
      var leaf := TopLeaf(x, y, [roots[i]]);
      if leaf.Some? { LeafShows(x, y, leaf.value, below, prior); }
    }
  }

  lemma LeafShows(x: int, y: int, w: Window, below: seq<Window>, prior: Pixel)
    requires !w.Frame?
    ensures ShowsLeaf(w, x, y, Paint(x, y, below, None, prior), PaintWindow(x, y, w, below, prior))
  {
    hide Mix, Alpha, Filled;
    if w.Plain? {
      FillShows(w.fill, Paint(x, y, below, None, prior).color, prior.color);
    } else {
      TextBackground();
    }
  }

  // ---------------------------------------------------------------- moving

  /** `move`: a frame carries its children along. */
  function Moved(w: Window, dx: int, dy: int): (m: Window)
    ensures m.rect == MoveRect(w.rect, dx, dy)
    decreases w
  {
    match w
    case Desktop(rect, gid, image, stride) => Desktop(MoveRect(rect, dx, dy), gid, image, stride)
    case Plain(rect, gid, fill) => Plain(MoveRect(rect, dx, dy), gid, fill)
    case TextBox(rect, gid, glyphs) => TextBox(MoveRect(rect, dx, dy), gid, glyphs)
    case Frame(rect, children) => Frame(MoveRect(rect, dx, dy), MovedAll(children, dx, dy))
  }

  function MovedAll(list: seq<Window>, dx: int, dy: int): (m: seq<Window>)
    ensures |m| == |list|
    ensures forall i :: 0 <= i < |list| ==> m[i] == Moved(list[i], dx, dy)
    decreases list
  {
    if list == [] then [] else [Moved(list[0], dx, dy)] + MovedAll(list[1..], dx, dy)
  }

  /** The list lengths the kernel's window table allows. */
  predicate Fits(list: seq<Window>) {
    |list| <= MAX_WINDOW_LEVELS && forall w :: w in list ==> w.Frame? ==> Fits(w.children)
  }

  lemma {:induction false} MovedFits(list: seq<Window>, dx: int, dy: int)
    requires Fits(list)
    ensures Fits(MovedAll(list, dx, dy))
    decreases list
  {
    var m := MovedAll(list, dx, dy);
    forall w | w in m && w.Frame? ensures Fits(w.children) {
      var i :| 0 <= i < |m| && m[i] == w;
      assert list[i] in list;
      MovedFits(list[i].children, dx, dy);
    }
  }

  /** A desktop paints its image at fixed places of the screen; all other windows paint relative to their rectangle. */
  predicate NoDesktop(list: seq<Window>)
    decreases list
  {
    forall w :: w in list ==> !w.Desktop? && (w.Frame? ==> NoDesktop(w.children))
  }

  /** Moving carries the topmost leaf along, whole. */
  lemma {:induction false} LeafTravels(x: int, y: int, list: seq<Window>, dx: int, dy: int)
    ensures TopLeaf(x + dx, y + dy, MovedAll(list, dx, dy)) ==
      if TopLeaf(x, y, list).Some? then Some(Moved(TopLeaf(x, y, list).value, dx, dy)) else None
    decreases list
  {
    if list != [] {
      var m := MovedAll(list, dx, dy);
      assert m[0] == Moved(list[0], dx, dy) && m[1..] == MovedAll(list[1..], dx, dy);
      assert In(m[0].rect, x + dx, y + dy) <==> In(list[0].rect, x, y);
      LeafTravels(x, y, list[1..], dx, dy);
      if list[0].Frame? { LeafTravels(x, y, list[0].children, dx, dy); }
    }
  }

  /**
    A window that has moved looks at the moved pixel as it looked before, if what lies below its root
    does: its fill, its number, its text and the stacking of its children are what they were.
   */
  lemma {:induction false} WindowTravels(x: int, y: int, w: Window, below: seq<Window>, below': seq<Window>,
                                         dx: int, dy: int, prior: Pixel)
    requires NoDesktop([w])
    requires forall q :: Paint(x + dx, y + dy, below', None, q) == Paint(x, y, below, None, q)
    ensures PaintWindow(x + dx, y + dy, Moved(w, dx, dy), below', prior) == PaintWindow(x, y, w, below, prior)
    decreases w, 1
  {
    hide Mix, Alpha;
    assert w in [w];
    if w.Frame? { ListTravels(x, y, w.children, below, below', dx, dy, prior); }
  }

  lemma {:induction false} ListTravels(x: int, y: int, list: seq<Window>, below: seq<Window>, below': seq<Window>,
                                       dx: int, dy: int, prior: Pixel)
    requires NoDesktop(list)
    requires forall q :: Paint(x + dx, y + dy, below', None, q) == Paint(x, y, below, None, q)
    ensures Paint(x + dx, y + dy, MovedAll(list, dx, dy), Some(below'), prior) == Paint(x, y, list, Some(below), prior)
    decreases list, 0
  {
    if list != [] {
      var m := MovedAll(list, dx, dy);
      assert m[1..] == MovedAll(list[1..], dx, dy);
      assert In(m[0].rect, x + dx, y + dy) <==> In(list[0].rect, x, y);
      assert list[0] in list;
      WindowTravels(x, y, list[0], below, below', dx, dy, prior);
      ListTravels(x, y, list[1..], below, below', dx, dy, prior);
    }
  }

  /** A stack without a desktop, moved as a whole, paints the moved picture. */
  lemma {:induction false} StackTravels(x: int, y: int, roots: seq<Window>, dx: int, dy: int, prior: Pixel)
    requires NoDesktop(roots)
    ensures Paint(x + dx, y + dy, MovedAll(roots, dx, dy), None, prior) == Paint(x, y, roots, None, prior)
    decreases roots
  {
    if roots != [] {
      var m := MovedAll(roots, dx, dy);
      assert m[1..] == MovedAll(roots[1..], dx, dy);
      assert In(m[0].rect, x + dx, y + dy) <==> In(roots[0].rect, x, y);
      assert roots[0] in roots;
      forall q ensures Paint(x + dx, y + dy, m[1..], None, q) == Paint(x, y, roots[1..], None, q) {
        StackTravels(x, y, roots[1..], dx, dy, q);
      }
      WindowTravels(x, y, roots[0], roots[1..], m[1..], dx, dy, prior);
    }
  }
}
