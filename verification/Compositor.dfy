/**
  src/system/gui.cpp and src/system/devices/vga.cpp: drawing the window tree into the
  framebuffer and the pick buffer, proved against the per-pixel reference of `Scene`.
 */
module Compositor {
  import opened Arithmetic
  import opened Options
  import opened Shapes
  import opened Colors
  import opened Scene

  /** The contents of both buffers, row by row. */
  datatype Picture = Picture(width: nat, height: nat, fb: seq<Color>, pick: seq<nat>)

  predicate Sized(p: Picture) {
    |p.fb| == |p.pick| == p.width * p.height
  }

  /** VGA_PIXEL_OFFSET */
  function Offset(width: nat, x: int, y: int): int { y * width + x }

  lemma OffsetInside(width: nat, height: nat, x: int, y: int)
    requires 0 <= x < width && 0 <= y < height
    ensures 0 <= Offset(width, x, y) < width * height
  {
    assert y * width <= (height - 1) * width;
  }

  lemma OffsetsDistinct(width: nat, x: int, y: int, x': int, y': int)
    requires 0 <= x < width && 0 <= x' < width
    ensures Offset(width, x, y) == Offset(width, x', y') <==> x == x' && y == y'
  {
    assert y * width - y' * width == width * (y - y');
    MultipleSmall(width, y - y');
  }

  // ---------------------------------------------------------------- sweeping a buffer

  /** One cell of a buffer. */
  function Cell<T>(s: seq<T>, width: nat, height: nat, x: int, y: int): T
    requires |s| == width * height && 0 <= x < width && 0 <= y < height
  {
    OffsetInside(width, height, x, y);
    s[Offset(width, x, y)]
  }

  /** Writing one cell changes that cell only. */
  lemma Poke<T>(s: seq<T>, s': seq<T>, width: nat, height: nat, x0: int, y0: int)
    requires |s| == |s'| == width * height && 0 <= x0 < width && 0 <= y0 < height
    requires forall i :: 0 <= i < |s| && i != Offset(width, x0, y0) ==> s'[i] == s[i]
    ensures forall x, y :: 0 <= x < width && 0 <= y < height && !(x == x0 && y == y0) ==>
      Cell(s', width, height, x, y) == Cell(s, width, height, x, y)
  {
    forall x, y | 0 <= x < width && 0 <= y < height && !(x == x0 && y == y0)
      ensures Cell(s', width, height, x, y) == Cell(s, width, height, x, y)
    {
      OffsetInside(width, height, x, y);
      OffsetsDistinct(width, x, y, x0, y0);
    }
  }

  /**
    How far the nested loops over a rectangle have got: `f` has been applied at every pixel of it
    that comes before (x0, y0) in row order.
   */
  ghost predicate Swept<T(!new)>(s0: seq<T>, s: seq<T>, width: nat, height: nat, rect: Rect, x0: int, y0: int,
                                 f: (int, int, T) -> T) {
    && |s0| == |s| == width * height
    && forall x, y :: 0 <= x < width && 0 <= y < height ==>
         Cell(s, width, height, x, y) ==
         if In(rect, x, y) && (y < y0 || (y == y0 && x < x0)) then f(x, y, Cell(s0, width, height, x, y))
         else Cell(s0, width, height, x, y)
  }

  lemma SweepStep<T(!new)>(s0: seq<T>, s: seq<T>, s': seq<T>, width: nat, height: nat, rect: Rect, x0: int, y0: int,
                           f: (int, int, T) -> T)
    requires Within(rect, Rect(0, 0, width, height)) && In(rect, x0, y0)
    requires Swept(s0, s, width, height, rect, x0, y0, f)
    requires 0 <= Offset(width, x0, y0) < |s| && s' == s[Offset(width, x0, y0) := f(x0, y0, s[Offset(width, x0, y0)])]
    ensures Swept(s0, s', width, height, rect, x0 + 1, y0, f)
  {
    Poke(s, s', width, height, x0, y0);
    assert Cell(s, width, height, x0, y0) == Cell(s0, width, height, x0, y0);
  }

  lemma NextRow<T(!new)>(s0: seq<T>, s: seq<T>, width: nat, height: nat, rect: Rect, x0: int, y0: int,
                         f: (int, int, T) -> T)
    requires Swept(s0, s, width, height, rect, x0, y0, f) && x0 >= rect.r
    ensures Swept(s0, s, width, height, rect, rect.l, y0 + 1, f)
  {
  }

  function Clamp(v: int, lo: int, hi: int): int {
    if v < lo then lo else if v >= hi then hi else v
  }

  /** clip_to_screen at both corners. */
  function ClipToScreen(rect: Rect, width: nat, height: nat): (q: Rect)
    ensures forall x, y :: 0 <= x < width && 0 <= y < height ==> (In(q, x, y) <==> In(rect, x, y))
    ensures 0 <= q.l <= width && 0 <= q.r <= width && 0 <= q.t <= height && 0 <= q.b <= height
  {
    Rect(Clamp(rect.l, 0, width), Clamp(rect.t, 0, height), Clamp(rect.r, 0, width), Clamp(rect.b, 0, height))
  }

  /** Sweeping what is on the screen of a rectangle is sweeping the rectangle. */
  lemma SweptClipped<T(!new)>(s0: seq<T>, s: seq<T>, width: nat, height: nat, rect: Rect, y0: int,
                              f: (int, int, T) -> T)
    requires Swept(s0, s, width, height, ClipToScreen(rect, width, height), ClipToScreen(rect, width, height).l, y0, f)
    requires y0 >= ClipToScreen(rect, width, height).b
    ensures Swept(s0, s, width, height, rect, rect.l, rect.b, f)
  {
  }

  // What the loops do to one cell.
  function Filling(fill: bv32): (int, int, Color) -> Color { (x, y, c) => Mix(c, fill) }
  function Marking(gid: nat): (int, int, nat) -> nat { (x, y, g) => gid }
  function Copying(image: seq<Color>, stride: nat): (int, int, Color) -> Color {
    (x, y, c) => ImageAt(image, stride, x, y)
  }

  function Lighting(glyphs: set<(int, int)>, box: Rect): (int, int, Color) -> Color {
    (x, y, c) => GlyphOver(glyphs, box, x, y, c)
  }

  /** Every cell of the rectangle that is on the screen has value `v`, and every other cell what it had. */
  ghost predicate Uniform<T(!new)>(s0: seq<T>, s: seq<T>, width: nat, height: nat, rect: Rect, v: T) {
    && |s0| == |s| == width * height
    && forall x, y :: 0 <= x < width && 0 <= y < height ==>
         Cell(s, width, height, x, y) == if In(rect, x, y) then v else Cell(s0, width, height, x, y)
  }

  lemma MarksUniformly(s0: seq<nat>, s: seq<nat>, width: nat, height: nat, rect: Rect, gid: nat)
    requires Swept(s0, s, width, height, rect, rect.l, rect.b, Marking(gid))
    ensures Uniform(s0, s, width, height, rect, gid)
  {
  }

  /** An opaque colour word is the colour of every cell it fills. */
  lemma FillsUniformly(s0: seq<Color>, s: seq<Color>, width: nat, height: nat, rect: Rect, fill: bv32, c: Color)
    requires Swept(s0, s, width, height, rect, rect.l, rect.b, Filling(fill))
    requires fill / 0x1_0000 % 8 == 0 && c as bv32 == fill % 0x1_0000
    ensures Uniform(s0, s, width, height, rect, c)
  {
    hide Mix;
    forall x, y | 0 <= x < width && 0 <= y < height
      ensures Cell(s, width, height, x, y) == if In(rect, x, y) then c else Cell(s0, width, height, x, y)
    {
      var prior := Cell(s0, width, height, x, y);
      OpaqueMix(prior, fill);
      SameColor(Mix(prior, fill), c);
    }
  }

  lemma SameColor(a: Color, b: Color)
    ensures a as bv32 == b as bv32 ==> a == b
  {
  }

  /** The lit pixels of the glyph set become green, all others keep their colour. */
  lemma LightsGlyphs(s0: seq<Color>, s: seq<Color>, width: nat, height: nat, rect: Rect, glyphs: set<(int, int)>,
                     box: Rect)
    requires Swept(s0, s, width, height, rect, rect.l, rect.b, Lighting(glyphs, box))
    ensures forall x, y :: 0 <= x < width && 0 <= y < height ==>
      Cell(s, width, height, x, y) ==
      if In(rect, x, y) && (x - box.l, y - box.t) in glyphs then 0x03E0 else Cell(s0, width, height, x, y)
  {
  }

  /** The image is read row by row, and each row is as long as the stride. */
  lemma CopiesRows(s0: seq<Color>, s: seq<Color>, width: nat, height: nat, rect: Rect, image: seq<Color>, stride: nat)
    requires Swept(s0, s, width, height, rect, rect.l, rect.b, Copying(image, stride))
    requires Within(rect, Rect(0, 0, stride, height)) && |image| == stride * height
    ensures forall x, y :: 0 <= x < width && 0 <= y < height ==>
      Cell(s, width, height, x, y) ==
      if In(rect, x, y) then Cell(image, stride, height, x, y) else Cell(s0, width, height, x, y)
  {
    forall x, y | In(rect, x, y) ensures ImageAt(image, stride, x, y) == Cell(image, stride, height, x, y) {
      OffsetInside(stride, height, x, y);
    }
  }

  function At(p: Picture, x: int, y: int): Pixel
    requires Sized(p) && 0 <= x < p.width && 0 <= y < p.height
  {
    Pixel(Cell(p.fb, p.width, p.height, x, y), Cell(p.pick, p.width, p.height, x, y))
  }

  predicate SameSize(p: Picture, q: Picture) {
    Sized(p) && Sized(q) && p.width == q.width && p.height == q.height
  }

  /** `after` is `before` with the list painted at every pixel of `clip`, and nowhere else. */
  ghost predicate Painted(before: Picture, after: Picture, clip: Rect, list: seq<Window>,
                          context: Option<seq<Window>>) {
    && SameSize(before, after)
    && forall x, y :: 0 <= x < before.width && 0 <= y < before.height ==>
         At(after, x, y) == if In(clip, x, y) then Paint(x, y, list, context, At(before, x, y)) else At(before, x, y)
  }

  ghost predicate WindowPainted(before: Picture, after: Picture, clip: Rect, w: Window, below: seq<Window>) {
    && SameSize(before, after)
    && forall x, y :: 0 <= x < before.width && 0 <= y < before.height ==>
         At(after, x, y) == if In(clip, x, y) then PaintWindow(x, y, w, below, At(before, x, y)) else At(before, x, y)
  }

  function Whole(p: Picture): Rect { Rect(0, 0, p.width, p.height) }

  /** The rectangles left around `sub` when it is cut out of `clip`. */
  function Above(clip: Rect, sub: Rect): Rect { Rect(clip.l, clip.t, clip.r, sub.t) }
  function Left(clip: Rect, sub: Rect): Rect { Rect(clip.l, sub.t, sub.l, sub.b) }
  function Right(clip: Rect, sub: Rect): Rect { Rect(sub.r, sub.t, clip.r, sub.b) }
  function Under(clip: Rect, sub: Rect): Rect { Rect(clip.l, sub.b, clip.r, clip.b) }

  // ---------------------------------------------------------------- finding the window to draw

  /**
    The search at the top of `gui_redraw_rect`: the index it stops at, and the sub-rectangle it
    leaves.  After MAX_WINDOW_LEVELS misses it stops with the clip rectangle unchanged.
   */
  function Front(clip: Rect, list: seq<Window>, i: nat): (nat, Rect)
    requires i <= |list|
    decreases |list| - i
  {
    if i == |list| || i >= MAX_WINDOW_LEVELS then (i, clip)
    else
      match Intersect(list[i].rect, clip)
      case Some(sub) => (i, sub)
      case None => Front(clip, list, i + 1)
  }

  lemma {:induction false} FrontMeaning(clip: Rect, list: seq<Window>, i: nat)
    requires i <= |list| && i <= MAX_WINDOW_LEVELS
    ensures var (n, sub) := Front(clip, list, i);
      && i <= n <= |list| && n <= MAX_WINDOW_LEVELS
      && (forall j :: i <= j < n ==> Intersect(list[j].rect, clip).None?)
      && (n < |list| && n < MAX_WINDOW_LEVELS ==> Intersect(list[n].rect, clip) == Some(sub))
      && (n == |list| || n == MAX_WINDOW_LEVELS ==> sub == clip)
    decreases |list| - i
  {
    if i < |list| && i < MAX_WINDOW_LEVELS && Intersect(list[i].rect, clip).None? {
      FrontMeaning(clip, list, i + 1);
    }
  }

  /**
    The search is right (it finds no window, or the visible part of one) exactly when it does not
    run out of levels in front of a window that fails to contain the clip rectangle.
   */
  lemma FrontRightIff(clip: Rect, list: seq<Window>)
    ensures var (n, sub) := Front(clip, list, 0);
      n <= |list| &&
      ((n == |list| || Intersect(list[n].rect, clip) == Some(sub)) <==>
       !(|list| > MAX_WINDOW_LEVELS
         && (forall j :: 0 <= j < MAX_WINDOW_LEVELS ==> Intersect(list[j].rect, clip).None?)
         && Intersect(list[MAX_WINDOW_LEVELS].rect, clip) != Some(clip)))
  {
    FrontMeaning(clip, list, 0);
  }

  // ---------------------------------------------------------------- the decomposition

  /** Painting what lies behind window `n` beside it, and the window itself in `sub`, paints the list. */
  lemma SplitPaints(before: Picture, p1: Picture, p2: Picture, p3: Picture, p4: Picture, after: Picture,
                    clip: Rect, sub: Rect, list: seq<Window>, n: nat, context: Option<seq<Window>>)
    requires Within(clip, Whole(before)) && n < |list|
    requires forall j :: 0 <= j < n ==> Intersect(list[j].rect, clip).None?
    requires Intersect(list[n].rect, clip) == Some(sub)
    requires Painted(before, p1, Above(clip, sub), list[n + 1..], context)
    requires Painted(p1, p2, Left(clip, sub), list[n + 1..], context)
    requires WindowPainted(p2, p3, sub, list[n], Below(list[n..], context))
    requires Painted(p3, p4, Right(clip, sub), list[n + 1..], context)
    requires Painted(p4, after, Under(clip, sub), list[n + 1..], context)
    ensures Painted(before, after, clip, list, context)
  {
    forall x, y | 0 <= x < before.width && 0 <= y < before.height
      ensures At(after, x, y) ==
        if In(clip, x, y) then Paint(x, y, list, context, At(before, x, y)) else At(before, x, y)
    {
      if In(clip, x, y) {
        assert NoneContains(list[..n], x, y);
        PaintSkips(x, y, list, n, context, At(before, x, y));
        assert list[n..][0] == list[n] && list[n..][1..] == list[n + 1..];
      }
    }
  }

  lemma NothingThere(before: Picture, clip: Rect, list: seq<Window>, context: Option<seq<Window>>)
    requires Sized(before)
    requires forall j :: 0 <= j < |list| ==> Intersect(list[j].rect, clip).None?
    ensures Painted(before, before, clip, list, context)
  {
    forall x, y | 0 <= x < before.width && 0 <= y < before.height && In(clip, x, y)
      ensures Paint(x, y, list, context, At(before, x, y)) == At(before, x, y)
    {
      assert list[..|list|] == list;
      PaintSkips(x, y, list, |list|, context, At(before, x, y));
    }
  }

  lemma EmptyClip(before: Picture, clip: Rect, list: seq<Window>, context: Option<seq<Window>>)
    requires Sized(before)
    ensures clip.l >= clip.r || clip.t >= clip.b ==> Painted(before, before, clip, list, context)
  {
  }

  // ---------------------------------------------------------------- the buffers

  class Screen {
    const width: nat
    const height: nat
    const fb: array<Color>
    const pick: array<nat>

    ghost predicate Valid()
      reads this
    {
      fb.Length == pick.Length == width * height && fb as object != pick
    }

    ghost function Shot(): Picture
      reads this, fb, pick
    {
      Picture(width, height, fb[..], pick[..])
    }

    constructor (width: nat, height: nat)
      ensures Valid() && this.width == width && this.height == height && fresh(fb) && fresh(pick)
    {
      this.width, this.height := width, height;
      fb := new Color[width * height](_ => 0);
      pick := new nat[width * height](_ => 0);
    }

    /** `rect_fill`: one colour, blended or opaque, over what lies on the screen of any rectangle. */
    method RectFill(rect: Rect, fill: bv32)
      requires Valid()
      modifies fb
      ensures Swept(old(fb[..]), fb[..], width, height, rect, rect.l, rect.b, Filling(fill))
      ensures fill < 0x1_0000 ==> Uniform(old(fb[..]), fb[..], width, height, rect, fill as Color)
    {
      ghost var s0 := fb[..];
      ghost var f := Filling(fill);
      var q := ClipToScreen(rect, width, height);
      var y := q.t;
      while y < q.b
        invariant q.t <= y && (y <= q.b || y == q.t)
        invariant Swept(s0, fb[..], width, height, q, q.l, y, f)
      {
        var x := q.l;
        while x < q.r
          invariant q.l <= x && (x <= q.r || x == q.l)
          invariant Swept(s0, fb[..], width, height, q, x, y, f)
        {
          OffsetInside(width, height, x, y);
          ghost var s1 := fb[..];
          fb[Offset(width, x, y)] := Mix(fb[Offset(width, x, y)], fill);
          SweepStep(s0, s1, fb[..], width, height, q, x, y, f);
          x := x + 1;
        }
        NextRow(s0, fb[..], width, height, q, x, y, f);
        y := y + 1;
      }
      SweptClipped(s0, fb[..], width, height, rect, y, f);
      if fill < 0x1_0000 { FillsUniformly(s0, fb[..], width, height, rect, fill, fill as Color); }
    }

    /** `update_pick_buf` */
    method UpdatePickBuf(rect: Rect, gid: nat)
      requires Valid() && Within(rect, Rect(0, 0, width, height))
      modifies pick
      ensures Swept(old(pick[..]), pick[..], width, height, rect, rect.l, rect.b, Marking(gid))
      ensures Uniform(old(pick[..]), pick[..], width, height, rect, gid)
    {
      ghost var s0 := pick[..];
      ghost var f := Marking(gid);
      for y := rect.t to rect.b
        invariant Swept(s0, pick[..], width, height, rect, rect.l, y, f)
      {
        for x := rect.l to rect.r
          invariant Swept(s0, pick[..], width, height, rect, x, y, f)
        {
          OffsetInside(width, height, x, y);
          ghost var s1 := pick[..];
          pick[Offset(width, x, y)] := gid;
          SweepStep(s0, s1, pick[..], width, height, rect, x, y, f);
        }
      }
    }

    /** The copying loops of `GUIDesktop::draw`. */
    method CopyImage(rect: Rect, image: seq<Color>, stride: nat)
      requires Valid() && Within(rect, Rect(0, 0, width, height))
      modifies fb
      ensures Swept(old(fb[..]), fb[..], width, height, rect, rect.l, rect.b, Copying(image, stride))
    {
      ghost var s0 := fb[..];
      ghost var f := Copying(image, stride);
      for y := rect.t to rect.b
        invariant Swept(s0, fb[..], width, height, rect, rect.l, y, f)
      {
        for x := rect.l to rect.r
          invariant Swept(s0, fb[..], width, height, rect, x, y, f)
        {
          OffsetInside(width, height, x, y);
          ghost var s1 := fb[..];
          fb[Offset(width, x, y)] := ImageAt(image, stride, x, y);
          SweepStep(s0, s1, fb[..], width, height, rect, x, y, f);
        }
      }
    }

    /** The glyph loops of `GUITextBox::draw`, clipped: lit pixels become green. */
    method DrawGlyphs(rect: Rect, glyphs: set<(int, int)>, box: Rect)
      requires Valid() && Within(rect, Rect(0, 0, width, height))
      modifies fb
      ensures Swept(old(fb[..]), fb[..], width, height, rect, rect.l, rect.b, Lighting(glyphs, box))
      ensures forall x, y :: 0 <= x < width && 0 <= y < height ==>
        Cell(fb[..], width, height, x, y) ==
        if In(rect, x, y) && (x - box.l, y - box.t) in glyphs then 0x03E0 else Cell(old(fb[..]), width, height, x, y)
    {
      ghost var s0 := fb[..];
      ghost var f := Lighting(glyphs, box);
      for y := rect.t to rect.b
        invariant Swept(s0, fb[..], width, height, rect, rect.l, y, f)
      {
        for x := rect.l to rect.r
          invariant Swept(s0, fb[..], width, height, rect, x, y, f)
        {
          OffsetInside(width, height, x, y);
          ghost var s1 := fb[..];
          fb[Offset(width, x, y)] := GlyphOver(glyphs, box, x, y, fb[Offset(width, x, y)]);
          SweepStep(s0, s1, fb[..], width, height, rect, x, y, f);
        }
      }
      LightsGlyphs(s0, fb[..], width, height, rect, glyphs, box);
    }

    /** `gui_redraw_rect`: the whole clip rectangle, and nothing else, ends as the reference paints it. */
    method GuiRedrawRect(clip: Rect, top: seq<Window>, context: Option<seq<Window>>)
      requires Valid() && Within(clip, Rect(0, 0, width, height))
      requires Fits(top) && (context.Some? ==> Fits(context.value))
      modifies fb, pick
      ensures Painted(old(Shot()), Shot(), clip, top, context)
      decreases Height(context, top), top
    {
      ghost var p0 := Shot();
      var i := 0;
      var sub := clip;
      while i < |top| && i < MAX_WINDOW_LEVELS
        invariant i <= |top| && sub == clip
        invariant forall j :: 0 <= j < i ==> Intersect(top[j].rect, clip).None?
      {
        var q := Intersect(top[i].rect, sub);
        if q.Some? {
          sub := q.value;
          break;
        }
        i := i + 1;
      }
      if i == |top| {
        NothingThere(p0, clip, top, context);
        return;
      }
      var next := top[i + 1..];
      EmptyClip(p0, Above(clip, sub), next, context);
      if sub.t > clip.t {
        GuiRedrawRect(Above(clip, sub), next, context);
      }
      ghost var p1 := Shot();
      EmptyClip(p1, Left(clip, sub), next, context);
      if sub.l > clip.l {
        GuiRedrawRect(Left(clip, sub), next, context);
      }
      ghost var p2 := Shot();
      Draw(top[i], sub, Below(top[i..], context));
      ghost var p3 := Shot();
      EmptyClip(p3, Right(clip, sub), next, context);
      if sub.r < clip.r {
        GuiRedrawRect(Right(clip, sub), next, context);
      }
      ghost var p4 := Shot();
      EmptyClip(p4, Under(clip, sub), next, context);
      if sub.b < clip.b {
        GuiRedrawRect(Under(clip, sub), next, context);
      }
      SplitPaints(p0, p1, p2, p3, p4, Shot(), clip, sub, top, i, context);
    }

    /** The virtual `draw`, by window class. */
    method Draw(w: Window, clip: Rect, below: seq<Window>)
      requires Valid() && Within(clip, Rect(0, 0, width, height))
      requires Fits([w]) && Fits(below)
      modifies fb, pick
      ensures WindowPainted(old(Shot()), Shot(), clip, w, below)
      decreases |below| + 1, w, 1
    {
      match w
      case Desktop(_, _, _, _) => DrawDesktop(w, clip, below);
      case Plain(_, _, _) => DrawPlain(w, clip, below);
      case TextBox(_, _, _) => DrawTextBox(w, clip, below);
      case Frame(_, _) => DrawFrame(w, clip, below);
    }

    method DrawDesktop(w: Window, clip: Rect, ghost below: seq<Window>)
      requires Valid() && Within(clip, Rect(0, 0, width, height)) && w.Desktop?
      modifies fb, pick
      ensures WindowPainted(old(Shot()), Shot(), clip, w, below)
    {
      hide Swept, WindowPainted;
      ghost var p0 := Shot();
      UpdatePickBuf(clip, w.gid);
      CopyImage(clip, w.image, w.stride);
      DesktopPainted(p0, Shot(), clip, w, below);
    }

    /** `GUIWindow::draw`: a transparent window first redraws everything below its root. */
    method DrawPlain(w: Window, clip: Rect, below: seq<Window>)
      requires Valid() && Within(clip, Rect(0, 0, width, height)) && w.Plain?
      requires Fits(below)
      modifies fb, pick
      ensures WindowPainted(old(Shot()), Shot(), clip, w, below)
      decreases |below| + 1, w, 0
    {
      hide Swept, WindowPainted;
      ghost var p0 := Shot();
      if Alpha(w.fill) != 0 && |below| > 0 {
        GuiRedrawRect(clip, below, None);
      }
      ghost var p1 := Shot();
      RectFill(clip, w.fill);
      UpdatePickBuf(clip, w.gid);
      PlainPainted(p0, p1, Shot(), clip, w, below);
    }

    /** `GUITextBox::draw` */
    method DrawTextBox(w: Window, clip: Rect, below: seq<Window>)
      requires Valid() && Within(clip, Rect(0, 0, width, height)) && w.TextBox?
      requires Fits(below)
      modifies fb, pick
      ensures WindowPainted(old(Shot()), Shot(), clip, w, below)
      decreases |below| + 1, w, 0
    {
      hide Swept, WindowPainted;
      ghost var p0 := Shot();
      GuiRedrawRect(clip, below, None);
      ghost var p1 := Shot();
      UpdatePickBuf(clip, w.gid);
      RectFill(clip, TEXT_BACKGROUND);
      ghost var p2 := Shot();
      DrawGlyphs(clip, w.glyphs, w.rect);
      TextBoxPainted(p0, p1, p2, Shot(), clip, w, below);
    }

    /** `GUIWindowFrame::draw`: a frame paints only its children. */
    method DrawFrame(w: Window, clip: Rect, below: seq<Window>)
      requires Valid() && Within(clip, Rect(0, 0, width, height)) && w.Frame?
      requires Fits([w]) && Fits(below)
      modifies fb, pick
      ensures WindowPainted(old(Shot()), Shot(), clip, w, below)
      decreases |below| + 1, w, 0
    {
      assert w in [w];
      GuiRedrawRect(clip, w.children, Some(below));
    }
  }

  lemma DesktopPainted(p0: Picture, p1: Picture, clip: Rect, w: Window, below: seq<Window>)
    requires SameSize(p0, p1) && w.Desktop?
    requires Swept(p0.fb, p1.fb, p0.width, p0.height, clip, clip.l, clip.b, Copying(w.image, w.stride))
    requires Swept(p0.pick, p1.pick, p0.width, p0.height, clip, clip.l, clip.b, Marking(w.gid))
    ensures WindowPainted(p0, p1, clip, w, below)
  {
  }

  lemma PlainPainted(p0: Picture, p1: Picture, p2: Picture, clip: Rect, w: Window, below: seq<Window>)
    requires SameSize(p0, p1) && SameSize(p0, p2) && w.Plain?
    requires if Alpha(w.fill) != 0 && |below| > 0 then Painted(p0, p1, clip, below, None) else p1 == p0
    requires Swept(p1.fb, p2.fb, p0.width, p0.height, clip, clip.l, clip.b, Filling(w.fill))
    requires Swept(p1.pick, p2.pick, p0.width, p0.height, clip, clip.l, clip.b, Marking(w.gid))
    ensures WindowPainted(p0, p2, clip, w, below)
  {
  }

  lemma TextBoxPainted(p0: Picture, p1: Picture, p2: Picture, p3: Picture, clip: Rect, w: Window, below: seq<Window>)
    requires SameSize(p0, p1) && SameSize(p0, p2) && SameSize(p0, p3)
    requires w.TextBox?
    requires Painted(p0, p1, clip, below, None)
    requires Swept(p1.fb, p2.fb, p0.width, p0.height, clip, clip.l, clip.b, Filling(TEXT_BACKGROUND))
    requires Swept(p2.fb, p3.fb, p0.width, p0.height, clip, clip.l, clip.b, Lighting(w.glyphs, w.rect))
    requires Swept(p1.pick, p3.pick, p0.width, p0.height, clip, clip.l, clip.b, Marking(w.gid))
    ensures WindowPainted(p0, p3, clip, w, below)
  {
  }
}
