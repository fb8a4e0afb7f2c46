/** src/include/gui/shapes.h: rectangles, their intersection, and the union as disjoint pieces. */
module Shapes {
  import opened Options

  /** Half-open: the pixels with l <= x < r and t <= y < b. */
  datatype Rect = Rect(l: int, t: int, r: int, b: int)

  predicate In(q: Rect, x: int, y: int) {
    q.l <= x < q.r && q.t <= y < q.b
  }

  predicate Within(q: Rect, outer: Rect) {
    outer.l <= q.l <= q.r <= outer.r && outer.t <= q.t <= q.b <= outer.b
  }

  function Min(a: int, b: int): int { if a < b then a else b }

  function Max(a: int, b: int): int { if a > b then a else b }

  /** None stands for the source's `false`, which leaves the destination alone. */
  function Intersect(src: Rect, dst: Rect): (q: Option<Rect>)
    ensures q.None? ==> forall x, y :: !(In(src, x, y) && In(dst, x, y))
    ensures q.Some? ==> Within(q.value, dst) && Within(q.value, src)
    ensures q.Some? ==> forall x, y :: In(q.value, x, y) <==> In(src, x, y) && In(dst, x, y)
  {
    var l, r := Max(src.l, dst.l), Min(src.r, dst.r);
    if r < l then None
    else
      var t, b := Max(src.t, dst.t), Min(src.b, dst.b);
      if b < t then None else Some(Rect(l, t, r, b))
  }

  predicate InSome(pieces: seq<Rect>, x: int, y: int) {
    exists i :: 0 <= i < |pieces| && In(pieces[i], x, y)
  }

  /** What `rect_union` leaves in the used part of its array. */
  function UnionPieces(a: Rect, b: Rect): (pieces: seq<Rect>)
    ensures |pieces| == 2 || |pieces| == 3
  {
    if Intersect(a, b).None? then [a, b]
    else
      var hi, lo := if a.t < b.t then a else b, if a.t < b.t then b else a;
      var short, long := if a.b < b.b then a else b, if a.b < b.b then b else a;
      [Rect(hi.l, hi.t, hi.r, lo.t),
       Rect(Min(a.l, b.l), lo.t, Max(a.r, b.r), short.b),
       Rect(long.l, short.b, long.r, long.b)]
  }

  /** For any two rectangles the pieces cover exactly the two of them, and no pixel twice. */
  lemma UnionExact(a: Rect, b: Rect)
    ensures forall x, y :: InSome(UnionPieces(a, b), x, y) <==> In(a, x, y) || In(b, x, y)
    ensures forall i, j, x, y :: 0 <= i < j < |UnionPieces(a, b)| ==>
      !(In(UnionPieces(a, b)[i], x, y) && In(UnionPieces(a, b)[j], x, y))
  {
    var p := UnionPieces(a, b);
    forall x, y ensures InSome(p, x, y) <==> In(a, x, y) || In(b, x, y) {
      if In(a, x, y) || In(b, x, y) {
        assert In(p[0], x, y) || In(p[1], x, y) || (|p| == 3 && In(p[2], x, y));
      }
    }
  }

  /** `rect_union`, writing its pieces through the array it is given. */
  method RectUnion(a: Rect, b: Rect, dst: array<Rect>) returns (n: nat)
    requires dst.Length == 3
    modifies dst
    ensures n <= 3 && dst[..n] == UnionPieces(a, b)
  {
    var q := Intersect(a, b);
    if q.None? {
      dst[0] := a;
      dst[1] := b;
      return 2;
    }
    dst[0] := q.value;
    var hi, lo;
    if a.t < b.t { hi, lo := a, b; } else { hi, lo := b, a; }
    dst[0] := Rect(hi.l, hi.t, hi.r, lo.t);
    var top := lo.t;
    if a.b < b.b { hi, lo := a, b; } else { hi, lo := b, a; }
    dst[1] := Rect(if a.l < b.l then a.l else b.l, top, if a.r > b.r then a.r else b.r, hi.b);
    dst[2] := Rect(lo.l, hi.b, lo.r, lo.b);
    return 3;
  }

  function MoveRect(q: Rect, dx: int, dy: int): Rect {
    Rect(q.l + dx, q.t + dy, q.r + dx, q.b + dy)
  }
}
