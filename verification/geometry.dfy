/**
 * The part of Qt's QPointF / QSizeF / QRectF / QRect value semantics that the core relies on,
 * over unbounded reals and integers. A QRectF is stored as origin plus size, exactly as Qt
 * stores it, so a rectangle may have a negative width or height until it is normalised.
 */
module Geometry {
  datatype Point = Point(x: real, y: real)
  datatype Size = Size(w: real, h: real)
  datatype Rect = Rect(x: real, y: real, w: real, h: real)

  datatype IPoint = IPoint(x: int, y: int)
  datatype ISize = ISize(w: int, h: int)
  /** QRect(x, y, w, h): its right edge is the pixel column x + w - 1. */
  datatype IRect = IRect(x: int, y: int, w: int, h: int)

  function Min(a: real, b: real): real { if a <= b then a else b }
  function Max(a: real, b: real): real { if a >= b then a else b }

  function Plus(p: Point, q: Point): Point { Point(p.x + q.x, p.y + q.y) }
  function Minus(p: Point, q: Point): Point { Point(p.x - q.x, p.y - q.y) }

  // ---- edges and corners, as QRectF reports them (no normalisation) ----

  function Right(r: Rect): real { r.x + r.w }
  function Bottom(r: Rect): real { r.y + r.h }
  function TopLeft(r: Rect): Point { Point(r.x, r.y) }
  function TopRight(r: Rect): Point { Point(r.x + r.w, r.y) }
  function BottomRight(r: Rect): Point { Point(r.x + r.w, r.y + r.h) }
  function BottomLeft(r: Rect): Point { Point(r.x, r.y + r.h) }
  function RectSize(r: Rect): Size { Size(r.w, r.h) }

  /** QRectF(topLeft, bottomRight). */
  function FromCorners(a: Point, b: Point): (r: Rect)
    ensures TopLeft(r) == a && BottomRight(r) == b
  {
    Rect(a.x, a.y, b.x - a.x, b.y - a.y)
  }

  /** QRectF(topLeft, size). */
  function FromPointSize(p: Point, s: Size): (r: Rect)
    ensures TopLeft(r) == p && RectSize(r) == s
  {
    Rect(p.x, p.y, s.w, s.h)
  }

  // ---- the extents Qt uses for its geometric tests (normalised edges) ----

  function NLeft(r: Rect): real { if r.w < 0.0 then r.x + r.w else r.x }
  function NRight(r: Rect): real { if r.w < 0.0 then r.x else r.x + r.w }
  function NTop(r: Rect): real { if r.h < 0.0 then r.y + r.h else r.y }
  function NBottom(r: Rect): real { if r.h < 0.0 then r.y else r.y + r.h }

  /** QRectF::isNull: both width and height are zero. */
  predicate IsNull(r: Rect) { r.w == 0.0 && r.h == 0.0 }

  predicate IsNormal(r: Rect) { r.w >= 0.0 && r.h >= 0.0 }

  /** QRectF::normalized: a negative width or height is flipped, the covered area stays. */
  function Normalized(r: Rect): (n: Rect)
    ensures IsNormal(n)
    ensures n.x == NLeft(r) && Right(n) == NRight(r) && n.y == NTop(r) && Bottom(n) == NBottom(r)
  {
    Rect(NLeft(r), NTop(r), NRight(r) - NLeft(r), NBottom(r) - NTop(r))
  }

  /** QRectF::adjusted(dx1, dy1, dx2, dy2): moves each edge independently. */
  function Adjusted(r: Rect, dx1: real, dy1: real, dx2: real, dy2: real): (a: Rect)
    ensures a.x == r.x + dx1 && a.y == r.y + dy1
    ensures Right(a) == Right(r) + dx2 && Bottom(a) == Bottom(r) + dy2
  {
    Rect(r.x + dx1, r.y + dy1, r.w + dx2 - dx1, r.h + dy2 - dy1)
  }

  /** QRectF::translated(dx, dy). */
  function Translated(r: Rect, dx: real, dy: real): (t: Rect)
    ensures RectSize(t) == RectSize(r) && TopLeft(t) == Plus(TopLeft(r), Point(dx, dy))
  {
    Rect(r.x + dx, r.y + dy, r.w, r.h)
  }

  /** QRectF::setLeft / setTop: the opposite edge stays where it was. */
  function SetLeft(r: Rect, v: real): (s: Rect)
    ensures s.x == v && Right(s) == Right(r) && s.y == r.y && s.h == r.h
  {
    Rect(v, r.y, Right(r) - v, r.h)
  }

  function SetTop(r: Rect, v: real): (s: Rect)
    ensures s.y == v && Bottom(s) == Bottom(r) && s.x == r.x && s.w == r.w
  {
    Rect(r.x, v, r.w, Bottom(r) - v)
  }

  /** QRectF::setRight / setBottom: the origin stays where it was. */
  function SetRight(r: Rect, v: real): (s: Rect)
    ensures Right(s) == v && s.x == r.x && s.y == r.y && s.h == r.h
  {
    Rect(r.x, r.y, v - r.x, r.h)
  }

  function SetBottom(r: Rect, v: real): (s: Rect)
    ensures Bottom(s) == v && s.x == r.x && s.y == r.y && s.w == r.w
  {
    Rect(r.x, r.y, r.w, v - r.y)
  }

  function SetTopLeft(r: Rect, p: Point): Rect { SetTop(SetLeft(r, p.x), p.y) }
  function SetBottomRight(r: Rect, p: Point): Rect { SetBottom(SetRight(r, p.x), p.y) }

  /**
   * QRectF::intersects: a rectangle with an empty extent meets nothing, and two rectangles
   * meet only when their interiors overlap (touching edges do not count).
   */
  predicate Intersects(a: Rect, b: Rect)
  {
    NLeft(a) != NRight(a) && NLeft(b) != NRight(b) &&
    NLeft(a) < NRight(b) && NLeft(b) < NRight(a) &&
    NTop(a) != NBottom(a) && NTop(b) != NBottom(b) &&
    NTop(a) < NBottom(b) && NTop(b) < NBottom(a)
  }

  /** QRectF::contains(QPointF): an empty extent contains nothing; the edges belong to the rectangle. */
  predicate Contains(r: Rect, p: Point)
  {
    NLeft(r) != NRight(r) && NTop(r) != NBottom(r) &&
    NLeft(r) <= p.x <= NRight(r) && NTop(r) <= p.y <= NBottom(r)
  }

  /** QRectF::operator| : a null operand is ignored, otherwise the smallest normal rectangle around both. */
  function United(a: Rect, b: Rect): (u: Rect)
    ensures IsNull(a) ==> u == b
    ensures !IsNull(a) && IsNull(b) ==> u == a
  {
    if IsNull(a) then b
    else if IsNull(b) then a
    else
      var l := Min(NLeft(a), NLeft(b));
      var t := Min(NTop(a), NTop(b));
      Rect(l, t, Max(NRight(a), NRight(b)) - l, Max(NBottom(a), NBottom(b)) - t)
  }

  /** Intersection is symmetric. */
  lemma IntersectsSymmetric(a: Rect, b: Rect)
    ensures Intersects(a, b) <==> Intersects(b, a)
  {
  }

  /** The union of two non-null rectangles is normal and covers both of them. */
  lemma UnitedCovers(a: Rect, b: Rect)
    requires !IsNull(a) && !IsNull(b)
    ensures IsNormal(United(a, b))
    ensures NLeft(United(a, b)) <= NLeft(a) && NLeft(United(a, b)) <= NLeft(b)
    ensures NRight(United(a, b)) >= NRight(a) && NRight(United(a, b)) >= NRight(b)
    ensures NTop(United(a, b)) <= NTop(a) && NTop(United(a, b)) <= NTop(b)
    ensures NBottom(United(a, b)) >= NBottom(a) && NBottom(United(a, b)) >= NBottom(b)
  {
  }

  // ---- integer values and rounding ----

  /** QRect::right() and QRect::bottom(): the last pixel column and row. */
  function IRight(r: IRect): int { r.x + r.w - 1 }
  function IBottom(r: IRect): int { r.y + r.h - 1 }

  function ToPointF(p: IPoint): Point { Point(p.x as real, p.y as real) }
  function ToSizeF(s: ISize): Size { Size(s.w as real, s.h as real) }
  /** QRect::toRectF keeps origin and size. */
  function ToRectF(r: IRect): Rect { Rect(r.x as real, r.y as real, r.w as real, r.h as real) }

  /** qRound: the nearest integer, halves rounded away from zero. */
  function Round(d: real): (n: int)
    ensures d >= 0.0 ==> d - 0.5 < n as real <= d + 0.5
    ensures d < 0.0 ==> d - 0.5 <= n as real < d + 0.5
  {
    if d >= 0.0 then (d + 0.5).Floor else -((-d + 0.5).Floor)
  }

  /** Rounding an integer-valued real gives that integer back. */
  lemma RoundOfInt(n: int)
    ensures Round(n as real) == n
  {
  }
}
