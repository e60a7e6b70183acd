/**
 * CoordinateTransformer: the affine maps between world coordinates (where items live), view
 * coordinates (the widget, shifted by the pan offset and scaled by the zoom factor) and grid
 * coordinates (world scaled by the zoom factor, where cache tiles live), for points, sizes and
 * rectangles, plus the integer overloads that round every result with qRound.
 */
module CoordinateTransformer {
  import opened Geometry

  /** The two values the transformer reads from the rendering and spatial contexts. */
  datatype Camera = Camera(zoom: real, offset: Point)

  function ScalePoint(p: Point, k: real): Point { Point(p.x * k, p.y * k) }
  function DividePoint(p: Point, k: real): Point requires k != 0.0 { Point(p.x / k, p.y / k) }
  function ScaleSize(s: Size, k: real): Size { Size(s.w * k, s.h * k) }
  function DivideSize(s: Size, k: real): Size requires k != 0.0 { Size(s.w / k, s.h / k) }

  // ---- world <-> view ----

  function WorldToViewPoint(c: Camera, p: Point): Point { ScalePoint(Minus(p, c.offset), c.zoom) }
  function WorldToViewSize(c: Camera, s: Size): Size { ScaleSize(s, c.zoom) }
  function WorldToViewRect(c: Camera, r: Rect): Rect
  {
    FromPointSize(WorldToViewPoint(c, TopLeft(r)), WorldToViewSize(c, RectSize(r)))
  }

  function ViewToWorldPoint(c: Camera, p: Point): Point requires c.zoom != 0.0
  {
    Plus(DividePoint(p, c.zoom), c.offset)
  }
  function ViewToWorldSize(c: Camera, s: Size): Size requires c.zoom != 0.0 { DivideSize(s, c.zoom) }
  function ViewToWorldRect(c: Camera, r: Rect): Rect requires c.zoom != 0.0
  {
    FromPointSize(ViewToWorldPoint(c, TopLeft(r)), ViewToWorldSize(c, RectSize(r)))
  }

  // ---- world <-> grid ----

  function WorldToGridPoint(c: Camera, p: Point): Point { ScalePoint(p, c.zoom) }
  function WorldToGridSize(c: Camera, s: Size): Size { ScaleSize(s, c.zoom) }
  function WorldToGridRect(c: Camera, r: Rect): Rect
  {
    FromPointSize(WorldToGridPoint(c, TopLeft(r)), WorldToGridSize(c, RectSize(r)))
  }

  function GridToWorldPoint(c: Camera, p: Point): Point requires c.zoom != 0.0 { DividePoint(p, c.zoom) }
  function GridToWorldSize(c: Camera, s: Size): Size requires c.zoom != 0.0 { DivideSize(s, c.zoom) }
  function GridToWorldRect(c: Camera, r: Rect): Rect requires c.zoom != 0.0
  {
    FromPointSize(GridToWorldPoint(c, TopLeft(r)), GridToWorldSize(c, RectSize(r)))
  }

  // ---- view <-> grid ----

  /** viewToGrid(point) adds worldToView(offset), which is always the zero vector. */
  function ViewToGridPoint(c: Camera, p: Point): Point { Plus(p, WorldToViewPoint(c, c.offset)) }
  function ViewToGridSize(c: Camera, s: Size): Size { s }
  function ViewToGridRect(c: Camera, r: Rect): Rect
  {
    FromCorners(ViewToGridPoint(c, TopLeft(r)), ViewToGridPoint(c, BottomRight(r)))
  }

  function GridToViewPoint(c: Camera, p: Point): Point { Minus(p, WorldToGridPoint(c, c.offset)) }
  function GridToViewSize(c: Camera, s: Size): Size { s }
  function GridToViewRect(c: Camera, r: Rect): Rect
  {
    FromCorners(GridToViewPoint(c, TopLeft(r)), GridToViewPoint(c, BottomRight(r)))
  }

  // ---- rounding ----

  /** round(QPointF): each coordinate to its nearest integer, halves away from zero. */
  function RoundPoint(p: Point): (q: IPoint)
    ensures -0.5 <= q.x as real - p.x <= 0.5 && -0.5 <= q.y as real - p.y <= 0.5
  {
    IPoint(Round(p.x), Round(p.y))
  }

  /** round(QSizeF): width and height rounded independently. */
  function RoundSize(s: Size): (q: ISize)
    ensures -0.5 <= q.w as real - s.w <= 0.5 && -0.5 <= q.h as real - s.h <= 0.5
  {
    ISize(Round(s.w), Round(s.h))
  }

  /**
   * round(QRectF): the four edges are rounded independently and the size is the difference of
   * the rounded edges, so origin and far edge each move by at most one half.
   */
  function RoundRect(r: Rect): (q: IRect)
    ensures -0.5 <= q.x as real - r.x <= 0.5 && -0.5 <= q.y as real - r.y <= 0.5
    ensures -0.5 <= (q.x + q.w) as real - Right(r) <= 0.5
    ensures -0.5 <= (q.y + q.h) as real - Bottom(r) <= 0.5
  {
    var x1 := Round(r.x);
    var y1 := Round(r.y);
    var x2 := Round(Right(r));
    var y2 := Round(Bottom(r));
    IRect(x1, y1, x2 - x1, y2 - y1)
  }

  // ---- the integer overloads: the real-valued map of the converted argument, rounded ----

  function WorldToViewIPoint(c: Camera, p: IPoint): IPoint { RoundPoint(WorldToViewPoint(c, ToPointF(p))) }
  function WorldToViewISize(c: Camera, s: ISize): ISize { RoundSize(WorldToViewSize(c, ToSizeF(s))) }
  function WorldToViewIRect(c: Camera, r: IRect): IRect { RoundRect(WorldToViewRect(c, ToRectF(r))) }
  function ViewToWorldIPoint(c: Camera, p: IPoint): IPoint requires c.zoom != 0.0
  {
    RoundPoint(ViewToWorldPoint(c, ToPointF(p)))
  }
  function ViewToWorldISize(c: Camera, s: ISize): ISize requires c.zoom != 0.0
  {
    RoundSize(ViewToWorldSize(c, ToSizeF(s)))
  }
  function ViewToWorldIRect(c: Camera, r: IRect): IRect requires c.zoom != 0.0
  {
    RoundRect(ViewToWorldRect(c, ToRectF(r)))
  }
  function WorldToGridIPoint(c: Camera, p: IPoint): IPoint { RoundPoint(WorldToGridPoint(c, ToPointF(p))) }
  function WorldToGridISize(c: Camera, s: ISize): ISize { RoundSize(WorldToGridSize(c, ToSizeF(s))) }
  function WorldToGridIRect(c: Camera, r: IRect): IRect { RoundRect(WorldToGridRect(c, ToRectF(r))) }
  function GridToWorldIPoint(c: Camera, p: IPoint): IPoint requires c.zoom != 0.0
  {
    RoundPoint(GridToWorldPoint(c, ToPointF(p)))
  }
  function GridToWorldISize(c: Camera, s: ISize): ISize requires c.zoom != 0.0
  {
    RoundSize(GridToWorldSize(c, ToSizeF(s)))
  }
  function GridToWorldIRect(c: Camera, r: IRect): IRect requires c.zoom != 0.0
  {
    RoundRect(GridToWorldRect(c, ToRectF(r)))
  }
  function ViewToGridIPoint(c: Camera, p: IPoint): IPoint { RoundPoint(ViewToGridPoint(c, ToPointF(p))) }
  function ViewToGridISize(c: Camera, s: ISize): ISize { RoundSize(ViewToGridSize(c, ToSizeF(s))) }
  function ViewToGridIRect(c: Camera, r: IRect): IRect { RoundRect(ViewToGridRect(c, ToRectF(r))) }
  function GridToViewIPoint(c: Camera, p: IPoint): IPoint { RoundPoint(GridToViewPoint(c, ToPointF(p))) }
  function GridToViewISize(c: Camera, s: ISize): ISize { RoundSize(GridToViewSize(c, ToSizeF(s))) }
  function GridToViewIRect(c: Camera, r: IRect): IRect { RoundRect(GridToViewRect(c, ToRectF(r))) }

  // ---- properties ----

  /** Multiplying and dividing by the same non-zero factor cancel. */
  lemma Cancel(a: real, k: real)
    requires k != 0.0
    ensures a * k / k == a && (a / k) * k == a
  {
  }

  /** World and view coordinates of a point are inverse to each other for a non-zero zoom. */
  lemma WorldViewPointRoundTrip(c: Camera, p: Point)
    requires c.zoom != 0.0
    ensures ViewToWorldPoint(c, WorldToViewPoint(c, p)) == p
    ensures WorldToViewPoint(c, ViewToWorldPoint(c, p)) == p
  {
    Cancel(p.x - c.offset.x, c.zoom);
    Cancel(p.y - c.offset.y, c.zoom);
    Cancel(p.x, c.zoom);
    Cancel(p.y, c.zoom);
  }

  /** World and view sizes are inverse to each other for a non-zero zoom. */
  lemma WorldViewSizeRoundTrip(c: Camera, s: Size)
    requires c.zoom != 0.0
    ensures ViewToWorldSize(c, WorldToViewSize(c, s)) == s && WorldToViewSize(c, ViewToWorldSize(c, s)) == s
  {
    Cancel(s.w, c.zoom);
    Cancel(s.h, c.zoom);
  }

  /** World and view rectangles are inverse to each other: corner and size are each mapped back. */
  lemma WorldViewRectRoundTrip(c: Camera, r: Rect)
    requires c.zoom != 0.0
    ensures ViewToWorldRect(c, WorldToViewRect(c, r)) == r && WorldToViewRect(c, ViewToWorldRect(c, r)) == r
  {
    WorldViewPointRoundTrip(c, TopLeft(r));
    WorldViewSizeRoundTrip(c, RectSize(r));
    var v := WorldToViewRect(c, r);
    assert TopLeft(v) == WorldToViewPoint(c, TopLeft(r)) && RectSize(v) == WorldToViewSize(c, RectSize(r));
    var w := ViewToWorldRect(c, r);
    assert TopLeft(w) == ViewToWorldPoint(c, TopLeft(r)) && RectSize(w) == ViewToWorldSize(c, RectSize(r));
  }

  /** World and grid coordinates of a point are inverse to each other for a non-zero zoom. */
  lemma WorldGridPointRoundTrip(c: Camera, p: Point)
    requires c.zoom != 0.0
    ensures GridToWorldPoint(c, WorldToGridPoint(c, p)) == p && WorldToGridPoint(c, GridToWorldPoint(c, p)) == p
  {
    Cancel(p.x, c.zoom);
    Cancel(p.y, c.zoom);
  }

  /** World and grid sizes are inverse to each other for a non-zero zoom. */
  lemma WorldGridSizeRoundTrip(c: Camera, s: Size)
    requires c.zoom != 0.0
    ensures GridToWorldSize(c, WorldToGridSize(c, s)) == s && WorldToGridSize(c, GridToWorldSize(c, s)) == s
  {
    Cancel(s.w, c.zoom);
    Cancel(s.h, c.zoom);
  }

  /** World and grid rectangles are inverse to each other: corner and size are each mapped back. */
  lemma WorldGridRectRoundTrip(c: Camera, r: Rect)
    requires c.zoom != 0.0
    ensures GridToWorldRect(c, WorldToGridRect(c, r)) == r && WorldToGridRect(c, GridToWorldRect(c, r)) == r
  {
    WorldGridPointRoundTrip(c, TopLeft(r));
    WorldGridSizeRoundTrip(c, RectSize(r));
    var g := WorldToGridRect(c, r);
    assert TopLeft(g) == WorldToGridPoint(c, TopLeft(r)) && RectSize(g) == WorldToGridSize(c, RectSize(r));
    var w := GridToWorldRect(c, r);
    assert TopLeft(w) == GridToWorldPoint(c, TopLeft(r)) && RectSize(w) == GridToWorldSize(c, RectSize(r));
  }

  /** Going world to grid and then grid to view is the same as going world to view directly. */
  lemma GridToViewAfterWorldToGrid(c: Camera, p: Point, r: Rect)
    ensures GridToViewPoint(c, WorldToGridPoint(c, p)) == WorldToViewPoint(c, p)
    ensures GridToViewRect(c, WorldToGridRect(c, r)) == WorldToViewRect(c, r)
  {
    assert p.x * c.zoom - c.offset.x * c.zoom == (p.x - c.offset.x) * c.zoom;
    assert p.y * c.zoom - c.offset.y * c.zoom == (p.y - c.offset.y) * c.zoom;
    assert r.x * c.zoom - c.offset.x * c.zoom == (r.x - c.offset.x) * c.zoom;
    assert r.y * c.zoom - c.offset.y * c.zoom == (r.y - c.offset.y) * c.zoom;
    assert r.x * c.zoom + r.w * c.zoom - r.x * c.zoom == r.w * c.zoom;
    assert r.y * c.zoom + r.h * c.zoom - r.y * c.zoom == r.h * c.zoom;
  }

  /**
   * viewToGrid on a point is the identity, whatever the camera, so it undoes gridToView only
   * when the offset scaled by the zoom is zero: viewToGrid(gridToView(p)) = p - offset * zoom.
   */
  lemma ViewToGridIsIdentity(c: Camera, p: Point, r: Rect)
    ensures ViewToGridPoint(c, p) == p
    ensures ViewToGridPoint(c, GridToViewPoint(c, p)) == Minus(p, ScalePoint(c.offset, c.zoom))
    ensures ViewToGridRect(c, r) == r
  {
  }

  /**
   * A world point taken to the view and then to the grid does not land where worldToGrid puts it:
   * with zoom 1 and offset (1, 0), the world origin reaches the grid at (-1, 0) instead of (0, 0).
   */
  lemma ViewToGridMissesOffset()
    ensures ViewToGridPoint(Camera(1.0, Point(1.0, 0.0)), WorldToViewPoint(Camera(1.0, Point(1.0, 0.0)), Point(0.0, 0.0)))
            == Point(-1.0, 0.0)
    ensures WorldToGridPoint(Camera(1.0, Point(1.0, 0.0)), Point(0.0, 0.0)) == Point(0.0, 0.0)
  {
    var c := Camera(1.0, Point(1.0, 0.0));
    assert WorldToViewPoint(c, c.offset) == Point(0.0, 0.0);
    assert WorldToViewPoint(c, Point(0.0, 0.0)) == Point(-1.0, 0.0);
  }

  // ---- view -> grid as evidently intended: add back the offset in grid units ----

  function IntendedViewToGridPoint(c: Camera, p: Point): Point { Plus(p, WorldToGridPoint(c, c.offset)) }
  function IntendedViewToGridRect(c: Camera, r: Rect): Rect
  {
    FromCorners(IntendedViewToGridPoint(c, TopLeft(r)), IntendedViewToGridPoint(c, BottomRight(r)))
  }

  /**
   * The intended viewToGrid is the inverse of gridToView, on points and on rectangles, and going
   * world to view and then view to grid is the same as going world to grid directly.
   */
  lemma IntendedViewGridRoundTrip(c: Camera, p: Point, r: Rect)
    ensures IntendedViewToGridPoint(c, GridToViewPoint(c, p)) == p
    ensures GridToViewPoint(c, IntendedViewToGridPoint(c, p)) == p
    ensures IntendedViewToGridRect(c, GridToViewRect(c, r)) == r
    ensures GridToViewRect(c, IntendedViewToGridRect(c, r)) == r
    ensures IntendedViewToGridPoint(c, WorldToViewPoint(c, p)) == WorldToGridPoint(c, p)
  {
    assert (p.x - c.offset.x) * c.zoom + c.offset.x * c.zoom == p.x * c.zoom;
    assert (p.y - c.offset.y) * c.zoom + c.offset.y * c.zoom == p.y * c.zoom;
  }

  /** The size overloads between view and grid are the identity, and so are their integer versions. */
  lemma ViewGridSizesUnchanged(c: Camera, s: Size, t: ISize)
    ensures ViewToGridSize(c, s) == s && GridToViewSize(c, s) == s
    ensures ViewToGridISize(c, t) == t && GridToViewISize(c, t) == t
  {
    RoundOfInt(t.w);
    RoundOfInt(t.h);
  }

  /** Rounding a rectangle whose edges are already whole numbers gives the same integer rectangle back. */
  lemma {:induction false} RoundRectOfIntegral(r: IRect)
    ensures RoundRect(ToRectF(r)) == r
  {
    RoundOfInt(r.x);
    RoundOfInt(r.y);
    RoundOfInt(r.x + r.w);
    RoundOfInt(r.y + r.h);
  }

  /** Moving an integer point by whole pixels and rounding gives the moved point. */
  lemma ShiftedPointOfInt(p: IPoint, dx: int, dy: int)
    ensures RoundPoint(Point(p.x as real + dx as real, p.y as real + dy as real)) == IPoint(p.x + dx, p.y + dy)
  {
    RoundOfInt(p.x + dx);
    RoundOfInt(p.y + dy);
  }

  /**
   * At zoom 1 with a whole-pixel pan offset the integer overloads lose nothing to rounding:
   * worldToView moves points and rectangles by minus the offset and keeps sizes, and viewToWorld
   * undoes it.
   */
  lemma IntegerWorldViewAtUnitZoom(c: Camera, p: IPoint, s: ISize, r: IRect, ox: int, oy: int)
    requires c == Camera(1.0, Point(ox as real, oy as real))
    ensures WorldToViewIPoint(c, p) == IPoint(p.x - ox, p.y - oy) && ViewToWorldIPoint(c, WorldToViewIPoint(c, p)) == p
    ensures WorldToViewISize(c, s) == s && ViewToWorldISize(c, s) == s
    ensures WorldToViewIRect(c, r) == IRect(r.x - ox, r.y - oy, r.w, r.h)
    ensures ViewToWorldIRect(c, WorldToViewIRect(c, r)) == r
  {
    ShiftedPointOfInt(p, -ox, -oy);
    ShiftedPointOfInt(IPoint(p.x - ox, p.y - oy), ox, oy);
    RoundOfInt(s.w);
    RoundOfInt(s.h);
    var v := IRect(r.x - ox, r.y - oy, r.w, r.h);
    assert WorldToViewRect(c, ToRectF(r)) == ToRectF(v);
    RoundRectOfIntegral(v);
    assert ViewToWorldRect(c, ToRectF(v)) == ToRectF(r);
    RoundRectOfIntegral(r);
  }

  /** At zoom 1 the integer worldToGrid and gridToWorld overloads are the identity, whatever the offset. */
  lemma IntegerWorldGridAtUnitZoom(c: Camera, p: IPoint, s: ISize, r: IRect)
    requires c.zoom == 1.0
    ensures WorldToGridIPoint(c, p) == p && GridToWorldIPoint(c, p) == p
    ensures WorldToGridISize(c, s) == s && GridToWorldISize(c, s) == s
    ensures WorldToGridIRect(c, r) == r && GridToWorldIRect(c, r) == r
  {
    ShiftedPointOfInt(p, 0, 0);
    RoundOfInt(s.w);
    RoundOfInt(s.h);
    assert WorldToGridRect(c, ToRectF(r)) == ToRectF(r);
    assert GridToWorldRect(c, ToRectF(r)) == ToRectF(r);
    RoundRectOfIntegral(r);
  }

  /**
   * The integer viewToGrid overloads are the identity for every camera, as the real ones are;
   * at zoom 1 with a whole-pixel offset the integer gridToView moves by minus the offset.
   */
  lemma IntegerViewGridOverloads(c: Camera, p: IPoint, r: IRect, ox: int, oy: int)
    ensures ViewToGridIPoint(c, p) == p && ViewToGridIRect(c, r) == r
    ensures c == Camera(1.0, Point(ox as real, oy as real)) ==>
              GridToViewIPoint(c, p) == IPoint(p.x - ox, p.y - oy) &&
              GridToViewIRect(c, r) == IRect(r.x - ox, r.y - oy, r.w, r.h)
  {
    ShiftedPointOfInt(p, 0, 0);
    assert ViewToGridRect(c, ToRectF(r)) == ToRectF(r);
    RoundRectOfIntegral(r);
    if c == Camera(1.0, Point(ox as real, oy as real)) {
      ShiftedPointOfInt(p, -ox, -oy);
      var v := IRect(r.x - ox, r.y - oy, r.w, r.h);
      assert GridToViewRect(c, ToRectF(r)) == ToRectF(v);
      RoundRectOfIntegral(v);
    }
  }
}
