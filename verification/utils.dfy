/**
 * The hit-testing helpers of namespace Common (common/utils.hpp): orientation of three points,
 * segment/segment, rectangle/segment, rectangle/rectangle and rectangle/point intersection.
 */
module CommonUtils {
  import opened Geometry

  /** A QLineF. */
  datatype Line = Line(p1: Point, p2: Point)

  /** static_cast<int> of a double: truncation toward zero. */
  function Trunc(v: real): (n: int)
    ensures v >= 0.0 ==> n as real <= v < n as real + 1.0
    ensures v < 0.0 ==> n as real - 1.0 < v <= n as real
  {
    if v >= 0.0 then v.Floor else -((-v).Floor)
  }

  /** The z component of (b - a) x (c - a). */
  function Cross(a: Point, b: Point, c: Point): real
  {
    (b.x - a.x) * (c.y - a.y) - (c.x - a.x) * (b.y - a.y)
  }

  /**
   * orientation(a, b, c) as written: the cross product is truncated to an int before its sign
   * is taken, so every cross product strictly between -1 and 1 reads as collinear.
   */
  function Orientation(a: Point, b: Point, c: Point): (o: int)
    ensures o == 0 <==> -1.0 < Cross(a, b, c) < 1.0
    ensures o == 1 <==> Cross(a, b, c) >= 1.0
    ensures o == -1 <==> Cross(a, b, c) <= -1.0
  {
    var orient := Trunc(Cross(a, b, c));
    if orient == 0 then 0 else if orient < 0 then -1 else 1
  }

  /**
   * intersects(QLineF, QLineF) as written: each segment's endpoints lie on different sides of the
   * other. A segment whose endpoints coincide has the same orientation from every line, so it
   * meets nothing.
   */
  predicate SegmentsIntersect(a: Line, b: Line): (hit: bool)
    ensures hit ==> a.p1 != a.p2 && b.p1 != b.p2
  {
    Orientation(a.p1, a.p2, b.p1) != Orientation(a.p1, a.p2, b.p2) &&
    Orientation(b.p1, b.p2, a.p1) != Orientation(b.p1, b.p2, a.p2)
  }

  /** The four edges in the order and direction intersects(QRectF, QLineF) builds them. */
  function Edges(r: Rect): (e: seq<Line>)
    ensures |e| == 4
    ensures e[0] == Line(TopLeft(r), BottomLeft(r)) && e[1] == Line(TopLeft(r), TopRight(r))
    ensures e[2] == Line(TopRight(r), BottomRight(r)) && e[3] == Line(BottomRight(r), BottomLeft(r))
  {
    [Line(TopLeft(r), BottomLeft(r)), Line(TopLeft(r), TopRight(r)),
     Line(TopRight(r), BottomRight(r)), Line(BottomRight(r), BottomLeft(r))]
  }

  /**
   * intersects(QRectF, QLineF) as written: the segment crosses one of the rectangle's edges. A
   * one-point segment, or a rectangle collapsed to one point, is never crossed.
   */
  predicate RectLineIntersects(r: Rect, line: Line): (hit: bool)
    ensures hit ==> line.p1 != line.p2
    ensures r.w == 0.0 && r.h == 0.0 ==> !hit
  {
    var e := Edges(r);
    SegmentsIntersect(line, e[0]) || SegmentsIntersect(line, e[1]) ||
    SegmentsIntersect(line, e[2]) || SegmentsIntersect(line, e[3])
  }

  /** intersects(QRectF, QRectF) is QRectF::intersects: symmetric, and two rectangles that meet share a point. */
  predicate RectsIntersect(a: Rect, b: Rect): (hit: bool)
    ensures hit <==> Intersects(b, a)
    ensures hit ==> var p := Point(Max(NLeft(a), NLeft(b)), Max(NTop(a), NTop(b)));
                    RectPointIntersects(a, p) && RectPointIntersects(b, p)
  {
    Intersects(a, b)
  }

  /** intersects(QRectF, QPointF) is QRectF::contains: a rectangle without area holds no point, and the corners belong to one with area. */
  predicate RectPointIntersects(r: Rect, p: Point): (hit: bool)
    ensures hit ==> r.w != 0.0 && r.h != 0.0
    ensures r.w != 0.0 && r.h != 0.0 && (p == TopLeft(r) || p == BottomRight(r)) ==> hit
  {
    Contains(r, p)
  }

  /** Swapping the last two points reverses the orientation: truncation toward zero is odd. */
  lemma OrientationSwap(a: Point, b: Point, c: Point)
    ensures Orientation(a, c, b) == -Orientation(a, b, c)
  {
    assert Cross(a, c, b) == -Cross(a, b, c);
  }

  /** Segment intersection does not depend on which segment comes first. */
  lemma SegmentsIntersectSymmetric(a: Line, b: Line)
    ensures SegmentsIntersect(a, b) <==> SegmentsIntersect(b, a)
  {
  }

  /**
   * Segments on one line never intersect, even where they overlap: both endpoints of the second
   * read as collinear with the first, so they are not on different sides of it.
   */
  lemma CollinearNeverIntersect(a: Line, b: Line)
    requires Cross(a.p1, a.p2, b.p1) == 0.0 && Cross(a.p1, a.p2, b.p2) == 0.0
    ensures !SegmentsIntersect(a, b) && !SegmentsIntersect(b, a)
  {
  }

  /**
   * A segment lying strictly inside a rectangle is reported as crossing its border: with
   * rectangle (0, 0, 10, 10) and segment (0.05, 1)-(1, 9), two cross products against the
   * left edge are -0.55 and -0.5, which truncate to 0, while their partners are 8.95 and -10.
   */
  lemma InsideSegmentReportedAsCrossing()
    ensures var r := Rect(0.0, 0.0, 10.0, 10.0);
            var line := Line(Point(0.05, 1.0), Point(1.0, 9.0));
            Contains(r, line.p1) && Contains(r, line.p2) && RectLineIntersects(r, line)
  {
    var r := Rect(0.0, 0.0, 10.0, 10.0);
    var line := Line(Point(0.05, 1.0), Point(1.0, 9.0));
    assert Cross(line.p1, line.p2, TopLeft(r)) == -0.55;
    assert Cross(line.p1, line.p2, BottomLeft(r)) == 8.95;
    assert Cross(TopLeft(r), BottomLeft(r), line.p1) == -0.5;
    assert Cross(TopLeft(r), BottomLeft(r), line.p2) == -10.0;
    assert SegmentsIntersect(line, Edges(r)[0]);
  }

  // ---- the evidently intended test: the exact sign of the cross product ----

  /** The sign of the cross product: 1 counter-clockwise, -1 clockwise, 0 collinear. */
  function ExactOrientation(a: Point, b: Point, c: Point): (o: int)
    ensures o == 0 <==> Cross(a, b, c) == 0.0
    ensures o == 1 <==> Cross(a, b, c) > 0.0
    ensures o == -1 <==> Cross(a, b, c) < 0.0
  {
    var cr := Cross(a, b, c);
    if cr == 0.0 then 0 else if cr < 0.0 then -1 else 1
  }

  predicate SegmentsIntersectExact(a: Line, b: Line)
  {
    ExactOrientation(a.p1, a.p2, b.p1) != ExactOrientation(a.p1, a.p2, b.p2) &&
    ExactOrientation(b.p1, b.p2, a.p1) != ExactOrientation(b.p1, b.p2, a.p2)
  }

  predicate RectLineIntersectsExact(r: Rect, line: Line)
  {
    var e := Edges(r);
    SegmentsIntersectExact(line, e[0]) || SegmentsIntersectExact(line, e[1]) ||
    SegmentsIntersectExact(line, e[2]) || SegmentsIntersectExact(line, e[3])
  }

  predicate StrictlyInside(r: Rect, p: Point)
  {
    r.x < p.x < Right(r) && r.y < p.y < Bottom(r)
  }

  /** Both endpoints of a segment see a point on the same side of every edge when they lie inside. */
  lemma SameSideOfEdges(r: Rect, p: Point)
    requires r.w > 0.0 && r.h > 0.0 && StrictlyInside(r, p)
    ensures var e := Edges(r);
            ExactOrientation(e[0].p1, e[0].p2, p) == -1 && ExactOrientation(e[1].p1, e[1].p2, p) == 1 &&
            ExactOrientation(e[2].p1, e[2].p2, p) == 1 && ExactOrientation(e[3].p1, e[3].p2, p) == 1
  {
    var e := Edges(r);
    assert Cross(e[0].p1, e[0].p2, p) == -((p.x - r.x) * r.h);
    assert (p.x - r.x) * r.h > 0.0;
    assert ExactOrientation(e[0].p1, e[0].p2, p) == -1;
    assert Cross(e[1].p1, e[1].p2, p) == r.w * (p.y - r.y);
    assert r.w * (p.y - r.y) > 0.0;
    assert ExactOrientation(e[1].p1, e[1].p2, p) == 1;
    assert Cross(e[2].p1, e[2].p2, p) == r.h * (Right(r) - p.x);
    assert r.h * (Right(r) - p.x) > 0.0;
    assert Cross(e[3].p1, e[3].p2, p) == r.w * (Bottom(r) - p.y);
    assert r.w * (Bottom(r) - p.y) > 0.0;
  }

  /** With exact signs, a segment strictly inside a rectangle crosses none of its edges. */
  lemma InsideSegmentMissesEdges(r: Rect, line: Line)
    requires r.w > 0.0 && r.h > 0.0
    requires StrictlyInside(r, line.p1) && StrictlyInside(r, line.p2)
    ensures !RectLineIntersectsExact(r, line)
  {
    SameSideOfEdges(r, line.p1);
    SameSideOfEdges(r, line.p2);
  }
}
