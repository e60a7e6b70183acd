/**
 * PolygonItem: an item drawn between two endpoints (the base of rectangles, ellipses, lines and
 * arrows). Its stored box is recomputed from the endpoints, grown by the stroke width.
 */
module Polygons {
  import opened Geometry
  import opened Items

  /**
   * m_updateBoundingBox: the rectangle with corners (minX, maxY) and (maxX, minY), normalised and
   * then adjusted outward by the stroke width w on every side.
   */
  function EndpointBox(s: Point, e: Point, w: int): (r: Rect)
    ensures r.x == Min(s.x, e.x) - w as real && Right(r) == Max(s.x, e.x) + w as real
    ensures r.y == Min(s.y, e.y) - w as real && Bottom(r) == Max(s.y, e.y) + w as real
  {
    var minX, maxX := Min(s.x, e.x), Max(s.x, e.x);
    var minY, maxY := Min(s.y, e.y), Max(s.y, e.y);
    Adjusted(Normalized(FromCorners(Point(minX, maxY), Point(maxX, minY))), -w as real, -w as real, w as real, w as real)
  }

  /**
   * With a non-negative width the box is normal and spans both endpoints; with a positive width it
   * contains both of them.
   */
  lemma EndpointBoxCovers(s: Point, e: Point, w: int)
    requires w >= 0
    ensures IsNormal(EndpointBox(s, e, w))
    ensures NLeft(EndpointBox(s, e, w)) <= s.x <= NRight(EndpointBox(s, e, w))
    ensures NLeft(EndpointBox(s, e, w)) <= e.x <= NRight(EndpointBox(s, e, w))
    ensures NTop(EndpointBox(s, e, w)) <= s.y <= NBottom(EndpointBox(s, e, w))
    ensures NTop(EndpointBox(s, e, w)) <= e.y <= NBottom(EndpointBox(s, e, w))
    ensures w > 0 ==> Contains(EndpointBox(s, e, w), s) && Contains(EndpointBox(s, e, w), e)
  {
  }

  /** Moving both endpoints by d moves their box by d. */
  lemma EndpointBoxShift(s: Point, e: Point, w: int, d: Point)
    ensures EndpointBox(Plus(s, d), Plus(e, d), w) == Translated(EndpointBox(s, e, w), d.x, d.y)
  {
    var a, b := EndpointBox(Plus(s, d), Plus(e, d), w), Translated(EndpointBox(s, e, w), d.x, d.y);
    assert Min(s.x + d.x, e.x + d.x) == Min(s.x, e.x) + d.x;
    assert Max(s.x + d.x, e.x + d.x) == Max(s.x, e.x) + d.x;
    assert Min(s.y + d.y, e.y + d.y) == Min(s.y, e.y) + d.y;
    assert Max(s.y + d.y, e.y + d.y) == Max(s.y, e.y) + d.y;
    assert a.x == b.x && a.y == b.y && a.w == b.w && a.h == b.h;
  }

  class PolygonItem {
    const base: Item   // the Item part: box, padding and properties
    var start: Point   // m_start
    var end: Point     // m_end

    ghost predicate Valid()
      reads this, base
    {
      base.Valid() && StrokeWidth in TypesOf(base.entries)
    }

    /** The stroke width the box is grown by. */
    function Width(): int
      reads this, base
      requires Valid()
    {
      base.StrokeWidthValue()
    }

    /**
     * PolygonItem(): endpoints at the origin, an empty box, and stroke width 1, colour black and
     * opacity 255 as its only properties.
     */
    constructor ()
      ensures Valid() && fresh(base)
      ensures start == Point(0.0, 0.0) && end == Point(0.0, 0.0)
      ensures base.box == Rect(0.0, 0.0, 0.0, 0.0) && base.padding == 0
      ensures Width() == 1
      ensures base.PropertyTypes() == [StrokeWidth, StrokeColor, Opacity]
      ensures base.GetProperty(StrokeWidth).value == Property(StrokeWidth, IntValue(1))
      ensures base.GetProperty(StrokeColor).value == Property(StrokeColor, ColorValue(BlackRgb))
      ensures base.GetProperty(Opacity).value == Property(Opacity, IntValue(MaxItemOpacity))
    {
      base := new Item();
      start, end := Point(0.0, 0.0), Point(0.0, 0.0);
      new;
      base.Put(StrokeWidth, Property(StrokeWidth, IntValue(1)));
      base.Put(StrokeColor, Property(StrokeColor, ColorValue(BlackRgb)));
      base.Put(Opacity, Property(Opacity, IntValue(MaxItemOpacity)));
      assert base.entries == [(StrokeWidth, Property(StrokeWidth, IntValue(1))),
                              (StrokeColor, Property(StrokeColor, ColorValue(BlackRgb))),
                              (Opacity, Property(Opacity, IntValue(MaxItemOpacity)))];
    }

    /** setStart: both endpoints at p and the box the empty rectangle at p. */
    method SetStart(p: Point)
      requires Valid()
      modifies this, base
      ensures Valid() && start == p && end == p && base.box == Rect(p.x, p.y, 0.0, 0.0)
      ensures base.padding == old(base.padding) && base.entries == old(base.entries)
    {
      start, end := p, p;
      base.box := FromCorners(p, p);
    }

    /** setEnd: the end moves to q and the box is recomputed around both endpoints. */
    method SetEnd(q: Point)
      requires Valid()
      modifies this, base
      ensures Valid() && start == old(start) && end == q
      ensures base.box == EndpointBox(start, end, Width())
      ensures base.padding == old(base.padding) && base.entries == old(base.entries)
    {
      end := q;
      UpdateBoundingBox();
    }

    /** m_updateBoundingBox. */
    method UpdateBoundingBox()
      requires Valid()
      modifies base
      ensures Valid() && base.box == EndpointBox(start, end, Width())
      ensures base.padding == old(base.padding) && base.entries == old(base.entries)
    {
      var w := base.StrokeWidthValue();
      var minX, maxX := Min(start.x, end.x), Max(start.x, end.x);
      var minY, maxY := Min(start.y, end.y), Max(start.y, end.y);
      var r := Normalized(FromCorners(Point(minX, maxY), Point(maxX, minY)));
      base.box := Adjusted(r, -w as real, -w as real, w as real, w as real);
    }

    /** translate: both endpoints move by d and the box is recomputed, which moves it by d as well. */
    method Translate(d: Point)
      requires Valid()
      modifies this, base
      ensures Valid() && start == Plus(old(start), d) && end == Plus(old(end), d)
      ensures base.box == EndpointBox(start, end, Width())
      ensures old(base.box) == EndpointBox(old(start), old(end), Width()) ==>
                base.box == Translated(old(base.box), d.x, d.y)
      ensures base.padding == old(base.padding) && base.entries == old(base.entries)
    {
      start, end := Plus(start, d), Plus(end, d);
      UpdateBoundingBox();
      EndpointBoxShift(old(start), old(end), Width(), d);
    }
  }
}
