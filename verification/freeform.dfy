/**
 * FreeformItem: a pen stroke. It keeps the stroke's points with one pressure per point, grows its
 * stored box as points arrive, can smooth each new point by the mean of a window of the most recent
 * raw points, and can be split into chunks of at most 500 points.
 */
module Freeforms {
  import opened Geometry
  import opened Items

  /** freeform.h: m_bufferSize, the length of the smoothing window. */
  const BufferSize: nat := 7
  /** maxSize(): the largest number of points a freeform should hold. */
  const MaxPoints: nat := 500

  // ---- the smoothing window ----

  function SumOf(w: seq<Point>): Point
  {
    if w == [] then Point(0.0, 0.0) else Plus(SumOf(w[..|w| - 1]), w[|w| - 1])
  }

  /** The sum can also be taken from the front. */
  lemma {:induction false} SumFront(w: seq<Point>)
    requires w != []
    ensures SumOf(w) == Plus(w[0], SumOf(w[1..]))
  {
    if |w| > 1 {
      var u := w[..|w| - 1];
      SumFront(u);
      assert u[1..] == w[1..][..|w| - 2];
    }
  }

  /**
   * a / n for a window length n from 1 to 7, written out per length so that every division is by
   * a constant.
   */
  function DivByLength(a: real, n: nat): real
    requires 1 <= n <= BufferSize
  {
    if n == 1 then a else if n == 2 then a / 2.0 else if n == 3 then a / 3.0 else if n == 4 then a / 4.0
    else if n == 5 then a / 5.0 else if n == 6 then a / 6.0 else a / 7.0
  }

  /** DivByLength is real division by the length. */
  lemma DivByLengthIsQuotient(a: real, n: nat)
    requires 1 <= n <= BufferSize
    ensures DivByLength(a, n) == a / n as real
  {
  }

  /** The mean of a window: its sum divided by its length. */
  function Mean(w: seq<Point>): Point
    requires 0 < |w| <= BufferSize
  {
    Point(DivByLength(SumOf(w).x, |w|), DivByLength(SumOf(w).y, |w|))
  }

  /** The last n elements of s, or all of s when it is shorter. */
  function LastN<T>(s: seq<T>, n: nat): (r: seq<T>)
    ensures |r| <= n && |r| <= |s|
    ensures |s| <= n ==> r == s
    ensures n <= |s| ==> |r| == n
  {
    if |s| <= n then s else s[|s| - n..]
  }

  /** The mean of a single point is that point. */
  lemma MeanOfOne(p: Point)
    ensures Mean([p]) == p
  {
    assert [p][..0] == [];
    assert SumOf([p]) == Plus(Point(0.0, 0.0), p);
  }

  // ---- the bounding box ----

  /**
   * The box addPoint stores for a new point q when the stroke already had count points and the
   * stroke width is mg: while count is at most 1 it is the square of half-side mg around q;
   * afterwards the normalised old box is widened just enough to take q grown by mg.
   */
  function GrownBox(b: Rect, count: nat, q: Point, mg: int): (r: Rect)
    ensures count <= 1 ==> r == Rect(q.x - mg as real, q.y - mg as real, 2.0 * mg as real, 2.0 * mg as real)
    ensures count > 1 ==> r.x == Min(NLeft(b), q.x - mg as real) && Right(r) == Max(NRight(b), q.x + mg as real)
    ensures count > 1 ==> r.y == Min(NTop(b), q.y - mg as real) && Bottom(r) == Max(NBottom(b), q.y + mg as real)
  {
    var n := Normalized(b);
    var m := mg as real;
    if count <= 1 then SetBottomRight(SetTopLeft(n, Point(q.x - m, q.y - m)), Point(q.x + m, q.y + m))
    else SetBottom(SetRight(SetTop(SetLeft(n, Min(n.x, q.x - m)), Min(n.y, q.y - m)), Max(Right(n), q.x + m)),
                   Max(Bottom(n), q.y + m))
  }

  /** The box holds every point of pts grown by mg on each side. */
  predicate Covers(b: Rect, pts: seq<Point>, mg: int)
  {
    forall k | 0 <= k < |pts| ::
      NLeft(b) <= pts[k].x - mg as real && pts[k].x + mg as real <= NRight(b) &&
      NTop(b) <= pts[k].y - mg as real && pts[k].y + mg as real <= NBottom(b)
  }

  /**
   * As written, the box covers every point of the stroke except possibly the first: the reset on
   * the second point forgets the first one.
   */
  lemma GrownBoxCoversAllButFirst(b: Rect, pts: seq<Point>, q: Point, mg: int)
    requires mg >= 0 && (|pts| > 1 ==> Covers(b, pts[1..], mg))
    ensures Covers(GrownBox(b, |pts|, q, mg), (pts + [q])[1..], mg)
  {
    var r := GrownBox(b, |pts|, q, mg);
    if |pts| > 1 {
      assert (pts + [q])[1..] == pts[1..] + [q];
    } else {
      assert (pts + [q])[1..] == if pts == [] then [] else [q];
    }
  }

  /** Adding (0,0) and then (10,0) with stroke width 1 leaves (0,0) outside the box. */
  lemma SecondPointDropsFirst()
    ensures var b1 := GrownBox(Rect(0.0, 0.0, 0.0, 0.0), 0, Point(0.0, 0.0), 1);
      var b2 := GrownBox(b1, 1, Point(10.0, 0.0), 1);
      b2 == Rect(9.0, -1.0, 2.0, 2.0) && !Covers(b2, [Point(0.0, 0.0), Point(10.0, 0.0)], 1)
  {
    var b1 := GrownBox(Rect(0.0, 0.0, 0.0, 0.0), 0, Point(0.0, 0.0), 1);
    assert b1 == Rect(-1.0, -1.0, 2.0, 2.0);
    var b2 := GrownBox(b1, 1, Point(10.0, 0.0), 1);
    assert b2 == Rect(9.0, -1.0, 2.0, 2.0);
    assert NLeft(b2) == 9.0;
    assert [Point(0.0, 0.0), Point(10.0, 0.0)][0] == Point(0.0, 0.0);
  }

  /** The evidently intended growth: only the first point starts a fresh box. */
  function CoveringBox(b: Rect, count: nat, q: Point, mg: int): Rect
  {
    GrownBox(b, if count == 0 then 0 else 2, q, mg)
  }

  /** With the intended growth the box covers every point of the stroke. */
  lemma CoveringBoxCovers(b: Rect, pts: seq<Point>, q: Point, mg: int)
    requires mg >= 0 && Covers(b, pts, mg)
    ensures Covers(CoveringBox(b, |pts|, q, mg), pts + [q], mg)
  {
  }

  /** Every point of a stroke moved by d lies in the box moved by d, grown as before. */
  lemma ShiftKeepsCover(b: Rect, pts: seq<Point>, mg: int, d: Point)
    requires Covers(b, pts, mg)
    ensures Covers(Translated(b, d.x, d.y), Shifted(pts, d), mg)
  {
  }

  /** Each point moved by d. */
  function Shifted(pts: seq<Point>, d: Point): (r: seq<Point>)
    ensures |r| == |pts|
  {
    seq(|pts|, k requires 0 <= k < |pts| => Plus(pts[k], d))
  }

  // ---- splitting ----

  /** The number of chunks split makes from n points: the ceiling of n / 500. */
  function ChunkCount(n: nat): nat
  {
    (n + MaxPoints - 1) / MaxPoints
  }

  /** Chunk k: indices 500k up to and including min(500k + 500, n - 1). */
  function Chunk<T>(s: seq<T>, k: nat): seq<T>
    requires k < ChunkCount(|s|)
  {
    s[MaxPoints * k .. if MaxPoints * k + MaxPoints + 1 <= |s| then MaxPoints * k + MaxPoints + 1 else |s|]
  }

  /** Every chunk is non-empty and holds at most 501 points; adjacent chunks share their boundary point. */
  lemma ChunksOverlap<T>(s: seq<T>, k: nat)
    requires k < ChunkCount(|s|)
    ensures 0 < |Chunk(s, k)| <= MaxPoints + 1
    ensures Chunk(s, k)[0] == s[MaxPoints * k]
    ensures k + 1 < ChunkCount(|s|) ==> |Chunk(s, k)| == MaxPoints + 1 && Chunk(s, k)[MaxPoints] == Chunk(s, k + 1)[0]
    ensures k + 1 == ChunkCount(|s|) ==> Chunk(s, k)[|Chunk(s, k)| - 1] == s[|s| - 1]
  {
    ChunkStarts(|s|, k);
    ChunkStarts(|s|, k + 1);
  }

  /** Chunk k exists exactly when it starts before the end. */
  lemma ChunkStarts(n: nat, k: nat)
    ensures k < ChunkCount(n) <==> MaxPoints * k < n
  {
    var m := n + MaxPoints - 1;
    assert m == MaxPoints * ChunkCount(n) + m % MaxPoints;
  }

  class FreeformItem {
    const base: Item            // the Item part: box, padding and properties
    var points: seq<Point>      // m_points
    var pressures: seq<real>    // m_pressures
    var window: seq<Point>      // m_currentWindow
    var windowSum: Point        // m_currentWindowSum
    ghost var raw: seq<Point>   // every point handed to optimizePoint, oldest first

    /**
     * One pressure per point, the window is the (at most) seven most recent raw points and the
     * running sum is their sum.
     */
    ghost predicate Valid()
      reads this, base
    {
      base.Valid() && StrokeWidth in TypesOf(base.entries) &&
      |points| == |pressures| && window == LastN(raw, BufferSize) && windowSum == SumOf(window)
    }

    /** The stroke width the box is grown by. */
    function Width(): int
      reads this, base
      requires Valid()
    {
      base.StrokeWidthValue()
    }

    /** FreeformItem(): no points, an empty window, and stroke width 1, colour black, full opacity. */
    constructor ()
      ensures Valid() && fresh(base)
      ensures points == [] && pressures == [] && window == [] && raw == []
      ensures base.box == Rect(0.0, 0.0, 0.0, 0.0) && base.padding == 0
      ensures Width() == 1
      ensures base.PropertyTypes() == [StrokeWidth, StrokeColor, Opacity]
      ensures base.GetProperty(StrokeColor).value == Property(StrokeColor, ColorValue(BlackRgb))
      ensures base.GetProperty(Opacity).value == Property(Opacity, IntValue(MaxItemOpacity))
    {
      base := new Item();
      points, pressures, window, windowSum := [], [], [], Point(0.0, 0.0);
      raw := [];
      new;
      base.Put(StrokeWidth, Property(StrokeWidth, IntValue(1)));
      base.Put(StrokeColor, Property(StrokeColor, ColorValue(BlackRgb)));
      base.Put(Opacity, Property(Opacity, IntValue(MaxItemOpacity)));
    }

    /** size(): the number of points, which is also the number of pressures. */
    function Size(): (n: nat)
      reads this, base
      requires Valid()
      ensures n == |points| && n == |pressures|
    {
      |points|
    }

    /**
     * optimizePoint: p joins the window, the oldest point leaves it once it holds more than seven,
     * and the result is the mean of the window.
     */
    method OptimizePoint(p: Point) returns (q: Point)
      requires Valid()
      modifies this
      ensures Valid() && raw == old(raw) + [p] && window != [] && q == Mean(window)
      ensures points == old(points) && pressures == old(pressures)
    {
      raw := raw + [p];
      assert (window + [p])[..|window|] == window;
      window, windowSum := window + [p], Plus(windowSum, p);
      if |window| > BufferSize {
        SumFront(window);
        windowSum := Minus(windowSum, window[0]);
        window := window[1..];
      }
      q := Point(DivByLength(windowSum.x, |window|), DivByLength(windowSum.y, |window|));
    }

    /**
     * addPoint: appends the point (smoothed when optimize is set) and its pressure, and grows the
     * box for it as GrownBox says.
     */
    method AddPoint(p: Point, pressure: real, optimize: bool)
      requires Valid()
      modifies this, base
      ensures Valid() && Width() == old(Width())
      ensures |points| == |old(points)| + 1 && forall k | 0 <= k < |old(points)| :: points[k] == old(points)[k]
      ensures pressures == old(pressures) + [pressure]
      ensures optimize ==> raw == old(raw) + [p] && points[|points| - 1] == Mean(window)
      ensures !optimize ==> raw == old(raw) && window == old(window) && points[|points| - 1] == p
      ensures base.box == GrownBox(old(base.box), |old(points)|, points[|points| - 1], Width())
      ensures base.padding == old(base.padding) && base.entries == old(base.entries)
    {
      var q := p;
      if optimize {
        q := OptimizePoint(p);
      }
      base.box := GrownBox(base.box, |points|, q, base.StrokeWidthValue());
      points := points + [q];
      pressures := pressures + [pressure];
    }

    /** translate: every point and the box move by d; the smoothing window is left as it was. */
    method Translate(d: Point)
      requires Valid()
      modifies this, base
      ensures Valid() && points == Shifted(old(points), d) && pressures == old(pressures)
      ensures base.box == Translated(old(base.box), d.x, d.y)
      ensures base.padding == old(base.padding) && base.entries == old(base.entries)
    {
      var i := 0;
      while i < |points|
        invariant 0 <= i <= |points| == |old(points)|
        invariant points[..i] == Shifted(old(points), d)[..i] && points[i..] == old(points)[i..]
        invariant Valid() && pressures == old(pressures) && unchanged(base)
      {
        points := points[i := Plus(points[i], d)];
        i := i + 1;
      }
      base.box := Translated(base.box, d.x, d.y);
    }

    /**
     * split: chunk k is a new freeform holding points and pressures 500k up to and including
     * min(500k + 500, n - 1), with the original's properties and padding.
     */
    method Split() returns (chunks: seq<FreeformItem>)
      requires Valid()
      ensures |chunks| == ChunkCount(|points|)
      ensures forall k | 0 <= k < |chunks| :: fresh(chunks[k]) && fresh(chunks[k].base) && chunks[k].Valid()
      ensures forall k | 0 <= k < |chunks| :: chunks[k].points == Chunk(points, k)
      ensures forall k | 0 <= k < |chunks| :: chunks[k].pressures == Chunk(pressures, k)
      ensures forall k | 0 <= k < |chunks| ::
                chunks[k].base.entries == base.entries && chunks[k].base.padding == base.padding
      ensures forall a, b | 0 <= a < b < |chunks| :: chunks[a] != chunks[b] && chunks[a].base != chunks[b].base
    {
      ghost var start;
      chunks, start := SplitChunks(points, pressures, base.entries, base.padding);
      SplitEnds(chunks, points, pressures, base.entries, base.padding, start);
    }
  }

  /** The Item part of each chunk. */
  function Bases(chunks: seq<FreeformItem>): (bs: seq<Item>)
    ensures |bs| == |chunks| && forall k | 0 <= k < |chunks| :: bs[k] == chunks[k].base
  {
    if chunks == [] then [] else Bases(chunks[..|chunks| - 1]) + [Last(chunks).base]
  }

  /** The chunks are pairwise distinct, valid, and carry the original's properties and padding. */
  ghost predicate Siblings(chunks: seq<FreeformItem>, es: seq<Entry>, pad: int)
    reads chunks, Bases(chunks)
  {
    (forall a, b | 0 <= a < b < |chunks| :: chunks[a] != chunks[b] && chunks[a].base != chunks[b].base) &&
    (forall k | 0 <= k < |chunks| :: chunks[k].Valid() && chunks[k].base.entries == es && chunks[k].base.padding == pad)
  }

  /** A completed chunk: the 501 points from 500k on. */
  ghost predicate Sealed(c: FreeformItem, pts: seq<Point>, prs: seq<real>, k: nat)
    reads c
  {
    MaxPoints * k + MaxPoints + 1 <= |pts| && MaxPoints * k + MaxPoints + 1 <= |prs| &&
    c.points == pts[MaxPoints * k .. MaxPoints * k + MaxPoints + 1] &&
    c.pressures == prs[MaxPoints * k .. MaxPoints * k + MaxPoints + 1]
  }

  /** The first n chunks are complete. */
  ghost predicate SealedBefore(chunks: seq<FreeformItem>, pts: seq<Point>, prs: seq<real>, n: nat)
    requires n <= |chunks|
    reads chunks
  {
    forall k | 0 <= k < n :: Sealed(chunks[k], pts, prs, k)
  }

  /** The open chunk holds the points and pressures from start up to index, unsmoothed. */
  ghost predicate Holds(c: FreeformItem, pts: seq<Point>, prs: seq<real>, start: nat, index: nat)
    reads c
  {
    start <= index <= |pts| && index <= |prs| &&
    c.points == pts[start..index] && c.pressures == prs[start..index] && c.window == []
  }

  /**
   * What split has built after the first index points: sibling chunks, all complete but the last,
   * which began at 500(c - 1) and holds the points from there up to index.
   */
  ghost predicate Walked(chunks: seq<FreeformItem>, pts: seq<Point>, prs: seq<real>, es: seq<Entry>, pad: int,
                         start: nat, index: nat)
    reads chunks, Bases(chunks)
  {
    |pts| == |prs| && index <= |pts| && (chunks == [] ==> index == 0) &&
    (chunks != [] ==> start == MaxPoints * (|chunks| - 1) && index <= start + MaxPoints) &&
    Siblings(chunks, es, pad) &&
    (chunks != [] ==> SealedBefore(chunks, pts, prs, |chunks| - 1) && Holds(Last(chunks), pts, prs, start, index))
  }

  /** split's loop over the n points of the original, in order. */
  method SplitChunks(pts: seq<Point>, prs: seq<real>, es: seq<Entry>, pad: int)
    returns (chunks: seq<FreeformItem>, ghost start: nat)
    requires |pts| == |prs| && DistinctTypes(es) && StrokeWidth in TypesOf(es)
    ensures Walked(chunks, pts, prs, es, pad, start, |pts|)
    ensures (chunks == [] <==> |pts| == 0) && (chunks != [] ==> start < |pts|)
    ensures forall k | 0 <= k < |chunks| :: fresh(chunks[k]) && fresh(chunks[k].base)
  {
    chunks, start := [], 0;
    var index := 0;
    ghost var made: set<object> := {};
    while index < |pts|
      invariant index <= |pts|
      invariant Walked(chunks, pts, prs, es, pad, start, index)
      invariant (chunks == [] <==> index == 0) && (chunks != [] ==> start < index)
      invariant forall k | 0 <= k < |chunks| :: chunks[k] in made && chunks[k].base in made
      invariant fresh(made)
    {
      chunks, start, made := SplitStep(chunks, pts, prs, es, pad, start, index, made);
      index := index + 1;
    }
  }

  /**
   * One turn of split's loop: at a multiple of 500 the point first completes the last chunk and a
   * new chunk is opened; then the point is added, without smoothing, to the open chunk. The ghost
   * set made collects the objects split has allocated so far.
   */
  method SplitStep(chunks: seq<FreeformItem>, pts: seq<Point>, prs: seq<real>, es: seq<Entry>, pad: int,
                   ghost start: nat, index: nat, ghost made: set<object>)
    returns (next: seq<FreeformItem>, ghost start': nat, ghost made': set<object>)
    requires Walked(chunks, pts, prs, es, pad, start, index) && index < |pts|
    requires (chunks == [] <==> index == 0) && (chunks != [] ==> start < index)
    requires DistinctTypes(es) && StrokeWidth in TypesOf(es)
    requires chunks != [] ==> Last(chunks) in made && Last(chunks).base in made
    modifies if chunks == [] then {} else {Last(chunks), Last(chunks).base}
    ensures Walked(next, pts, prs, es, pad, start', index + 1) && next != [] && start' <= index
    ensures next == chunks || next == chunks + [Last(next)]
    ensures made <= made' && fresh(made' - made) && Last(next) in made' && Last(next).base in made'
  {
    next, start', made' := chunks, start, made;
    if index % MaxPoints == 0 {
      if chunks != [] {
        ChunkBoundary(|chunks|, index);
        SealLast(chunks, pts, prs, es, pad, start, index);
      }
      next := Open(chunks, pts, prs, es, pad, index);
      start', made' := index, made + {Last(next), Last(next).base};
    } else {
      ChunkBoundary(|chunks|, index);
    }
    Extend(next, pts, prs, es, pad, start', index);
  }

  /**
   * The boundary point of split: at index 500c it is also added, with smoothing, to the last chunk,
   * whose window is empty so that the point goes in as it is; that completes the chunk.
   */
  method SealLast(chunks: seq<FreeformItem>, pts: seq<Point>, prs: seq<real>, es: seq<Entry>, pad: int,
                  ghost start: nat, index: nat)
    requires Walked(chunks, pts, prs, es, pad, start, index)
    requires chunks != [] && index == start + MaxPoints && index < |pts|
    modifies Last(chunks), Last(chunks).base
    ensures Siblings(chunks, es, pad) && SealedBefore(chunks, pts, prs, |chunks|)
  {
    var last := Last(chunks);
    last.AddPoint(pts[index], prs[index], true);
    MeanOfOne(pts[index]);
    SliceGrows(last.points, old(last.points), pts, start, index);
    SliceGrows(last.pressures, old(last.pressures), prs, start, index);
    forall k | 0 <= k < |chunks|
      ensures Sealed(chunks[k], pts, prs, k)
      ensures chunks[k].Valid() && chunks[k].base.entries == es && chunks[k].base.padding == pad
    {
      if k < |chunks| - 1 {
        assert chunks[k] != last && chunks[k].base != last.base;
        assert old(Sealed(chunks[k], pts, prs, k)) && old(chunks[k].Valid());
      }
    }
  }

  /** A new chunk, a copy of the original's properties and padding with no points, joins the list. */
  method Open(chunks: seq<FreeformItem>, pts: seq<Point>, prs: seq<real>, es: seq<Entry>, pad: int, index: nat)
    returns (next: seq<FreeformItem>)
    requires Siblings(chunks, es, pad) && SealedBefore(chunks, pts, prs, |chunks|)
    requires DistinctTypes(es) && StrokeWidth in TypesOf(es)
    requires index == MaxPoints * |chunks| && index <= |pts| == |prs|
    ensures Walked(next, pts, prs, es, pad, index, index)
    ensures |next| == |chunks| + 1 && next == chunks + [Last(next)] && fresh(Last(next)) && fresh(Last(next).base)
  {
    var newItem := NewChunk(es, pad);
    next := chunks + [newItem];
    forall k | 0 <= k < |next|
      ensures next[k].Valid() && next[k].base.entries == es && next[k].base.padding == pad
      ensures k < |chunks| ==> Sealed(next[k], pts, prs, k)
    {
      if k < |chunks| {
        assert next[k] == chunks[k];
        assert old(chunks[k].Valid()) && old(Sealed(chunks[k], pts, prs, k));
      }
    }
    forall a, b | 0 <= a < b < |next| ensures next[a] != next[b] && next[a].base != next[b].base {
      if b < |chunks| {
        assert next[a] == chunks[a] && next[b] == chunks[b];
      }
    }
  }

  /** A new freeform with no points that takes over the given properties and padding. */
  method NewChunk(es: seq<Entry>, pad: int) returns (c: FreeformItem)
    requires DistinctTypes(es) && StrokeWidth in TypesOf(es)
    ensures fresh(c) && fresh(c.base) && c.Valid()
    ensures c.points == [] && c.pressures == [] && c.window == []
    ensures c.base.entries == es && c.base.padding == pad
  {
    c := new FreeformItem();
    c.base.entries := es;
    c.base.padding := pad;
  }

  /** The point at index is added, without smoothing, to the open chunk. */
  method Extend(chunks: seq<FreeformItem>, pts: seq<Point>, prs: seq<real>, es: seq<Entry>, pad: int,
                ghost start: nat, index: nat)
    requires Walked(chunks, pts, prs, es, pad, start, index)
    requires chunks != [] && index < start + MaxPoints && index < |pts|
    modifies Last(chunks), Last(chunks).base
    ensures Walked(chunks, pts, prs, es, pad, start, index + 1)
  {
    var cur := Last(chunks);
    cur.AddPoint(pts[index], prs[index], false);
    SliceGrows(cur.points, old(cur.points), pts, start, index);
    SliceGrows(cur.pressures, old(cur.pressures), prs, start, index);
  }

  /** A slice that was s[a..b] and gained s[b] at its end is s[a..b + 1]. */
  lemma SliceGrows<T>(t: seq<T>, u: seq<T>, s: seq<T>, a: nat, b: nat)
    requires a <= b < |s| && u == s[a..b]
    requires |t| == |u| + 1 && (forall k | 0 <= k < |u| :: t[k] == u[k]) && t[|u|] == s[b]
    ensures t == s[a..b + 1]
  {
  }

  /** Where an index stands relative to the last chunk, which began at 500(c - 1). */
  lemma ChunkBoundary(c: nat, index: nat)
    requires 0 < c && MaxPoints * (c - 1) < index <= MaxPoints * c
    ensures index % MaxPoints == 0 ==> index == MaxPoints * c
    ensures index % MaxPoints != 0 ==> index < MaxPoints * c
  {
    if index == MaxPoints * c {
      assert index % MaxPoints == 0;
    } else {
      var q := index / MaxPoints;
      assert index == MaxPoints * q + index % MaxPoints;
      assert q == c - 1;
    }
  }

  /** The chunk count of n points lying in the last of c chunks. */
  lemma CountFromBounds(n: nat, c: nat)
    requires 0 < c && MaxPoints * (c - 1) < n <= MaxPoints * c
    ensures ChunkCount(n) == c
  {
    var m := n + MaxPoints - 1;
    assert MaxPoints * c <= m < MaxPoints * c + MaxPoints;
    assert m == MaxPoints * c + (m - MaxPoints * c);
  }

  /** When the walk is over, the sealed chunks and the last one are exactly the chunks split promises. */
  lemma SplitEnds(chunks: seq<FreeformItem>, pts: seq<Point>, prs: seq<real>, es: seq<Entry>, pad: int, start: nat)
    requires Walked(chunks, pts, prs, es, pad, start, |pts|)
    requires (chunks == [] <==> |pts| == 0) && (chunks != [] ==> start < |pts|)
    ensures |chunks| == ChunkCount(|pts|)
    ensures forall k | 0 <= k < |chunks| :: chunks[k].points == Chunk(pts, k) && chunks[k].pressures == Chunk(prs, k)
  {
    if chunks != [] {
      CountFromBounds(|pts|, |chunks|);
    }
  }

  function Last<T>(s: seq<T>): T
    requires s != []
  {
    s[|s| - 1]
  }
}
