/**
 * CacheGrid: a least-recently-used cache of 500 by 500 pixel tiles of the canvas, keyed by
 * integer grid coordinates. Every tile carries a dirty flag saying that it must be repainted.
 * The cache keeps a hash from grid point to tile and a recency list between a head and a tail
 * sentinel; here the list is the sequence of grid points from least to most recently used.
 */
module CacheGrids {
  import opened Wrappers
  import opened Geometry

  /** cellSize: the side of a tile in pixels. */
  const CellSide: int := 500

  /** cellSize: every tile is a square of that size, whatever its grid point. */
  function CellSize(): (s: ISize)
    ensures s.w == s.h > 0
    ensures forall p :: CellRect(p).w == s.w && CellRect(p).h == s.h
  {
    ISize(CellSide, CellSide)
  }

  /** rect: the pixels of the tile at grid point p, a square of cellSize whose corner is p scaled by the tile side. */
  function CellRect(p: IPoint): IRect
  {
    IRect(p.x * CellSide, p.y * CellSide, CellSide, CellSide)
  }

  /**
   * The grid coordinate of a pixel coordinate: the floor of the quotient by the tile side
   * (Dafny's division by a positive divisor rounds down).
   */
  function CellIndex(a: int): int { a / CellSide }

  /** A pixel lies in the rectangle, edges included (QRect::contains). */
  predicate HasPixel(r: IRect, a: int, b: int)
  {
    r.x <= a <= IRight(r) && r.y <= b <= IBottom(r)
  }

  /** Neighbouring tiles abut: the next tile to the right or below starts just past this one's last column or row. */
  lemma TilesAbut(p: IPoint)
    ensures IRight(CellRect(p)) + 1 == CellRect(IPoint(p.x + 1, p.y)).x
    ensures IBottom(CellRect(p)) + 1 == CellRect(IPoint(p.x, p.y + 1)).y
  {
    assert (p.x + 1) * CellSide == p.x * CellSide + CellSide;
    assert (p.y + 1) * CellSide == p.y * CellSide + CellSide;
  }

  /** The tiles tile the plane: a pixel lies in the tile at p exactly when p is its floor-divided coordinate. */
  lemma PixelInOneCell(a: int, b: int, p: IPoint)
    ensures HasPixel(CellRect(p), a, b) <==> p == IPoint(CellIndex(a), CellIndex(b))
  {
    var q := IPoint(CellIndex(a), CellIndex(b));
    assert HasPixel(CellRect(q), a, b);
    if HasPixel(CellRect(p), a, b) {
      assert p.x * CellSide <= a < p.x * CellSide + CellSide;
      assert q.x * CellSide <= a < q.x * CellSide + CellSide;
      assert p.y * CellSide <= b < p.y * CellSide + CellSide;
      assert q.y * CellSide <= b < q.y * CellSide + CellSide;
    }
  }

  // ---- the tiles a rectangle touches ----

  /** The grid points (x, y) with y0 <= y < y1, in ascending y. */
  function Column(x: int, y0: int, y1: int): seq<IPoint>
    decreases y1 - y0
  {
    if y1 <= y0 then [] else Column(x, y0, y1 - 1) + [IPoint(x, y1 - 1)]
  }

  /** The grid points with x0 <= x < x1 and y0 <= y < y1, x the outer and y the inner order. */
  function Block(x0: int, x1: int, y0: int, y1: int): seq<IPoint>
    decreases x1 - x0
  {
    if x1 <= x0 then [] else Block(x0, x1 - 1, y0, y1) + Column(x1 - 1, y0, y1)
  }

  lemma {:induction false} InColumn(x: int, y0: int, y1: int, p: IPoint)
    ensures p in Column(x, y0, y1) <==> p.x == x && y0 <= p.y < y1
    ensures |Column(x, y0, y1)| == if y1 <= y0 then 0 else y1 - y0
    decreases y1 - y0
  {
    if y0 < y1 {
      InColumn(x, y0, y1 - 1, p);
    }
  }

  /** A point is in the block exactly when its coordinates are in range; the block has one point per pair. */
  lemma {:induction false} InBlock(x0: int, x1: int, y0: int, y1: int, p: IPoint)
    ensures p in Block(x0, x1, y0, y1) <==> x0 <= p.x < x1 && y0 <= p.y < y1
    ensures x0 <= x1 && y0 <= y1 ==> |Block(x0, x1, y0, y1)| == (x1 - x0) * (y1 - y0)
    decreases x1 - x0
  {
    InColumn(x1 - 1, y0, y1, p);
    if x0 < x1 {
      InBlock(x0, x1 - 1, y0, y1, p);
      if y0 <= y1 {
        assert (x1 - x0) * (y1 - y0) == (x1 - 1 - x0) * (y1 - y0) + (y1 - y0);
      }
    }
  }

  /**
   * queryCells: the tiles from the floor-divided top-left corner to the floor-divided
   * bottom-right corner of the rectangle, both inclusive, column by column.
   */
  function QueryPoints(r: IRect): seq<IPoint>
  {
    Block(CellIndex(r.x), CellIndex(IRight(r)) + 1, CellIndex(r.y), CellIndex(IBottom(r)) + 1)
  }

  /** Every pixel of the rectangle lies in a tile queryCells returns. */
  lemma QueryCoversRect(r: IRect, a: int, b: int)
    requires HasPixel(r, a, b)
    ensures IPoint(CellIndex(a), CellIndex(b)) in QueryPoints(r)
    ensures HasPixel(CellRect(IPoint(CellIndex(a), CellIndex(b))), a, b)
  {
    var p := IPoint(CellIndex(a), CellIndex(b));
    InBlock(CellIndex(r.x), CellIndex(IRight(r)) + 1, CellIndex(r.y), CellIndex(IBottom(r)) + 1, p);
    PixelInOneCell(a, b, p);
    assert r.x / CellSide <= a / CellSide <= IRight(r) / CellSide;
    assert r.y / CellSide <= b / CellSide <= IBottom(r) / CellSide;
  }

  /** For a rectangle of at least one pixel, every tile queryCells returns shares a pixel with it. */
  lemma QueryOnlyMeetingCells(r: IRect, p: IPoint)
    requires r.w >= 1 && r.h >= 1 && p in QueryPoints(r)
    ensures exists a, b :: HasPixel(r, a, b) && HasPixel(CellRect(p), a, b)
  {
    InBlock(CellIndex(r.x), CellIndex(IRight(r)) + 1, CellIndex(r.y), CellIndex(IBottom(r)) + 1, p);
    var c := CellRect(p);
    var a := if r.x < c.x then c.x else r.x;
    var b := if r.y < c.y then c.y else r.y;
    assert HasPixel(r, a, b) && HasPixel(c, a, b);
  }

  // ---- the recency list ----

  predicate Distinct<T(==)>(s: seq<T>)
  {
    forall i, j | 0 <= i < j < |s| :: s[i] != s[j]
  }

  /** A hit: the point leaves its place for the most recently used end; nothing else moves. */
  function Touched<T(==)>(s: seq<T>, p: T): seq<T>
  {
    if s == [] then [p]
    else if s[0] == p then s[1..] + [p]
    else [s[0]] + Touched(s[1..], p)
  }

  /** A hit keeps the list duplicate-free, of the same length and over the same points. */
  lemma {:induction false} TouchedKeepsPoints<T>(s: seq<T>, p: T)
    requires Distinct(s) && p in s
    ensures var t := Touched(s, p);
      Distinct(t) && |t| == |s| && t[|t| - 1] == p && forall q :: q in t <==> q in s
  {
    if s[0] != p {
      var r := s[1..];
      TouchedKeepsPoints(r, p);
      var t := Touched(r, p);
      assert s[0] !in r;
      assert Touched(s, p) == [s[0]] + t;
      assert s == [s[0]] + r;
    }
  }

  /** The other points keep their relative order: the list is the one without p, then p. */
  lemma {:induction false} TouchedAt<T>(s: seq<T>, p: T, k: nat)
    requires k < |s| && s[k] == p && p !in s[..k]
    ensures Touched(s, p) == s[..k] + s[k + 1..] + [p]
  {
    if k > 0 {
      assert s[1..][..k - 1] == s[1..k];
      assert s[1..][k..] == s[k + 1..];
      TouchedAt(s[1..], p, k - 1);
      assert s[..k] == [s[0]] + s[1..k];
    }
  }

  /** A miss in a full cache drops the least recently used point and appends the new one. */
  lemma EvictedKeepsPoints<T>(s: seq<T>, p: T)
    requires Distinct(s) && p !in s && |s| > 0
    ensures var t := s[1..] + [p];
      Distinct(t) && |t| == |s| && s[0] !in t && forall q :: q in t <==> (q in s && q != s[0]) || q == p
  {
    var t := s[1..] + [p];
    forall q ensures q in t <==> (q in s && q != s[0]) || q == p {
      if q in s && q != s[0] {
        var k :| 0 <= k < |s| && s[k] == q;
        assert t[k - 1] == q;
      }
    }
  }

  /** A point moved to the back is one that was there, or the point itself. */
  lemma {:induction false} InTouched<T>(s: seq<T>, p: T, q: T)
    requires q in Touched(s, p)
    ensures q in s || q == p
  {
    if s != [] && s[0] != p && q != s[0] {
      InTouched(s[1..], p, q);
    }
  }

  /**
   * The recency list after cell(p): a hit moves p to the most recently used end; a miss appends
   * p, first dropping the least recently used point when the size equals the limit exactly.
   */
  function Step(rec: seq<IPoint>, p: IPoint, max: int): seq<IPoint>
    requires max != 0
  {
    if p in rec then Touched(rec, p)
    else if |rec| == max then rec[1..] + [p]
    else rec + [p]
  }

  /** The recency list after cell() on each point of pts in turn. */
  function Visited(rec: seq<IPoint>, pts: seq<IPoint>, max: int): seq<IPoint>
    requires max != 0
    decreases |pts|
  {
    if pts == [] then rec else Visited(Step(rec, pts[0], max), pts[1..], max)
  }

  /** Visiting one more point is one more step. */
  lemma {:induction false} VisitedSnoc(rec: seq<IPoint>, pts: seq<IPoint>, p: IPoint, max: int)
    requires max != 0
    ensures Visited(rec, pts + [p], max) == Step(Visited(rec, pts, max), p, max)
    decreases |pts|
  {
    if pts == [] {
      assert [] + [p] == [p];
      assert [p][1..] == [];
    } else {
      assert (pts + [p])[1..] == pts[1..] + [p];
      VisitedSnoc(Step(rec, pts[0], max), pts[1..], p, max);
    }
  }

  /**
   * One cell() call keeps the list duplicate-free and puts p behind the points d that were most
   * recently used, as long as d is shorter than the limit or the list is already over it (the
   * size test is ==, so a list over the limit never evicts). A list within the limit stays
   * within it, and one over the limit stays over it.
   */
  lemma StepKeepsRecent(rec: seq<IPoint>, d: seq<IPoint>, p: IPoint, max: int)
    requires max != 0 && Distinct(rec)
    requires |d| <= |rec| && rec[|rec| - |d|..] == d && p !in d && (|d| < max || |rec| > max)
    ensures var s := Step(rec, p, max);
      Distinct(s) && |d| + 1 <= |s| && s[|s| - |d| - 1..] == d + [p] &&
      (|rec| <= max ==> |s| <= max) && (|rec| > max ==> |s| > max)
  {
    var n := |rec| - |d|;
    if p in rec {
      var k :| 0 <= k < |rec| && rec[k] == p;
      assert p !in rec[..k];
      TouchedAt(rec, p, k);
      TouchedKeepsPoints(rec, p);
      assert k < n;
      var t := rec[..k] + rec[k + 1..];
      assert t[n - 1..] == rec[n..];
      var s := t + [p];
      assert s[|s| - |d| - 1..] == t[n - 1..] + [p];
    } else if |rec| == max {
      EvictedKeepsPoints(rec, p);
      var s := rec[1..] + [p];
      assert s[|s| - |d| - 1..] == rec[n..] + [p];
    } else {
      var s := rec + [p];
      assert s[|s| - |d| - 1..] == rec[n..] + [p];
      assert forall i | 0 <= i < |rec| :: s[i] == rec[i];
    }
  }

  /**
   * cell() on a duplicate-free run of points that, with the d most recently used before it,
   * fits in the limit leaves d followed by the whole run at the most recently used end.
   */
  lemma {:induction false} VisitedKeepsRecent(rec: seq<IPoint>, d: seq<IPoint>, pts: seq<IPoint>, max: int)
    requires max != 0 && Distinct(rec)
    requires |d| <= |rec| && rec[|rec| - |d|..] == d
    requires Distinct(d + pts) && |d| + |pts| <= max
    ensures var v := Visited(rec, pts, max);
      Distinct(v) && |d| + |pts| <= |v| && v[|v| - |d| - |pts|..] == d + pts
    decreases |pts|
  {
    if pts != [] {
      assert (d + pts)[|d|] == pts[0];
      assert pts[0] !in d by {
        forall i | 0 <= i < |d| ensures d[i] != pts[0] {
          assert (d + pts)[i] == d[i];
        }
      }
      StepKeepsRecent(rec, d, pts[0], max);
      assert (d + [pts[0]]) + pts[1..] == d + pts;
      VisitedKeepsRecent(Step(rec, pts[0], max), d + [pts[0]], pts[1..], max);
    }
  }

  /** A duplicate-free run of at most the limit's number of points ends up entirely resident. */
  lemma VisitedKeepsAll(rec: seq<IPoint>, pts: seq<IPoint>, max: int)
    requires max != 0 && Distinct(rec) && Distinct(pts) && |pts| <= max
    ensures forall p | p in pts :: p in Visited(rec, pts, max)
  {
    assert [] + pts == pts;
    VisitedKeepsRecent(rec, [], pts, max);
    var v := Visited(rec, pts, max);
    forall p | p in pts ensures p in v {
      var k :| 0 <= k < |pts| && pts[k] == p;
      assert v[|v| - |pts| + k] == p;
    }
  }

  /**
   * A rectangle over more tiles than the limit evicts its own tiles: with a limit of one, the
   * two tiles of a 501 by 1 rectangle at the origin leave only the second resident.
   */
  lemma QueryEvictsOwnTiles()
    ensures QueryPoints(IRect(0, 0, 501, 1)) == [IPoint(0, 0), IPoint(1, 0)]
    ensures Visited([], QueryPoints(IRect(0, 0, 501, 1)), 1) == [IPoint(1, 0)]
  {
    assert Column(0, 0, 1) == [IPoint(0, 0)];
    assert Column(1, 0, 1) == [IPoint(1, 0)];
    assert Block(0, 1, 0, 1) == [IPoint(0, 0)];
    assert QueryPoints(IRect(0, 0, 501, 1)) == Block(0, 2, 0, 1);
    assert Step([], IPoint(0, 0), 1) == [IPoint(0, 0)];
    assert Step([IPoint(0, 0)], IPoint(1, 0), 1) == [IPoint(1, 0)];
  }

  lemma DistinctConcat<T>(a: seq<T>, b: seq<T>)
    requires Distinct(a) && Distinct(b) && forall p | p in a :: p !in b
    ensures Distinct(a + b)
  {
    forall i, j | 0 <= i < j < |a + b| ensures (a + b)[i] != (a + b)[j] {
      if i < |a| <= j {
        assert (a + b)[i] in a && (a + b)[j] == b[j - |a|];
      }
    }
  }

  lemma {:induction false} ColumnDistinct(x: int, y0: int, y1: int)
    ensures Distinct(Column(x, y0, y1))
    decreases y1 - y0
  {
    if y0 < y1 {
      ColumnDistinct(x, y0, y1 - 1);
      InColumn(x, y0, y1 - 1, IPoint(x, y1 - 1));
      DistinctConcat(Column(x, y0, y1 - 1), [IPoint(x, y1 - 1)]);
    }
  }

  /** queryCells visits no tile twice. */
  lemma {:induction false} BlockDistinct(x0: int, x1: int, y0: int, y1: int)
    ensures Distinct(Block(x0, x1, y0, y1))
    decreases x1 - x0
  {
    if x0 < x1 {
      BlockDistinct(x0, x1 - 1, y0, y1);
      ColumnDistinct(x1 - 1, y0, y1);
      var left, col := Block(x0, x1 - 1, y0, y1), Column(x1 - 1, y0, y1);
      forall p | p in left ensures p !in col {
        InBlock(x0, x1 - 1, y0, y1, p);
        InColumn(x1 - 1, y0, y1, p);
      }
      DistinctConcat(left, col);
    }
  }

  /**
   * What the first i turns of queryCells' loops have produced from the cache as it was before
   * them (recency list rec0, hash grid0), given the cache now (rec, grid): the recency list so
   * far, the tiles in point order, each a hit taken from grid0 or a tile created since (one of
   * made), every one still resident under its point unless evicted, and every other resident
   * tile as it was.
   */
  ghost predicate CellsSoFar(points: seq<IPoint>, i: nat, out: seq<CacheCell>, rec0: seq<IPoint>,
                             grid0: map<IPoint, CacheCell>, made: set<CacheCell>,
                             rec: seq<IPoint>, grid: map<IPoint, CacheCell>, max: int)
  {
    max != 0 && i <= |points| && |out| == i && rec == Visited(rec0, points[..i], max) &&
    (forall k | 0 <= k < i :: out[k].point == points[k]) &&
    (forall k | 0 <= k < i :: points[k] !in Visited(rec0, points[..k], max) ==> out[k] in made) &&
    (forall k | 0 <= k < i ::
       points[k] in Visited(rec0, points[..k], max) ==> points[k] in grid0 && out[k] == grid0[points[k]]) &&
    (forall k | 0 <= k < i :: points[k] in grid ==> grid[points[k]] == out[k]) &&
    (forall q | q in grid && q !in points[..i] :: q in grid0 && grid[q] == grid0[q])
  }

  /**
   * One more cell() call extends the progress: the new recency list is one more step, and the
   * tile returned for the next point is the resident one on a hit and a new member of made on a
   * miss, while every tile at another point is kept or evicted.
   */
  lemma CellsSoFarStep(points: seq<IPoint>, i: nat, out: seq<CacheCell>, rec0: seq<IPoint>,
                       grid0: map<IPoint, CacheCell>, made: set<CacheCell>,
                       rec: seq<IPoint>, grid: map<IPoint, CacheCell>, max: int,
                       c: CacheCell, rec': seq<IPoint>, grid': map<IPoint, CacheCell>)
    requires Distinct(points) && i < |points| && CellsSoFar(points, i, out, rec0, grid0, made, rec, grid, max)
    requires forall q :: q in grid <==> q in rec
    requires rec' == Step(rec, points[i], max)
    requires c.point == points[i] && points[i] in grid' && grid'[points[i]] == c
    requires points[i] in grid ==> c == grid[points[i]]
    requires forall q | q in grid' && q != points[i] :: q in grid && grid'[q] == grid[q]
    ensures CellsSoFar(points, i + 1, out + [c], rec0, grid0, if points[i] in grid then made else made + {c},
                       rec', grid', max)
  {
    var p := points[i];
    var next, made' := out + [c], if p in grid then made else made + {c};
    VisitedSnoc(rec0, points[..i], p, max);
    assert points[..i + 1] == points[..i] + [p];
    assert p !in points[..i];
    forall k | 0 <= k <= i ensures next[k].point == points[k] && (k < i ==> next[k] == out[k] && points[k] != p) {
    }
    forall k | 0 <= k <= i && points[k] !in Visited(rec0, points[..k], max) ensures next[k] in made' {
    }
    forall k | 0 <= k <= i && points[k] in Visited(rec0, points[..k], max)
      ensures points[k] in grid0 && next[k] == grid0[points[k]]
    {
      if k == i {
        assert p in grid && p !in points[..i];
      }
    }
    forall k | 0 <= k <= i && points[k] in grid' ensures grid'[points[k]] == next[k] {
    }
    forall q | q in grid' && q !in points[..i + 1] ensures q in grid0 && grid'[q] == grid0[q] {
      assert q != p && q !in points[..i];
    }
  }

  // ---- the tiles and the cache ----

  class CacheCell {
    const point: IPoint
    var dirty: bool

    /** A new tile is dirty: nothing has been painted into it yet. */
    constructor (point: IPoint)
      ensures this.point == point && dirty
    {
      this.point := point;
      dirty := true;
    }

    method SetDirty(dirty: bool)
      modifies this
      ensures this.dirty == dirty
    {
      this.dirty := dirty;
    }
  }

  class CacheGrid {
    var grid: map<IPoint, CacheCell>   // m_grid
    var recency: seq<IPoint>           // the tiles between the sentinels, least recently used first
    var curSize: int                   // m_curSize
    var maxSize: int                   // m_maxSize

    /**
     * The hash holds exactly the tiles on the recency list, each once, every tile under its own
     * grid point, and the size counter is their number.
     */
    ghost predicate Valid()
      reads this
    {
      maxSize != 0 && curSize == |recency| && Distinct(recency) &&
      (forall p :: p in grid <==> p in recency) &&
      (forall p | p in grid :: grid[p].point == p)
    }

    constructor (maxSize: int)
      requires maxSize != 0
      ensures Valid() && this.maxSize == maxSize && recency == [] && grid == map[]
    {
      grid, recency, curSize := map[], [], 0;
      this.maxSize := maxSize;
    }

    /** The constructor as the source has it: a limit of zero is a logic error. */
    static method Create(maxSize: int) returns (r: Result<CacheGrid>)
      ensures r.Err? <==> maxSize == 0
      ensures r.Ok? ==> fresh(r.value) && r.value.Valid() && r.value.maxSize == maxSize && r.value.Size() == 0
    {
      if maxSize == 0 {
        return Err(InvalidArgument);
      }
      var g := new CacheGrid(maxSize);
      return Ok(g);
    }

    /** size: the number of resident tiles. */
    function Size(): (n: int)
      reads this
      requires Valid()
      ensures n == |recency| && n == |grid.Keys|
    {
      assert grid.Keys == set p | p in recency;
      DistinctCard(recency);
      curSize
    }

    /** setSize: changes the limit only; a limit below the current size evicts nothing now. */
    method SetSize(newSize: int)
      requires Valid() && newSize != 0
      modifies this
      ensures Valid() && maxSize == newSize
      ensures grid == old(grid) && recency == old(recency) && curSize == old(curSize)
    {
      maxSize := newSize;
    }

    /**
     * cell: the tile at p, now the most recently used. A resident tile is returned as it is; on a
     * miss a new dirty tile is created, after evicting the least recently used tile if the size
     * equals the limit exactly.
     */
    method Cell(p: IPoint) returns (c: CacheCell)
      requires Valid()
      modifies this
      ensures Valid() && maxSize == old(maxSize) && c.point == p && p in grid && grid[p] == c
      ensures old(p in grid) ==> recency == Touched(old(recency), p)
      ensures old(p !in grid) && old(curSize) == old(maxSize) ==> recency == old(recency)[1..] + [p]
      ensures old(p !in grid) && old(curSize) != old(maxSize) ==> recency == old(recency) + [p]
      ensures old(p in grid) ==> c == old(grid[p])
      ensures old(p !in grid) ==> fresh(c) && c.dirty
      ensures forall q | q in grid && q != p :: q in old(grid) && grid[q] == old(grid[q])
      ensures old(curSize) <= maxSize ==> curSize <= maxSize
      ensures old(p in grid) || old(curSize) == old(maxSize) ==> curSize == old(curSize)
    {
      if p !in grid {
        if curSize == maxSize {
          EvictedKeepsPoints(recency, p);
          grid := grid - {recency[0]};
          recency := recency[1..];
          curSize := curSize - 1;
        }
        c := new CacheCell(p);
        grid := grid[p := c];
        recency := recency + [p];
        curSize := curSize + 1;
      } else {
        c := grid[p];
        TouchedKeepsPoints(recency, p);
        recency := Touched(recency, p);
      }
    }

    /**
     * queryCells' two loops: cell() on every point of the sequence, in order; the points are the
     * distinct grid points of the queried range. The recency list goes as Visited says; the k-th
     * tile returned is the resident one when its point was resident just before, and a new dirty
     * tile otherwise; a query point still resident afterwards holds the tile returned for it; a
     * tile at any other point is the one resident before.
     */
    method CellsAt(points: seq<IPoint>) returns (out: seq<CacheCell>)
      requires Valid() && Distinct(points)
      modifies this
      ensures Valid() && maxSize == old(maxSize)
      ensures recency == Visited(old(recency), points, maxSize)
      ensures |out| == |points| && forall k | 0 <= k < |out| :: out[k].point == points[k]
      ensures forall k | 0 <= k < |out| ::
                points[k] !in Visited(old(recency), points[..k], maxSize) ==> fresh(out[k]) && out[k].dirty
      ensures forall k | 0 <= k < |out| ::
                points[k] in Visited(old(recency), points[..k], maxSize) ==>
                  points[k] in old(grid) && out[k] == old(grid[points[k]])
      ensures forall k | 0 <= k < |out| :: points[k] in grid ==> grid[points[k]] == out[k]
      ensures forall q | q in grid && q !in points :: q in old(grid) && grid[q] == old(grid[q])
    {
      out := [];
      ghost var rec0, grid0, max0 := recency, grid, maxSize;
      ghost var made: set<CacheCell> := {};
      assert points[..0] == [];
      for i := 0 to |points|
        invariant Valid() && maxSize == max0 && fresh(made) && forall c | c in made :: c.dirty
        invariant CellsSoFar(points, i, out, rec0, grid0, made, recency, grid, maxSize)
      {
        out, made := CellsStep(points, i, out, rec0, grid0, made);
      }
      assert points[..|points|] == points;
    }

    /** One turn of queryCells' loops: cell() on the next point, whose tile joins the result. */
    method CellsStep(points: seq<IPoint>, i: nat, out: seq<CacheCell>, ghost rec0: seq<IPoint>,
                     ghost grid0: map<IPoint, CacheCell>, ghost made: set<CacheCell>)
      returns (next: seq<CacheCell>, ghost made': set<CacheCell>)
      requires Valid() && Distinct(points) && i < |points| && forall c | c in made :: c.dirty
      requires CellsSoFar(points, i, out, rec0, grid0, made, recency, grid, maxSize)
      modifies this
      ensures Valid() && maxSize == old(maxSize)
      ensures made <= made' && fresh(made' - made) && forall c | c in made' :: c.dirty
      ensures CellsSoFar(points, i + 1, next, rec0, grid0, made', recency, grid, maxSize)
    {
      ghost var rec, g := recency, grid;
      var c := Cell(points[i]);
      assert recency == Step(rec, points[i], maxSize);
      next := out + [c];
      made' := if points[i] in g then made else made + {c};
      CellsSoFarStep(points, i, out, rec0, grid0, made, rec, g, maxSize, c, recency, grid);
    }

    /**
     * queryCells: cell() on every grid point of QueryPoints(r), in that order, so the tiles from
     * the rectangle's floor-divided top-left to its floor-divided bottom-right, column by column.
     * Every tile of the range is resident afterwards when the range has at most maxSize tiles;
     * a larger range evicts some of its own tiles (QueryEvictsOwnTiles).
     */
    method QueryCells(r: IRect) returns (out: seq<CacheCell>)
      requires Valid()
      modifies this
      ensures Valid() && maxSize == old(maxSize)
      ensures recency == Visited(old(recency), QueryPoints(r), maxSize)
      ensures |out| == |QueryPoints(r)| && forall k | 0 <= k < |out| :: out[k].point == QueryPoints(r)[k]
      ensures forall k | 0 <= k < |out| ::
                QueryPoints(r)[k] !in Visited(old(recency), QueryPoints(r)[..k], maxSize) ==> fresh(out[k]) && out[k].dirty
      ensures forall k | 0 <= k < |out| ::
                QueryPoints(r)[k] in Visited(old(recency), QueryPoints(r)[..k], maxSize) ==>
                  QueryPoints(r)[k] in old(grid) && out[k] == old(grid[QueryPoints(r)[k]])
      ensures forall k | 0 <= k < |out| :: QueryPoints(r)[k] in grid ==> grid[QueryPoints(r)[k]] == out[k]
      ensures forall p | p in grid && p in QueryPoints(r) :: grid[p] in out
      ensures |QueryPoints(r)| <= maxSize ==> forall p | p in QueryPoints(r) :: p in grid
      ensures forall q | q in grid && q !in QueryPoints(r) :: q in old(grid) && grid[q] == old(grid[q])
    {
      var pts := QueryPoints(r);
      BlockDistinct(CellIndex(r.x), CellIndex(IRight(r)) + 1, CellIndex(r.y), CellIndex(IBottom(r)) + 1);
      out := CellsAt(pts);
      forall p | p in grid && p in pts ensures grid[p] in out {
        var k :| 0 <= k < |pts| && pts[k] == p;
      }
      if |pts| <= maxSize {
        VisitedKeepsAll(old(recency), pts, maxSize);
      }
    }

    /**
     * markDirty: queries the rectangle's tiles, creating missing ones, and marks them dirty. Every
     * resident tile in the range ends dirty, and when the range has at most maxSize tiles every
     * one of them is resident; a tile outside the range keeps its flag, and the cache changes as
     * queryCells changes it.
     */
    method MarkDirty(r: IRect)
      requires Valid()
      modifies this, grid.Values
      ensures Valid() && maxSize == old(maxSize)
      ensures recency == Visited(old(recency), QueryPoints(r), maxSize)
      ensures forall p | p in grid && p in QueryPoints(r) :: grid[p].dirty
      ensures |QueryPoints(r)| <= maxSize ==> forall p | p in QueryPoints(r) :: p in grid && grid[p].dirty
      ensures forall c | c in old(grid.Values) && c.point !in QueryPoints(r) :: c.dirty == old(c.dirty)
      ensures forall q | q in grid && q !in QueryPoints(r) :: q in old(grid) && grid[q] == old(grid[q])
    {
      var cells := QueryCells(r);
      SetAllDirty(cells);
    }

    /** markDirty's loop: setDirty(true) on each tile of the list, and on nothing else. */
    static method SetAllDirty(cells: seq<CacheCell>)
      modifies cells
      ensures forall c | c in cells :: c.dirty
    {
      for i := 0 to |cells|
        invariant forall k | 0 <= k < i :: cells[k].dirty
      {
        cells[i].SetDirty(true);
      }
    }

    /** markAllDirty: every resident tile becomes dirty; the cache itself does not change. */
    method MarkAllDirty()
      requires Valid()
      modifies grid.Values
      ensures Valid() && forall p | p in grid :: grid[p].dirty
    {
      for i := 0 to |recency|
        invariant forall k | 0 <= k < i :: grid[recency[k]].dirty
      {
        grid[recency[i]].SetDirty(true);
      }
    }
  }

  /** A duplicate-free sequence has as many distinct elements as entries. */
  lemma {:induction false} DistinctCard<T>(s: seq<T>)
    requires Distinct(s)
    ensures |set p | p in s| == |s|
  {
    if s != [] {
      var t := s[1..];
      DistinctCard(t);
      assert (set p | p in s) == (set p | p in t) + {s[0]};
      assert s[0] !in t;
    }
  }
}
