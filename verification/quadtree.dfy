/**
 * QuadTree: the region quadtree that indexes the items of the canvas by their bounding boxes.
 * A node stores up to `capacity` items; a full node is split once into four quadrants and an
 * item that straddles quadrant borders is stored in every quadrant it meets. The root grows
 * without bound by re-rooting whenever a point falls outside it. Every node shares one
 * OrderedList, which the tree keeps informed of inserted and deleted items on request.
 */
module QuadTrees {
  import opened Wrappers
  import opened Geometry
  import opened Ordering

  /**
   * A node of the tree: its items in insertion order, its region and, once subdivided, its four
   * quadrants. Every node is owned by exactly one parent, so the tree is a value.
   */
  datatype Node<T> =
    | Leaf(items: seq<T>, region: Rect)
    | Split(items: seq<T>, region: Rect, topLeft: Node<T>, topRight: Node<T>,
            bottomRight: Node<T>, bottomLeft: Node<T>)

  /** A rebuilt node, and whether the operation stored (or removed) a copy of the item somewhere. */
  datatype Placed<T> = Placed(node: Node<T>, hit: bool)

  // ---- quadrants ----

  function TopLeftQuadrant(r: Rect): Rect { Rect(r.x, r.y, r.w / 2.0, r.h / 2.0) }
  function TopRightQuadrant(r: Rect): Rect { Rect(r.x + r.w / 2.0, r.y, r.w / 2.0, r.h / 2.0) }
  function BottomRightQuadrant(r: Rect): Rect { Rect(r.x + r.w / 2.0, r.y + r.h / 2.0, r.w / 2.0, r.h / 2.0) }
  function BottomLeftQuadrant(r: Rect): Rect { Rect(r.x, r.y + r.h / 2.0, r.w / 2.0, r.h / 2.0) }

  /** A rectangle with positive width and height, the only kind of region a node can have. */
  predicate Proper(r: Rect) { r.w > 0.0 && r.h > 0.0 }

  /** A point of a proper region lies in one of its quadrants. */
  lemma QuadrantsCoverPoints(r: Rect, p: Point)
    requires Proper(r) && Contains(r, p)
    ensures Contains(TopLeftQuadrant(r), p) || Contains(TopRightQuadrant(r), p) ||
            Contains(BottomRightQuadrant(r), p) || Contains(BottomLeftQuadrant(r), p)
  {
  }

  /**
   * A rectangle overlaps a proper region exactly when it overlaps one of the region's quadrants:
   * the quadrants tile the region.
   */
  lemma QuadrantsTile(r: Rect, b: Rect)
    requires Proper(r)
    ensures Intersects(r, b) <==>
      Intersects(TopLeftQuadrant(r), b) || Intersects(TopRightQuadrant(r), b) ||
      Intersects(BottomRightQuadrant(r), b) || Intersects(BottomLeftQuadrant(r), b)
  {
    if Intersects(r, b) {
      var midX, midY := r.x + r.w / 2.0, r.y + r.h / 2.0;
      if NLeft(b) < midX && NTop(b) < midY {
        assert Intersects(TopLeftQuadrant(r), b);
      } else if NLeft(b) < midX {
        assert Intersects(BottomLeftQuadrant(r), b);
      } else if NTop(b) < midY {
        assert Intersects(TopRightQuadrant(r), b);
      } else {
        assert Intersects(BottomRightQuadrant(r), b);
      }
    }
  }

  // ---- the shape of the tree ----

  function MaxNat(a: nat, b: nat): nat { if a < b then b else a }

  function Depth<T>(n: Node<T>): nat
  {
    if n.Leaf? then 0
    else 1 + MaxNat(MaxNat(Depth(n.topLeft), Depth(n.topRight)), MaxNat(Depth(n.bottomRight), Depth(n.bottomLeft)))
  }

  /**
   * What shrinks on every recursive insert or update: the depth, and for a full leaf the one
   * extra level that subdividing it adds (its new quadrants are empty, so they store the item).
   */
  function Rank<T>(n: Node<T>, capacity: int): nat
  {
    2 * Depth(n) + if n.Leaf? && |n.items| >= capacity then 1 else 0
  }

  /**
   * The shape every node keeps: at most `capacity` items, a proper region, and, when
   * subdivided, four children on exactly the four quadrants of the region.
   */
  predicate WellFormed<T>(n: Node<T>, capacity: int)
  {
    |n.items| <= capacity && Proper(n.region) &&
    (n.Split? ==>
      n.topLeft.region == TopLeftQuadrant(n.region) &&
      n.topRight.region == TopRightQuadrant(n.region) &&
      n.bottomRight.region == BottomRightQuadrant(n.region) &&
      n.bottomLeft.region == BottomLeftQuadrant(n.region) &&
      WellFormed(n.topLeft, capacity) && WellFormed(n.topRight, capacity) &&
      WellFormed(n.bottomRight, capacity) && WellFormed(n.bottomLeft, capacity))
  }

  /** getAllItems: the node's own items, then those of the top-left, top-right, bottom-right and bottom-left quadrants. */
  function AllItems<T>(n: Node<T>): seq<T>
    decreases n, 1
  {
    n.items + Below(n)
  }

  /** The entries stored in the quadrants of a node, in getAllItems order. */
  function Below<T>(n: Node<T>): seq<T>
    decreases n, 0
  {
    if n.Leaf? then [] else
      AllItems(n.topLeft) + AllItems(n.topRight) + AllItems(n.bottomRight) + AllItems(n.bottomLeft)
  }

  /** size: the number of stored entries, copies of a straddling item included. */
  function Count<T>(n: Node<T>): (c: nat)
    ensures c == |AllItems(n)|
  {
    |n.items| + if n.Leaf? then 0 else
      Count(n.topLeft) + Count(n.topRight) + Count(n.bottomRight) + Count(n.bottomLeft)
  }

  /** subdivide: four empty leaves on the quadrants of a leaf's region. */
  function Subdivided<T>(n: Node<T>): (s: Node<T>)
    requires n.Leaf?
  {
    var r := n.region;
    Split(n.items, r, Leaf([], TopLeftQuadrant(r)), Leaf([], TopRightQuadrant(r)),
          Leaf([], BottomRightQuadrant(r)), Leaf([], BottomLeftQuadrant(r)))
  }

  /** The node as a full node sees it before offering an item to its quadrants: subdivided once. */
  function Opened<T>(n: Node<T>): (s: Node<T>)
    ensures s.Split? && s.items == n.items && s.region == n.region
  {
    if n.Leaf? then Subdivided(n) else n
  }

  /** The quadrants of a full node rank below it, so offering them the item terminates. */
  lemma OpenedRanksBelow<T>(n: Node<T>, capacity: int)
    requires capacity >= 1 && |n.items| >= capacity
    ensures Rank(Opened(n).topLeft, capacity) < Rank(n, capacity)
    ensures Rank(Opened(n).topRight, capacity) < Rank(n, capacity)
    ensures Rank(Opened(n).bottomRight, capacity) < Rank(n, capacity)
    ensures Rank(Opened(n).bottomLeft, capacity) < Rank(n, capacity)
  {
  }

  /** Subdividing adds only empty quadrants. */
  lemma OpenedKeepsBag<T>(n: Node<T>)
    ensures AllItems(Opened(n)) == AllItems(n)
  {
    if n.Leaf? {
      var s := Opened(n);
      EmptyLeaf(s.topLeft);
      EmptyLeaf(s.topRight);
      EmptyLeaf(s.bottomRight);
      EmptyLeaf(s.bottomLeft);
      assert AllItems(s) == n.items + (AllItems(s.topLeft) + AllItems(s.topRight) + AllItems(s.bottomRight) + AllItems(s.bottomLeft));
    }
  }

  lemma EmptyLeaf<T>(n: Node<T>)
    requires n.Leaf? && n.items == []
    ensures AllItems(n) == []
  {
  }

  /** The node with its items replaced and its region and children kept. */
  function WithItems<T>(n: Node<T>, items: seq<T>): Node<T>
  {
    if n.Leaf? then Leaf(items, n.region)
    else Split(items, n.region, n.topLeft, n.topRight, n.bottomRight, n.bottomLeft)
  }

  /** The node with its four children replaced. */
  function WithChildren<T>(n: Node<T>, tl: Node<T>, tr: Node<T>, br: Node<T>, bl: Node<T>): Node<T>
  {
    Split(n.items, n.region, tl, tr, br, bl)
  }

  /** Erasing the first occurrence of an item, if any (std::find followed by erase). */
  function EraseFirst<T(==)>(s: seq<T>, x: T): (r: seq<T>)
    ensures x in s ==> |r| == |s| - 1 && multiset(r) == multiset(s) - multiset{x}
    ensures x !in s ==> r == s
  {
    if x in s then
      var k := PositionOf(s, x);
      assert s == s[..k] + [x] + s[k + 1..];
      s[..k] + s[k + 1..]
    else s
  }

  // ---- insert ----

  /**
   * insert: a node whose region misses the item's box stores nothing; a node with room stores
   * it; a full node subdivides if it has not yet and offers the item to all four quadrants.
   */
  function Insert<T>(n: Node<T>, x: T, box: Rect, capacity: int): Placed<T>
    requires capacity >= 1
    decreases Rank(n, capacity)
  {
    if !Intersects(n.region, box) then Placed(n, false)
    else if |n.items| < capacity then Placed(WithItems(n, n.items + [x]), true)
    else
      var s := Opened(n);
      OpenedRanksBelow(n, capacity);
      var tl := Insert(s.topLeft, x, box, capacity);
      var tr := Insert(s.topRight, x, box, capacity);
      var br := Insert(s.bottomRight, x, box, capacity);
      var bl := Insert(s.bottomLeft, x, box, capacity);
      Placed(WithChildren(s, tl.node, tr.node, br.node, bl.node), tl.hit || tr.hit || br.hit || bl.hit)
  }

  /** Insert keeps every node within capacity and every child on its quadrant, and keeps the region. */
  lemma {:induction false} InsertKeepsShape<T>(n: Node<T>, x: T, box: Rect, capacity: int)
    requires capacity >= 1 && WellFormed(n, capacity)
    ensures WellFormed(Insert(n, x, box, capacity).node, capacity)
    ensures Insert(n, x, box, capacity).node.region == n.region
    decreases Rank(n, capacity)
  {
    if Intersects(n.region, box) && |n.items| >= capacity {
      var s := Opened(n);
      OpenedRanksBelow(n, capacity);
      InsertKeepsShape(s.topLeft, x, box, capacity);
      InsertKeepsShape(s.topRight, x, box, capacity);
      InsertKeepsShape(s.bottomRight, x, box, capacity);
      InsertKeepsShape(s.bottomLeft, x, box, capacity);
    }
  }

  /**
   * In a well-formed tree the item is stored somewhere exactly when its box overlaps the node's
   * region, and a node that stores nothing is left as it was.
   */
  lemma {:induction false} InsertHitsIffIntersects<T>(n: Node<T>, x: T, box: Rect, capacity: int)
    requires capacity >= 1 && WellFormed(n, capacity)
    ensures Insert(n, x, box, capacity).hit <==> Intersects(n.region, box)
    ensures !Intersects(n.region, box) ==> Insert(n, x, box, capacity).node == n
    decreases Rank(n, capacity)
  {
    if Intersects(n.region, box) && |n.items| >= capacity {
      var s := Opened(n);
      OpenedRanksBelow(n, capacity);
      QuadrantsTile(n.region, box);
      InsertHitsIffIntersects(s.topLeft, x, box, capacity);
      InsertHitsIffIntersects(s.topRight, x, box, capacity);
      InsertHitsIffIntersects(s.bottomRight, x, box, capacity);
      InsertHitsIffIntersects(s.bottomLeft, x, box, capacity);
    }
  }

  /** The stored entries of a subtree, counted with multiplicity. */
  function Bag<T>(n: Node<T>): multiset<T> { multiset(AllItems(n)) }

  lemma BagOfSplit<T>(n: Node<T>)
    requires n.Split?
    ensures Bag(n) == multiset(n.items) + Bag(n.topLeft) + Bag(n.topRight) + Bag(n.bottomRight) + Bag(n.bottomLeft)
  {
    var a, b, c, d := AllItems(n.topLeft), AllItems(n.topRight), AllItems(n.bottomRight), AllItems(n.bottomLeft);
    assert AllItems(n) == n.items + (a + b + c + d);
    assert multiset(a + b + c + d) == multiset(a) + multiset(b) + multiset(c) + multiset(d);
  }

  /** Dropping every copy of one value distributes over multiset union. */
  lemma DropSum<T>(a: multiset<T>, b: multiset<T>, x: T)
    ensures (a + b)[x := 0] == a[x := 0] + b[x := 0]
  {
  }

  /**
   * `after` differs from `before` only by added copies of x: set those aside and the entries are
   * the same, and `after.hit` says whether any copy was added.
   */
  ghost predicate AddedOnly<T>(before: Node<T>, after: Placed<T>, x: T)
  {
    Bag(after.node)[x := 0] == Bag(before)[x := 0] && Bag(after.node)[x] >= Bag(before)[x] &&
    (after.hit <==> Bag(after.node)[x] > Bag(before)[x])
  }

  /** A split node whose four children each only gained copies of x has itself only gained them. */
  lemma SplitAddedOnly<T>(s: Node<T>, tl: Placed<T>, tr: Placed<T>, br: Placed<T>, bl: Placed<T>, x: T)
    requires s.Split?
    requires AddedOnly(s.topLeft, tl, x) && AddedOnly(s.topRight, tr, x)
    requires AddedOnly(s.bottomRight, br, x) && AddedOnly(s.bottomLeft, bl, x)
    ensures AddedOnly(s, Placed(WithChildren(s, tl.node, tr.node, br.node, bl.node), tl.hit || tr.hit || br.hit || bl.hit), x)
  {
    var r := WithChildren(s, tl.node, tr.node, br.node, bl.node);
    BagOfSplit(r);
    BagOfSplit(s);
    var m := multiset(s.items);
    DropSum(m + Bag(tl.node) + Bag(tr.node) + Bag(br.node), Bag(bl.node), x);
    DropSum(m + Bag(tl.node) + Bag(tr.node), Bag(br.node), x);
    DropSum(m + Bag(tl.node), Bag(tr.node), x);
    DropSum(m, Bag(tl.node), x);
    DropSum(m + Bag(s.topLeft) + Bag(s.topRight) + Bag(s.bottomRight), Bag(s.bottomLeft), x);
    DropSum(m + Bag(s.topLeft) + Bag(s.topRight), Bag(s.bottomRight), x);
    DropSum(m + Bag(s.topLeft), Bag(s.topRight), x);
    DropSum(m, Bag(s.topLeft), x);
  }

  /**
   * Insert only adds copies of the item: with every copy of the item set aside, the entries are
   * the same, and the item gains entries exactly when some node stored it.
   */
  lemma {:induction false} InsertAddsOnlyItem<T>(n: Node<T>, x: T, box: Rect, capacity: int)
    requires capacity >= 1
    ensures AddedOnly(n, Insert(n, x, box, capacity), x)
    decreases Rank(n, capacity), 1
  {
    if !Intersects(n.region, box) {
    } else if |n.items| < capacity {
      StoredAddedOnly(n, x);
    } else {
      FullInsertAddsOnlyItem(n, x, box, capacity);
    }
  }

  lemma {:induction false} FullInsertAddsOnlyItem<T>(n: Node<T>, x: T, box: Rect, capacity: int)
    requires capacity >= 1 && Intersects(n.region, box) && |n.items| >= capacity
    ensures AddedOnly(n, Insert(n, x, box, capacity), x)
    decreases Rank(n, capacity), 0
  {
    var s := Opened(n);
    OpenedRanksBelow(n, capacity);
    var tl, tr := Insert(s.topLeft, x, box, capacity), Insert(s.topRight, x, box, capacity);
    var br, bl := Insert(s.bottomRight, x, box, capacity), Insert(s.bottomLeft, x, box, capacity);
    assert Insert(n, x, box, capacity) == Placed(WithChildren(s, tl.node, tr.node, br.node, bl.node), tl.hit || tr.hit || br.hit || bl.hit);
    InsertAddsOnlyItem(s.topLeft, x, box, capacity);
    InsertAddsOnlyItem(s.topRight, x, box, capacity);
    InsertAddsOnlyItem(s.bottomRight, x, box, capacity);
    InsertAddsOnlyItem(s.bottomLeft, x, box, capacity);
    SplitAddedOnly(s, tl, tr, br, bl, x);
    OpenedKeepsBag(n);
  }

  /** Replacing a node's own items leaves the entries below it alone. */
  lemma BagOfWithItems<T>(n: Node<T>, items: seq<T>)
    ensures Bag(WithItems(n, items)) == multiset(items) + multiset(Below(n))
    ensures Bag(n) == multiset(n.items) + multiset(Below(n))
  {
    assert Below(WithItems(n, items)) == Below(n);
  }

  /** Storing the item at a node adds exactly one copy. */
  lemma StoredAddedOnly<T>(n: Node<T>, x: T)
    ensures AddedOnly(n, Placed(WithItems(n, n.items + [x]), true), x)
  {
    BagOfWithItems(n, n.items + [x]);
    assert Bag(WithItems(n, n.items + [x])) == Bag(n) + multiset{x};
    DropSum(Bag(n), multiset{x}, x);
  }

  // ---- deleteItem ----

  /**
   * deleteItem: a node whose region misses the box is skipped; a node holding the item erases
   * its first copy and stops there; any other subdivided node passes the request to its quadrants.
   */
  function Delete<T(==)>(n: Node<T>, x: T, box: Rect): Placed<T>
  {
    if !Intersects(n.region, box) then Placed(n, false)
    else if x in n.items then Placed(WithItems(n, EraseFirst(n.items, x)), true)
    else if n.Leaf? then Placed(n, false)
    else
      var tl := Delete(n.topLeft, x, box);
      var tr := Delete(n.topRight, x, box);
      var bl := Delete(n.bottomLeft, x, box);
      var br := Delete(n.bottomRight, x, box);
      Placed(WithChildren(n, tl.node, tr.node, br.node, bl.node), tl.hit || tr.hit || bl.hit || br.hit)
  }

  /** Delete keeps every node within capacity and on its quadrant, and keeps the region. */
  lemma {:induction false} DeleteKeepsShape<T>(n: Node<T>, x: T, box: Rect, capacity: int)
    requires WellFormed(n, capacity)
    ensures WellFormed(Delete(n, x, box).node, capacity) && Delete(n, x, box).node.region == n.region
  {
    if Intersects(n.region, box) && x !in n.items && n.Split? {
      DeleteKeepsShape(n.topLeft, x, box, capacity);
      DeleteKeepsShape(n.topRight, x, box, capacity);
      DeleteKeepsShape(n.bottomRight, x, box, capacity);
      DeleteKeepsShape(n.bottomLeft, x, box, capacity);
    }
  }

  /**
   * `after` differs from `before` only by removed copies of x: set those aside and the entries are
   * the same, and `after.hit` says whether any copy was removed.
   */
  ghost predicate RemovedOnly<T>(before: Node<T>, after: Placed<T>, x: T)
  {
    Bag(after.node)[x := 0] == Bag(before)[x := 0] && Bag(after.node)[x] <= Bag(before)[x] &&
    (after.hit <==> Bag(after.node)[x] < Bag(before)[x])
  }

  /** A split node whose four children each only lost copies of x has itself only lost them. */
  lemma SplitRemovedOnly<T>(s: Node<T>, tl: Placed<T>, tr: Placed<T>, br: Placed<T>, bl: Placed<T>, x: T)
    requires s.Split?
    requires RemovedOnly(s.topLeft, tl, x) && RemovedOnly(s.topRight, tr, x)
    requires RemovedOnly(s.bottomRight, br, x) && RemovedOnly(s.bottomLeft, bl, x)
    ensures RemovedOnly(s, Placed(WithChildren(s, tl.node, tr.node, br.node, bl.node), tl.hit || tr.hit || bl.hit || br.hit), x)
  {
    var r := WithChildren(s, tl.node, tr.node, br.node, bl.node);
    BagOfSplit(r);
    BagOfSplit(s);
    var m := multiset(s.items);
    DropSum(m + Bag(tl.node) + Bag(tr.node) + Bag(br.node), Bag(bl.node), x);
    DropSum(m + Bag(tl.node) + Bag(tr.node), Bag(br.node), x);
    DropSum(m + Bag(tl.node), Bag(tr.node), x);
    DropSum(m, Bag(tl.node), x);
    DropSum(m + Bag(s.topLeft) + Bag(s.topRight) + Bag(s.bottomRight), Bag(s.bottomLeft), x);
    DropSum(m + Bag(s.topLeft) + Bag(s.topRight), Bag(s.bottomRight), x);
    DropSum(m + Bag(s.topLeft), Bag(s.topRight), x);
    DropSum(m, Bag(s.topLeft), x);
  }

  /** Erasing the item at the node that holds it removes exactly one copy. */
  lemma ErasedRemovesOne<T>(n: Node<T>, x: T)
    requires x in n.items
    ensures Bag(WithItems(n, EraseFirst(n.items, x))) + multiset{x} == Bag(n)
  {
    BagOfWithItems(n, EraseFirst(n.items, x));
  }

  /** Losing exactly one copy of x is removing only x. */
  lemma OneLessRemovedOnly<T>(n: Node<T>, m: Node<T>, x: T)
    requires Bag(m) + multiset{x} == Bag(n)
    ensures RemovedOnly(n, Placed(m, true), x)
  {
    DropSum(Bag(m), multiset{x}, x);
  }

  /**
   * Delete only removes copies of the item: with every copy of the item set aside, the entries
   * are the same, and the item loses entries exactly when some node erased it.
   */
  lemma {:induction false} DeleteRemovesOnlyItem<T>(n: Node<T>, x: T, box: Rect)
    ensures RemovedOnly(n, Delete(n, x, box), x)
  {
    if !Intersects(n.region, box) {
    } else if x in n.items {
      ErasedRemovesOne(n, x);
      OneLessRemovedOnly(n, WithItems(n, EraseFirst(n.items, x)), x);
    } else if n.Split? {
      DeleteRemovesOnlyItem(n.topLeft, x, box);
      DeleteRemovesOnlyItem(n.topRight, x, box);
      DeleteRemovesOnlyItem(n.bottomRight, x, box);
      DeleteRemovesOnlyItem(n.bottomLeft, x, box);
      SplitRemovedOnly(n, Delete(n.topLeft, x, box), Delete(n.topRight, x, box),
                       Delete(n.bottomRight, x, box), Delete(n.bottomLeft, x, box), x);
    }
  }

  // ---- deleteItems ----

  /** The entries of a node's list whose box meets the query box, in order. */
  function Hits<T>(s: seq<T>, box: Rect, boxOf: T -> Rect): seq<T>
  {
    if s == [] then [] else (if Intersects(box, boxOf(s[0])) then [s[0]] else []) + Hits(s[1..], box, boxOf)
  }

  /** The entries of a node's list whose box misses the query box, in order. */
  function Misses<T>(s: seq<T>, box: Rect, boxOf: T -> Rect): seq<T>
  {
    if s == [] then [] else (if Intersects(box, boxOf(s[0])) then [] else [s[0]]) + Misses(s[1..], box, boxOf)
  }

  /** Each entry as the value handed to the ordered list's remove. */
  function Listed<T>(s: seq<T>): (r: seq<Option<T>>)
    ensures |r| == |s| && forall k | 0 <= k < |s| :: r[k] == Some(s[k])
  {
    if s == [] then [] else [Some(s[0])] + Listed(s[1..])
  }

  /**
   * What a node's loop leaves: its new list, and in order the values it handed to the ordered
   * list's remove, None standing for a read past the end of the list.
   */
  datatype Sweep<T> = Sweep(kept: seq<T>, unlisted: seq<Option<T>>)

  /**
   * deleteItems' loop over a node's list from position i. An entry whose box meets the query
   * box is erased, otherwise the position moves on. As written, remove then reads the entry
   * that now sits at position i, the erased entry's successor, or past the end when the erased
   * entry was the last; as intended (asWritten false) it is handed the erased entry itself.
   */
  function SweepFrom<T>(items: seq<T>, i: nat, box: Rect, boxOf: T -> Rect, asWritten: bool): (r: Sweep<T>)
    requires i <= |items|
    ensures |r.kept| + |r.unlisted| == |items|
    ensures |r.kept| >= i
    decreases |items|, |items| - i
  {
    if i == |items| then Sweep(items, [])
    else if Intersects(box, boxOf(items[i])) then
      var rest := items[..i] + items[i + 1..];
      var s := SweepFrom(rest, i, box, boxOf, asWritten);
      var gone := if !asWritten then Some(items[i]) else if i < |rest| then Some(rest[i]) else None;
      Sweep(s.kept, [gone] + s.unlisted)
    else SweepFrom(items, i + 1, box, boxOf, asWritten)
  }

  /** Either way the loop keeps the entries before i and, after them, exactly those that miss the box, in order. */
  lemma {:induction false} SweepKeepsMisses<T>(items: seq<T>, i: nat, box: Rect, boxOf: T -> Rect, asWritten: bool)
    requires i <= |items|
    ensures SweepFrom(items, i, box, boxOf, asWritten).kept == items[..i] + Misses(items[i..], box, boxOf)
    ensures |SweepFrom(items, i, box, boxOf, asWritten).unlisted| == |Hits(items[i..], box, boxOf)|
    decreases |items|, |items| - i
  {
    if i == |items| {
      assert items[..i] == items && items[i..] == [];
    } else {
      var t := items[i..];
      assert t[0] == items[i] && t[1..] == items[i + 1..];
      if Intersects(box, boxOf(items[i])) {
        var rest := items[..i] + items[i + 1..];
        assert rest[..i] == items[..i] && rest[i..] == items[i + 1..];
        SweepKeepsMisses(rest, i, box, boxOf, asWritten);
      } else {
        assert items[..i + 1] == items[..i] + [items[i]];
        SweepKeepsMisses(items, i + 1, box, boxOf, asWritten);
      }
    }
  }

  /** As intended, the loop hands remove exactly the erased entries, in order. */
  lemma {:induction false} IntendedSweepUnlistsHits<T>(items: seq<T>, i: nat, box: Rect, boxOf: T -> Rect)
    requires i <= |items|
    ensures SweepFrom(items, i, box, boxOf, false).unlisted == Listed(Hits(items[i..], box, boxOf))
    decreases |items|, |items| - i
  {
    if i < |items| {
      var t := items[i..];
      assert t[0] == items[i] && t[1..] == items[i + 1..];
      if Intersects(box, boxOf(items[i])) {
        var rest := items[..i] + items[i + 1..];
        assert rest[i..] == items[i + 1..];
        IntendedSweepUnlistsHits(rest, i, box, boxOf);
      } else {
        IntendedSweepUnlistsHits(items, i + 1, box, boxOf);
      }
    }
  }

  /**
   * As written, deleteItems unlists the wrong entries: with a list [a, b] where only a meets the
   * box, a is erased from the node but b, which stays, is the one removed from the ordered list;
   * with [a] alone, remove reads past the end of the list.
   */
  lemma DeleteItemsUnlistsSuccessor<T>(a: T, b: T, box: Rect, boxOf: T -> Rect)
    requires Intersects(box, boxOf(a)) && !Intersects(box, boxOf(b))
    ensures SweepFrom([a, b], 0, box, boxOf, true) == Sweep([b], [Some(b)])
    ensures SweepFrom([a], 0, box, boxOf, true) == Sweep([], [None])
  {
    assert [a, b][..0] + [a, b][1..] == [b];
    assert SweepFrom([b], 1, box, boxOf, true) == Sweep([b], []);
    assert SweepFrom([b], 0, box, boxOf, true) == Sweep([b], []);
    assert [a][..0] + [a][1..] == [];
    assert SweepFrom([], 0, box, boxOf, true) == Sweep([], []);
  }

  /**
   * deleteItems over a tree: a node whose region misses the box is left alone; otherwise its
   * list is swept and then each quadrant is processed, and the removals are collected in that
   * order.
   */
  function DeleteItems<T>(n: Node<T>, box: Rect, boxOf: T -> Rect, asWritten: bool): (r: (Node<T>, seq<Option<T>>))
    ensures r.0.region == n.region && (r.0.Leaf? <==> n.Leaf?)
    ensures Count(r.0) + |r.1| == Count(n)
  {
    if !Intersects(n.region, box) then (n, []) else
    var s := SweepFrom(n.items, 0, box, boxOf, asWritten);
    if n.Leaf? then (Leaf(s.kept, n.region), s.unlisted)
    else
      var tl := DeleteItems(n.topLeft, box, boxOf, asWritten);
      var tr := DeleteItems(n.topRight, box, boxOf, asWritten);
      var br := DeleteItems(n.bottomRight, box, boxOf, asWritten);
      var bl := DeleteItems(n.bottomLeft, box, boxOf, asWritten);
      (Split(s.kept, n.region, tl.0, tr.0, br.0, bl.0), s.unlisted + tl.1 + tr.1 + br.1 + bl.1)
  }

  /**
   * deleteItems keeps the tree's shape and its well-formedness; a node that meets the box keeps
   * exactly its entries that miss it, and one that misses the box is unchanged.
   */
  lemma {:induction false} DeleteItemsKeepsShape<T>(n: Node<T>, box: Rect, boxOf: T -> Rect, asWritten: bool, capacity: int)
    ensures SameShape(DeleteItems(n, box, boxOf, asWritten).0, n)
    ensures Intersects(n.region, box) ==> DeleteItems(n, box, boxOf, asWritten).0.items == Misses(n.items, box, boxOf)
    ensures !Intersects(n.region, box) ==> DeleteItems(n, box, boxOf, asWritten) == (n, [])
    ensures WellFormed(n, capacity) ==> WellFormed(DeleteItems(n, box, boxOf, asWritten).0, capacity)
  {
    if Intersects(n.region, box) {
      assert n.items[..0] == [] && n.items[0..] == n.items;
      SweepKeepsMisses(n.items, 0, box, boxOf, asWritten);
      MissesShorter(n.items, box, boxOf);
      if n.Split? {
        DeleteItemsKeepsShape(n.topLeft, box, boxOf, asWritten, capacity);
        DeleteItemsKeepsShape(n.topRight, box, boxOf, asWritten, capacity);
        DeleteItemsKeepsShape(n.bottomRight, box, boxOf, asWritten, capacity);
        DeleteItemsKeepsShape(n.bottomLeft, box, boxOf, asWritten, capacity);
      }
    } else {
      SameShapeReflexive(n);
    }
  }

  /** Filtering never lengthens a list. */
  lemma {:induction false} MissesShorter<T>(s: seq<T>, box: Rect, boxOf: T -> Rect)
    ensures |Misses(s, box, boxOf)| <= |s|
  {
    if s != [] {
      MissesShorter(s[1..], box, boxOf);
    }
  }

  /** Every tree has its own shape. */
  lemma {:induction false} SameShapeReflexive<T>(n: Node<T>)
    ensures SameShape(n, n)
  {
    if n.Split? {
      SameShapeReflexive(n.topLeft);
      SameShapeReflexive(n.topRight);
      SameShapeReflexive(n.bottomRight);
      SameShapeReflexive(n.bottomLeft);
    }
  }

  // ---- updateItem ----

  /**
   * The step update takes at a node that meets the old or the new box: erase a copy if the node
   * meets the old box; then, while the item is still to be placed and the node meets the new
   * box, store it if there is room or else subdivide a leaf. `hit` tells the quadrants whether
   * the item has been placed.
   */
  function UpdatedHere<T(==)>(n: Node<T>, x: T, box: Rect, oldBox: Rect, inserted: bool, capacity: int): Placed<T>
  {
    var kept := if Intersects(n.region, oldBox) then EraseFirst(n.items, x) else n.items;
    if !inserted && Intersects(n.region, box) then
      if |kept| < capacity then Placed(WithItems(n, kept + [x]), true)
      else if n.Leaf? then Placed(Subdivided(WithItems(n, kept)), false)
      else Placed(WithItems(n, kept), false)
    else Placed(WithItems(n, kept), inserted)
  }

  /** The quadrants update moves on to rank below the node, so update terminates. */
  lemma UpdatedHereRanksBelow<T>(n: Node<T>, x: T, box: Rect, oldBox: Rect, inserted: bool, capacity: int)
    requires capacity >= 1
    ensures var m := UpdatedHere(n, x, box, oldBox, inserted, capacity).node;
      m.Split? ==>
        Rank(m.topLeft, capacity) < Rank(n, capacity) && Rank(m.topRight, capacity) < Rank(n, capacity) &&
        Rank(m.bottomRight, capacity) < Rank(n, capacity) && Rank(m.bottomLeft, capacity) < Rank(n, capacity)
  {
  }

  /**
   * update: a node that meets neither box is left alone; otherwise it takes its own step and
   * passes the item on to its quadrants, if any, with the news of whether it has been placed.
   */
  function Update<T(==)>(n: Node<T>, x: T, box: Rect, oldBox: Rect, inserted: bool, capacity: int): Node<T>
    requires capacity >= 1
    decreases Rank(n, capacity)
  {
    if !Intersects(n.region, oldBox) && !Intersects(n.region, box) then n
    else
      var here := UpdatedHere(n, x, box, oldBox, inserted, capacity);
      var m := here.node;
      UpdatedHereRanksBelow(n, x, box, oldBox, inserted, capacity);
      if m.Leaf? then m
      else
        WithChildren(m, Update(m.topLeft, x, box, oldBox, here.hit, capacity),
                        Update(m.topRight, x, box, oldBox, here.hit, capacity),
                        Update(m.bottomRight, x, box, oldBox, here.hit, capacity),
                        Update(m.bottomLeft, x, box, oldBox, here.hit, capacity))
  }

  /** The local step of update keeps the node's shape. */
  lemma UpdatedHereKeepsShape<T>(n: Node<T>, x: T, box: Rect, oldBox: Rect, inserted: bool, capacity: int)
    requires WellFormed(n, capacity)
    ensures WellFormed(UpdatedHere(n, x, box, oldBox, inserted, capacity).node, capacity)
    ensures UpdatedHere(n, x, box, oldBox, inserted, capacity).node.region == n.region
  {
  }

  /** Update keeps every node within capacity and on its quadrant, and keeps the region. */
  lemma {:induction false} UpdateKeepsShape<T>(n: Node<T>, x: T, box: Rect, oldBox: Rect, inserted: bool, capacity: int)
    requires capacity >= 1 && WellFormed(n, capacity)
    ensures WellFormed(Update(n, x, box, oldBox, inserted, capacity), capacity)
    ensures Update(n, x, box, oldBox, inserted, capacity).region == n.region
    decreases Rank(n, capacity)
  {
    if Intersects(n.region, oldBox) || Intersects(n.region, box) {
      var here := UpdatedHere(n, x, box, oldBox, inserted, capacity);
      var m := here.node;
      UpdatedHereRanksBelow(n, x, box, oldBox, inserted, capacity);
      UpdatedHereKeepsShape(n, x, box, oldBox, inserted, capacity);
      if m.Split? {
        UpdateKeepsShape(m.topLeft, x, box, oldBox, here.hit, capacity);
        UpdateKeepsShape(m.topRight, x, box, oldBox, here.hit, capacity);
        UpdateKeepsShape(m.bottomRight, x, box, oldBox, here.hit, capacity);
        UpdateKeepsShape(m.bottomLeft, x, box, oldBox, here.hit, capacity);
      }
    }
  }

  /** Two subtrees hold the same entries once every copy of x is set aside. */
  ghost predicate SameBesides<T>(a: Node<T>, b: Node<T>, x: T)
  {
    Bag(a)[x := 0] == Bag(b)[x := 0]
  }

  /** A split node whose four children each kept their entries besides x has kept them too. */
  lemma SplitSameBesides<T>(s: Node<T>, tl: Node<T>, tr: Node<T>, br: Node<T>, bl: Node<T>, x: T)
    requires s.Split?
    requires SameBesides(tl, s.topLeft, x) && SameBesides(tr, s.topRight, x)
    requires SameBesides(br, s.bottomRight, x) && SameBesides(bl, s.bottomLeft, x)
    ensures SameBesides(WithChildren(s, tl, tr, br, bl), s, x)
  {
    var r := WithChildren(s, tl, tr, br, bl);
    BagOfSplit(r);
    BagOfSplit(s);
    var m := multiset(s.items);
    DropSum(m + Bag(tl) + Bag(tr) + Bag(br), Bag(bl), x);
    DropSum(m + Bag(tl) + Bag(tr), Bag(br), x);
    DropSum(m + Bag(tl), Bag(tr), x);
    DropSum(m, Bag(tl), x);
    DropSum(m + Bag(s.topLeft) + Bag(s.topRight) + Bag(s.bottomRight), Bag(s.bottomLeft), x);
    DropSum(m + Bag(s.topLeft) + Bag(s.topRight), Bag(s.bottomRight), x);
    DropSum(m + Bag(s.topLeft), Bag(s.topRight), x);
    DropSum(m, Bag(s.topLeft), x);
  }

  /** Replacing a node's own items by ones that agree besides x keeps the entries besides x. */
  lemma WithItemsSameBesides<T>(n: Node<T>, items: seq<T>, x: T)
    requires multiset(items)[x := 0] == multiset(n.items)[x := 0]
    ensures SameBesides(WithItems(n, items), n, x)
  {
    BagOfWithItems(n, items);
    DropSum(multiset(items), multiset(Below(n)), x);
    DropSum(multiset(n.items), multiset(Below(n)), x);
  }

  /** Erasing the first copy of x leaves the other entries alone. */
  lemma EraseFirstBesides<T>(s: seq<T>, x: T)
    ensures multiset(EraseFirst(s, x))[x := 0] == multiset(s)[x := 0]
  {
  }

  /** Appending a copy of x leaves the other entries alone. */
  lemma AppendedBesides<T>(s: seq<T>, x: T)
    ensures multiset(s + [x])[x := 0] == multiset(s)[x := 0]
  {
    DropSum(multiset(s), multiset{x}, x);
  }

  /** The same for a leaf subdivided after its items were replaced. */
  lemma SubdividedSameBesides<T>(n: Node<T>, items: seq<T>, x: T)
    requires n.Leaf? && multiset(items)[x := 0] == multiset(n.items)[x := 0]
    ensures SameBesides(Subdivided(WithItems(n, items)), n, x)
  {
    WithItemsSameBesides(n, items, x);
    OpenedKeepsBag(WithItems(n, items));
  }

  /** The local step of update only erases or stores copies of the item. */
  lemma UpdatedHereMovesOnlyItem<T>(n: Node<T>, x: T, box: Rect, oldBox: Rect, inserted: bool, capacity: int)
    ensures SameBesides(UpdatedHere(n, x, box, oldBox, inserted, capacity).node, n, x)
  {
    var kept := if Intersects(n.region, oldBox) then EraseFirst(n.items, x) else n.items;
    EraseFirstBesides(n.items, x);
    if !inserted && Intersects(n.region, box) && |kept| < capacity {
      AppendedBesides(kept, x);
      WithItemsSameBesides(n, kept + [x], x);
    } else if !inserted && Intersects(n.region, box) && n.Leaf? {
      SubdividedSameBesides(n, kept, x);
    } else {
      WithItemsSameBesides(n, kept, x);
    }
  }

  /** Update only moves the item: every other item keeps its number of entries. */
  lemma {:induction false} UpdateMovesOnlyItem<T>(n: Node<T>, x: T, box: Rect, oldBox: Rect, inserted: bool, capacity: int)
    requires capacity >= 1
    ensures SameBesides(Update(n, x, box, oldBox, inserted, capacity), n, x)
    decreases Rank(n, capacity)
  {
    if Intersects(n.region, oldBox) || Intersects(n.region, box) {
      var here := UpdatedHere(n, x, box, oldBox, inserted, capacity);
      var m := here.node;
      UpdatedHereRanksBelow(n, x, box, oldBox, inserted, capacity);
      UpdatedHereMovesOnlyItem(n, x, box, oldBox, inserted, capacity);
      if m.Split? {
        UpdateMovesOnlyItem(m.topLeft, x, box, oldBox, here.hit, capacity);
        UpdateMovesOnlyItem(m.topRight, x, box, oldBox, here.hit, capacity);
        UpdateMovesOnlyItem(m.bottomRight, x, box, oldBox, here.hit, capacity);
        UpdateMovesOnlyItem(m.bottomLeft, x, box, oldBox, here.hit, capacity);
        SplitSameBesides(m, Update(m.topLeft, x, box, oldBox, here.hit, capacity),
                         Update(m.topRight, x, box, oldBox, here.hit, capacity),
                         Update(m.bottomRight, x, box, oldBox, here.hit, capacity),
                         Update(m.bottomLeft, x, box, oldBox, here.hit, capacity), x);
      }
    }
  }

  /**
   * In a well-formed tree whose region meets the item's new box, update leaves a copy of the item
   * in the tree: a node with room stores it, and a full node passes it to a quadrant the box meets.
   */
  lemma {:induction false} UpdatePlacesItem<T>(n: Node<T>, x: T, box: Rect, oldBox: Rect, capacity: int)
    requires capacity >= 1 && WellFormed(n, capacity) && Intersects(n.region, box)
    ensures x in AllItems(Update(n, x, box, oldBox, false, capacity))
    decreases Rank(n, capacity)
  {
    var here := UpdatedHere(n, x, box, oldBox, false, capacity);
    var m := here.node;
    var r := Update(n, x, box, oldBox, false, capacity);
    UpdatedHereRanksBelow(n, x, box, oldBox, false, capacity);
    UpdatedHereKeepsShape(n, x, box, oldBox, false, capacity);
    if here.hit {
      assert x in m.items && r.items == m.items;
    } else {
      QuadrantsTile(n.region, box);
      var tl, tr := Update(m.topLeft, x, box, oldBox, false, capacity), Update(m.topRight, x, box, oldBox, false, capacity);
      var br, bl := Update(m.bottomRight, x, box, oldBox, false, capacity), Update(m.bottomLeft, x, box, oldBox, false, capacity);
      assert r == WithChildren(m, tl, tr, br, bl);
      assert AllItems(r) == r.items + (AllItems(tl) + AllItems(tr) + AllItems(br) + AllItems(bl));
      if Intersects(m.topLeft.region, box) {
        UpdatePlacesItem(m.topLeft, x, box, oldBox, capacity);
      } else if Intersects(m.topRight.region, box) {
        UpdatePlacesItem(m.topRight, x, box, oldBox, capacity);
      } else if Intersects(m.bottomRight.region, box) {
        UpdatePlacesItem(m.bottomRight, x, box, oldBox, capacity);
      } else {
        UpdatePlacesItem(m.bottomLeft, x, box, oldBox, capacity);
      }
    }
  }

  // ---- expand ----

  /**
   * How many doublings of an extent s a gap of d beyond the region's edge can still take: zero
   * once the point is on the near side of that edge.
   */
  function Gap(d: real, s: real): nat
    requires s > 0.0
  {
    if d <= 0.0 then 0 else
      assert d / s > 0.0;
      (d / s).Floor + 1
  }

  /** Moving the edge out by s while the extent doubles shrinks a positive gap. */
  lemma GapShrinks(d: real, s: real)
    requires s > 0.0 && d > 0.0
    ensures Gap(d - s, 2.0 * s) < Gap(d, s)
  {
    if d - s > 0.0 {
      var u := d / s;
      var v := (u - 1.0) / 2.0;
      assert d - s == v * (2.0 * s);
      assert (d - s) / (2.0 * s) == v;
      assert v < u - 1.0;
    }
  }

  /** Doubling the extent never widens a gap. */
  lemma GapWidens(d: real, s: real)
    requires s > 0.0
    ensures Gap(d, 2.0 * s) <= Gap(d, s)
  {
    if d > 0.0 {
      assert d / (2.0 * s) == (d / s) / 2.0;
    }
  }

  /** The measure of expand: the gaps between a proper region and the point on all four sides. */
  function Steps(r: Rect, p: Point): nat
    requires Proper(r)
  {
    Gap(r.x - p.x, r.w) + Gap(r.y - p.y, r.h) + Gap(p.x - Right(r), r.w) + Gap(p.y - Bottom(r), r.h)
  }

  /** The region after one step of expand: doubled toward the top-left if the point lies above or to the left, else toward the bottom-right. */
  function GrownRegion(r: Rect, p: Point): Rect
  {
    if p.x < r.x || p.y < r.y then Adjusted(r, -r.w, -r.h, 0.0, 0.0)
    else Adjusted(r, 0.0, 0.0, r.w, r.h)
  }

  /**
   * One step of expand: a new root on the grown region whose quadrant on the far side from the
   * point is the old root, items and children included, and whose other three quadrants are
   * empty leaves; the new root holds no items of its own.
   */
  function Grown<T>(n: Node<T>, p: Point): Node<T>
  {
    var r := n.region;
    if p.x < r.x || p.y < r.y then
      Split([], GrownRegion(r, p), Leaf([], Translated(r, -r.w, -r.h)), Leaf([], Translated(r, 0.0, -r.h)),
            n, Leaf([], Translated(r, -r.w, 0.0)))
    else
      Split([], GrownRegion(r, p), n, Leaf([], Translated(r, r.w, 0.0)),
            Leaf([], Translated(r, r.w, r.h)), Leaf([], Translated(r, 0.0, r.h)))
  }

  /** Growing a proper region that misses the point brings it closer, so expand terminates. */
  lemma GrownStepsLess(r: Rect, p: Point)
    requires Proper(r) && !Contains(r, p)
    ensures Proper(GrownRegion(r, p)) && Steps(GrownRegion(r, p), p) < Steps(r, p)
  {
    var g := GrownRegion(r, p);
    if p.x < r.x || p.y < r.y {
      assert g.x == r.x - r.w && g.y == r.y - r.h && Right(g) == Right(r) && Bottom(g) == Bottom(r);
      if r.x - p.x > 0.0 { GapShrinks(r.x - p.x, r.w); }
      if r.y - p.y > 0.0 { GapShrinks(r.y - p.y, r.h); }
    } else {
      assert g.x == r.x && g.y == r.y && Right(g) == Right(r) + r.w && Bottom(g) == Bottom(r) + r.h;
      GapWidens(r.x - p.x, r.w);
      GapWidens(r.y - p.y, r.h);
      if p.x - Right(r) > 0.0 { GapShrinks(p.x - Right(r), r.w); }
      if p.y - Bottom(r) > 0.0 { GapShrinks(p.y - Bottom(r), r.h); }
    }
    GapWidens(r.x - p.x, r.w);
    GapWidens(r.y - p.y, r.h);
    GapWidens(p.x - Right(r), r.w);
    GapWidens(p.y - Bottom(r), r.h);
  }

  /**
   * expand: a root that contains the point is left as it is; otherwise it grows by one step and
   * expand repeats, until the point is contained.
   */
  function Expanded<T>(n: Node<T>, p: Point): (e: Node<T>)
    requires Proper(n.region)
    ensures Proper(e.region) && Contains(e.region, p)
    ensures Contains(n.region, p) ==> e == n
    decreases Steps(n.region, p)
  {
    if Contains(n.region, p) then n
    else
      GrownStepsLess(n.region, p);
      Expanded(Grown(n, p), p)
  }

  /** The first rectangle reaches at least as far as the second on every side. */
  predicate Covers(a: Rect, b: Rect)
  {
    a.x <= b.x && a.y <= b.y && Right(b) <= Right(a) && Bottom(b) <= Bottom(a)
  }

  /**
   * One step of expand keeps the old root whole as the quadrant away from the point, adds empty
   * quadrants beside it, doubles the region's width and height and covers the old region.
   */
  lemma GrownKeepsShape<T>(n: Node<T>, p: Point, capacity: int)
    requires WellFormed(n, capacity) && capacity >= 0 && !Contains(n.region, p)
    ensures var g := Grown(n, p);
      WellFormed(g, capacity) && AllItems(g) == AllItems(n) && Covers(g.region, n.region) &&
      g.region.w == 2.0 * n.region.w && g.region.h == 2.0 * n.region.h &&
      (if p.x < n.region.x || p.y < n.region.y then g.bottomRight == n else g.topLeft == n)
  {
    var g := Grown(n, p);
    if p.x < n.region.x || p.y < n.region.y {
      EmptyLeaf(g.topLeft);
      EmptyLeaf(g.topRight);
      EmptyLeaf(g.bottomLeft);
    } else {
      EmptyLeaf(g.topRight);
      EmptyLeaf(g.bottomRight);
      EmptyLeaf(g.bottomLeft);
    }
    assert AllItems(g) == [] + (AllItems(g.topLeft) + AllItems(g.topRight) + AllItems(g.bottomRight) + AllItems(g.bottomLeft));
  }

  /**
   * expand keeps every stored entry in place and the tree well formed, and the final region covers
   * the first, so a point contained before stays contained.
   */
  lemma {:induction false} ExpandedKeepsTree<T>(n: Node<T>, p: Point, capacity: int)
    requires WellFormed(n, capacity) && capacity >= 0
    ensures var e := Expanded(n, p);
      WellFormed(e, capacity) && AllItems(e) == AllItems(n) && Covers(e.region, n.region)
    decreases Steps(n.region, p)
  {
    if !Contains(n.region, p) {
      GrownStepsLess(n.region, p);
      GrownKeepsShape(n, p, capacity);
      ExpandedKeepsTree(Grown(n, p), p, capacity);
    }
  }

  /** The four corners of a box, as insertItem and updateItem expand the root to contain them. */
  predicate CornersIn(r: Rect, box: Rect)
  {
    Contains(r, TopLeft(box)) && Contains(r, TopRight(box)) &&
    Contains(r, BottomRight(box)) && Contains(r, BottomLeft(box))
  }

  /** The root after expanding to the top-left, top-right, bottom-right and bottom-left corners of a box. */
  function ExpandedToBox<T>(n: Node<T>, box: Rect): (e: Node<T>)
    requires Proper(n.region)
    ensures Proper(e.region)
  {
    Expanded(Expanded(Expanded(Expanded(n, TopLeft(box)), TopRight(box)), BottomRight(box)), BottomLeft(box))
  }

  /** After the four expansions the root contains all four corners and still holds what it held. */
  lemma ExpandedToBoxCovers<T>(n: Node<T>, box: Rect, capacity: int)
    requires WellFormed(n, capacity) && capacity >= 0
    ensures var e := ExpandedToBox(n, box);
      CornersIn(e.region, box) && WellFormed(e, capacity) && AllItems(e) == AllItems(n) && Covers(e.region, n.region)
  {
    var e1 := Expanded(n, TopLeft(box));
    var e2 := Expanded(e1, TopRight(box));
    var e3 := Expanded(e2, BottomRight(box));
    ExpandedKeepsTree(n, TopLeft(box), capacity);
    ExpandedKeepsTree(e1, TopRight(box), capacity);
    ExpandedKeepsTree(e2, BottomRight(box), capacity);
    ExpandedKeepsTree(e3, BottomLeft(box), capacity);
  }

  /**
   * A region holding all four corners of a box overlaps it exactly when the box has non-zero
   * width and height: insertItem stores every item whose box is not flat.
   */
  lemma CornersInIntersects(r: Rect, box: Rect)
    requires CornersIn(r, box)
    ensures Intersects(r, box) <==> box.w != 0.0 && box.h != 0.0
  {
  }

  // ---- clear ----

  /** clear: every node drops its items; regions and quadrants stay. */
  function Cleared<T>(n: Node<T>): Node<T>
  {
    match n
    case Leaf(_, r) => Leaf([], r)
    case Split(_, r, tl, tr, br, bl) => Split([], r, Cleared(tl), Cleared(tr), Cleared(br), Cleared(bl))
  }

  /** Two trees with the same regions subdivided in the same places. */
  predicate SameShape<T>(a: Node<T>, b: Node<T>)
  {
    a.region == b.region && a.Leaf? == b.Leaf? &&
    (a.Split? ==>
      SameShape(a.topLeft, b.topLeft) && SameShape(a.topRight, b.topRight) &&
      SameShape(a.bottomRight, b.bottomRight) && SameShape(a.bottomLeft, b.bottomLeft))
  }

  /** After clear the tree holds no entries, so size is 0, and its regions and quadrants remain. */
  lemma {:induction false} ClearedEmpties<T>(n: Node<T>, capacity: int)
    ensures AllItems(Cleared(n)) == [] && Count(Cleared(n)) == 0 && SameShape(Cleared(n), n)
    ensures WellFormed(n, capacity) && capacity >= 0 ==> WellFormed(Cleared(n), capacity)
  {
    if n.Split? {
      ClearedEmpties(n.topLeft, capacity);
      ClearedEmpties(n.topRight, capacity);
      ClearedEmpties(n.bottomRight, capacity);
      ClearedEmpties(n.bottomLeft, capacity);
    }
  }

  // ---- reorder ----

  /** Every item has a z-index and the z-indices never decrease along the sequence. */
  predicate ZSorted<T>(s: seq<T>, z: map<T, int>)
  {
    (forall k | 0 <= k < |s| :: s[k] in z) &&
    forall i, j | 0 <= i < j < |s| && s[i] in z && s[j] in z :: z[s[i]] <= z[s[j]]
  }

  /** One item placed into a z-sorted sequence before the first item whose z-index is not below its own. */
  function InsertByZ<T>(s: seq<T>, x: T, z: map<T, int>): (r: seq<T>)
    requires x in z && forall k | 0 <= k < |s| :: s[k] in z
    ensures multiset(r) == multiset(s) + multiset{x}
    ensures ZSorted(s, z) ==> ZSorted(r, z)
    ensures r[0] == x || (|s| > 0 && r[0] == s[0])
  {
    if |s| == 0 || z[x] <= z[s[0]] then [x] + s
    else
      var t := InsertByZ(s[1..], x, z);
      assert s == [s[0]] + s[1..];
      SortedBehindHead(s, x, z, t);
      [s[0]] + t
  }

  /**
   * Putting the head of a z-sorted sequence back in front of its tail with x inserted keeps it
   * sorted, when x's z-index is above the head's.
   */
  lemma SortedBehindHead<T>(s: seq<T>, x: T, z: map<T, int>, t: seq<T>)
    requires |s| > 0 && x in z && s[0] in z && z[s[0]] < z[x]
    requires multiset(t) == multiset(s[1..]) + multiset{x} && (ZSorted(s[1..], z) ==> ZSorted(t, z))
    ensures ZSorted(s, z) ==> ZSorted([s[0]] + t, z)
  {
    if ZSorted(s, z) {
      assert ZSorted(s[1..], z) by {
        forall i, j | 0 <= i < j < |s[1..]| ensures z[s[1..][i]] <= z[s[1..][j]] {
          assert s[1..][i] == s[i + 1] && s[1..][j] == s[j + 1];
        }
      }
      forall k | 0 <= k < |t| ensures t[k] in z && z[s[0]] <= z[t[k]] {
        assert t[k] in multiset(t);
        if t[k] != x {
          assert t[k] in multiset(s[1..]);
          var j :| 0 <= j < |s[1..]| && s[1..][j] == t[k];
          assert s[j + 1] == t[k];
        }
      }
      var r := [s[0]] + t;
      forall i, j | 0 <= i < j < |r| ensures z[r[i]] <= z[r[j]] {
        if i > 0 {
          assert r[i] == t[i - 1] && r[j] == t[j - 1];
        }
      }
    }
  }

  // ---- the tree ----

  /**
   * A quadtree: the root node, the node capacity, and the ordered list shared by every node of the
   * tree, which records the z-order of the items.
   */
  class QuadTree<T(==)> {
    var root: Node<T>
    const capacity: int
    const order: OrderedList<T>

    ghost predicate Valid()
      reads this, order
    {
      capacity >= 1 && WellFormed(root, capacity) && order.Valid()
    }

    /** A tree over the region holding nothing, with an ordered list of its own. */
    constructor (region: Rect, capacity: int)
      requires Proper(region) && capacity >= 1
      ensures Valid() && fresh(order) && order.list == []
      ensures root == Leaf([], region) && this.capacity == capacity
    {
      this.capacity := capacity;
      root := Leaf([], region);
      order := new OrderedList();
    }

    /** A tree over the region holding nothing, that records z-order in the given ordered list. */
    constructor Sharing(region: Rect, capacity: int, order: OrderedList<T>)
      requires Proper(region) && capacity >= 1 && order.Valid()
      ensures Valid() && root == Leaf([], region) && this.capacity == capacity && this.order == order
    {
      this.capacity := capacity;
      root := Leaf([], region);
      this.order := order;
    }

    /** size: the number of stored entries. */
    function Size(): (r: nat)
      reads this
      ensures r == |GetAllItems()|
    {
      Count(root)
    }

    /**
     * getAllItems: every stored entry, a straddling item once per node that holds it; the root's
     * own entries come first.
     */
    function GetAllItems(): (r: seq<T>)
      reads this
      ensures |r| == Count(root) && r[..|root.items|] == root.items
    {
      AllItems(root)
    }

    /** boundingBox: the root's region, which in a well-formed tree has area. */
    function BoundingBox(): (r: Rect)
      reads this
      ensures WellFormed(root, capacity) ==> Proper(r) && r == root.region
    {
      root.region
    }

    /** expand: grow the root until its region contains the point. */
    method Expand(p: Point)
      requires Valid()
      modifies this
      ensures Valid() && root == Expanded(old(root), p)
      decreases Steps(root.region, p)
    {
      if Contains(root.region, p) {
        return;
      }
      GrownStepsLess(root.region, p);
      GrownKeepsShape(root, p, capacity);
      root := Grown(root, p);
      Expand(p);
    }

    /**
     * insertItem: grow the root to the box's four corners, then insert; every node that stores the
     * item records it in the ordered list when updateOrder is set.
     */
    method InsertItem(x: T, box: Rect, updateOrder: bool)
      requires Valid()
      modifies this, order
      ensures Valid() && CornersIn(root.region, box)
      ensures root == Insert(ExpandedToBox(old(root), box), x, box, capacity).node
      ensures Bag(root)[x := 0] == old(Bag(root))[x := 0]
      ensures Bag(root)[x] > old(Bag(root))[x] <==> box.w != 0.0 && box.h != 0.0
      ensures updateOrder && box.w != 0.0 && box.h != 0.0 ==> order.Model() == Inserted(old(order.Model()), x)
      ensures !(updateOrder && box.w != 0.0 && box.h != 0.0) ==> order.Model() == old(order.Model())
    {
      ghost var before := root;
      Expand(TopLeft(box));
      Expand(TopRight(box));
      Expand(BottomRight(box));
      Expand(BottomLeft(box));
      ExpandedToBoxCovers(before, box, capacity);
      CornersInIntersects(root.region, box);
      InsertKeepsShape(root, x, box, capacity);
      InsertHitsIffIntersects(root, x, box, capacity);
      InsertAddsOnlyItem(root, x, box, capacity);
      var placed := Insert(root, x, box, capacity);
      root := placed.node;
      if updateOrder && placed.hit {
        order.Insert(x);
      }
    }

    /**
     * deleteItem: erase copies of the item from the nodes its box meets; when updateOrder is set
     * and a copy was erased, the item leaves the ordered list.
     */
    method DeleteItem(x: T, box: Rect, updateOrder: bool)
      requires Valid()
      modifies this, order
      ensures Valid() && root == Delete(old(root), x, box).node
      ensures Bag(root)[x := 0] == old(Bag(root))[x := 0] && Bag(root)[x] <= old(Bag(root))[x]
      ensures updateOrder && Bag(root)[x] < old(Bag(root))[x] ==> order.Model() == Removed(old(order.Model()), x)
      ensures !(updateOrder && Bag(root)[x] < old(Bag(root))[x]) ==> order.Model() == old(order.Model())
    {
      DeleteKeepsShape(root, x, box, capacity);
      DeleteRemovesOnlyItem(root, x, box);
      var removed := Delete(root, x, box);
      root := removed.node;
      if updateOrder && removed.hit {
        order.Remove(x);
      }
    }

    /**
     * updateItem: grow the root to the new box's corners, then move the item from the nodes its
     * old box meets to the nodes its new box meets; the ordered list is left alone.
     */
    method UpdateItem(x: T, box: Rect, oldBox: Rect)
      requires Valid()
      modifies this
      ensures Valid() && CornersIn(root.region, box)
      ensures root == Update(ExpandedToBox(old(root), box), x, box, oldBox, false, capacity)
      ensures SameBesides(root, old(root), x)
      ensures box.w != 0.0 && box.h != 0.0 ==> x in GetAllItems()
      ensures order.Model() == old(order.Model())
    {
      ghost var before := root;
      Expand(TopLeft(box));
      Expand(TopRight(box));
      Expand(BottomRight(box));
      Expand(BottomLeft(box));
      ExpandedToBoxCovers(before, box, capacity);
      CornersInIntersects(root.region, box);
      UpdateKeepsShape(root, x, box, oldBox, false, capacity);
      UpdateMovesOnlyItem(root, x, box, oldBox, false, capacity);
      if box.w != 0.0 && box.h != 0.0 {
        UpdatePlacesItem(root, x, box, oldBox, capacity);
      }
      root := Update(root, x, box, oldBox, false, capacity);
    }

    /** clear: empty every node, keeping the regions and quadrants; the ordered list is left alone. */
    method Clear()
      requires Valid()
      modifies this
      ensures Valid() && root == Cleared(old(root))
      ensures GetAllItems() == [] && Size() == 0 && SameShape(root, old(root))
    {
      ClearedEmpties(root, capacity);
      root := Cleared(root);
    }

    /**
     * reorder: the items sorted by ascending z-index. Sorting two or more items looks up every
     * z-index, so an item the ordered list does not track makes it fail; fewer need no lookup.
     */
    method Reorder(items: seq<T>) returns (r: Result<seq<T>>)
      requires Valid()
      ensures r.Err? <==> |items| >= 2 && exists k | 0 <= k < |items| :: items[k] !in order.list
      ensures r.Ok? ==> multiset(r.value) == multiset(items)
      ensures r.Ok? && |items| >= 2 ==> ZSorted(r.value, order.z)
    {
      if |items| < 2 {
        return Ok(items);
      }
      var sorted: seq<T> := [];
      for i := 0 to |items|
        invariant forall k | 0 <= k < i :: items[k] in order.list
        invariant multiset(sorted) == multiset(items[..i]) && ZSorted(sorted, order.z)
      {
        var zi := order.ZIndex(items[i]);
        if zi.Err? {
          return Err(zi.error);
        }
        var k :| 0 <= k < |order.list| && order.list[k] == items[i];
        assert items[..i + 1] == items[..i] + [items[i]];
        sorted := InsertByZ(sorted, items[i], order.z);
      }
      assert items[..|items|] == items;
      return Ok(sorted);
    }
  }
}
