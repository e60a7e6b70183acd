/**
 * OrderedList: the z-order of the items on the canvas. It keeps the items in a doubly linked
 * list from back to front, an iterator per item into that list, and an integer z-index per
 * item; the z-indices strictly increase from the back of the list to its front.
 */
module Ordering {
  import opened Wrappers

  /** The abstract value of an ordered list: the list from back to front and the z-index map. */
  datatype Order<T> = Order(list: seq<T>, z: map<T, int>)

  /** The items of a list, as a set. */
  function Elements<T>(s: seq<T>): set<T>
  {
    if s == [] then {} else {s[0]} + Elements(s[1..])
  }

  lemma {:induction false} InElements<T>(s: seq<T>, y: T)
    ensures y in Elements(s) <==> y in s
  {
    if s != [] {
      InElements(s[1..], y);
    }
  }

  lemma SameElements<T>(a: seq<T>, b: seq<T>)
    requires multiset(a) == multiset(b)
    ensures Elements(a) == Elements(b)
  {
    forall y ensures y in Elements(a) <==> y in Elements(b) {
      InElements(a, y);
      InElements(b, y);
      assert y in a <==> y in multiset(a);
      assert y in b <==> y in multiset(b);
    }
    SetExtensionality(Elements(a), Elements(b));
  }

  /** Every listed item has a z-index, and z-indices strictly increase along the list. */
  predicate WellOrdered<T(==)>(o: Order<T>)
  {
    (forall i | 0 <= i < |o.list| :: o.list[i] in o.z) &&
    forall i, j | 0 <= i < j < |o.list| :: o.z[o.list[i]] < o.z[o.list[j]]
  }

  /** The position of an item in the list: what dereferencing its stored iterator reaches. */
  function PositionOf<T(==)>(s: seq<T>, x: T): (k: nat)
    requires x in s
    ensures k < |s| && s[k] == x
    ensures forall j | 0 <= j < k :: s[j] != x
  {
    if s[0] == x then 0 else 1 + PositionOf(s[1..], x)
  }

  /** The list with every occurrence of an item taken out. */
  function Without<T(==)>(s: seq<T>, x: T): (r: seq<T>)
    ensures forall y | y in r :: y in s && y != x
    ensures forall y | y in s && y != x :: y in r
    ensures |r| <= |s|
  {
    if s == [] then [] else (if s[0] == x then [] else [s[0]]) + Without(s[1..], x)
  }

  /** Without keeps the remaining items in their relative order. */
  lemma {:induction false} WithoutKeepsOrder<T>(s: seq<T>, x: T, i: nat, j: nat)
    requires i < j < |Without(s, x)|
    ensures exists a, b | 0 <= a < b < |s| :: s[a] == Without(s, x)[i] && s[b] == Without(s, x)[j]
  {
    var t, w := s[1..], Without(s[1..], x);
    if s[0] == x {
      assert Without(s, x) == w;
      WithoutKeepsOrder(t, x, i, j);
      var a, b :| 0 <= a < b < |t| && t[a] == w[i] && t[b] == w[j];
      assert s[a + 1] == t[a] && s[b + 1] == t[b];
    } else if i == 0 {
      assert Without(s, x) == [s[0]] + w;
      assert w[j - 1] in t;
      var b :| 0 <= b < |t| && t[b] == w[j - 1];
      assert s[b + 1] == t[b];
    } else {
      assert Without(s, x) == [s[0]] + w;
      WithoutKeepsOrder(t, x, i - 1, j - 1);
      var a, b :| 0 <= a < b < |t| && t[a] == w[i - 1] && t[b] == w[j - 1];
      assert s[a + 1] == t[a] && s[b + 1] == t[b];
    }
  }

  /** In a well-ordered list, z-order and list order are the same order. */
  lemma ZOrderIsListOrder<T>(o: Order<T>, i: nat, j: nat)
    requires WellOrdered(o) && i < |o.list| && j < |o.list|
    ensures o.z[o.list[i]] < o.z[o.list[j]] <==> i < j
    ensures o.list[i] == o.list[j] <==> i == j
  {
  }

  /** The back item has the smallest z-index and the front item the largest. */
  lemma EndsAreExtremes<T>(o: Order<T>, i: nat)
    requires WellOrdered(o) && i < |o.list|
    ensures o.z[o.list[0]] <= o.z[o.list[i]] <= o.z[o.list[|o.list| - 1]]
  {
  }

  /** insert: an untracked item goes to the front, one z-index above the front item, or 0 in an empty list. */
  function Inserted<T(==)>(o: Order<T>, x: T): Order<T>
    requires WellOrdered(o)
  {
    if x in o.list then o
    else Order(o.list + [x], o.z[x := if o.list == [] then 0 else o.z[o.list[|o.list| - 1]] + 1])
  }

  /** remove: the item leaves the list and the z-index map. */
  function Removed<T(==)>(o: Order<T>, x: T): Order<T>
  {
    Order(Without(o.list, x), o.z - {x})
  }

  /** bringForward on a listed item: swapped with its successor, z-indices exchanged; the front item stays. */
  function BroughtForward<T(==)>(o: Order<T>, x: T): Order<T>
    requires WellOrdered(o) && x in o.list
  {
    var k := PositionOf(o.list, x);
    if k == |o.list| - 1 then o
    else
      var next := o.list[k + 1];
      Order(o.list[k := next][k + 1 := x], o.z[x := o.z[next]][next := o.z[x]])
  }

  /** sendBackward on a listed item: swapped with its predecessor, z-indices exchanged; the back item stays. */
  function SentBackward<T(==)>(o: Order<T>, x: T): Order<T>
    requires WellOrdered(o) && x in o.list
  {
    var k := PositionOf(o.list, x);
    if k == 0 then o
    else
      var prev := o.list[k - 1];
      Order(o.list[k - 1 := x][k := prev], o.z[x := o.z[prev]][prev := o.z[x]])
  }

  /** The list with the item at position k moved to the back (index 0). */
  function MovedToBack<T>(s: seq<T>, k: nat): (l: seq<T>)
    requires k < |s|
    ensures |l| == |s| && l[0] == s[k] && multiset(l) == multiset(s)
    ensures forall i | 1 <= i <= k :: l[i] == s[i - 1]
    ensures forall i {:trigger l[i]} | k < i < |s| :: l[i] == s[i]
  {
    assert s == s[..k] + [s[k]] + s[k + 1..];
    [s[k]] + s[..k] + s[k + 1..]
  }

  /** The list with the item at position k moved to the front (the last index). */
  function MovedToFront<T>(s: seq<T>, k: nat): (l: seq<T>)
    requires k < |s|
    ensures |l| == |s| && l[|s| - 1] == s[k] && multiset(l) == multiset(s)
    ensures forall i {:trigger l[i]} | 0 <= i < k :: l[i] == s[i]
    ensures forall i | k <= i < |s| - 1 :: l[i] == s[i + 1]
  {
    assert s == s[..k] + [s[k]] + s[k + 1..];
    s[..k] + s[k + 1..] + [s[k]]
  }

  /** sendToBack on a listed item: moved to the back, one z-index below the old back item. */
  function SentToBack<T(==)>(o: Order<T>, x: T): Order<T>
    requires WellOrdered(o) && x in o.list
  {
    var k := PositionOf(o.list, x);
    if k == 0 then o
    else Order(MovedToBack(o.list, k), o.z[x := o.z[o.list[0]] - 1])
  }

  /** bringToFront on a listed item: moved to the front, one z-index above the old front item. */
  function BroughtToFront<T(==)>(o: Order<T>, x: T): Order<T>
    requires WellOrdered(o) && x in o.list
  {
    var k := PositionOf(o.list, x);
    if k == |o.list| - 1 then o
    else Order(MovedToFront(o.list, k), o.z[x := o.z[o.list[|o.list| - 1]] + 1])
  }

  // Properties of the operations

  /**
   * insert keeps the list well ordered; an untracked item is appended at the front with a z-index
   * above every other item's and 0 in an empty list, and no other z-index changes; inserting a
   * listed item changes nothing.
   */
  lemma InsertedKeepsOrder<T>(o: Order<T>, x: T)
    requires WellOrdered(o)
    ensures WellOrdered(Inserted(o, x))
    ensures x in o.list ==> Inserted(o, x) == o
    ensures x !in o.list ==> Inserted(o, x).list == o.list + [x]
    ensures x !in o.list ==> forall y | y in o.z && y != x :: Inserted(o, x).z[y] == o.z[y]
    ensures x !in o.list ==> forall i | 0 <= i < |o.list| :: Inserted(o, x).z[o.list[i]] < Inserted(o, x).z[x]
    ensures o.list == [] ==> Inserted(o, x).z[x] == 0
  {
    if x !in o.list {
      var r := Inserted(o, x);
      var zx := r.z[x];
      assert forall i | 0 <= i < |o.list| :: o.list[i] != x && o.z[o.list[i]] < zx by {
        forall i | 0 <= i < |o.list| ensures o.list[i] != x && o.z[o.list[i]] < zx {
          EndsAreExtremes(o, i);
        }
      }
    }
  }

  /**
   * remove keeps the list well ordered; the item is no longer listed nor z-indexed, every other
   * listed item stays listed and keeps its z-index.
   */
  lemma RemovedKeepsOrder<T>(o: Order<T>, x: T)
    requires WellOrdered(o)
    ensures WellOrdered(Removed(o, x))
    ensures x !in Removed(o, x).list && x !in Removed(o, x).z
    ensures forall y | y in o.list && y != x :: y in Removed(o, x).list
    ensures forall y | y in Removed(o, x).z :: Removed(o, x).z[y] == o.z[y]
  {
    var r := Removed(o, x);
    assert forall i | 0 <= i < |r.list| :: r.list[i] in r.z by {
      forall i | 0 <= i < |r.list| ensures r.list[i] in r.z {
        assert r.list[i] in r.list;
        var a :| 0 <= a < |o.list| && o.list[a] == r.list[i];
      }
    }
    forall i, j | 0 <= i < j < |r.list| ensures r.z[r.list[i]] < r.z[r.list[j]] {
      assert r.list[i] in r.list && r.list[j] in r.list;
      WithoutKeepsOrder(o.list, x, i, j);
      var a, b :| 0 <= a < b < |o.list| && o.list[a] == r.list[i] && o.list[b] == r.list[j];
      assert o.z[o.list[a]] < o.z[o.list[b]];
    }
  }

  lemma SwapIsPermutation<T>(s: seq<T>, k: nat)
    requires k + 1 < |s|
    ensures multiset(s[k := s[k + 1]][k + 1 := s[k]]) == multiset(s)
  {
    var a, b := s[k], s[k + 1];
    var pre, post := s[..k], s[k + 2..];
    assert s[k := b][k + 1 := a] == pre + [b, a] + post;
    assert s == pre + [a, b] + post;
    assert multiset([b, a]) == multiset([a, b]);
  }

  /**
   * Swapping the neighbours at k and k + 1 together with their z-indices permutes the list and
   * leaves the z-indices read along the list unchanged, so the result is well ordered too.
   */
  lemma SwapKeepsOrder<T>(o: Order<T>, k: nat, r: Order<T>)
    requires WellOrdered(o) && k + 1 < |o.list|
    requires r.list == o.list[k := o.list[k + 1]][k + 1 := o.list[k]]
    requires r.z == o.z[o.list[k] := o.z[o.list[k + 1]]][o.list[k + 1] := o.z[o.list[k]]]
    ensures WellOrdered(r) && multiset(r.list) == multiset(o.list)
    ensures forall i | 0 <= i < |o.list| :: r.z[r.list[i]] == o.z[o.list[i]]
  {
    SwapIsPermutation(o.list, k);
    forall i | 0 <= i < |o.list| ensures r.list[i] in r.z && r.z[r.list[i]] == o.z[o.list[i]] {
      if i != k && i != k + 1 {
        ZOrderIsListOrder(o, i, k);
        ZOrderIsListOrder(o, i, k + 1);
      }
    }
    SameZAlong(o, r);
  }

  /** Two lists that carry the same z-indices position by position are ordered alike. */
  lemma SameZAlong<T>(o: Order<T>, r: Order<T>)
    requires WellOrdered(o) && |r.list| == |o.list|
    requires forall i | 0 <= i < |o.list| :: r.list[i] in r.z && r.z[r.list[i]] == o.z[o.list[i]]
    ensures WellOrdered(r)
  {
  }

  /**
   * bringForward keeps the list well ordered and permutes it; the z-indices read along the list
   * do not change; the item moves one place towards the front unless it is the front item.
   */
  lemma BroughtForwardKeepsOrder<T>(o: Order<T>, x: T)
    requires WellOrdered(o) && x in o.list
    ensures WellOrdered(BroughtForward(o, x))
    ensures multiset(BroughtForward(o, x).list) == multiset(o.list)
    ensures forall i | 0 <= i < |o.list| :: BroughtForward(o, x).z[BroughtForward(o, x).list[i]] == o.z[o.list[i]]
    ensures PositionOf(o.list, x) == |o.list| - 1 ==> BroughtForward(o, x) == o
    ensures PositionOf(o.list, x) < |o.list| - 1 ==>
              x in BroughtForward(o, x).list && PositionOf(BroughtForward(o, x).list, x) == PositionOf(o.list, x) + 1
  {
    var k, r := PositionOf(o.list, x), BroughtForward(o, x);
    if k < |o.list| - 1 {
      SwapKeepsOrder(o, k, r);
      assert r.list[k + 1] == x;
      ZOrderIsListOrder(r, k + 1, PositionOf(r.list, x));
    }
  }

  /**
   * sendBackward keeps the list well ordered and permutes it; the z-indices read along the list
   * do not change; the item moves one place towards the back unless it is the back item.
   */
  lemma SentBackwardKeepsOrder<T>(o: Order<T>, x: T)
    requires WellOrdered(o) && x in o.list
    ensures WellOrdered(SentBackward(o, x))
    ensures multiset(SentBackward(o, x).list) == multiset(o.list)
    ensures forall i | 0 <= i < |o.list| :: SentBackward(o, x).z[SentBackward(o, x).list[i]] == o.z[o.list[i]]
    ensures PositionOf(o.list, x) == 0 ==> SentBackward(o, x) == o
    ensures PositionOf(o.list, x) > 0 ==>
              x in SentBackward(o, x).list && PositionOf(SentBackward(o, x).list, x) == PositionOf(o.list, x) - 1
  {
    var k, r := PositionOf(o.list, x), SentBackward(o, x);
    if k > 0 {
      var prev := o.list[k - 1];
      assert o.z[x := o.z[prev]][prev := o.z[x]] == o.z[prev := o.z[x]][x := o.z[prev]] by {
        ZOrderIsListOrder(o, k - 1, k);
      }
      SwapKeepsOrder(o, k - 1, r);
      assert r.list[k - 1] == x;
      ZOrderIsListOrder(r, k - 1, PositionOf(r.list, x));
    }
  }

  /**
   * sendToBack of the item at position k > 0 keeps the list well ordered and permutes it; the item
   * becomes the back item with a z-index below every other item's, and no other z-index changes.
   */
  lemma SentToBackKeepsOrder<T>(o: Order<T>, k: nat, r: Order<T>)
    requires WellOrdered(o) && 0 < k < |o.list|
    requires r.list == MovedToBack(o.list, k) && r.z == o.z[o.list[k] := o.z[o.list[0]] - 1]
    ensures WellOrdered(r) && multiset(r.list) == multiset(o.list) && r.list[0] == o.list[k]
    ensures forall i | 1 <= i < |r.list| :: r.z[r.list[0]] < r.z[r.list[i]] && r.z[r.list[i]] == o.z[r.list[i]]
  {
    var l, x := r.list, o.list[k];
    assert forall i | 1 <= i < |l| :: l[i] != x by {
      forall i | 1 <= i < |l| ensures l[i] != x {
        var src := if i <= k then i - 1 else i;
        ZOrderIsListOrder(o, src, k);
      }
    }
    forall i, j | 0 <= i < j < |l| ensures r.z[l[i]] < r.z[l[j]] {
      var sj := if j <= k then j - 1 else j;
      if i == 0 {
        EndsAreExtremes(o, sj);
      } else {
        var si := if i <= k then i - 1 else i;
        assert l[i] == o.list[si] && l[j] == o.list[sj] && si < sj;
      }
    }
  }

  /**
   * bringToFront of the item at position k below the last keeps the list well ordered and permutes
   * it; the item becomes the front item with a z-index above every other item's, and no other
   * z-index changes.
   */
  lemma BroughtToFrontKeepsOrder<T>(o: Order<T>, k: nat, r: Order<T>)
    requires WellOrdered(o) && k < |o.list| - 1
    requires r.list == MovedToFront(o.list, k) && r.z == o.z[o.list[k] := o.z[o.list[|o.list| - 1]] + 1]
    ensures WellOrdered(r) && multiset(r.list) == multiset(o.list) && r.list[|r.list| - 1] == o.list[k]
    ensures forall i | 0 <= i < |r.list| - 1 :: r.z[r.list[i]] < r.z[r.list[|r.list| - 1]] && r.z[r.list[i]] == o.z[r.list[i]]
  {
    var l, x, n := r.list, o.list[k], |o.list|;
    assert forall i | 0 <= i < n - 1 :: l[i] != x by {
      forall i | 0 <= i < n - 1 ensures l[i] != x {
        var src := if i < k then i else i + 1;
        ZOrderIsListOrder(o, src, k);
      }
    }
    forall i, j | 0 <= i < j < n ensures r.z[l[i]] < r.z[l[j]] {
      var si := if i < k then i else i + 1;
      if j == n - 1 {
        EndsAreExtremes(o, si);
      } else {
        var sj := if j < k then j else j + 1;
        assert l[i] == o.list[si] && l[j] == o.list[sj] && si < sj;
      }
    }
  }

  // Sequence and set helpers

  lemma {:induction false} WithoutAbsent<T>(s: seq<T>, x: T)
    requires x !in s
    ensures Without(s, x) == s
  {
    if s != [] {
      WithoutAbsent(s[1..], x);
      assert s == [s[0]] + s[1..];
    }
  }

  /** Taking out an item that occurs once, at position k, is erasing position k. */
  lemma {:induction false} WithoutPresent<T>(s: seq<T>, x: T, k: nat)
    requires k < |s| && s[k] == x
    requires forall i, j | 0 <= i < j < |s| :: s[i] != s[j]
    ensures Without(s, x) == s[..k] + s[k + 1..]
  {
    if k == 0 {
      WithoutAbsent(s[1..], x);
    } else {
      WithoutPresent(s[1..], x, k - 1);
      assert s[1..][..k - 1] + s[1..][k..] == s[1..k] + s[k + 1..];
      assert s[..k] == [s[0]] + s[1..k];
    }
  }

  lemma SetExtensionality<T>(a: set<T>, b: set<T>)
    requires forall y :: y in a <==> y in b
    ensures a == b
  {
  }

  lemma ElementsOfWithout<T>(s: seq<T>, x: T)
    ensures Elements(Without(s, x)) == Elements(s) - {x}
  {
    var a, b := Elements(Without(s, x)), Elements(s) - {x};
    forall y ensures y in a <==> y in b {
      InElements(s, y);
      InElements(Without(s, x), y);
    }
    SetExtensionality(a, b);
  }

  lemma ElementsOfAppend<T>(s: seq<T>, x: T)
    ensures Elements(s + [x]) == Elements(s) + {x}
  {
    var a, b := Elements(s + [x]), Elements(s) + {x};
    forall y ensures y in a <==> y in b {
      InElements(s, y);
      InElements(s + [x], y);
    }
    SetExtensionality(a, b);
  }

  // The class invariant on values

  /**
   * The invariant of an ordered list: the list is well ordered and the iterator map and the
   * z-index map are keyed by exactly the listed items.
   */
  ghost predicate Tracks<T>(o: Order<T>, iterKeys: set<T>)
  {
    WellOrdered(o) && iterKeys == o.z.Keys && o.z.Keys == Elements(o.list)
  }

  lemma InsertedTracks<T>(o: Order<T>, keys: set<T>, x: T)
    requires Tracks(o, keys) && x !in o.list
    ensures Tracks(Inserted(o, x), keys + {x})
  {
    InsertedKeepsOrder(o, x);
    ElementsOfAppend(o.list, x);
    var r := Inserted(o, x);
    SetExtensionality(r.z.Keys, o.z.Keys + {x});
  }

  lemma RemovedTracks<T>(o: Order<T>, keys: set<T>, x: T)
    requires Tracks(o, keys)
    ensures Tracks(Removed(o, x), keys - {x})
  {
    RemovedKeepsOrder(o, x);
    ElementsOfWithout(o.list, x);
    SetExtensionality((o.z - {x}).Keys, o.z.Keys - {x});
  }

  /** Inserting an item twice is inserting it once: every insert after the first finds it tracked. */
  lemma InsertedIdempotent<T>(o: Order<T>, x: T)
    requires WellOrdered(o)
    ensures WellOrdered(Inserted(o, x)) && Inserted(Inserted(o, x), x) == Inserted(o, x)
  {
    InsertedKeepsOrder(o, x);
  }

  /** Removing an item twice is removing it once: the second remove finds it untracked. */
  lemma RemovedIdempotent<T>(o: Order<T>, x: T)
    ensures Removed(Removed(o, x), x) == Removed(o, x)
  {
    WithoutAbsent(Without(o.list, x), x);
    assert o.z - {x} - {x} == o.z - {x};
  }

  /** A reordering that permutes the list and updates only listed items' z-indices keeps the invariant. */
  lemma PermutedTracks<T>(o: Order<T>, keys: set<T>, r: Order<T>)
    requires Tracks(o, keys) && WellOrdered(r) && multiset(r.list) == multiset(o.list)
    requires r.z.Keys == o.z.Keys
    ensures Tracks(r, keys)
  {
    SameElements(r.list, o.list);
  }

  /** bringForward keeps the invariant. */
  lemma BroughtForwardTracks<T>(o: Order<T>, keys: set<T>, x: T)
    requires Tracks(o, keys) && x in o.list
    ensures Tracks(BroughtForward(o, x), keys)
  {
    var k := PositionOf(o.list, x);
    if k < |o.list| - 1 {
      BroughtForwardKeepsOrder(o, x);
      var r := BroughtForward(o, x);
      assert o.list[k] in o.z && o.list[k + 1] in o.z;
      assert r.z.Keys == o.z.Keys;
      PermutedTracks(o, keys, r);
    }
  }

  /** sendBackward keeps the invariant. */
  lemma SentBackwardTracks<T>(o: Order<T>, keys: set<T>, x: T)
    requires Tracks(o, keys) && x in o.list
    ensures Tracks(SentBackward(o, x), keys)
  {
    var k := PositionOf(o.list, x);
    if k > 0 {
      SentBackwardKeepsOrder(o, x);
      var r := SentBackward(o, x);
      assert o.list[k] in o.z && o.list[k - 1] in o.z;
      assert r.z.Keys == o.z.Keys;
      PermutedTracks(o, keys, r);
    }
  }

  /** In a well-ordered list an item occurs once, so taking it out erases its position. */
  lemma WithoutAt<T>(o: Order<T>, x: T)
    requires WellOrdered(o) && x in o.list
    ensures Without(o.list, x) == o.list[..PositionOf(o.list, x)] + o.list[PositionOf(o.list, x) + 1..]
  {
    forall i, j | 0 <= i < j < |o.list| ensures o.list[i] != o.list[j] {
      ZOrderIsListOrder(o, i, j);
    }
    WithoutPresent(o.list, x, PositionOf(o.list, x));
  }

  /** Removing an untracked item changes nothing. */
  lemma RemovedAbsent<T>(o: Order<T>, keys: set<T>, x: T)
    requires Tracks(o, keys) && x !in o.list
    ensures Removed(o, x) == o && keys - {x} == keys
  {
    InElements(o.list, x);
    WithoutAbsent(o.list, x);
    assert o.z - {x} == o.z;
  }

  /** bringToFront keeps the invariant. */
  lemma BroughtToFrontTracks<T>(o: Order<T>, keys: set<T>, x: T)
    requires Tracks(o, keys) && x in o.list
    ensures Tracks(BroughtToFront(o, x), keys)
  {
    var k := PositionOf(o.list, x);
    if k < |o.list| - 1 {
      MovedToFrontTracks(o, keys, k);
    }
  }

  /** Moving the item at position k to the front, above the old front item, keeps the invariant. */
  lemma MovedToFrontTracks<T>(o: Order<T>, keys: set<T>, k: nat)
    requires Tracks(o, keys) && k < |o.list| - 1
    ensures Tracks(Order(MovedToFront(o.list, k), o.z[o.list[k] := o.z[o.list[|o.list| - 1]] + 1]), keys)
  {
    var r := Order(MovedToFront(o.list, k), o.z[o.list[k] := o.z[o.list[|o.list| - 1]] + 1]);
    BroughtToFrontKeepsOrder(o, k, r);
    assert r.z.Keys == o.z.Keys;
    PermutedTracks(o, keys, r);
  }

  /** sendToBack keeps the invariant. */
  lemma SentToBackTracks<T>(o: Order<T>, keys: set<T>, x: T)
    requires Tracks(o, keys) && x in o.list
    ensures Tracks(SentToBack(o, x), keys)
  {
    var k := PositionOf(o.list, x);
    if k > 0 {
      MovedToBackTracks(o, keys, k);
    }
  }

  /** Moving the item at position k to the back, below the old back item, keeps the invariant. */
  lemma MovedToBackTracks<T>(o: Order<T>, keys: set<T>, k: nat)
    requires Tracks(o, keys) && 0 < k < |o.list|
    ensures Tracks(Order(MovedToBack(o.list, k), o.z[o.list[k] := o.z[o.list[0]] - 1]), keys)
  {
    var r := Order(MovedToBack(o.list, k), o.z[o.list[k] := o.z[o.list[0]] - 1]);
    SentToBackKeepsOrder(o, k, r);
    assert r.z.Keys == o.z.Keys;
    PermutedTracks(o, keys, r);
  }

  /**
   * The z-order tracker of a canvas: the items from back to front, an iterator per item into that
   * list, and a z-index per item.
   */
  class OrderedList<T(==)> {
    var list: seq<T>        // m_itemList, back to front
    var iterKeys: set<T>    // the items m_itemIterMap holds an iterator for
    var z: map<T, int>      // m_zIndex

    function Model(): Order<T> reads this { Order(list, z) }

    /** Both maps are keyed by exactly the listed items, and the list is well ordered. */
    ghost predicate Valid() reads this
    {
      Tracks(Model(), iterKeys)
    }

    constructor ()
      ensures Valid() && list == [] && z == map[]
    {
      list, iterKeys, z := [], {}, map[];
    }

    /** hasItem: the item has both an iterator and a z-index, which in a valid list means it is listed. */
    function HasItem(x: T): (b: bool)
      reads this
      requires Valid()
      ensures b <==> x in list
    {
      InElements(list, x);
      x in iterKeys && x in z
    }

    method Insert(x: T)
      requires Valid()
      modifies this
      ensures Valid() && Model() == Inserted(old(Model()), x)
    {
      if HasItem(x) {
        return;
      }
      InsertedTracks(Model(), iterKeys, x);
      var zx := 0;
      if list != [] {
        zx := z[list[|list| - 1]] + 1;
      }
      z := z[x := zx];
      list := list + [x];
      iterKeys := iterKeys + {x};
    }

    method Remove(x: T)
      requires Valid()
      modifies this
      ensures Valid() && Model() == Removed(old(Model()), x)
    {
      RemovedTracks(Model(), iterKeys, x);
      if !HasItem(x) {
        RemovedAbsent(Model(), iterKeys, x);
        return;
      }
      var k := PositionOf(list, x);
      WithoutAt(Model(), x);
      list := list[..k] + list[k + 1..];
      iterKeys := iterKeys - {x};
      z := z - {x};
    }

    method BringForward(x: T) returns (r: Outcome)
      requires Valid()
      modifies this
      ensures Valid()
      ensures old(x !in list) <==> r == Fail(NotFound)
      ensures old(x in list) ==> Model() == BroughtForward(old(Model()), x)
      ensures old(x !in list) ==> Model() == old(Model())
    {
      if !HasItem(x) {
        return Fail(NotFound);
      }
      var k := PositionOf(list, x);
      if k == |list| - 1 {
        return Pass;
      }
      BroughtForwardTracks(Model(), iterKeys, x);
      var next := list[k + 1];
      list := list[k := next][k + 1 := x];
      var val := z[x];
      z := z[x := z[next]];
      z := z[next := val];
      return Pass;
    }

    method SendBackward(x: T) returns (r: Outcome)
      requires Valid()
      modifies this
      ensures Valid()
      ensures old(x !in list) <==> r == Fail(NotFound)
      ensures old(x in list) ==> Model() == SentBackward(old(Model()), x)
      ensures old(x !in list) ==> Model() == old(Model())
    {
      if !HasItem(x) {
        return Fail(NotFound);
      }
      var k := PositionOf(list, x);
      if k == 0 {
        return Pass;
      }
      SentBackwardTracks(Model(), iterKeys, x);
      var prev := list[k - 1];
      list := list[k - 1 := x][k := prev];
      var val := z[x];
      z := z[x := z[prev]];
      z := z[prev := val];
      return Pass;
    }

    method SendToBack(x: T) returns (r: Outcome)
      requires Valid()
      modifies this
      ensures Valid()
      ensures old(x !in list) <==> r == Fail(NotFound)
      ensures old(x in list) ==> Model() == SentToBack(old(Model()), x)
      ensures old(x !in list) ==> Model() == old(Model())
    {
      if !HasItem(x) {
        return Fail(NotFound);
      }
      var k := PositionOf(list, x);
      if k == 0 {
        return Pass;
      }
      SentToBackTracks(Model(), iterKeys, x);
      var first := list[0];
      list, z := MovedToBack(list, k), z[x := z[first] - 1];
      return Pass;
    }

    method BringToFront(x: T) returns (r: Outcome)
      requires Valid()
      modifies this
      ensures Valid()
      ensures old(x !in list) <==> r == Fail(NotFound)
      ensures old(x in list) ==> Model() == BroughtToFront(old(Model()), x)
      ensures old(x !in list) ==> Model() == old(Model())
    {
      if !HasItem(x) {
        return Fail(NotFound);
      }
      var k := PositionOf(list, x);
      if k == |list| - 1 {
        return Pass;
      }
      BroughtToFrontTracks(Model(), iterKeys, x);
      var last := list[|list| - 1];
      list, z := MovedToFront(list, k), z[x := z[last] + 1];
      return Pass;
    }

    /** zIndex: the item's z-index, or NotFound for an item the list does not track. */
    function ZIndex(x: T): (r: Result<int>)
      reads this
      requires Valid()
      ensures r.Ok? <==> x in list
      ensures r.Ok? ==> x in z && r.value == z[x]
      ensures r.Ok? ==> forall i | 0 <= i < |list| && list[i] != x ::
                          (r.value < z[list[i]] <==> PositionOf(list, x) < i)
    {
      if !HasItem(x) then Err(NotFound)
      else
        assert forall i | 0 <= i < |list| && list[i] != x :: (z[x] < z[list[i]] <==> PositionOf(list, x) < i) by {
          forall i | 0 <= i < |list| && list[i] != x
            ensures z[x] < z[list[i]] <==> PositionOf(list, x) < i
          {
            ZOrderIsListOrder(Model(), PositionOf(list, x), i);
          }
        }
        Ok(z[x])
    }
  }
}
