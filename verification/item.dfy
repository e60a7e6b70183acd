/**
 * Item: the base of every drawable item. It owns the stored bounding box, a padding that grows the
 * reported box on every side, and the property map. The map (a std::unordered_map keyed by
 * property type) is modelled as an association list whose order stands for the map's iteration
 * order; the keys of the list are distinct.
 */
module Items {
  import opened Geometry
  import opened Wrappers

  /** Property::Type. */
  datatype PropType = StrokeWidth | StrokeColor | Opacity | FontSize | EraserSize | Actions | Null

  /** The QVariant a property carries: nothing, an integer, or an RGB colour. */
  datatype Value = NoValue | IntValue(n: int) | ColorValue(rgb: int)

  /** Property: a typed value. */
  datatype Property = Property(kind: PropType, value: Value)

  /** Property{}: the default property has type Null and an empty value. */
  const DefaultProperty: Property := Property(Null, NoValue)

  const BlackRgb: int := 0x000000
  const WhiteRgb: int := 0xFFFFFF
  /** constants.h: maxItemOpacity. */
  const MaxItemOpacity: int := 255

  type Entry = (PropType, Property)

  /** QVariant::value<int>(): the integer, or 0 when the value is not one. */
  function IntOf(v: Value): int
  {
    if v.IntValue? then v.n else 0
  }

  /** The keys of the map, in iteration order. */
  function TypesOf(es: seq<Entry>): (ts: seq<PropType>)
    ensures |ts| == |es|
  {
    seq(|es|, k requires 0 <= k < |es| => es[k].0)
  }

  /** No key occurs twice. */
  predicate DistinctTypes(es: seq<Entry>)
  {
    forall i, j | 0 <= i < j < |es| :: es[i].0 != es[j].0
  }

  /** find: the value stored under t, if any. */
  function Lookup(es: seq<Entry>, t: PropType): (r: Option<Property>)
    ensures r.None? <==> t !in TypesOf(es)
    ensures r.Some? ==> (t, r.value) in es
  {
    if es == [] then None
    else if es[0].0 == t then assert TypesOf(es)[0] == t; Some(es[0].1)
    else
      assert TypesOf(es) == [es[0].0] + TypesOf(es[1..]);
      Lookup(es[1..], t)
  }

  /** The position of the entry whose key is t, or -1. */
  function IndexOfType(es: seq<Entry>, t: PropType): (i: int)
    ensures -1 <= i < |es|
    ensures i == -1 <==> t !in TypesOf(es)
    ensures 0 <= i ==> es[i].0 == t
  {
    if es == [] then -1
    else if es[0].0 == t then assert TypesOf(es)[0] == t; 0
    else
      assert TypesOf(es) == [es[0].0] + TypesOf(es[1..]);
      var j := IndexOfType(es[1..], t);
      if j == -1 then -1 else j + 1
  }

  /** The map after storing p under t if t is already a key; unchanged otherwise. */
  function Replaced(es: seq<Entry>, t: PropType, p: Property): seq<Entry>
  {
    seq(|es|, k requires 0 <= k < |es| => if es[k].0 == t then (t, p) else es[k])
  }

  // ---- facts about the map ----

  /** In a map with distinct keys, the value found under an entry's key is that entry's value. */
  lemma {:induction false} LookupAt(es: seq<Entry>, k: nat)
    requires DistinctTypes(es) && k < |es|
    ensures Lookup(es, es[k].0) == Some(es[k].1)
  {
    if k > 0 {
      assert es[0].0 != es[k].0;
      assert es[1..][k - 1] == es[k];
      LookupAt(es[1..], k - 1);
    }
  }

  /** Replacing changes no key. */
  lemma ReplacedKeys(es: seq<Entry>, t: PropType, p: Property)
    ensures TypesOf(Replaced(es, t, p)) == TypesOf(es)
  {
    var rs := Replaced(es, t, p);
    assert forall k | 0 <= k < |es| :: TypesOf(rs)[k] == TypesOf(es)[k];
  }

  /**
   * Replacing keeps the keys and their order; afterwards t finds p when t was a key, and every other
   * key finds what it found before.
   */
  lemma ReplacedLookup(es: seq<Entry>, t: PropType, p: Property, u: PropType)
    requires DistinctTypes(es)
    ensures TypesOf(Replaced(es, t, p)) == TypesOf(es) && DistinctTypes(Replaced(es, t, p))
    ensures Lookup(Replaced(es, t, p), u) == if u == t && t in TypesOf(es) then Some(p) else Lookup(es, u)
  {
    ReplacedKeys(es, t, p);
    var rs := Replaced(es, t, p);
    if u in TypesOf(es) {
      var k :| 0 <= k < |es| && TypesOf(es)[k] == u;
      LookupAt(es, k);
      LookupAt(rs, k);
    }
  }

  /** Storing under a key that is absent changes nothing. */
  lemma ReplacedAbsent(es: seq<Entry>, t: PropType, p: Property)
    requires t !in TypesOf(es)
    ensures Replaced(es, t, p) == es
  {
    forall k | 0 <= k < |es| ensures es[k].0 != t {
      assert TypesOf(es)[k] == es[k].0;
    }
  }

  class Item {
    var box: Rect                  // m_boundingBox
    var padding: int               // m_boundingBoxPadding
    var entries: seq<Entry>        // m_properties, in iteration order

    ghost predicate Valid()
      reads this
    {
      DistinctTypes(entries)
    }

    /** Item(): an empty box, no padding and no properties. */
    constructor ()
      ensures Valid() && box == Rect(0.0, 0.0, 0.0, 0.0) && padding == 0 && entries == []
    {
      box, padding, entries := Rect(0.0, 0.0, 0.0, 0.0), 0, [];
    }

    /** boundingBox: the stored box with each edge moved outward by the padding. */
    function BoundingBox(): (r: Rect)
      reads this
      ensures r.x == box.x - padding as real && Right(r) == Right(box) + padding as real
      ensures r.y == box.y - padding as real && Bottom(r) == Bottom(box) + padding as real
    {
      Adjusted(box, -padding as real, -padding as real, padding as real, padding as real)
    }

    /** A non-negative padding around a normal box gives a normal box that covers the stored one. */
    lemma PaddingCovers()
      requires IsNormal(box) && padding >= 0
      ensures IsNormal(BoundingBox())
      ensures forall q | Contains(box, q) :: Contains(BoundingBox(), q)
    {
    }

    /** boundingBoxPadding: the margin boundingBox adds on each side of the stored box. */
    function Padding(): (p: int)
      reads this
      ensures BoundingBox().x == box.x - p as real && Right(BoundingBox()) == Right(box) + p as real
      ensures BoundingBox().y == box.y - p as real && Bottom(BoundingBox()) == Bottom(box) + p as real
    {
      padding
    }

    /** setBoundingBoxPadding: the padding is replaced; box and properties stay. */
    method SetPadding(p: int)
      modifies this
      ensures Padding() == p && box == old(box) && entries == old(entries)
    {
      padding := p;
    }

    /** property: the stored value, or an error when the item has no property of that type. */
    function GetProperty(t: PropType): (r: Result<Property>)
      reads this
      ensures r.Err? <==> t !in TypesOf(entries)
      ensures r.Err? ==> r.error == NotFound
      ensures r.Ok? ==> (t, r.value) in entries
    {
      match Lookup(entries, t)
      case None => Err(NotFound)
      case Some(p) => Ok(p)
    }

    /** property(StrokeWidth).value<int>(), for the items that always carry a stroke width. */
    function StrokeWidthValue(): int
      reads this
      requires StrokeWidth in TypesOf(entries)
    {
      IntOf(Lookup(entries, StrokeWidth).value.value)
    }

    /** propertyTypes: the map's keys, in iteration order: one per entry, and exactly the types property() finds. */
    function PropertyTypes(): (ts: seq<PropType>)
      reads this
      ensures |ts| == |entries|
      ensures forall t :: t in ts <==> GetProperty(t).Ok?
    {
      TypesOf(entries)
    }

    /** properties: the map's values, in iteration order. */
    function Properties(): (ps: seq<Property>)
      reads this
      ensures |ps| == |entries|
    {
      var es := entries;
      seq(|es|, k requires 0 <= k < |es| => es[k].1)
    }

    /**
     * propertyTypes and properties enumerate the same entries: they have the same length, no type
     * repeats, and the k-th property is what property() returns for the k-th type.
     */
    lemma TypesMatchProperties()
      requires Valid()
      ensures |PropertyTypes()| == |Properties()|
      ensures forall i, j | 0 <= i < j < |PropertyTypes()| :: PropertyTypes()[i] != PropertyTypes()[j]
      ensures forall k | 0 <= k < |PropertyTypes()| :: GetProperty(PropertyTypes()[k]) == Ok(Properties()[k])
    {
      forall k | 0 <= k < |entries|
        ensures GetProperty(PropertyTypes()[k]) == Ok(Properties()[k])
      {
        assert PropertyTypes()[k] == entries[k].0;
        LookupAt(entries, k);
      }
    }

    /**
     * setProperty: stores p under t when the item has a property of that type and leaves the map
     * alone otherwise. updateAfterProperty is a no-op on the base item.
     */
    method SetProperty(t: PropType, p: Property)
      requires Valid()
      modifies this
      ensures Valid() && box == old(box) && padding == old(padding)
      ensures entries == Replaced(old(entries), t, p)
    {
      var i := IndexOfType(entries, t);
      if i >= 0 {
        forall k | 0 <= k < |entries| && k != i ensures entries[k].0 != t {
        }
        entries := entries[i := (t, p)];
      } else {
        ReplacedAbsent(entries, t, p);
      }
      ReplacedLookup(old(entries), t, p, t);
    }

    /**
     * m_properties[t] = p, as the item constructors use it: the entry is overwritten when present and
     * added at the end of the iteration order when not.
     */
    method Put(t: PropType, p: Property)
      requires Valid()
      modifies this
      ensures Valid() && box == old(box) && padding == old(padding)
      ensures Lookup(entries, t) == Some(p)
      ensures forall u | u != t :: Lookup(entries, u) == Lookup(old(entries), u)
      ensures forall u :: u in TypesOf(entries) <==> u == t || u in TypesOf(old(entries))
      ensures t !in TypesOf(old(entries)) ==> entries == old(entries) + [(t, p)]
    {
      if t in TypesOf(entries) {
        SetProperty(t, p);
        ReplacedLookup(old(entries), t, p, t);
        forall u ensures Lookup(entries, u) == if u == t then Some(p) else Lookup(old(entries), u) {
          ReplacedLookup(old(entries), t, p, u);
        }
      } else {
        forall k | 0 <= k < |entries| ensures entries[k].0 != t {
          assert TypesOf(entries)[k] == entries[k].0;
        }
        PutNew(entries, t, p);
        entries := entries + [(t, p)];
      }
    }
  }

  /** Appending an entry under a new key keeps the keys distinct and changes no other lookup. */
  lemma {:induction false} PutNew(es: seq<Entry>, t: PropType, p: Property)
    requires DistinctTypes(es) && t !in TypesOf(es)
    ensures DistinctTypes(es + [(t, p)]) && Lookup(es + [(t, p)], t) == Some(p)
    ensures TypesOf(es + [(t, p)]) == TypesOf(es) + [t]
    ensures forall u | u != t :: Lookup(es + [(t, p)], u) == Lookup(es, u)
  {
    var e := es + [(t, p)];
    assert TypesOf(e) == TypesOf(es) + [t];
    forall k | 0 <= k < |es| ensures es[k].0 != t {
      assert TypesOf(es)[k] == es[k].0;
    }
    LookupAt(e, |es|);
    if es != [] {
      assert e[1..] == es[1..] + [(t, p)];
      assert TypesOf(es) == [es[0].0] + TypesOf(es[1..]);
      PutNew(es[1..], t, p);
    }
  }
}
