/**
 * GroupItem: a set of items treated as one. Every query folds over the children and every change
 * is applied to each child in turn. The children modelled here are polygon and freeform items;
 * each has its own Item part, and no two children share an object.
 */
module Groups {
  import opened Geometry
  import opened Wrappers
  import opened Items
  import opened Polygons
  import opened Freeforms

  /** A grouped item. */
  datatype Child = PolygonChild(polygon: PolygonItem) | FreeformChild(freeform: FreeformItem)

  /** The child object itself. */
  function Obj(c: Child): object
  {
    match c
    case PolygonChild(p) => p
    case FreeformChild(f) => f
  }

  /** The Item part of a child: its box, padding and properties. */
  function BaseOf(c: Child): Item
  {
    match c
    case PolygonChild(p) => p.base
    case FreeformChild(f) => f.base
  }

  function Footprint(c: Child): set<object>
  {
    {Obj(c), BaseOf(c)}
  }

  /** Every object the children own. */
  ghost function ReprOf(cs: seq<Child>): set<object>
  {
    (set k | 0 <= k < |cs| :: Obj(cs[k])) + (set k | 0 <= k < |cs| :: BaseOf(cs[k]))
  }

  ghost predicate ChildValid(c: Child)
    reads Footprint(c)
  {
    match c
    case PolygonChild(p) => p.Valid()
    case FreeformChild(f) => f.Valid()
  }

  /** A child object is never an Item part. */
  lemma ObjNotBase(c: Child, e: Child)
    ensures Obj(c) != BaseOf(e)
  {
    match c
    case PolygonChild(p) =>
    case FreeformChild(f) =>
  }

  /** A child none of whose objects changed is as valid as before and looks the same. */
  twostate lemma Untouched(c: Child)
    requires unchanged(Footprint(c))
    ensures old(ChildValid(c)) ==> ChildValid(c)
    ensures ViewOf(c) == old(ViewOf(c))
  {
  }

  /** Every child is valid. */
  ghost predicate AllValid(cs: seq<Child>)
    reads ReprOf(cs)
  {
    forall k | 0 <= k < |cs| :: ChildValid(cs[k])
  }

  /** No object belongs to two children. */
  ghost predicate Disjoint(cs: seq<Child>)
  {
    forall a, b | 0 <= a < b < |cs| :: Obj(cs[a]) != Obj(cs[b]) && BaseOf(cs[a]) != BaseOf(cs[b])
  }

  // ---- what a change does to one child ----

  /** The geometry of a child: the two endpoints of a polygon, or the points and pressures of a stroke. */
  datatype Shape = Segment(start: Point, end: Point) | Stroke(points: seq<Point>, pressures: seq<real>)

  /** Everything translate and setProperty change or keep in a child. */
  datatype View = View(shape: Shape, box: Rect, padding: int, entries: seq<Entry>)

  function ViewOf(c: Child): View
    reads Footprint(c)
  {
    match c
    case PolygonChild(p) => View(Segment(p.start, p.end), p.base.box, p.base.padding, p.base.entries)
    case FreeformChild(f) => View(Stroke(f.points, f.pressures), f.base.box, f.base.padding, f.base.entries)
  }

  /** The stroke width stored in a property map, as an integer (0 when there is none). */
  function WidthOf(es: seq<Entry>): int
  {
    match Lookup(es, StrokeWidth)
    case None => 0
    case Some(p) => IntOf(p.value)
  }

  /**
   * A child after translate: a polygon's endpoints move and its box is recomputed from them; a
   * freeform's points and its box move.
   */
  function MovedView(v: View, d: Point): View
  {
    match v.shape
    case Segment(s, e) =>
      View(Segment(Plus(s, d), Plus(e, d)), EndpointBox(Plus(s, d), Plus(e, d), WidthOf(v.entries)), v.padding, v.entries)
    case Stroke(pts, prs) =>
      View(Stroke(Shifted(pts, d), prs), Translated(v.box, d.x, d.y), v.padding, v.entries)
  }

  /** A polygon's box is the one its endpoints give. */
  predicate Consistent(v: View)
  {
    v.shape.Segment? ==> v.box == EndpointBox(v.shape.start, v.shape.end, WidthOf(v.entries))
  }

  function Neg(d: Point): Point
  {
    Point(-d.x, -d.y)
  }

  /**
   * Translating moves the box by d as well (for a polygon whose box was consistent), keeps the
   * view consistent, and translating back by -d restores the child.
   */
  lemma MovedBack(v: View, d: Point)
    requires Consistent(v)
    ensures Consistent(MovedView(v, d))
    ensures MovedView(v, d).box == Translated(v.box, d.x, d.y)
    ensures MovedView(MovedView(v, d), Neg(d)) == v
  {
    match v.shape
    case Segment(s, e) =>
      EndpointBoxShift(s, e, WidthOf(v.entries), d);
      assert Plus(Plus(s, d), Neg(d)) == s && Plus(Plus(e, d), Neg(d)) == e;
    case Stroke(pts, prs) =>
      var back := Shifted(Shifted(pts, d), Neg(d));
      assert forall k | 0 <= k < |pts| :: back[k] == pts[k];
      assert back == pts;
  }

  /** A child after setProperty: the property is replaced when the child has it; nothing else changes. */
  function UpdatedView(v: View, t: PropType, p: Property): View
  {
    v.(entries := Replaced(v.entries, t, p))
  }

  /**
   * After setProperty the child has the same property types, t finds p when the child had t, and
   * every other lookup is as before.
   */
  lemma UpdatedLookup(v: View, t: PropType, p: Property, u: PropType)
    requires DistinctTypes(v.entries)
    ensures TypesOf(UpdatedView(v, t, p).entries) == TypesOf(v.entries)
    ensures Lookup(UpdatedView(v, t, p).entries, u) ==
              if u == t && t in TypesOf(v.entries) then Some(p) else Lookup(v.entries, u)
  {
    ReplacedLookup(v.entries, t, p, u);
  }

  // ---- the union of the children's boxes ----

  /** boundingBox: the children's boxes united from left to right, starting from the null rectangle. */
  function UnionOf(bs: seq<Rect>): Rect
  {
    if bs == [] then Rect(0.0, 0.0, 0.0, 0.0) else United(UnionOf(bs[..|bs| - 1]), bs[|bs| - 1])
  }

  /**
   * The union is null when every box is null; it is normal when some box is not null and those
   * that are not are normal; and it covers every box that is not null.
   */
  lemma {:induction false} UnionCovers(bs: seq<Rect>)
    ensures (forall k | 0 <= k < |bs| :: IsNull(bs[k])) ==> IsNull(UnionOf(bs))
    ensures (exists k | 0 <= k < |bs| :: !IsNull(bs[k])) && (forall k | 0 <= k < |bs| && !IsNull(bs[k]) :: IsNormal(bs[k])) ==>
              IsNormal(UnionOf(bs))
    ensures forall k | 0 <= k < |bs| && !IsNull(bs[k]) ::
              NLeft(UnionOf(bs)) <= NLeft(bs[k]) && NRight(bs[k]) <= NRight(UnionOf(bs)) &&
              NTop(UnionOf(bs)) <= NTop(bs[k]) && NBottom(bs[k]) <= NBottom(UnionOf(bs))
  {
    if bs != [] {
      var init, b := bs[..|bs| - 1], bs[|bs| - 1];
      UnionCovers(init);
      assert forall k | 0 <= k < |init| :: init[k] == bs[k];
      if !IsNull(UnionOf(init)) && !IsNull(b) {
        UnitedCovers(UnionOf(init), b);
      } else if !IsNull(UnionOf(init)) {
        assert exists k | 0 <= k < |init| :: !IsNull(init[k]);
      }
    }
  }

  // ---- the property a group reports ----

  /**
   * property: fold over what each child holds under the type. Children without it are skipped; the
   * first value found is kept, and a later value that differs from it gives the default property.
   */
  function Agreed(rs: seq<Option<Property>>, acc: Property): Property
  {
    if rs == [] then acc
    else if acc.kind != Null then
      if rs[0].Some? && rs[0].value.value != acc.value then DefaultProperty else Agreed(rs[1..], acc)
    else Agreed(rs[1..], if rs[0].Some? then rs[0].value else acc)
  }

  /** The values found, in order. */
  function Present(rs: seq<Option<Property>>): (ps: seq<Property>)
    ensures forall j | 0 <= j < |ps| :: Some(ps[j]) in rs
  {
    if rs == [] then []
    else (if rs[0].Some? then [rs[0].value] else []) + Present(rs[1..])
  }

  /** Properties stored under a type always carry a type other than Null. */
  predicate Typed(rs: seq<Option<Property>>)
  {
    forall k | 0 <= k < |rs| :: rs[k].Some? ==> rs[k].value.kind != Null
  }

  /** Every property in ps carries the value v. */
  predicate AllAgree(ps: seq<Property>, v: Value)
  {
    forall j | 0 <= j < |ps| :: ps[j].value == v
  }

  lemma AllAgreeConcat(ps: seq<Property>, qs: seq<Property>, v: Value)
    ensures AllAgree(ps + qs, v) <==> AllAgree(ps, v) && AllAgree(qs, v)
  {
    if AllAgree(ps, v) && AllAgree(qs, v) {
      forall j | 0 <= j < |ps + qs| ensures (ps + qs)[j].value == v {
        if j >= |ps| {
          assert (ps + qs)[j] == qs[j - |ps|];
        }
      }
    }
    if AllAgree(ps + qs, v) {
      forall j | 0 <= j < |ps| ensures ps[j].value == v {
        assert (ps + qs)[j] == ps[j];
      }
      forall j | 0 <= j < |qs| ensures qs[j].value == v {
        assert (ps + qs)[j + |ps|] == qs[j];
      }
    }
  }

  /** Once a value is held, the result is that value if every later one agrees and the default otherwise. */
  lemma {:induction false} AgreedFrom(rs: seq<Option<Property>>, acc: Property)
    requires acc.kind != Null
    ensures AllAgree(Present(rs), acc.value) ==> Agreed(rs, acc) == acc
    ensures !AllAgree(Present(rs), acc.value) ==> Agreed(rs, acc) == DefaultProperty
  {
    if rs != [] {
      var head := if rs[0].Some? then [rs[0].value] else [];
      assert Present(rs) == head + Present(rs[1..]);
      AllAgreeConcat(head, Present(rs[1..]), acc.value);
      AgreedFrom(rs[1..], acc);
    }
  }

  /**
   * What property reports for a non-empty group: the default when no child has the type, the first
   * value found when every child that has the type agrees with it, and the default on any
   * disagreement.
   */
  lemma {:induction false} AgreedMeaning(rs: seq<Option<Property>>)
    requires Typed(rs)
    ensures Present(rs) == [] ==> Agreed(rs, DefaultProperty) == DefaultProperty
    ensures Present(rs) != [] && AllAgree(Present(rs), Present(rs)[0].value) ==>
              Agreed(rs, DefaultProperty) == Present(rs)[0]
    ensures Present(rs) != [] && !AllAgree(Present(rs), Present(rs)[0].value) ==>
              Agreed(rs, DefaultProperty) == DefaultProperty
  {
    if rs != [] {
      assert Typed(rs[1..]) by {
        forall k | 0 <= k < |rs[1..]| ensures rs[1..][k].Some? ==> rs[1..][k].value.kind != Null {
          assert rs[1..][k] == rs[k + 1];
        }
      }
      if rs[0].Some? {
        var p := rs[0].value;
        assert Present(rs) == [p] + Present(rs[1..]);
        AllAgreeConcat([p], Present(rs[1..]), p.value);
        AgreedFrom(rs[1..], p);
      } else {
        assert Present(rs) == Present(rs[1..]);
        AgreedMeaning(rs[1..]);
      }
    }
  }

  // ---- the union of the children's property types ----

  /** The property types of the first n children. */
  ghost function TypeUnion(cs: seq<Child>, n: nat): set<PropType>
    requires n <= |cs|
    reads set k | 0 <= k < |cs| :: BaseOf(cs[k])
  {
    if n == 0 then {}
    else
      var ts := TypesOf(BaseOf(cs[n - 1]).entries);
      TypeUnion(cs, n - 1) + set k | 0 <= k < |ts| :: ts[k]
  }

  /** A type is in the union exactly when one of the children has it. */
  lemma {:induction false} TypeUnionMeaning(cs: seq<Child>, n: nat, u: PropType)
    requires n <= |cs|
    ensures u in TypeUnion(cs, n) <==> exists k | 0 <= k < n :: u in TypesOf(BaseOf(cs[k]).entries)
  {
    if n > 0 {
      TypeUnionMeaning(cs, n - 1, u);
    }
  }

  // ---- the children's properties, one after the other ----

  /** The properties of the first n children, each child's in its own iteration order. */
  ghost function PropertiesOf(cs: seq<Child>, n: nat): seq<Property>
    requires n <= |cs|
    reads set k | 0 <= k < |cs| :: BaseOf(cs[k])
  {
    if n == 0 then [] else PropertiesOf(cs, n - 1) + BaseOf(cs[n - 1]).Properties()
  }

  /** A property is listed exactly when one of the first n children holds it. */
  lemma {:induction false} PropertiesOfMeaning(cs: seq<Child>, n: nat, p: Property)
    requires n <= |cs|
    ensures p in PropertiesOf(cs, n) <==> exists k | 0 <= k < n :: p in BaseOf(cs[k]).Properties()
  {
    if n > 0 {
      PropertiesOfMeaning(cs, n - 1, p);
    }
  }

  class GroupItem {
    var items: seq<Child>   // m_items

    ghost function Repr(): set<object>
      reads this
    {
      ReprOf(items)
    }

    /** Every child is valid and no two share an object. */
    ghost predicate Valid()
      reads this, Repr()
    {
      AllValid(items) && Disjoint(items)
    }

    constructor ()
      ensures items == []
    {
      items := [];
    }

    /** group: the children become exactly the given items. */
    method Group(cs: seq<Child>)
      modifies this
      ensures items == cs
    {
      items := cs;
    }

    /** unGroup: the children, exactly as last grouped; nothing changes. */
    method UnGroup() returns (cs: seq<Child>)
      ensures cs == items
    {
      cs := items;
    }

    /** The children's boxes, in order. */
    function Boxes(): (bs: seq<Rect>)
      reads this, Repr()
      ensures |bs| == |items| && forall k | 0 <= k < |items| :: bs[k] == BaseOf(items[k]).BoundingBox()
    {
      var cs := items;
      seq(|cs|, k requires 0 <= k < |cs| reads ReprOf(cs) => BaseOf(cs[k]).BoundingBox())
    }

    /** boundingBox: the union of the children's boxes. */
    method BoundingBox() returns (r: Rect)
      ensures r == UnionOf(Boxes())
    {
      var cs := items;
      ghost var bs := Boxes();
      r := Rect(0.0, 0.0, 0.0, 0.0);
      var i := 0;
      while i < |cs|
        invariant 0 <= i <= |cs| && r == UnionOf(bs[..i])
      {
        assert bs[..i + 1][..i] == bs[..i];
        r := United(r, BaseOf(cs[i]).BoundingBox());
        i := i + 1;
      }
      assert bs[..i] == bs;
    }

    /** intersects: true exactly when some child intersects, by the children's own test hits. */
    method Intersects(hits: Child -> bool) returns (b: bool)
      ensures b <==> exists k | 0 <= k < |items| :: hits(items[k])
    {
      var cs := items;
      var i := 0;
      while i < |cs|
        invariant 0 <= i <= |cs| && forall k | 0 <= k < i :: !hits(cs[k])
      {
        if hits(cs[i]) {
          return true;
        }
        i := i + 1;
      }
      return false;
    }

    /** What each child holds under t, in order. */
    function Found(t: PropType): (rs: seq<Option<Property>>)
      reads this, Repr()
      ensures |rs| == |items| && forall k | 0 <= k < |items| :: rs[k] == Lookup(BaseOf(items[k]).entries, t)
    {
      var cs := items;
      seq(|cs|, k requires 0 <= k < |cs| reads ReprOf(cs) => Lookup(BaseOf(cs[k]).entries, t))
    }

    /**
     * property: an error for an empty group; otherwise the value the children agree on, as Agreed
     * folds it (see AgreedMeaning).
     */
    method Property(t: PropType) returns (r: Result<Property>)
      ensures items == [] ==> r == Err(NotFound)
      ensures items != [] ==> r == Ok(Agreed(Found(t), DefaultProperty))
    {
      var cs := items;
      if cs == [] {
        return Err(NotFound);
      }
      ghost var rs := Found(t);
      var prop := DefaultProperty;
      var i := 0;
      while i < |cs|
        invariant 0 <= i <= |cs| && Agreed(rs, DefaultProperty) == Agreed(rs[i..], prop)
      {
        var got := BaseOf(cs[i]).GetProperty(t);
        assert rs[i..][0] == rs[i] && rs[i..][1..] == rs[i + 1..];
        if prop.kind != Null {
          if got.Ok? && got.value.value != prop.value {
            return Ok(DefaultProperty);
          }
        } else if got.Ok? {
          prop := got.value;
        }
        i := i + 1;
      }
      return Ok(prop);
    }

    /** properties: the children's properties concatenated in child order; duplicates are kept. */
    method Properties() returns (r: seq<Property>)
      ensures r == PropertiesOf(items, |items|)
    {
      var cs := items;
      r := [];
      var i := 0;
      while i < |cs|
        invariant 0 <= i <= |cs| && r == PropertiesOf(cs, i)
      {
        r := r + BaseOf(cs[i]).Properties();
        i := i + 1;
      }
    }

    /** propertyTypes: every type some child has, each once. */
    method PropertyTypes() returns (r: seq<PropType>)
      ensures forall i, j | 0 <= i < j < |r| :: r[i] != r[j]
      ensures forall u :: u in r <==> u in TypeUnion(items, |items|)
    {
      var cs := items;
      r := [];
      var i := 0;
      while i < |cs|
        invariant 0 <= i <= |cs|
        invariant forall a, b | 0 <= a < b < |r| :: r[a] != r[b]
        invariant forall u :: u in r <==> u in TypeUnion(cs, i)
      {
        var ts := BaseOf(cs[i]).PropertyTypes();
        var j := 0;
        while j < |ts|
          invariant 0 <= j <= |ts|
          invariant forall a, b | 0 <= a < b < |r| :: r[a] != r[b]
          invariant forall u :: u in r <==> u in TypeUnion(cs, i) || u in ts[..j]
        {
          if ts[j] !in r {
            r := r + [ts[j]];
          }
          j := j + 1;
        }
        assert ts[..j] == ts;
        i := i + 1;
      }
    }

    /** translate: every child moves by d, as MovedView says; nothing else changes. */
    method Translate(d: Point)
      requires Valid()
      modifies Repr()
      ensures Valid() && items == old(items)
      ensures forall k | 0 <= k < |items| :: ViewOf(items[k]) == MovedView(old(ViewOf(items[k])), d)
    {
      var cs := items;
      assert this !in ReprOf(cs);
      TranslateAll(cs, d);
    }

    /** setProperty: every child replaces the property when it has it, as UpdatedView says. */
    method SetProperty(t: PropType, p: Property)
      requires Valid()
      modifies Repr()
      ensures Valid() && items == old(items)
      ensures forall k | 0 <= k < |items| :: ViewOf(items[k]) == UpdatedView(old(ViewOf(items[k])), t, p)
    {
      var cs := items;
      assert this !in ReprOf(cs);
      SetPropertyAll(cs, t, p);
    }
  }

  /** translate's loop: the children are moved one after the other. */
  method TranslateAll(cs: seq<Child>, d: Point)
    requires AllValid(cs) && Disjoint(cs)
    modifies ReprOf(cs)
    ensures AllValid(cs)
    ensures forall k | 0 <= k < |cs| :: ViewOf(cs[k]) == MovedView(old(ViewOf(cs[k])), d)
  {
    var i := 0;
    while i < |cs|
      invariant 0 <= i <= |cs|
      invariant AllValid(cs)
      invariant forall k | 0 <= k < i :: ViewOf(cs[k]) == MovedView(old(ViewOf(cs[k])), d)
      invariant forall k | i <= k < |cs| :: ViewOf(cs[k]) == old(ViewOf(cs[k]))
    {
      TranslateChild(cs, i, d);
      i := i + 1;
    }
  }

  /** setProperty's loop: the children are updated one after the other. */
  method SetPropertyAll(cs: seq<Child>, t: PropType, p: Property)
    requires AllValid(cs) && Disjoint(cs)
    modifies ReprOf(cs)
    ensures AllValid(cs)
    ensures forall k | 0 <= k < |cs| :: ViewOf(cs[k]) == UpdatedView(old(ViewOf(cs[k])), t, p)
  {
    var i := 0;
    while i < |cs|
      invariant 0 <= i <= |cs|
      invariant AllValid(cs)
      invariant forall k | 0 <= k < i :: ViewOf(cs[k]) == UpdatedView(old(ViewOf(cs[k])), t, p)
      invariant forall k | i <= k < |cs| :: ViewOf(cs[k]) == old(ViewOf(cs[k]))
    {
      SetChildProperty(cs, i, t, p);
      i := i + 1;
    }
  }

  /** item->translate for child i, by its kind; the other children are left alone. */
  method TranslateChild(cs: seq<Child>, i: nat, d: Point)
    requires Disjoint(cs) && i < |cs| && ChildValid(cs[i])
    modifies Footprint(cs[i])
    ensures ChildValid(cs[i]) && ViewOf(cs[i]) == MovedView(old(ViewOf(cs[i])), d)
    ensures forall k | 0 <= k < |cs| && k != i ::
              (old(ChildValid(cs[k])) ==> ChildValid(cs[k])) && ViewOf(cs[k]) == old(ViewOf(cs[k]))
  {
    TranslateOne(cs[i], d);
    forall k | 0 <= k < |cs| && k != i
      ensures (old(ChildValid(cs[k])) ==> ChildValid(cs[k])) && ViewOf(cs[k]) == old(ViewOf(cs[k]))
    {
      assert Obj(cs[k]) != Obj(cs[i]) && BaseOf(cs[k]) != BaseOf(cs[i]);
      ObjNotBase(cs[k], cs[i]);
      ObjNotBase(cs[i], cs[k]);
      assert Obj(cs[k]) !in Footprint(cs[i]) && BaseOf(cs[k]) !in Footprint(cs[i]);
      Untouched(cs[k]);
    }
  }

  /** item->translate for one child, by its kind. */
  method TranslateOne(c: Child, d: Point)
    requires ChildValid(c)
    modifies Footprint(c)
    ensures ChildValid(c) && ViewOf(c) == MovedView(old(ViewOf(c)), d)
  {
    match c
    case PolygonChild(q) =>
      q.Translate(d);
    case FreeformChild(f) =>
      f.Translate(d);
  }

  /** Item::setProperty on one child; the follow-up is a no-op for both kinds. */
  method SetOne(c: Child, t: PropType, p: Property)
    requires ChildValid(c)
    modifies Footprint(c)
    ensures ChildValid(c) && ViewOf(c) == UpdatedView(old(ViewOf(c)), t, p)
  {
    ReplacedLookup(BaseOf(c).entries, t, p, StrokeWidth);
    BaseOf(c).SetProperty(t, p);
  }

  /**
   * item->setProperty for child i: Item::setProperty, whose follow-up is a no-op for both kinds; the
   * other children are left alone.
   */
  method SetChildProperty(cs: seq<Child>, i: nat, t: PropType, p: Property)
    requires Disjoint(cs) && i < |cs| && ChildValid(cs[i])
    modifies Footprint(cs[i])
    ensures ChildValid(cs[i]) && ViewOf(cs[i]) == UpdatedView(old(ViewOf(cs[i])), t, p)
    ensures forall k | 0 <= k < |cs| && k != i ::
              (old(ChildValid(cs[k])) ==> ChildValid(cs[k])) && ViewOf(cs[k]) == old(ViewOf(cs[k]))
  {
    SetOne(cs[i], t, p);
    forall k | 0 <= k < |cs| && k != i
      ensures (old(ChildValid(cs[k])) ==> ChildValid(cs[k])) && ViewOf(cs[k]) == old(ViewOf(cs[k]))
    {
      assert Obj(cs[k]) != Obj(cs[i]) && BaseOf(cs[k]) != BaseOf(cs[i]);
      ObjNotBase(cs[k], cs[i]);
      assert Obj(cs[k]) !in Footprint(cs[i]) && BaseOf(cs[k]) !in Footprint(cs[i]);
      Untouched(cs[k]);
    }
  }
}
