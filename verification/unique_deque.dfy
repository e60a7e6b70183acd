/**
 * UniqueDeque: a double-ended queue that refuses duplicates. It keeps the elements in a deque and
 * their hash set beside it. "Duplicate" is the element type's own equality, which for a key press
 * compares only the key and not the time stamp; the model therefore takes the equality as a key
 * function: two elements are equal exactly when their keys are.
 */
module UniqueDeques {

  /** The keys of the elements: what the hash set beside the deque holds. */
  function KeysOf<T(==), K>(s: seq<T>, key: T -> K): set<K>
  {
    set x | x in s :: key(x)
  }

  /** No two elements of the sequence are equal under the key. */
  predicate KeyDistinct<T, K(==)>(s: seq<T>, key: T -> K)
  {
    forall i, j | 0 <= i < j < |s| :: key(s[i]) != key(s[j])
  }

  /** The elements the predicate does not select, in their order. */
  function Kept<T>(s: seq<T>, pred: T -> bool): seq<T>
  {
    if s == [] then []
    else Kept(s[..|s| - 1], pred) + (if pred(s[|s| - 1]) then [] else [s[|s| - 1]])
  }

  /** The sequence without its first element whose key is k (std::find then erase). */
  function EraseKey<T, K(==)>(s: seq<T>, k: K, key: T -> K): seq<T>
  {
    if s == [] then []
    else if key(s[0]) == k then s[1..]
    else [s[0]] + EraseKey(s[1..], k, key)
  }

  // ---- facts about the specification functions ----

  /** Distinct keys: the hash set has as many entries as the deque. */
  lemma {:induction false} KeysCard<T, K>(s: seq<T>, key: T -> K)
    requires KeyDistinct(s, key)
    ensures |KeysOf(s, key)| == |s|
  {
    if s != [] {
      var t := s[..|s| - 1];
      KeysCard(t, key);
      assert s == t + [s[|s| - 1]];
      assert KeysOf(s, key) == KeysOf(t, key) + {key(s[|s| - 1])};
      assert key(s[|s| - 1]) !in KeysOf(t, key);
    }
  }

  /** Removing one position of a key-distinct sequence removes exactly that element's key. */
  lemma RemoveAtKeys<T, K>(s: seq<T>, i: nat, key: T -> K)
    requires KeyDistinct(s, key) && i < |s|
    ensures var t := s[..i] + s[i + 1..];
      KeyDistinct(t, key) && KeysOf(t, key) == KeysOf(s, key) - {key(s[i])}
  {
    var t := s[..i] + s[i + 1..];
    assert forall a | 0 <= a < |t| :: t[a] == if a < i then s[a] else s[a + 1];
    forall x | x in t ensures key(x) != key(s[i]) {
      var a :| 0 <= a < |t| && t[a] == x;
    }
    forall y | y in KeysOf(s, key) - {key(s[i])} ensures y in KeysOf(t, key) {
      var x :| x in s && key(x) == y;
      var a :| 0 <= a < |s| && s[a] == x;
      assert x == t[if a < i then a else a - 1];
    }
  }

  /** Appending or prepending an element with a new key keeps the keys distinct. */
  lemma AddedKeys<T, K>(s: seq<T>, v: T, key: T -> K)
    requires KeyDistinct(s, key) && key(v) !in KeysOf(s, key)
    ensures KeyDistinct(s + [v], key) && KeysOf(s + [v], key) == KeysOf(s, key) + {key(v)}
    ensures KeyDistinct([v] + s, key) && KeysOf([v] + s, key) == KeysOf(s, key) + {key(v)}
  {
    forall i | 0 <= i < |s| ensures key(s[i]) != key(v) {
      assert s[i] in s;
    }
  }

  /** erase on a key that is absent changes nothing. */
  lemma {:induction false} EraseKeyAbsent<T, K>(s: seq<T>, k: K, key: T -> K)
    requires k !in KeysOf(s, key)
    ensures EraseKey(s, k, key) == s
  {
    if s != [] {
      assert s == [s[0]] + s[1..];
      assert KeysOf(s[1..], key) <= KeysOf(s, key);
      EraseKeyAbsent(s[1..], k, key);
    }
  }

  /** erase on a present key removes exactly its one element and keeps the others in order. */
  lemma {:induction false} EraseKeyAt<T, K>(s: seq<T>, k: K, key: T -> K, i: nat)
    requires KeyDistinct(s, key) && i < |s| && key(s[i]) == k
    ensures EraseKey(s, k, key) == s[..i] + s[i + 1..]
  {
    if i > 0 {
      var t := s[1..];
      assert key(s[0]) != k;
      EraseKeyAt(t, k, key, i - 1);
      assert s[..i] == [s[0]] + t[..i - 1];
      assert s[i + 1..] == t[i..];
    }
  }

  /** The kept elements are those of the input the predicate rejects, and they stay distinct. */
  lemma {:induction false} KeptMembers<T, K>(s: seq<T>, pred: T -> bool, key: T -> K)
    requires KeyDistinct(s, key)
    ensures forall x | x in Kept(s, pred) :: x in s && !pred(x)
    ensures forall x | x in s && !pred(x) :: x in Kept(s, pred)
    ensures KeyDistinct(Kept(s, pred), key)
    ensures |Kept(s, pred)| <= |s|
  {
    if s != [] {
      var t, v := s[..|s| - 1], s[|s| - 1];
      assert s == t + [v];
      KeptMembers(t, pred, key);
      if !pred(v) {
        var k := Kept(t, pred);
        forall a | 0 <= a < |k| ensures key(k[a]) != key(v) {
          assert k[a] in Kept(t, pred);
          assert k[a] in t;
          var b :| 0 <= b < |t| && t[b] == k[a];
        }
      }
    }
  }

  /** Selecting nothing keeps everything; applying the same erase_if twice removes nothing more. */
  lemma {:induction false} KeptIdempotent<T>(s: seq<T>, pred: T -> bool)
    ensures Kept(Kept(s, pred), pred) == Kept(s, pred)
    ensures (forall x | x in s :: !pred(x)) ==> Kept(s, pred) == s
  {
    if s != [] {
      var t, v := s[..|s| - 1], s[|s| - 1];
      assert s == t + [v];
      assert forall x | x in t :: x in s;
      KeptIdempotent(t, pred);
      var k := Kept(t, pred);
      if !pred(v) {
        assert (k + [v])[..|k + [v]| - 1] == k;
        assert Kept(k + [v], pred) == Kept(k, pred) + [v];
      } else {
        assert v in s;
        assert k + [] == k;
        assert Kept(s, pred) == k;
      }
    }
  }

  // ---- the container ----

  class UniqueDeque<T(==), K(==)> {
    const key: T -> K   // the element type's equality and hash
    var items: seq<T>   // m_deque
    var keys: set<K>    // m_set

    /** The set holds exactly the keys of the deque, and the deque has no two equal elements. */
    ghost predicate Valid()
      reads this
    {
      KeyDistinct(items, key) && keys == KeysOf(items, key)
    }

    constructor (key: T -> K)
      ensures Valid() && this.key == key && items == []
    {
      this.key := key;
      items, keys := [], {};
    }

    /** size: the deque's length, which is also the number of keys in the set. */
    function Size(): (n: nat)
      reads this
      requires Valid()
      ensures n == |items| && n == |keys|
    {
      KeysCard(items, key);
      |items|
    }

    /** empty: no element, and so no key. */
    function Empty(): (b: bool)
      reads this
      requires Valid()
      ensures b <==> items == [] && keys == {}
    {
      |items| == 0
    }

    /** push_back: appends v when no equal element is present; otherwise changes nothing. */
    method PushBack(v: T) returns (added: bool)
      requires Valid()
      modifies this
      ensures Valid() && added == (key(v) !in KeysOf(old(items), key))
      ensures items == if added then old(items) + [v] else old(items)
    {
      if key(v) !in keys {
        AddedKeys(items, v, key);
        keys := keys + {key(v)};
        items := items + [v];
        return true;
      }
      return false;
    }

    /** push_front: prepends v when no equal element is present; otherwise changes nothing. */
    method PushFront(v: T) returns (added: bool)
      requires Valid()
      modifies this
      ensures Valid() && added == (key(v) !in KeysOf(old(items), key))
      ensures items == if added then [v] + old(items) else old(items)
    {
      if key(v) !in keys {
        AddedKeys(items, v, key);
        keys := keys + {key(v)};
        items := [v] + items;
        return true;
      }
      return false;
    }

    /** erase: removes the element equal to v, if any, and reports whether there was one. */
    method Erase(v: T) returns (removed: bool)
      requires Valid()
      modifies this
      ensures Valid() && removed == (key(v) in KeysOf(old(items), key))
      ensures items == EraseKey(old(items), key(v), key)
      ensures keys == old(keys) - {key(v)}
    {
      if key(v) in keys {
        var x :| x in items && key(x) == key(v);
        var i :| 0 <= i < |items| && items[i] == x;
        EraseKeyAt(items, key(v), key, i);
        RemoveAtKeys(items, i, key);
        keys := keys - {key(v)};
        items := items[..i] + items[i + 1..];
        return true;
      }
      EraseKeyAbsent(items, key(v), key);
      return false;
    }

    /** clear: empties the deque and the set. */
    method Clear()
      requires Valid()
      modifies this
      ensures Valid() && items == [] && keys == {}
    {
      items, keys := [], {};
    }

    /**
     * erase_if: walks the deque once, erasing every element the predicate selects from the deque
     * and the set; the cursor stays put after an erase and advances otherwise.
     */
    method EraseIf(pred: T -> bool)
      requires Valid()
      modifies this
      ensures Valid() && items == Kept(old(items), pred)
    {
      ghost var s := items;
      ghost var j := 0;
      var i := 0;
      while i < |items|
        invariant 0 <= j <= |s| && 0 <= i <= |items|
        invariant items[..i] == Kept(s[..j], pred) && items[i..] == s[j..]
        invariant Valid()
        decreases |items| - i
      {
        assert s[..j + 1] == s[..j] + [s[j]];
        assert s[..j + 1][..j] == s[..j];
        if pred(items[i]) {
          RemoveAtKeys(items, i, key);
          keys := keys - {key(items[i])};
          items := items[..i] + items[i + 1..];
        } else {
          i := i + 1;
        }
        j := j + 1;
      }
      assert s[..j] == s;
      assert items == items[..i];
    }
  }
}
