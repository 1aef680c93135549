/**
 * The copy-on-write helpers of the plugin's `miscUtils`. JavaScript object
 * identity is not modelled: "returns the same instance" is stated as
 * "returns an equal value".
 */
module Misc {
  import opened Wrappers
  import opened OrderedMaps

  /** An optional set, `undefined` read as the empty set. */
  function Elements<T>(s: Option<set<T>>): set<T> {
    if s.Some? then s.value else {}
  }

  /** `getRequired`: the stored value, or an error when the key is absent. */
  function GetRequired<K, V>(m: map<K, V>, key: K): (r: Result<V>)
    ensures key in m ==> r == Success(m[key])
    ensures key !in m <==> r.Failure?
  {
    if key in m then Success(m[key]) else Failure("Key is required")
  }

  /** `setWith`: the set itself when it holds the value, else a copy with it added. */
  function SetWith<T(!new)>(s: Option<set<T>>, value: T): (r: set<T>)
    ensures s.Some? && value in s.value ==> r == s.value
    ensures forall x :: x in r <==> x in Elements(s) || x == value
  {
    if s.Some? && value in s.value then s.value else Elements(s) + {value}
  }

  /** `setWithAll`: `setWith` folded over the values, starting from the given set. */
  function SetWithAll<T(!new)>(s: Option<set<T>>, values: seq<T>): (r: Option<set<T>>)
    ensures |values| == 0 ==> r == s
    ensures |values| > 0 ==> r.Some? && forall x :: x in r.value <==> x in Elements(s) || x in values
    decreases |values|
  {
    if |values| == 0 then s
    else
      var r := SetWithAll(Some(SetWith(s, values[0])), values[1..]);
      assert values == [values[0]] + values[1..];
      r
  }

  lemma {:induction false} SubsetOfSameSize<T>(a: set<T>, b: set<T>)
    requires a <= b && |a| == |b|
    ensures a == b
  {
    assert b == a + (b - a);
    assert |b - a| == 0;
  }

  /** `setEquals`: undefined counts as empty; true exactly when both hold the same elements. */
  function SetEquals<T(!new)>(s: Option<set<T>>, other: Option<set<T>>): (r: bool)
    ensures r <==> Elements(s) == Elements(other)
  {
    if |Elements(s)| != |Elements(other)| then false
    else if s.None? || other.None? then true
    else
      var included := forall x :: x in s.value ==> x in other.value;
      if included then SubsetOfSameSize(s.value, other.value); true else false
  }

  /** `mapWith`: the map itself when the key already holds the value, else a copy with key -> value. */
  function MapWith<K(==,!new), V(==)>(m: Option<OMap<K, V>>, key: K, value: V): (r: OMap<K, V>)
    ensures m.Some? && key in m.value.entries && m.value.entries[key] == value ==> r == m.value
    ensures m.Some? ==> r.entries == m.value.entries[key := value]
    ensures m.Some? && key in m.value.entries ==> r.keys == m.value.keys
    ensures m.Some? && key !in m.value.entries ==> r.keys == m.value.keys + [key]
    ensures m.None? ==> r.keys == [key] && r.entries == map[key := value]
  {
    if m.Some? && key in m.value.entries && m.value.entries[key] == value then m.value
    else Put(if m.Some? then m.value else Empty(), key, value)
  }

  /**
   * `objectWith` on an object seen as a map from field names to values: the
   * object itself when the field already holds the value, else a copy with only
   * that field changed.
   */
  function ObjectWith<V(==)>(o: map<string, V>, key: string, value: V): (r: map<string, V>)
    ensures key in o && o[key] == value ==> r == o
    ensures key in r && r[key] == value
    ensures forall k :: k != key ==> (k in r <==> k in o)
    ensures forall k :: k != key && k in o ==> r[k] == o[k]
  {
    if key in o && o[key] == value then o else o[key := value]
  }
}

/** The plugin's iterable helpers. */
module Iterables {

  /** `areArraysEqual`: element-wise strict equality of two arrays. */
  method AreArraysEqual<T(==)>(a: seq<T>, b: seq<T>) returns (r: bool)
    ensures |a| != |b| ==> !r
    ensures r <==> a == b
  {
    if |a| != |b| {
      return false;
    }
    var i := 0;
    while i < |a|
      invariant 0 <= i <= |a|
      invariant a[..i] == b[..i]
    {
      if a[i] != b[i] {
        return false;
      }
      i := i + 1;
    }
    assert a == a[..i] && b == b[..i];
    return true;
  }

  /** `concatIterables`: everything `a` yields, then everything `b` yields. */
  function ConcatIterables<T>(a: seq<T>, b: seq<T>): (r: seq<T>)
    ensures |r| == |a| + |b|
    ensures r[..|a|] == a && r[|a|..] == b
  {
    a + b
  }

  /** `addAllToSet`: a new set holding the elements of both. */
  function AddAllToSet<T(!new)>(a: set<T>, b: seq<T>): (r: set<T>)
    ensures forall x :: x in r <==> x in a || x in b
  {
    a + set x | x in b
  }
}
