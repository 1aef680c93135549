/** JavaScript `Map`s, whose iteration follows insertion order, and a stable sort. */
module OrderedMaps {
  import opened Seqs

  datatype RawMap<K(==,!new), V> = RawMap(keys: seq<K>, entries: map<K, V>)

  /**
   * A JavaScript Map: its entries together with the order in which the keys
   * were first inserted.
   */
  type OMap<K(==,!new), V> = m: RawMap<K, V> | Distinct(m.keys) && (forall k :: k in m.entries <==> k in m.keys)
    witness RawMap([], map[])

  function Empty<K(==,!new), V>(): (r: OMap<K, V>)
    ensures |r.keys| == 0 && r.entries == map[]
  {
    RawMap([], map[])
  }

  /** `map.set(k, v)`: a new key goes last, an existing key keeps its place. */
  function Put<K(==,!new), V>(m: OMap<K, V>, k: K, v: V): (r: OMap<K, V>)
    ensures r.entries == m.entries[k := v]
    ensures r.keys == if k in m.entries then m.keys else m.keys + [k]
  {
    if k in m.entries then RawMap(m.keys, m.entries[k := v])
    else
      assert Distinct(m.keys + [k]);
      RawMap(m.keys + [k], m.entries[k := v])
  }

  /** `map.delete(k)` */
  function Remove<K(==,!new), V>(m: OMap<K, V>, k: K): (r: OMap<K, V>)
    ensures r.entries == m.entries - {k}
    ensures r.keys == RemoveElement(m.keys, k)
  {
    RawMap(RemoveElement(m.keys, k), m.entries - {k})
  }

  /** `map.values()` in iteration order. */
  function Values<K(==,!new), V>(m: OMap<K, V>): (r: seq<V>)
    ensures |r| == |m.keys|
    ensures forall i :: 0 <= i < |r| ==> r[i] == m.entries[m.keys[i]]
  {
    seq(|m.keys|, i requires 0 <= i < |m.keys| => m.entries[m.keys[i]])
  }

  /** `new Map(entries)`: a repeated key keeps its first place and its last value. */
  function FromEntries<K(==,!new), V>(entries: seq<(K, V)>): (r: OMap<K, V>)
    ensures forall i :: 0 <= i < |entries| ==> entries[i].0 in r.entries
    decreases |entries|
  {
    if |entries| == 0 then Empty()
    else
      var init := FromEntries(entries[..|entries| - 1]);
      var last := entries[|entries| - 1];
      Put(init, last.0, last.1)
  }

  /** Built from entries with distinct keys, the map holds each entry in order and nothing else. */
  lemma {:induction false} FromDistinctEntries<K(!new), V>(entries: seq<(K, V)>)
    requires forall j, k :: 0 <= j < k < |entries| ==> entries[j].0 != entries[k].0
    ensures |FromEntries(entries).keys| == |entries|
    ensures forall k :: 0 <= k < |entries| ==> FromEntries(entries).keys[k] == entries[k].0 && FromEntries(entries).entries[entries[k].0] == entries[k].1
    decreases |entries|
  {
    if |entries| > 0 {
      var init := entries[..|entries| - 1];
      FromDistinctEntries(init);
      var last := entries[|entries| - 1];
      assert last.0 !in FromEntries(init).keys by {
        forall k | 0 <= k < |init| ensures FromEntries(init).keys[k] != last.0 {
          assert init[k] == entries[k];
        }
      }
    }
  }
}

/** A stable insertion sort, the behaviour of `Array#sort` with a consistent comparator. */
module Sorting {

  /** `cmp` is a consistent comparator: antisymmetric and transitive. */
  ghost predicate Consistent<T(!new)>(cmp: (T, T) -> int) {
    (forall a, b :: cmp(a, b) == -cmp(b, a)) &&
    (forall a, b, c :: cmp(a, b) <= 0 && cmp(b, c) <= 0 ==> cmp(a, c) <= 0)
  }

  predicate SortedBy<T>(s: seq<T>, cmp: (T, T) -> int) {
    forall i, j :: 0 <= i < j < |s| ==> cmp(s[i], s[j]) <= 0
  }

  /** Places `x` after every element that does not sort strictly after it. */
  function Insert<T>(x: T, s: seq<T>, cmp: (T, T) -> int): (r: seq<T>)
    ensures multiset(r) == multiset(s) + multiset{x}
    ensures |r| == |s| + 1
  {
    if |s| == 0 then [x]
    else if cmp(x, s[0]) < 0 then [x] + s
    else
      assert s == [s[0]] + s[1..];
      [s[0]] + Insert(x, s[1..], cmp)
  }

  /** `Array#sort(cmp)` on a copy. */
  function SortBy<T>(s: seq<T>, cmp: (T, T) -> int): (r: seq<T>)
    ensures multiset(r) == multiset(s)
    ensures |r| == |s|
  {
    if |s| == 0 then []
    else
      assert s == s[..|s| - 1] + [s[|s| - 1]];
      Insert(s[|s| - 1], SortBy(s[..|s| - 1], cmp), cmp)
  }

  lemma {:induction false} InsertSorted<T(!new)>(x: T, s: seq<T>, cmp: (T, T) -> int)
    requires Consistent(cmp)
    requires SortedBy(s, cmp)
    ensures SortedBy(Insert(x, s, cmp), cmp)
  {
    if |s| > 0 && cmp(x, s[0]) >= 0 {
      InsertSorted(x, s[1..], cmp);
      var rest := Insert(x, s[1..], cmp);
      forall j | 0 <= j < |rest| ensures cmp(s[0], rest[j]) <= 0 {
        assert rest[j] in multiset(rest);
        assert rest[j] in s[1..] || rest[j] == x;
      }
    }
  }

  /** The sorted copy is a permutation in `cmp` order. */
  lemma {:induction false} SortBySorted<T(!new)>(s: seq<T>, cmp: (T, T) -> int)
    requires Consistent(cmp)
    ensures SortedBy(SortBy(s, cmp), cmp)
    decreases |s|
  {
    if |s| > 0 {
      SortBySorted(s[..|s| - 1], cmp);
      InsertSorted(s[|s| - 1], SortBy(s[..|s| - 1], cmp), cmp);
    }
  }
}
