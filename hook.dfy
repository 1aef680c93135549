/**
 * The initial state of the interactive screen (`ui/app/state/hook.ts`): the
 * project's dependencies grouped into one item per package.
 */
module Hook {
  import opened Wrappers
  import opened Seqs
  import opened Semver
  import opened Structs
  import opened Externals
  import opened OrderedMaps
  import opened Sorting
  import opened Ranges
  import opened AppStates

  /** One requested descriptor and the descriptor installed for it, if any. */
  datatype Dependency = Dependency(requested: Descriptor, installed: Option<Descriptor>)

  /** The dependencies on package `ident`, in order. */
  function OfIdent(deps: seq<Dependency>, ident: IdentHash): seq<Dependency>
    decreases |deps|
  {
    if |deps| == 0 then []
    else
      var init, last := deps[..|deps| - 1], deps[|deps| - 1];
      OfIdent(init, ident) + (if last.requested.ident == ident then [last] else [])
  }

  /** The packages depended on, each once, in the order first met. */
  function Idents(deps: seq<Dependency>): seq<IdentHash>
    decreases |deps|
  {
    if |deps| == 0 then []
    else
      var init, last := deps[..|deps| - 1], deps[|deps| - 1];
      AddLast(Idents(init), last.requested.ident)
  }

  /** `OfIdent` keeps exactly the dependencies on the package. */
  lemma {:induction false} OfIdentMembers(deps: seq<Dependency>, ident: IdentHash)
    ensures forall d :: d in OfIdent(deps, ident) <==> d in deps && d.requested.ident == ident
    decreases |deps|
  {
    if |deps| > 0 {
      var init, last := deps[..|deps| - 1], deps[|deps| - 1];
      OfIdentMembers(init, ident);
      assert deps == init + [last];
    }
  }

  /** `Idents` lists every package depended on, and each once. */
  lemma {:induction false} IdentsMembers(deps: seq<Dependency>)
    ensures Distinct(Idents(deps))
    ensures forall i :: i in Idents(deps) <==> exists d :: d in deps && d.requested.ident == i
    decreases |deps|
  {
    if |deps| > 0 {
      var init, last := deps[..|deps| - 1], deps[|deps| - 1];
      IdentsMembers(init);
      assert deps == init + [last];
    }
  }

  /** The map lines 25-27 build: each package's dependencies, the packages in the order first met. */
  ghost predicate GroupedAs(deps: seq<Dependency>, m: OMap<IdentHash, seq<Dependency>>) {
    m.keys == Idents(deps) && forall i :: i in m.entries ==> m.entries[i] == OfIdent(deps, i)
  }

  /** Appending one more dependency to its package's list keeps the map grouped. */
  lemma GroupedStep(deps: seq<Dependency>, n: nat, m: OMap<IdentHash, seq<Dependency>>)
    requires n < |deps| && GroupedAs(deps[..n], m)
    ensures
      var h := deps[n].requested.ident;
      GroupedAs(deps[..n + 1], Put(m, h, (if h in m.entries then m.entries[h] else []) + [deps[n]]))
  {
    var init, d, p := deps[..n], deps[n], deps[..n + 1];
    var h := d.requested.ident;
    assert p[..|p| - 1] == init && p[|p| - 1] == d;
    var group := if h in m.entries then m.entries[h] else [];
    var next := Put(m, h, group + [d]);
    assert Idents(p) == AddLast(Idents(init), h);
    forall i | i in next.entries ensures next.entries[i] == OfIdent(p, i) {
      assert OfIdent(p, i) == OfIdent(init, i) + (if h == i then [d] else []);
      if i == h && h !in m.entries {
        EmptyOfIdent(init, h);
      }
    }
  }

  /** A package not depended on has no dependencies. */
  lemma EmptyOfIdent(deps: seq<Dependency>, i: IdentHash)
    requires i !in Idents(deps)
    ensures OfIdent(deps, i) == []
  {
    IdentsMembers(deps);
    OfIdentMembers(deps, i);
    if |OfIdent(deps, i)| > 0 {
      assert OfIdent(deps, i)[0] in OfIdent(deps, i);
    }
  }

  /** Lines 25-27: `getArrayWithDefault(identMap, ident).push(dependency)` for each dependency in turn. */
  method GroupByIdent(deps: seq<Dependency>) returns (m: OMap<IdentHash, seq<Dependency>>)
    ensures GroupedAs(deps, m)
  {
    m := Empty();
    for n := 0 to |deps|
      invariant GroupedAs(deps[..n], m)
    {
      var h := deps[n].requested.ident;
      var group := if h in m.entries then m.entries[h] else [];
      GroupedStep(deps, n, m);
      m := Put(m, h, group + [deps[n]]);
    }
    assert deps[..|deps|] == deps;
  }

  /** The requested descriptors of a group. */
  function Requested(group: seq<Dependency>): (r: seq<Descriptor>)
    ensures |r| == |group| && forall k :: 0 <= k < |group| ==> r[k] == group[k].requested
  {
    seq(|group|, k requires 0 <= k < |group| => group[k].requested)
  }

  /** The installed descriptors of a group, skipping dependencies without one. */
  function Installed(group: seq<Dependency>): (r: seq<Descriptor>)
    ensures forall d :: d in r <==> exists g :: g in group && g.installed == Some(d)
    decreases |group|
  {
    if |group| == 0 then []
    else
      var init, last := group[..|group| - 1], group[|group| - 1];
      assert forall g :: g in group <==> g in init || g == last by {
        assert group == init + [last];
      }
      Installed(init) + (if last.installed.Some? then [last.installed.value] else [])
  }

  /** Lines 33-55: the item made from one non-empty group; its label is the package name, before colouring. */
  function ItemOf(lib: Lib, group: seq<Dependency>): (item: UpdatableItem)
    requires |group| > 0
  {
    var ident := group[0].requested.ident;
    UpdatableItem(ident, SortByMaxVersion(lib, Requested(group)), SortByMaxVersion(lib, Installed(group)), ident, false, Unset, None, None)
  }

  /** The package hashes of a list of items, in order. */
  function Hashes(items: seq<UpdatableItem>): (r: seq<IdentHash>)
    ensures |r| == |items| && forall k :: 0 <= k < |items| ==> r[k] == items[k].identHash
  {
    seq(|items|, k requires 0 <= k < |items| => items[k].identHash)
  }

  /**
   * `item` is the item of one package of `deps`: its requested descriptors
   * are all the package's requested descriptors, by falling maximum version,
   * and its installed descriptors all those installed for it, likewise.
   */
  ghost predicate GroupedItem(lib: Lib, deps: seq<Dependency>, item: UpdatableItem) {
    var group := OfIdent(deps, item.identHash);
    && item.requestedDescriptors == SortByMaxVersion(lib, Requested(group))
    && item.installedDescriptors == SortByMaxVersion(lib, Installed(group))
    && |item.requestedDescriptors| > 0
    && item.selectedRange == Unset && item.meta.None? && item.suggestions.None? && !item.disabled
  }

  /**
   * `groupIdents`: one item per package depended on, in strictly increasing
   * name order, each holding all of that package's dependencies.
   */
  method GroupIdents(lib: Lib, deps: seq<Dependency>) returns (items: seq<UpdatableItem>)
    ensures multiset(Hashes(items)) == multiset(Idents(deps))
    ensures forall j, k :: 0 <= j < k < |items| ==> CompareText(items[j].identHash, items[k].identHash) < 0
    ensures forall k :: 0 <= k < |items| ==> GroupedItem(lib, deps, items[k])
  {
    var m := GroupByIdent(deps);
    // `sortMap` orders the groups by the name of their first dependency,
    // which is the package the map files the group under: ordering the
    // map's keys and taking their groups gives the same list.
    var names := SortBy(m.keys, CompareText);
    SortedNames(m.keys, names);
    forall k | 0 <= k < |names| ensures names[k] in m.entries && |m.entries[names[k]]| > 0 {
      assert names[k] in multiset(m.keys);
      ItemOfGroup(lib, deps, names[k], m.entries[names[k]]);
    }
    var sorted := seq(|names|, k requires 0 <= k < |names| => m.entries[names[k]]);
    items := ItemsOf(lib, sorted);
    forall k | 0 <= k < |items| ensures items[k].identHash == names[k] && GroupedItem(lib, deps, items[k]) {
      ItemOfGroup(lib, deps, names[k], sorted[k]);
    }
    NamedItems(lib, deps, names, items);
  }

  /** Items named after the sorted packages meet `groupIdents`'s promises. */
  lemma NamedItems(lib: Lib, deps: seq<Dependency>, names: seq<IdentHash>, items: seq<UpdatableItem>)
    requires multiset(names) == multiset(Idents(deps))
    requires forall j, k :: 0 <= j < k < |names| ==> CompareText(names[j], names[k]) < 0
    requires |items| == |names| && forall k :: 0 <= k < |items| ==> items[k].identHash == names[k]
    ensures multiset(Hashes(items)) == multiset(Idents(deps))
    ensures forall j, k :: 0 <= j < k < |items| ==> CompareText(items[j].identHash, items[k].identHash) < 0
  {
    assert Hashes(items) == names;
  }

  /** Lines 33-55: `map` over the sorted groups. */
  function ItemsOf(lib: Lib, groups: seq<seq<Dependency>>): (items: seq<UpdatableItem>)
    requires forall k :: 0 <= k < |groups| ==> |groups[k]| > 0
    ensures |items| == |groups| && forall k :: 0 <= k < |groups| ==> items[k] == ItemOf(lib, groups[k])
  {
    seq(|groups|, k requires 0 <= k < |groups| => ItemOf(lib, groups[k]))
  }

  /** The item of a package depended on carries that package's hash and all its dependencies. */
  lemma ItemOfGroup(lib: Lib, deps: seq<Dependency>, i: IdentHash, group: seq<Dependency>)
    requires i in Idents(deps) && group == OfIdent(deps, i)
    ensures |group| > 0
    ensures ItemOf(lib, group).identHash == i && GroupedItem(lib, deps, ItemOf(lib, group))
  {
    IdentsMembers(deps);
    OfIdentMembers(deps, i);
    var d :| d in deps && d.requested.ident == i;
    assert d in group;
    assert group[0] in group;
    var requested := SortByMaxVersion(lib, Requested(group));
    assert |requested| == |multiset(requested)| == |multiset(Requested(group))| == |group|;
  }

  /** Text comparison is a consistent comparator. */
  lemma TextConsistent()
    ensures Consistent(CompareText)
  {
    forall a, b ensures CompareText(a, b) == -CompareText(b, a) {
      TextAntisymmetric(a, b);
    }
    forall a, b, c | CompareText(a, b) <= 0 && CompareText(b, c) <= 0 ensures CompareText(a, c) <= 0 {
      TextTransitive(a, b, c);
    }
  }

  /** Sorting distinct names orders them strictly. */
  lemma SortedNames(keys: seq<IdentHash>, names: seq<IdentHash>)
    requires Distinct(keys) && names == SortBy(keys, CompareText)
    ensures forall j, k :: 0 <= j < k < |names| ==> CompareText(names[j], names[k]) < 0
  {
    TextConsistent();
    SortBySorted(keys, CompareText);
    DistinctPermutation(keys, names);
    forall j, k | 0 <= j < k < |names| ensures CompareText(names[j], names[k]) < 0 {
      TextAntisymmetric(names[j], names[k]);
    }
  }

  /** A permutation of a list without repetitions has none either. */
  lemma DistinctPermutation<T>(s: seq<T>, t: seq<T>)
    requires Distinct(s) && multiset(t) == multiset(s)
    ensures Distinct(t)
  {
    forall j, k | 0 <= j < k < |t| ensures t[j] != t[k] {
      if t[j] == t[k] {
        assert multiset(t)[t[j]] >= 2 by {
          assert t == t[..j] + [t[j]] + t[j + 1..k] + [t[k]] + t[k + 1..];
        }
        DistinctCount(s, t[j]);
        assert false;
      }
    }
  }

  /** In a list without repetitions, each value occurs at most once. */
  lemma {:induction false} DistinctCount<T>(s: seq<T>, x: T)
    requires Distinct(s)
    ensures multiset(s)[x] <= 1
    decreases |s|
  {
    if |s| > 0 {
      assert s == [s[0]] + s[1..];
      DistinctCount(s[1..], x);
      if s[0] == x {
        assert x !in s[1..];
      }
    }
  }

  /** Line 11: each item under its own hash. */
  function Entries(items: seq<UpdatableItem>): (r: seq<(IdentHash, UpdatableItem)>)
    ensures |r| == |items| && forall k :: 0 <= k < |items| ==> r[k] == (items[k].identHash, items[k])
  {
    seq(|items|, k requires 0 <= k < |items| => (items[k].identHash, items[k]))
  }

  /** `initAppState`, lines 9-17: the package hashes in item order and the map from each hash to its item. */
  function InitAppState(items: seq<UpdatableItem>): AppState {
    AppState(FromEntries(Entries(items)), Hashes(items), {}, {}, Empty(), Empty(), None, None, None, None)
  }

  /**
   * For items with distinct hashes, the map holds every item under its own
   * hash, in item order, and nothing else; nothing is selected, fetched or
   * being fetched yet.
   */
  lemma InitAppStateMap(items: seq<UpdatableItem>)
    requires forall j, k :: 0 <= j < k < |items| ==> items[j].identHash != items[k].identHash
    ensures InitAppState(items).itemMap.keys == InitAppState(items).itemOrder == Hashes(items)
    ensures forall k :: 0 <= k < |items| ==> InitAppState(items).itemMap.entries[items[k].identHash] == items[k]
    ensures InitAppState(items).selectedAndRequired.keys == [] && InitAppState(items).included.keys == []
  {
    FromDistinctEntries(Entries(items));
  }

  /**
   * The state `useAppState` starts from is one the reducer accepts: every
   * item is filed under its own hash and has a requested descriptor.
   */
  lemma InitialWellFormed(lib: Lib, deps: seq<Dependency>, items: seq<UpdatableItem>)
    requires forall j, k :: 0 <= j < k < |items| ==> CompareText(items[j].identHash, items[k].identHash) < 0
    requires forall k :: 0 <= k < |items| ==> GroupedItem(lib, deps, items[k])
    ensures WellFormed(InitAppState(items).itemMap)
  {
    forall j, k | 0 <= j < k < |items| ensures items[j].identHash != items[k].identHash {
      TextAntisymmetric(items[j].identHash, items[k].identHash);
    }
    InitAppStateMap(items);
    forall i | i in InitAppState(items).itemMap.entries
      ensures InitAppState(items).itemMap.entries[i].identHash == i
    {
      var k :| 0 <= k < |items| && Hashes(items)[k] == i;
    }
  }
}
