/**
 * The selection page (`ui/app/page-select.tsx`): the three lists the items
 * are shown in, which item of a list is active, when suggestions are
 * requested, and how the page follows an item that moved to another list.
 */
module PageSelect {
  import opened Wrappers
  import opened Semver
  import opened Structs
  import opened OrderedMaps
  import opened Seqs
  import opened Misc
  import opened AppStates
  import opened Reducer

  /** The three lists of the page, in screen order (lines 23-29). */
  datatype ActiveList = UpdatableItems | SelectedItems | IncludedItems

  /** Every identifier in `itemOrder` has an item, as `itemMap.get(id)!` on line 57 relies on. */
  predicate ItemsPresent(state: AppState) {
    forall k :: 0 <= k < |state.itemOrder| ==> state.itemOrder[k] in state.itemMap.entries
  }

  /** Line 57: the items in order. */
  function Items(state: AppState): (r: seq<UpdatableItem>)
    requires ItemsPresent(state)
    ensures |r| == |state.itemOrder|
    ensures forall k :: 0 <= k < |r| ==> r[k] == state.itemMap.entries[state.itemOrder[k]]
  {
    seq(|state.itemOrder|, k requires 0 <= k < |state.itemOrder| => state.itemMap.entries[state.itemOrder[k]])
  }

  /** Lines 212-214: the user chose a range for the item (`selectedRange != null`). */
  predicate IsSelected(state: AppState, ident: IdentHash) {
    ident in state.itemMap.entries && state.itemMap.entries[ident].selectedRange.IsSet()
  }

  /** Lines 220-222: another package includes it and the user did not choose a range. */
  predicate IsIncluded(state: AppState, ident: IdentHash) {
    !IsSelected(state, ident) && ident in state.included.entries
  }

  /** Lines 216-218: selected or required, and not included. */
  predicate IsSelectedOrRequired(state: AppState, ident: IdentHash) {
    ident in state.selectedAndRequired.entries && !IsIncluded(state, ident)
  }

  /** The filter of each list (lines 59-66). */
  predicate InList(state: AppState, list: ActiveList, ident: IdentHash) {
    match list
    case UpdatableItems => !IsSelectedOrRequired(state, ident) && !IsIncluded(state, ident)
    case SelectedItems => IsSelectedOrRequired(state, ident)
    case IncludedItems => IsIncluded(state, ident)
  }

  function Member(state: AppState, list: ActiveList): UpdatableItem -> bool {
    (item: UpdatableItem) => InList(state, list, item.identHash)
  }

  /** Lines 59-66: the items of one list, in item order. */
  function ItemList(state: AppState, list: ActiveList): seq<UpdatableItem>
    requires ItemsPresent(state)
  {
    Filter(Items(state), Member(state, list))
  }

  /** Each identifier passes exactly one of the three filters. */
  lemma OneList(state: AppState, ident: IdentHash)
    ensures InList(state, UpdatableItems, ident) <==> !InList(state, SelectedItems, ident) && !InList(state, IncludedItems, ident)
    ensures !(InList(state, SelectedItems, ident) && InList(state, IncludedItems, ident))
  {
  }

  /** Filtering by the three lists splits any sequence of items. */
  lemma FilterPartition(state: AppState, s: seq<UpdatableItem>)
    ensures multiset(Filter(s, Member(state, UpdatableItems))) + multiset(Filter(s, Member(state, SelectedItems))) +
      multiset(Filter(s, Member(state, IncludedItems))) == multiset(s)
  {
    var u, se, i := Member(state, UpdatableItems), Member(state, SelectedItems), Member(state, IncludedItems);
    forall k | 0 <= k < |s| ensures (u(s[k]) <==> !se(s[k]) && !i(s[k])) && !(se(s[k]) && i(s[k])) {
      OneList(state, s[k].identHash);
    }
    FilterSplit3(s, u, se, i);
  }

  /** Lines 59-66: every item lands in exactly one of the three lists. */
  lemma ListsPartition(state: AppState)
    requires ItemsPresent(state)
    ensures multiset(ItemList(state, UpdatableItems)) + multiset(ItemList(state, SelectedItems)) +
      multiset(ItemList(state, IncludedItems)) == multiset(Items(state))
  {
    FilterPartition(state, Items(state));
  }

  /** `findIndex` on line 194: the first item whose name sorts after `name`, or -1. */
  function FirstAfter(items: seq<UpdatableItem>, name: string): (r: int)
    ensures -1 <= r < |items|
    ensures r == -1 <==> forall k :: 0 <= k < |items| ==> CompareText(items[k].identHash, name) <= 0
    ensures r >= 0 ==> CompareText(items[r].identHash, name) > 0
    ensures r >= 0 ==> forall k :: 0 <= k < r ==> CompareText(items[k].identHash, name) <= 0
  {
    if |items| == 0 then -1
    else if CompareText(items[0].identHash, name) > 0 then 0
    else
      var r := FirstAfter(items[1..], name);
      if r == -1 then -1 else r + 1
  }

  /** Lines 194-207: the index chosen for a stored name in a non-empty list. */
  function ActiveIndex(items: seq<UpdatableItem>, name: string): (i: nat)
    requires |items| > 0
    ensures i < |items|
  {
    var after := FirstAfter(items, name);
    if after == -1 then |items| - 1
    else if after == 0 then 0
    else after - 1
  }

  /** The items' names strictly increase, as `groupIdents` orders them. */
  predicate SortedByName(items: seq<UpdatableItem>) {
    forall j, k :: 0 <= j < k < |items| ==> CompareText(items[j].identHash, items[k].identHash) < 0
  }

  /**
   * The chosen item is the last one whose name does not sort after the
   * stored name, or the first item when every name sorts after it.
   */
  lemma ActiveIndexNearest(items: seq<UpdatableItem>, name: string)
    requires |items| > 0 && SortedByName(items)
    ensures var i := ActiveIndex(items, name);
      (i > 0 || CompareText(items[0].identHash, name) <= 0 ==> CompareText(items[i].identHash, name) <= 0) &&
      forall k :: i < k < |items| ==> CompareText(items[k].identHash, name) > 0
  {
    var after := FirstAfter(items, name);
    var i := ActiveIndex(items, name);
    if after >= 0 {
      AfterFirstAfter(items, name, after);
      assert i == after || i == after - 1;
      forall k | i < k < |items| ensures CompareText(items[k].identHash, name) > 0 {
        if k == after {
          assert CompareText(items[after].identHash, name) > 0;
        } else {
          assert after < k;
        }
      }
    }
  }

  /** In a sorted list, every item after one that sorts after `name` sorts after it too. */
  lemma AfterFirstAfter(items: seq<UpdatableItem>, name: string, after: nat)
    requires SortedByName(items) && after < |items| && CompareText(items[after].identHash, name) > 0
    ensures forall k :: after < k < |items| ==> CompareText(items[k].identHash, name) > 0
  {
    forall k | after < k < |items| ensures CompareText(items[k].identHash, name) > 0 {
      TextAntisymmetric(items[k].identHash, items[after].identHash);
      if CompareText(items[k].identHash, name) <= 0 {
        TextTransitive(items[after].identHash, items[k].identHash, name);
      }
    }
  }

  /** An item still in the list stays active. */
  lemma ActiveIndexStays(items: seq<UpdatableItem>, j: nat)
    requires j < |items| && SortedByName(items)
    ensures ActiveIndex(items, items[j].identHash) == j
  {
    var name := items[j].identHash;
    var i := ActiveIndex(items, name);
    TextAntisymmetric(name, name);
    ActiveIndexNearest(items, name);
    if i > j {
      TextAntisymmetric(items[j].identHash, items[i].identHash);
    }
  }

  /**
   * Lines 180-210, `getActiveIdent`: nothing for an empty list, the first
   * item when the list has no stored identifier, else the item nearest the
   * stored one by name. `itemMap.get(start)!` throws for an unknown identifier.
   */
  function GetActiveIdent(items: seq<UpdatableItem>, start: Option<IdentHash>, itemMap: OMap<IdentHash, UpdatableItem>): (r: Option<IdentHash>)
    requires start.Some? ==> start.value in itemMap.entries
    ensures r.None? <==> |items| == 0
    ensures r.Some? && start.None? ==> r.value == items[0].identHash
    ensures r.Some? && start.Some? ==> r.value == items[ActiveIndex(items, itemMap.entries[start.value].identHash)].identHash
  {
    if |items| == 0 then None
    else if start.None? then Some(items[0].identHash)
    else
      var name := itemMap.entries[start.value].identHash;
      Some(items[ActiveIndex(items, name)].identHash)
  }

  /** The active list and, per list, the identifier last made active in it (lines 31-34). */
  datatype ListState = ListState(activeList: ActiveList, activeIdents: map<ActiveList, IdentHash>)

  /** Every stored identifier names an item. */
  predicate Tracks(state: AppState, ls: ListState) {
    forall l :: l in ls.activeIdents ==> ls.activeIdents[l] in state.itemMap.entries
  }

  /** Line 68: the active identifier of one list. */
  function ActiveIdentOf(state: AppState, ls: ListState, list: ActiveList): Option<IdentHash>
    requires ItemsPresent(state) && Tracks(state, ls)
  {
    GetActiveIdent(ItemList(state, list), if list in ls.activeIdents then Some(ls.activeIdents[list]) else None, state.itemMap)
  }

  /** Lines 88-96: suggestions are requested for the active identifier unless fetched or being fetched. */
  predicate ShouldFetch(state: AppState, activeIdent: Option<IdentHash>) {
    activeIdent.Some? && activeIdent.value !in state.suggestionsFetched && activeIdent.value !in Elements(state.suggestionsFetching)
  }

  /** The request changes the state, and once the reducer has recorded it the page does not ask again. */
  lemma FetchRequestedOnce(state: AppState, ident: IdentHash)
    requires ShouldFetch(state, Some(ident))
    ensures FetchRequested(state, ident) != state
    ensures !ShouldFetch(FetchRequested(state, ident), Some(ident))
  {
    assert ident in Elements(FetchRequested(state, ident).suggestionsFetching);
  }

  /** `lists.find(...)` on lines 78-80: the list holding `ident`. */
  function Holding(state: AppState, ident: IdentHash): (r: ActiveList)
    ensures InList(state, r, ident)
  {
    if InList(state, UpdatableItems, ident) then UpdatableItems
    else if InList(state, SelectedItems, ident) then SelectedItems
    else IncludedItems
  }

  /** An item of `itemOrder` is found in the list `Holding` names, and in no other. */
  lemma HoldingFinds(state: AppState, k: nat)
    requires ItemsPresent(state) && WellFormed(state.itemMap) && k < |state.itemOrder|
    ensures var ident := state.itemOrder[k];
      forall l :: state.itemMap.entries[ident] in ItemList(state, l) <==> l == Holding(state, ident)
  {
    var ident := state.itemOrder[k];
    var item := state.itemMap.entries[ident];
    assert Items(state)[k] == item;
    OneList(state, ident);
  }

  /**
   * Lines 73-86 as written: once the stored item is no longer the active one,
   * the page switches to the list holding it, but records for that list the
   * identifier that replaced the item in the old list.
   */
  function FollowAsWritten(state: AppState, ls: ListState, stored: Option<IdentHash>): (r: ListState)
    requires ItemsPresent(state) && WellFormed(state.itemMap) && Tracks(state, ls)
    ensures Tracks(state, r)
  {
    var active := ActiveIdentOf(state, ls, ls.activeList);
    if active == stored || stored.None? then ls
    else
      var list := Holding(state, stored.value);
      ActiveIdentKnown(state, ls, ls.activeList);
      // a null identifier stored for a list reads back as no identifier
      ListState(list, if active.Some? then ls.activeIdents[list := active.value] else ls.activeIdents - {list})
  }

  /** The active identifier of a list is that of one of its items. */
  lemma ActiveIdentKnown(state: AppState, ls: ListState, list: ActiveList)
    requires ItemsPresent(state) && WellFormed(state.itemMap) && Tracks(state, ls)
    ensures var a := ActiveIdentOf(state, ls, list);
      a.Some? ==> a.value in state.itemMap.entries
  {
    var items := ItemList(state, list);
    var a := ActiveIdentOf(state, ls, list);
    if a.Some? {
      var i :| 0 <= i < |items| && items[i].identHash == a.value;
      assert items[i] in Items(state);
    }
  }

  /** Lines 73-86 as intended: the page switches to the list holding the stored item and makes it active there. */
  function Follow(state: AppState, ls: ListState, stored: Option<IdentHash>): (r: ListState)
    requires ItemsPresent(state) && Tracks(state, ls)
    requires stored.Some? ==> stored.value in state.itemMap.entries
    ensures Tracks(state, r)
  {
    var active := ActiveIdentOf(state, ls, ls.activeList);
    if active == stored || stored.None? then ls
    else
      var list := Holding(state, stored.value);
      ListState(list, ls.activeIdents[list := stored.value])
  }

  /**
   * The page's own state: the list state (line 52) and the identifier the
   * user last made active (line 71), which the layout effect follows.
   */
  class SelectPage {
    var listState: ListState
    var storedActiveIdent: Option<IdentHash>

    /** Stored identifiers all name items of `state`. */
    predicate Valid(state: AppState)
      reads this
    {
      Tracks(state, listState) && (storedActiveIdent.Some? ==> storedActiveIdent.value in state.itemMap.entries)
    }

    /** Lines 52-55 and 71: the updatable list is active and the stored identifier is its active one. */
    constructor(state: AppState)
      requires ItemsPresent(state) && WellFormed(state.itemMap)
      ensures Valid(state)
      ensures listState == ListState(UpdatableItems, map[])
      ensures storedActiveIdent == ActiveIdentOf(state, ListState(UpdatableItems, map[]), UpdatableItems)
    {
      listState := ListState(UpdatableItems, map[]);
      ActiveIdentKnown(state, ListState(UpdatableItems, map[]), UpdatableItems);
      storedActiveIdent := ActiveIdentOf(state, ListState(UpdatableItems, map[]), UpdatableItems);
    }

    /** Lines 120-126: the user moved to another item of the active list. */
    method UpdateActiveItem(state: AppState, ident: IdentHash)
      requires Valid(state) && ident in state.itemMap.entries
      modifies this
      ensures Valid(state)
      ensures storedActiveIdent == Some(ident)
      ensures listState == old(listState).(activeIdents := old(listState.activeIdents)[old(listState.activeList) := ident])
    {
      storedActiveIdent := Some(ident);
      listState := listState.(activeIdents := listState.activeIdents[listState.activeList := ident]);
    }

    /** Lines 98-109: the user moved to another list; its active identifier is stored. */
    method ChangeList(state: AppState, list: ActiveList)
      requires ItemsPresent(state) && WellFormed(state.itemMap) && Valid(state)
      modifies this
      ensures Valid(state)
      ensures storedActiveIdent == ActiveIdentOf(state, old(listState), list)
      ensures listState == old(listState).(activeList := list)
    {
      ActiveIdentKnown(state, listState, list);
      storedActiveIdent := ActiveIdentOf(state, listState, list);
      listState := listState.(activeList := list);
    }

    /** Lines 73-86, corrected: follow the stored item to the list now holding it. */
    method FollowMovedItem(state: AppState)
      requires ItemsPresent(state) && Valid(state)
      modifies this
      ensures Valid(state)
      ensures listState == Follow(state, old(listState), storedActiveIdent)
      ensures storedActiveIdent == old(storedActiveIdent)
    {
      listState := Follow(state, listState, storedActiveIdent);
    }
  }

  /** With items in name order, the corrected effect makes the moved item the active one. */
  lemma FollowLands(state: AppState, ls: ListState, k: nat)
    requires ItemsPresent(state) && Tracks(state, ls) && WellFormed(state.itemMap)
    requires k < |state.itemOrder| && SortedByName(Items(state))
    ensures var stored := state.itemOrder[k];
      var r := Follow(state, ls, Some(stored));
      ActiveIdentOf(state, r, r.activeList) == Some(stored)
  {
    var stored := state.itemOrder[k];
    var r := Follow(state, ls, Some(stored));
    if ActiveIdentOf(state, ls, ls.activeList) != Some(stored) {
      var items := ItemList(state, r.activeList);
      var item := state.itemMap.entries[stored];
      HoldingFinds(state, k);
      assert item in items;
      var j :| 0 <= j < |items| && items[j] == item;
      FilterSorted(state, Items(state), Member(state, r.activeList));
      ActiveIndexStays(items, j);
    }
  }

  /** A filtered list keeps the name order. */
  lemma {:induction false} FilterSorted(state: AppState, s: seq<UpdatableItem>, p: UpdatableItem -> bool)
    requires SortedByName(s)
    ensures SortedByName(Filter(s, p))
  {
    if |s| > 0 {
      assert s == [s[0]] + s[1..];
      FilterSorted(state, s[1..], p);
      var rest := Filter(s[1..], p);
      forall k | 0 <= k < |rest| ensures CompareText(s[0].identHash, rest[k].identHash) < 0 {
        assert rest[k] in s[1..];
      }
    }
  }

  /** An item of the screen: unselected unless `chosen`. */
  function ScreenItem(ident: IdentHash, chosen: bool): UpdatableItem {
    UpdatableItem(ident, [Descriptor(ident, "^1.0.0")], [], ident, false, if chosen then Chosen("^2.0.0") else Unset, None, None)
  }

  /**
   * Items `a`, `aa` and `b`; the user has just chosen ranges for `aa` and
   * `b`, which moves `b`, the active item, from the updatable list to the
   * selected one.
   */
  function MovedState(): AppState {
    var info := SelectionInfo(Empty(), None, None, None, false, false);
    AppState(
      RawMap(["a", "aa", "b"], map["a" := ScreenItem("a", false), "aa" := ScreenItem("aa", true), "b" := ScreenItem("b", true)]),
      ["a", "aa", "b"], {}, {}, RawMap(["aa", "b"], map["aa" := info, "b" := info]), Empty(), None, None, None, None)
  }

  /** The items of `MovedState`, in order. */
  lemma MovedItems()
    ensures ItemsPresent(MovedState()) && WellFormed(MovedState().itemMap)
    ensures Items(MovedState()) == [ScreenItem("a", false), ScreenItem("aa", true), ScreenItem("b", true)]
  {
  }

  /** Filtering a three-item sequence. */
  lemma Filter3(s: seq<UpdatableItem>, p: UpdatableItem -> bool)
    requires |s| == 3
    ensures Filter(s, p) == (if p(s[0]) then [s[0]] else []) + ((if p(s[1]) then [s[1]] else []) + (if p(s[2]) then [s[2]] else []))
  {
    var t := s[1..];
    assert t[1..][1..] == [];
    assert Filter(t, p) == (if p(s[1]) then [s[1]] else []) + (if p(s[2]) then [s[2]] else []);
  }

  /** `a` is updatable; `aa` and `b` are selected. */
  lemma MovedMembership()
    ensures InList(MovedState(), UpdatableItems, "a") && !InList(MovedState(), SelectedItems, "a")
    ensures !InList(MovedState(), UpdatableItems, "aa") && InList(MovedState(), SelectedItems, "aa")
    ensures !InList(MovedState(), UpdatableItems, "b") && InList(MovedState(), SelectedItems, "b")
  {
    var state := MovedState();
    assert state.included.entries == map[];
    assert "a" !in state.selectedAndRequired.entries && "aa" in state.selectedAndRequired.entries && "b" in state.selectedAndRequired.entries;
    assert !IsIncluded(state, "a") && !IsIncluded(state, "aa") && !IsIncluded(state, "b");
  }

  /** Only `a` is left in the updatable list. */
  lemma MovedUpdatable()
    ensures ItemsPresent(MovedState())
    ensures ItemList(MovedState(), UpdatableItems) == [ScreenItem("a", false)]
  {
    MovedItems();
    MovedMembership();
    var state := MovedState();
    Filter3(Items(state), Member(state, UpdatableItems));
    assert ItemList(state, UpdatableItems) == [ScreenItem("a", false)] + ([] + []);
  }

  /** `aa` and `b` are in the selected list. */
  lemma MovedSelected()
    ensures ItemsPresent(MovedState())
    ensures ItemList(MovedState(), SelectedItems) == [ScreenItem("aa", true), ScreenItem("b", true)]
  {
    MovedItems();
    MovedMembership();
    var state := MovedState();
    SelectedOfThree(state, ScreenItem("a", false), ScreenItem("aa", true), ScreenItem("b", true));
  }

  /** Filtering three items for the selected list when only the last two are selected. */
  lemma SelectedOfThree(state: AppState, x: UpdatableItem, y: UpdatableItem, z: UpdatableItem)
    requires ItemsPresent(state) && Items(state) == [x, y, z]
    requires !InList(state, SelectedItems, x.identHash) && InList(state, SelectedItems, y.identHash) && InList(state, SelectedItems, z.identHash)
    ensures ItemList(state, SelectedItems) == [y, z]
  {
    Filter3(Items(state), Member(state, SelectedItems));
    assert ItemList(state, SelectedItems) == [] + ([y] + [z]);
  }

  /** Before the effect, the updatable list shows `a`, the item that took the place of `b`. */
  lemma MovedActive()
    ensures ItemsPresent(MovedState()) && Tracks(MovedState(), ListState(UpdatableItems, map[UpdatableItems := "b"]))
    ensures ActiveIdentOf(MovedState(), ListState(UpdatableItems, map[UpdatableItems := "b"]), UpdatableItems) == Some("a")
  {
    MovedUpdatable();
    assert MovedState().itemMap.entries["b"].identHash == "b";
    assert CompareText("a", "b") < 0;
    assert FirstAfter([ScreenItem("a", false)], "b") == -1;
  }

  /** In the selected list, `a` as the stored identifier makes `aa` active. */
  lemma MovedFollowed()
    ensures ItemsPresent(MovedState()) && Tracks(MovedState(), ListState(SelectedItems, map[UpdatableItems := "b", SelectedItems := "a"]))
    ensures ActiveIdentOf(MovedState(), ListState(SelectedItems, map[UpdatableItems := "b", SelectedItems := "a"]), SelectedItems) == Some("aa")
  {
    MovedSelected();
    assert MovedState().itemMap.entries["a"].identHash == "a";
    assert CompareText("aa", "a") > 0;
    assert FirstAfter([ScreenItem("aa", true), ScreenItem("b", true)], "a") == 0;
  }

  /** As written, the page ends up on `aa` instead of the moved item `b`. */
  lemma FollowAsWrittenMisses()
    ensures var state := MovedState();
      var ls := ListState(UpdatableItems, map[UpdatableItems := "b"]);
      ItemsPresent(state) && WellFormed(state.itemMap) && Tracks(state, ls) &&
      var r := FollowAsWritten(state, ls, Some("b"));
      r.activeList == SelectedItems && ActiveIdentOf(state, r, r.activeList) == Some("aa")
  {
    MovedItems();
    MovedActive();
    MovedMembership();
    var ls := ListState(UpdatableItems, map[UpdatableItems := "b"]);
    assert Holding(MovedState(), "b") == SelectedItems;
    assert FollowAsWritten(MovedState(), ls, Some("b")) == ListState(SelectedItems, map[UpdatableItems := "b", SelectedItems := "a"]);
    MovedFollowed();
  }
}
