/**
 * The scrolling list of the selection screen (`ui/elements/select-list.tsx`):
 * which slice of the values is shown when they do not all fit.
 */
module SelectList {
  import opened Wrappers

  /** `values.indexOf(value)`, with `None` for -1. */
  function IndexOf<T(==)>(values: seq<T>, value: T): (r: Option<nat>)
    ensures r.None? <==> value !in values
    ensures r.Some? ==> r.value < |values| && values[r.value] == value && value !in values[..r.value]
  {
    if |values| == 0 then None
    else if values[0] == value then Some(0)
    else
      match IndexOf(values[1..], value)
      case None => None
      case Some(i) =>
        assert values[..i + 1] == [values[0]] + values[1..][..i];
        Some(i + 1)
  }

  /** Lines 57-61: where the window should start, before it is moved into range. */
  function WantedStart(previous: int, active: Option<nat>, numberOfItems: nat): int {
    // `Math.floor((numberOfItems - 1) / 2)`: Euclidean division by 2 rounds down too
    if active.Some? then active.value - (numberOfItems - 1) / 2 else previous
  }

  /** Lines 62-66: the start moved to the nearest position where the whole window fits. */
  function Clamp(fromIndex: int, len: nat, numberOfItems: nat): (r: int)
    requires numberOfItems < len
    ensures 0 <= r <= len - numberOfItems
    ensures 0 <= fromIndex <= len - numberOfItems ==> r == fromIndex
    ensures fromIndex < 0 ==> r == 0
    ensures fromIndex > len - numberOfItems ==> r == len - numberOfItems
  {
    if fromIndex < 0 then 0
    else if fromIndex + numberOfItems > len then len - numberOfItems
    else fromIndex
  }

  /** Lines 55-66: the first visible index. */
  function Start(previous: int, active: Option<nat>, len: nat, numberOfItems: nat): int
    requires numberOfItems < len
  {
    Clamp(WantedStart(previous, active, numberOfItems), len, numberOfItems)
  }

  /** A found active value is always on screen, once the list has room for at least one line. */
  lemma ActiveVisible(previous: int, active: nat, len: nat, numberOfItems: nat)
    requires 0 < numberOfItems < len && active < len
    ensures Start(previous, Some(active), len, numberOfItems) <= active < Start(previous, Some(active), len, numberOfItems) + numberOfItems
  {
    var padding := (numberOfItems - 1) / 2;
    assert 0 <= padding < numberOfItems;
  }

  /** Away from both ends, the active value sits `⌊(n - 1) / 2⌋` lines below the top of the window. */
  lemma ActiveCentred(previous: int, active: nat, len: nat, numberOfItems: nat)
    requires 0 < numberOfItems < len && active < len
    requires (numberOfItems - 1) / 2 <= active <= len - numberOfItems + (numberOfItems - 1) / 2
    ensures active - Start(previous, Some(active), len, numberOfItems) == (numberOfItems - 1) / 2
  {
  }

  /** Without an active value the stored start is reused, so the window stays put from one render to the next. */
  lemma StartStable(previous: int, len: nat, numberOfItems: nat)
    requires numberOfItems < len
    ensures var s := Start(previous, None, len, numberOfItems);
      Start(s, None, len, numberOfItems) == s
  {
  }

  /** The index of the window's first line, kept between renders (`previousFromIndex`). */
  class ScrollWindow {
    /** `previousFromIndex.current` */
    var previousFromIndex: int

    constructor()
      ensures previousFromIndex == 0
    {
      previousFromIndex := 0;
    }

    /**
     * Lines 30 and 50-71: the values shown for the active value `value`
     * (the first value when none is given). When they do not all fit, the
     * window is centred on the active value, or stays where it was when that
     * value is not in the list, and its start is stored for the next render.
     */
    method VisibleItems<T(==)>(values: seq<T>, value: Option<T>, numberOfItems: nat) returns (visible: seq<T>)
      modifies this
      ensures |values| <= numberOfItems ==> visible == values && previousFromIndex == old(previousFromIndex)
      ensures |values| > numberOfItems ==>
        var active := IndexOf(values, if value.Some? then value.value else values[0]);
        previousFromIndex == Start(old(previousFromIndex), active, |values|, numberOfItems) &&
        0 <= previousFromIndex <= |values| - numberOfItems &&
        visible == values[previousFromIndex..previousFromIndex + numberOfItems]
      ensures |values| > numberOfItems > 0 && value.Some? && value.value in values ==> value.value in visible
      ensures |values| > numberOfItems > 0 && value.None? ==> values[0] in visible
    {
      if |values| <= numberOfItems {
        return values;
      }
      var selected := if value.Some? then value.value else values[0];
      var activeIndex := IndexOf(values, selected);
      var fromIndex := previousFromIndex;
      if activeIndex.Some? && numberOfItems > 0 {
        ActiveVisible(previousFromIndex, activeIndex.value, |values|, numberOfItems);
      }
      if activeIndex.Some? {
        var padding := (numberOfItems - 1) / 2;
        fromIndex := activeIndex.value - padding;
      }
      if fromIndex < 0 {
        fromIndex := 0;
      } else if fromIndex + numberOfItems > |values| {
        fromIndex := |values| - numberOfItems;
      }
      previousFromIndex := fromIndex;
      visible := values[fromIndex..fromIndex + numberOfItems];
    }
  }
}
