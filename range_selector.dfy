/**
 * The box in which the user picks a range for the active item
 * (`ui/app/range-selector.tsx`): what it shows, the options it offers, which
 * of them may be picked and which one is highlighted.
 */
module RangeSelector {
  import opened Wrappers
  import opened Semver
  import opened Structs
  import opened Externals
  import opened OrderedMaps
  import opened Seqs
  import opened AppStates
  import Status

  /** One option: `null` for keeping the current range, or a suggested range, and whether it may be picked. */
  datatype RangeOption = RangeOption(value: Option<string>, disabled: bool)

  /** What the box shows (labels and layout are not modelled). */
  datatype Shown =
    | NoItem                                        // lines 36-48
    | DefinedBy(includers: seq<IdentHash>)          // lines 50-67
    | Loading                                       // lines 75-87
    | NoSuggestions(current: string)                // lines 89-106
    | Choose(options: seq<RangeOption>, active: nat) // lines 108-152

  /** Line 108: the selection's valid range when there is one, else the inclusion's. */
  function ValidRangeOf(selection: Option<SelectionInfo>, inclusion: Option<InclusionInfo>): (r: Option<Range>)
    ensures selection.Some? && selection.value.validRange.Some? ==> r == selection.value.validRange
    ensures (selection.None? || selection.value.validRange.None?) && inclusion.Some? ==> r == inclusion.value.validRange
    ensures (selection.None? || selection.value.validRange.None?) && inclusion.None? ==> r.None?
  {
    if selection.Some? && selection.value.validRange.Some? then selection.value.validRange
    else if inclusion.Some? then inclusion.value.validRange
    else None
  }

  /**
   * Lines 109, 116 and 123: an option is disabled when its range is not a
   * subset of the valid range; `subset` parses the range and throws when it
   * does not parse. Without a valid range nothing is disabled.
   */
  function Disabled(lib: Lib, validRange: Option<Range>, range: string): (r: Result<bool>)
    ensures validRange.None? ==> r == Success(false)
    ensures validRange.Some? ==> (r.Failure? <==> lib.validRange(range).None?)
    ensures r.Failure? ==> r.error == Status.InvalidRangeError
    ensures validRange.Some? && r.Success? ==> r.value == !lib.subset(lib.validRange(range).value, validRange.value)
  {
    if validRange.None? then Success(false)
    else
      match lib.validRange(range)
      case None => Failure(Status.InvalidRangeError)
      case Some(parsed) => Success(!lib.subset(parsed, validRange.value))
  }

  /** Lines 120-124: one option per suggested range, in order. */
  function SuggestionOptions(lib: Lib, validRange: Option<Range>, ranges: seq<string>): (r: Result<seq<RangeOption>>)
    ensures r.Success? <==> forall k :: 0 <= k < |ranges| ==> Disabled(lib, validRange, ranges[k]).Success?
    ensures r.Failure? ==> r.error == Status.InvalidRangeError
    ensures r.Success? ==> |r.value| == |ranges| && forall k :: 0 <= k < |ranges| ==>
      r.value[k] == RangeOption(Some(ranges[k]), Disabled(lib, validRange, ranges[k]).value)
  {
    if |ranges| == 0 then Success([])
    else
      var disabled :- Disabled(lib, validRange, ranges[0]);
      var rest :- SuggestionOptions(lib, validRange, ranges[1..]);
      assert forall k :: 0 < k < |ranges| ==> ranges[k] == ranges[1..][k - 1];
      Success([RangeOption(Some(ranges[0]), disabled)] + rest)
  }

  function Differs(current: string): string -> bool {
    (range: string) => range != current
  }

  /** Line 119: the suggestions other than the current range, in order. */
  function Kept(current: string, suggestions: seq<string>): seq<string> {
    Filter(suggestions, Differs(current))
  }

  /**
   * Lines 111-125: the current range first, with no value, then one option
   * per suggestion other than the current range, in order.
   */
  function Options(lib: Lib, validRange: Option<Range>, current: string, suggestions: seq<string>): (r: Result<seq<RangeOption>>)
    ensures r.Success? ==> |r.value| == |Kept(current, suggestions)| + 1
    ensures r.Success? ==> r.value[0].value.None? && Disabled(lib, validRange, current) == Success(r.value[0].disabled)
    ensures r.Success? ==> forall k :: 0 < k < |r.value| ==>
      r.value[k].value == Some(Kept(current, suggestions)[k - 1]) &&
      Disabled(lib, validRange, Kept(current, suggestions)[k - 1]) == Success(r.value[k].disabled)
    ensures r.Failure? <==> (Disabled(lib, validRange, current).Failure? ||
      exists k :: 0 <= k < |Kept(current, suggestions)| && Disabled(lib, validRange, Kept(current, suggestions)[k]).Failure?)
  {
    var first :- Disabled(lib, validRange, current);
    var rest :- SuggestionOptions(lib, validRange, Kept(current, suggestions));
    var options := [RangeOption(None, first)] + rest;
    assert forall k :: 0 < k < |options| ==> options[k] == rest[k - 1];
    Success(options)
  }

  /** The options after the first are exactly the suggestions other than the current range. */
  lemma OptionValues(lib: Lib, validRange: Option<Range>, current: string, suggestions: seq<string>)
    requires Options(lib, validRange, current, suggestions).Success?
    ensures var options := Options(lib, validRange, current, suggestions).value;
      options[0].value.None? &&
      (forall k :: 0 < k < |options| ==> options[k].value.Some? && options[k].value.value in suggestions && options[k].value.value != current) &&
      (forall s :: s in suggestions && s != current ==> exists k :: 0 < k < |options| && options[k].value == Some(s))
  {
    var options := Options(lib, validRange, current, suggestions).value;
    var kept := Kept(current, suggestions);
    forall k | 0 < k < |options| ensures options[k].value.Some? && options[k].value.value in suggestions && options[k].value.value != current {
      assert kept[k - 1] in kept;
    }
    forall s | s in suggestions && s != current ensures exists k :: 0 < k < |options| && options[k].value == Some(s) {
      assert s in kept;
      var j :| 0 <= j < |kept| && kept[j] == s;
      assert options[j + 1].value == Some(s);
    }
  }

  /**
   * With no valid range every option is enabled and nothing is parsed; with
   * one, the options fail exactly when the current range or a kept
   * suggestion does not parse.
   */
  lemma OptionsFail(lib: Lib, validRange: Option<Range>, current: string, suggestions: seq<string>)
    ensures var r := Options(lib, validRange, current, suggestions);
      (validRange.None? ==> r.Success? && forall k :: 0 <= k < |r.value| ==> !r.value[k].disabled) &&
      (r.Failure? <==> (validRange.Some? &&
        (lib.validRange(current).None? || exists s :: s in suggestions && s != current && lib.validRange(s).None?)))
  {
    var kept := Kept(current, suggestions);
    if validRange.Some? && lib.validRange(current).Some? {
      if exists s :: s in suggestions && s != current && lib.validRange(s).None? {
        var s :| s in suggestions && s != current && lib.validRange(s).None?;
        assert s in kept;
        var j :| 0 <= j < |kept| && kept[j] == s;
        assert Disabled(lib, validRange, kept[j]).Failure?;
      } else {
        forall k | 0 <= k < |kept| ensures Disabled(lib, validRange, kept[k]).Success? {
          assert kept[k] in kept;
        }
      }
    }
  }

  /** `option.value === activeItem.selectedRange`: `undefined` matches no option, `null` the first. */
  predicate Matches(selected: Selected, option: RangeOption) {
    match selected
    case Unset => false
    case Cleared => option.value.None?
    case Chosen(range) => option.value == Some(range)
  }

  /** `Array#find`: the first option `p` accepts. */
  function FindOption(options: seq<RangeOption>, p: RangeOption -> bool): (r: Option<nat>)
    ensures r.None? <==> forall k :: 0 <= k < |options| ==> !p(options[k])
    ensures r.Some? ==> r.value < |options| && p(options[r.value])
    ensures r.Some? ==> forall k :: 0 <= k < r.value ==> !p(options[k])
  {
    if |options| == 0 then None
    else if p(options[0]) then Some(0)
    else
      match FindOption(options[1..], p)
      case None => None
      case Some(i) => Some(i + 1)
  }

  function Matching(selected: Selected): RangeOption -> bool {
    (option: RangeOption) => Matches(selected, option)
  }

  function Enabled(): RangeOption -> bool {
    (option: RangeOption) => !option.disabled
  }

  /**
   * Lines 127-130: the option matching the item's selected range, else the
   * first enabled option, else the first option.
   */
  function ActiveOption(options: seq<RangeOption>, selected: Selected): (i: nat)
    requires |options| > 0
    ensures i < |options|
    ensures (exists k :: 0 <= k < |options| && Matches(selected, options[k])) ==>
      Matches(selected, options[i]) && forall k :: 0 <= k < i ==> !Matches(selected, options[k])
    ensures (forall k :: 0 <= k < |options| ==> !Matches(selected, options[k])) && (exists k :: 0 <= k < |options| && !options[k].disabled) ==>
      !options[i].disabled && forall k :: 0 <= k < i ==> options[k].disabled
    ensures (forall k :: 0 <= k < |options| ==> !Matches(selected, options[k]) && options[k].disabled) ==> i == 0
  {
    match FindOption(options, Matching(selected))
    case Some(i) => i
    case None =>
      match FindOption(options, Enabled())
      case Some(i) => i
      case None => 0
  }

  /**
   * Lines 69-73: the suggestions the box has for `item`: those stored with
   * its selection, else, once they were fetched, those `getSuggestions`
   * gives for its first requested descriptor.
   */
  function SuggestionsFor(getSuggestions: (Descriptor, Option<Range>) -> seq<string>, state: AppState,
                          item: UpdatableItem, selection: Option<SelectionInfo>): (r: Option<seq<string>>)
    requires |item.requestedDescriptors| > 0
    ensures selection.Some? && selection.value.suggestions.Some? ==> r == selection.value.suggestions
    ensures (selection.None? || selection.value.suggestions.None?) ==>
      (r.Some? <==> item.identHash in state.suggestionsFetched) &&
      (r.Some? ==> r.value == getSuggestions(item.requestedDescriptors[0], None))
  {
    var given := if selection.Some? then selection.value.suggestions else None;
    if given.None? && item.identHash in state.suggestionsFetched
    then Some(getSuggestions(item.requestedDescriptors[0], None)) else given
  }

  /** The active item can be chosen: it is selected, or nothing includes it. */
  predicate Choosable(activeItem: Option<UpdatableItem>, inclusion: Option<InclusionInfo>) {
    activeItem.Some? && (activeItem.value.selectedRange.IsSet() || inclusion.None?)
  }

  /**
   * Lines 36-152: what the box shows for the active item. An unselected item
   * that another package includes cannot be chosen; while there are no
   * suggestions yet the box waits; with none at all it shows the current
   * range; otherwise it offers the options, which fail when `subset` throws.
   */
  function Render(lib: Lib, getSuggestions: (Descriptor, Option<Range>) -> seq<string>, state: AppState,
                activeItem: Option<UpdatableItem>, inclusion: Option<InclusionInfo>, selection: Option<SelectionInfo>): (r: Result<Shown>)
    requires activeItem.Some? ==> |activeItem.value.requestedDescriptors| > 0
    ensures activeItem.None? ==> r == Success(NoItem)
    ensures activeItem.Some? && !activeItem.value.selectedRange.IsSet() && inclusion.Some? ==>
      r == Success(DefinedBy(inclusion.value.demanders.keys))
    ensures r.Success? && r.value.Loading? <==>
      activeItem.Some? && (activeItem.value.selectedRange.IsSet() || inclusion.None?) &&
      (selection.None? || selection.value.suggestions.None?) && activeItem.value.identHash !in state.suggestionsFetched
    ensures Choosable(activeItem, inclusion) ==> var item := activeItem.value;
      var suggestions := SuggestionsFor(getSuggestions, state, item, selection);
      var options := Options(lib, ValidRangeOf(selection, inclusion), item.requestedDescriptors[0].range,
        if suggestions.Some? then suggestions.value else []);
      (suggestions.Some? && |suggestions.value| == 0 ==> r == Success(NoSuggestions(item.requestedDescriptors[0].range))) &&
      (suggestions.Some? && |suggestions.value| > 0 ==>
        (r.Failure? <==> options.Failure?) &&
        (r.Success? ==>
           r.value.Choose? && r.value.options == options.value && r.value.active == ActiveOption(r.value.options, item.selectedRange)))
    ensures r.Failure? ==> Choosable(activeItem, inclusion)
  {
    if activeItem.None? then Success(NoItem)
    else
      var item := activeItem.value;
      if !item.selectedRange.IsSet() && inclusion.Some? then Success(DefinedBy(inclusion.value.demanders.keys))
      else
        var suggestions := SuggestionsFor(getSuggestions, state, item, selection);
        if suggestions.None? then Success(Loading)
        else if |suggestions.value| == 0 then Success(NoSuggestions(item.requestedDescriptors[0].range))
        else
          var options :- Options(lib, ValidRangeOf(selection, inclusion), item.requestedDescriptors[0].range, suggestions.value);
          Success(Choose(options, ActiveOption(options, item.selectedRange)))
  }

  /** A range the user chose among the suggestions is the highlighted option. */
  lemma ChosenIsActive(lib: Lib, validRange: Option<Range>, current: string, suggestions: seq<string>, chosen: string)
    requires chosen in suggestions && chosen != current
    requires Options(lib, validRange, current, suggestions).Success?
    ensures var options := Options(lib, validRange, current, suggestions).value;
      options[ActiveOption(options, Chosen(chosen))].value == Some(chosen)
  {
    var options := Options(lib, validRange, current, suggestions).value;
    OptionValues(lib, validRange, current, suggestions);
    var k :| 0 < k < |options| && options[k].value == Some(chosen);
    assert Matches(Chosen(chosen), options[k]);
  }

  /** A cleared selection highlights the current range. */
  lemma ClearedIsCurrent(lib: Lib, validRange: Option<Range>, current: string, suggestions: seq<string>)
    requires Options(lib, validRange, current, suggestions).Success?
    ensures var options := Options(lib, validRange, current, suggestions).value;
      ActiveOption(options, Cleared) == 0
  {
    var options := Options(lib, validRange, current, suggestions).value;
    assert Matches(Cleared, options[0]);
  }
}
