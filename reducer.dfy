/**
 * The reducer of the interactive screen (`ui/app/state/reducer.ts`): how each
 * event changes the state before the selection is worked out again.
 */
module Reducer {
  import opened Wrappers
  import opened Semver
  import opened Structs
  import opened OrderedMaps
  import opened Misc
  import opened Iterables
  import opened AppStates
  import opened Propagation
  import opened SelectionUpdate

  /** What `createAppStateReducer` closes over, with the semver library. */
  datatype Reducer = Reducer(
    lib: Externals.Lib,
    getSuggestions: (Descriptor, Option<Range>) -> seq<string>,
    getDescriptorMeta: Descriptor -> UpdatableManifest
  )

  /** What `updateSelection` is called with for `state`. */
  function EnvFor(red: Reducer, state: AppState): Env {
    Env(red.lib, red.getSuggestions, red.getDescriptorMeta, state)
  }

  /** `selectedRange: event.range`: null clears the selection. */
  function SelectedOf(range: Option<string>): Selected {
    if range.Some? then Chosen(range.value) else Cleared
  }

  /**
   * Lines 16-22: the state with the selected range of `ident` replaced;
   * `getRequired` throws when there is no such item.
   */
  function WithRange(state: AppState, ident: IdentHash, range: Option<string>): (r: Result<AppState>)
    ensures r.Success? <==> ident in state.itemMap.entries
    ensures r.Success? ==> r.value == state.(itemMap := r.value.itemMap) && r.value.itemMap.keys == state.itemMap.keys
    ensures r.Success? ==> r.value.itemMap.entries == state.itemMap.entries[ident := state.itemMap.entries[ident].(selectedRange := SelectedOf(range))]
    ensures r.Success? && WellFormed(state.itemMap) ==> WellFormed(r.value.itemMap)
  {
    var item :- GetRequired(state.itemMap.entries, ident);
    Success(state.(itemMap := MapWith(Some(state.itemMap), ident, item.(selectedRange := SelectedOf(range)))))
  }

  /** Lines 37-46 and 51-60: what is still being fetched once `ids` arrived, undefined when nothing is. */
  function Pending(fetching: Option<set<IdentHash>>, ids: seq<IdentHash>): (r: Option<set<IdentHash>>)
    ensures forall u :: u in Elements(r) <==> u in Elements(fetching) && u !in ids
    ensures r.Some? ==> |r.value| > 0
  {
    var rest := Elements(fetching) - set u | u in ids;
    if |rest| > 0 then Some(rest) else None
  }

  /** The loop on lines 37-40 (and 51-54): a copy of the set with each arrived identifier deleted. */
  method RemoveArrived(fetching: Option<set<IdentHash>>, ids: seq<IdentHash>) returns (r: Option<set<IdentHash>>)
    ensures r == Pending(fetching, ids)
  {
    var rest := Elements(fetching);
    for n := 0 to |ids|
      invariant rest == Elements(fetching) - set u | u in ids[..n]
    {
      assert ids[..n + 1] == ids[..n] + [ids[n]];
      rest := rest - {ids[n]};
    }
    assert ids[..|ids|] == ids;
    r := if |rest| > 0 then Some(rest) else None;
  }

  /** Lines 29-33: `ident` is marked as having its suggestions fetched; nothing else changes. */
  function FetchRequested(state: AppState, ident: IdentHash): (r: AppState)
    ensures r == state.(suggestionsFetching := r.suggestionsFetching)
    ensures r.suggestionsFetching.Some? && Elements(r.suggestionsFetching) == Elements(state.suggestionsFetching) + {ident}
  {
    state.(suggestionsFetching := Some(SetWith(state.suggestionsFetching, ident)))
  }

  /** Lines 34-47: the suggestions of `ids` arrived. */
  function SuggestionsArrived(state: AppState, ids: seq<IdentHash>): AppState {
    state.(suggestionsFetched := AddAllToSet(state.suggestionsFetched, ids), suggestionsFetching := Pending(state.suggestionsFetching, ids))
  }

  /** Lines 48-61: the manifests of `ids` arrived. */
  function ManifestsArrived(state: AppState, ids: seq<IdentHash>): AppState {
    state.(metaFetched := AddAllToSet(state.metaFetched, ids), metaFetching := Pending(state.metaFetching, ids))
  }

  /**
   * `reduceAppState`. A new range changes that item only and the selection
   * is worked out again; a request for suggestions already fetched changes
   * nothing, any other marks them as being fetched; arrived suggestions or
   * manifests are marked fetched and no longer being fetched, and the
   * selection is worked out again.
   */
  method ReduceAppState(red: Reducer, state: AppState, event: AppEvent) returns (r: Result<AppState>)
    requires WellFormed(state.itemMap)
    ensures event.RangeEvent? && event.ident !in state.itemMap.entries ==> r.Failure?
    ensures event.RangeEvent? && r.Success? ==>
      WithRange(state, event.ident, event.range).Success? && Updated(EnvFor(red, WithRange(state, event.ident, event.range).value), r.value)
    ensures event.FetchSuggestionFor? && event.fetchSuggestionFor in state.suggestionsFetched ==> r == Success(state)
    ensures event.FetchSuggestionFor? && event.fetchSuggestionFor !in state.suggestionsFetched ==>
      r == Success(FetchRequested(state, event.fetchSuggestionFor))
    ensures event.SuggestionsEvent? && r.Success? ==> Updated(EnvFor(red, SuggestionsArrived(state, event.suggestions)), r.value)
    ensures event.ManifestsEvent? && r.Success? ==> Updated(EnvFor(red, ManifestsArrived(state, event.manifests)), r.value)
  {
    match event {
      case RangeEvent(ident, range) =>
        var next :- WithRange(state, ident, range);
        r := UpdateSelection(EnvFor(red, next));
      case FetchSuggestionFor(ident) =>
        if ident in state.suggestionsFetched {
          return Success(state);
        }
        r := Success(FetchRequested(state, ident));
      case SuggestionsEvent(ids) =>
        var fetched := AddAllToSet(state.suggestionsFetched, ids);
        var fetching := RemoveArrived(state.suggestionsFetching, ids);
        r := UpdateSelection(EnvFor(red, state.(suggestionsFetched := fetched, suggestionsFetching := fetching)));
      case ManifestsEvent(ids) =>
        var fetched := AddAllToSet(state.metaFetched, ids);
        var fetching := RemoveArrived(state.metaFetching, ids);
        r := UpdateSelection(EnvFor(red, state.(metaFetched := fetched, metaFetching := fetching)));
    }
  }
}
