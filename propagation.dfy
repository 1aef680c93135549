/**
 * `updateSelection` (ui/app/state/selection.ts lines 43-304): the worklist that
 * propagates the user's selections to the packages they require (peer
 * dependencies) and include (`ng-update.packageGroup`), followed by the
 * pruning, the loop stripping and the assembly of the new state.
 */
module Propagation {
  import opened Wrappers
  import opened Seqs
  import opened Semver
  import opened Structs
  import opened Externals
  import opened OrderedMaps
  import opened Misc
  import opened AppStates
  import opened Reachability
  import opened Selection
  import opened LoopStripping

  /** What `updateSelection` is given: the semver library, the two lookups and the state. */
  datatype Env = Env(
    lib: Lib,
    getSuggestions: (Descriptor, Option<Range>) -> seq<string>,
    getDescriptorMeta: Descriptor -> UpdatableManifest,
    state: AppState
  )

  /** The locals the worklist loop updates (lines 48-75); JavaScript Sets whose order matters are sequences. */
  datatype Work = Work(
    sar: Required,
    inc: Included,
    queue: seq<IdentHash>,
    alreadyOkay: seq<IdentHash>,
    metaFetching: set<IdentHash>,
    requiresSuggestions: seq<IdentHash>
  )

  /** The package has a user-selected range (`selectedRange != null`). */
  predicate UserSelected(state: AppState, u: IdentHash) {
    u in state.itemMap.entries && state.itemMap.entries[u].selectedRange.IsSet()
  }

  /** `included.get(u)` */
  function InclusionAt(inc: Included, u: IdentHash): Option<InclusionInfo> {
    if u in inc.entries then Some(inc.entries[u]) else None
  }

  /** What processing `ident` decides when it has no user-selected range (lines 94-140). */
  function Verdict(env: Env, w: Work, ident: IdentHash): Result<Decision>
    requires WellFormed(env.state.itemMap) && ident in env.state.itemMap.entries
  {
    var selection := EntryOr(w.sar, ident, FreshSelection);
    Decide(env.lib, env.state.suggestionsFetched, env.getSuggestions, ident, env.state.itemMap.entries[ident],
           DemandOn(env.lib, InclusionAt(w.inc, ident), selection), selection.validRange)
  }

  /** `subset` throws on the first requested range of an unselected, demanded package when it does not parse. */
  predicate BadItem(env: Env, u: IdentHash)
    requires WellFormed(env.state.itemMap)
  {
    u in env.state.itemMap.entries && !env.state.itemMap.entries[u].selectedRange.IsSet() &&
    CurrentRange(env.lib, env.state.itemMap.entries[u]).None?
  }

  /** Decisions after which processing ends at a `continue` (lines 106, 123 and 129). */
  predicate StopsOn(decision: Decision) {
    decision.Conflict? || decision.AwaitSuggestions? || decision.Unchanged?
  }

  /** Processing `ident` ends before its selected range is looked at. */
  predicate Stops(env: Env, w: Work, ident: IdentHash)
    requires WellFormed(env.state.itemMap) && ident in env.state.itemMap.entries
  {
    !UserSelected(env.state, ident) && Verdict(env, w, ident).Success? && StopsOn(Verdict(env, w, ident).value)
  }

  /**
   * The invariant of the worklist: every entry and queued package is an item,
   * no package includes itself, every user-selected package has an entry with
   * exactly its range, and the sets of packages already okay, awaiting
   * metadata and awaiting suggestions hold what their names say.
   */
  ghost predicate Inv(env: Env, w: Work) {
    var items := env.state.itemMap.entries;
    && (forall u :: u in w.sar.entries ==> u in items)
    && (forall u :: u in w.inc.entries ==> u in items && u !in w.inc.entries[u].demanders.entries)
    && (forall u :: u in w.queue ==> u in items)
    && (forall u :: UserSelected(env.state, u) ==>
          u in w.sar.entries && w.sar.entries[u].selectedRange == Some(items[u].selectedRange.range))
    && (forall u :: u in w.alreadyOkay ==> u in items && !UserSelected(env.state, u))
    && (forall u :: u in w.metaFetching ==> u in items && u !in env.state.metaFetched)
    && (forall u :: u in w.requiresSuggestions ==> u in items && u !in env.state.suggestionsFetched)
  }

  /**
   * The entry of `ident` before and after a decision is applied to it
   * (lines 102-139): each case sets the fields it names and keeps every other
   * field, including the demanders.
   */
  ghost predicate Applied(ident: IdentHash, before: SelectionInfo, decision: Decision, sel: SelectionInfo,
                          alreadyOkay: seq<IdentHash>, requiresSuggestions: seq<IdentHash>) {
    match decision
    case Conflict =>
      sel == before.(conflictingRanges := true, validRange := None)
    case AlreadyOkay =>
      sel == before.(conflictingRanges := false, selectedRange := None, suggestions := None, validRange := None) && ident in alreadyOkay
    case AwaitSuggestions =>
      sel == before.(conflictingRanges := false) && ident in requiresSuggestions
    case Unchanged =>
      sel == before.(conflictingRanges := false)
    case Suggest(suggestions, range) =>
      && sel == before.(conflictingRanges := false, suggestions := Some(suggestions), selectedRange := LastOf(suggestions),
                        validRange := Some(range))
      && ident !in alreadyOkay
  }

  /** The entry of `ident` as lines 86-140 leave it: a user-selected package's entry stays whole, else the decision is applied. */
  ghost predicate Decided(env: Env, w: Work, ident: IdentHash, sel: SelectionInfo, alreadyOkay: seq<IdentHash>, requiresSuggestions: seq<IdentHash>)
    requires WellFormed(env.state.itemMap) && ident in env.state.itemMap.entries
  {
    if UserSelected(env.state, ident) then
      sel == EntryOr(w.sar, ident, FreshSelection)
    else
      Verdict(env, w, ident).Success? ==>
        Applied(ident, EntryOr(w.sar, ident, FreshSelection), Verdict(env, w, ident).value, sel, alreadyOkay, requiresSuggestions)
  }

  /**
   * The packages already okay and those awaiting suggestions after `ident`
   * is processed: `ident` is already okay exactly when its demands are met,
   * and awaits suggestions when they are not fetched yet; no other package
   * changes list.
   */
  ghost predicate Lists(env: Env, w: Work, ident: IdentHash, alreadyOkay: seq<IdentHash>, requiresSuggestions: seq<IdentHash>)
    requires WellFormed(env.state.itemMap) && ident in env.state.itemMap.entries
  {
    var decided := !UserSelected(env.state, ident) && Verdict(env, w, ident).Success?;
    && (forall u :: u in alreadyOkay <==>
          (u in w.alreadyOkay && u != ident) || (u == ident && decided && Verdict(env, w, ident).value.AlreadyOkay?))
    && (forall u :: u in requiresSuggestions <==>
          u in w.requiresSuggestions || (u == ident && decided && Verdict(env, w, ident).value.AwaitSuggestions?))
  }

  /**
   * `ident` after lines 86-140, with `stop` for a `continue`: its entry is
   * fetched or created and only the fields the decision sets change, it
   * leaves the set of packages awaiting metadata, and the lists say what was
   * decided.
   */
  ghost predicate Settled(env: Env, w: Work, ident: IdentHash, s: Work, stop: bool)
    requires WellFormed(env.state.itemMap) && ident in env.state.itemMap.entries
  {
    && SettledShape(w, ident, s)
    && Decided(env, w, ident, s.sar.entries[ident], s.alreadyOkay, s.requiresSuggestions)
    && Lists(env, w, ident, s.alreadyOkay, s.requiresSuggestions)
    && (stop <==> Stops(env, w, ident))
  }

  /** Only the entry of `ident` changes, it is created when missing, and `ident` no longer awaits metadata. */
  ghost predicate SettledShape(w: Work, ident: IdentHash, s: Work) {
    && s.inc == w.inc && s.queue == w.queue && s.metaFetching == w.metaFetching - {ident}
    && s.sar.keys == AddLast(w.sar.keys, ident)
    && ident in s.sar.entries
    && (forall u :: u in w.sar.entries && u != ident ==> s.sar.entries[u] == w.sar.entries[u])
    && s.sar.entries[ident] == EntryOr(w.sar, ident, FreshSelection).(
         conflictingRanges := s.sar.entries[ident].conflictingRanges, selectedRange := s.sar.entries[ident].selectedRange,
         suggestions := s.sar.entries[ident].suggestions, validRange := s.sar.entries[ident].validRange)
  }

  /** Settling `ident` keeps the invariant: only the entry of `ident` changes, and it is queued nowhere. */
  lemma SettleKeeps(env: Env, w: Work, ident: IdentHash, s: Work)
    requires ident in env.state.itemMap.entries && Inv(env, w)
    requires s.inc == w.inc && s.queue == w.queue && s.metaFetching == w.metaFetching - {ident}
    requires forall u :: u in s.sar.entries <==> u in w.sar.entries || u == ident
    requires forall u :: u in w.sar.entries && u != ident ==> s.sar.entries[u] == w.sar.entries[u]
    requires UserSelected(env.state, ident) ==> s.sar.entries[ident].selectedRange == w.sar.entries[ident].selectedRange
    requires forall u :: u in s.alreadyOkay ==> u in w.alreadyOkay || (u == ident && !UserSelected(env.state, ident))
    requires forall u :: u in s.requiresSuggestions ==> u in w.requiresSuggestions || (u == ident && ident !in env.state.suggestionsFetched)
    ensures Inv(env, s)
  {
  }

  /** A user-selected package keeps its entry as it is. */
  lemma SettleSelected(env: Env, w: Work, ident: IdentHash, s: Work)
    requires WellFormed(env.state.itemMap) && ident in env.state.itemMap.entries && Inv(env, w)
    requires UserSelected(env.state, ident)
    requires s == Work(Put(w.sar, ident, EntryOr(w.sar, ident, FreshSelection)), w.inc, w.queue,
                       RemoveElement(w.alreadyOkay, ident), w.metaFetching - {ident}, w.requiresSuggestions)
    ensures Settled(env, w, ident, s, false) && Inv(env, s)
  {
    SettledPut(w, ident, s);
    SelectedLists(env, w, ident, s);
    SettleKeeps(env, w, ident, s);
  }

  lemma SelectedLists(env: Env, w: Work, ident: IdentHash, s: Work)
    requires WellFormed(env.state.itemMap) && ident in env.state.itemMap.entries
    requires UserSelected(env.state, ident)
    requires forall u :: u in s.alreadyOkay <==> u in w.alreadyOkay && u != ident
    requires s.requiresSuggestions == w.requiresSuggestions
    ensures Lists(env, w, ident, s.alreadyOkay, s.requiresSuggestions)
  {
  }

  /** An unselected package gets the entry and the lists the decision on it says. */
  lemma SettleDecided(env: Env, w: Work, ident: IdentHash, decision: Decision, s: Work, stop: bool)
    requires WellFormed(env.state.itemMap) && ident in env.state.itemMap.entries && Inv(env, w)
    requires !UserSelected(env.state, ident) && Verdict(env, w, ident) == Success(decision)
    requires s.inc == w.inc && s.queue == w.queue && s.metaFetching == w.metaFetching - {ident}
    requires ident in s.sar.entries && s.sar == Put(w.sar, ident, s.sar.entries[ident])
    requires s.sar.entries[ident] == EntryOr(w.sar, ident, FreshSelection).(
      conflictingRanges := s.sar.entries[ident].conflictingRanges, selectedRange := s.sar.entries[ident].selectedRange,
      suggestions := s.sar.entries[ident].suggestions, validRange := s.sar.entries[ident].validRange)
    requires Applied(ident, EntryOr(w.sar, ident, FreshSelection), decision, s.sar.entries[ident], s.alreadyOkay, s.requiresSuggestions)
    requires forall u :: u in s.alreadyOkay <==> (u in w.alreadyOkay && u != ident) || (u == ident && decision.AlreadyOkay?)
    requires forall u :: u in s.requiresSuggestions <==> u in w.requiresSuggestions || (u == ident && decision.AwaitSuggestions?)
    requires stop <==> StopsOn(decision)
    ensures Settled(env, w, ident, s, stop) && Inv(env, s)
  {
    SettleDecidedFields(env, w, ident, decision, s, stop);
    AwaitNotFetched(env, w, ident);
    SettleKeeps(env, w, ident, s);
  }

  /** Only a package whose suggestions are not fetched yet awaits them (line 121). */
  lemma AwaitNotFetched(env: Env, w: Work, ident: IdentHash)
    requires WellFormed(env.state.itemMap) && ident in env.state.itemMap.entries
    ensures Verdict(env, w, ident) == Success(AwaitSuggestions) ==> ident !in env.state.suggestionsFetched
  {
  }

  lemma SettleDecidedFields(env: Env, w: Work, ident: IdentHash, decision: Decision, s: Work, stop: bool)
    requires WellFormed(env.state.itemMap) && ident in env.state.itemMap.entries
    requires !UserSelected(env.state, ident) && Verdict(env, w, ident) == Success(decision)
    requires s.inc == w.inc && s.queue == w.queue && s.metaFetching == w.metaFetching - {ident}
    requires ident in s.sar.entries && s.sar == Put(w.sar, ident, s.sar.entries[ident])
    requires s.sar.entries[ident] == EntryOr(w.sar, ident, FreshSelection).(
      conflictingRanges := s.sar.entries[ident].conflictingRanges, selectedRange := s.sar.entries[ident].selectedRange,
      suggestions := s.sar.entries[ident].suggestions, validRange := s.sar.entries[ident].validRange)
    requires Applied(ident, EntryOr(w.sar, ident, FreshSelection), decision, s.sar.entries[ident], s.alreadyOkay, s.requiresSuggestions)
    requires forall u :: u in s.alreadyOkay <==> (u in w.alreadyOkay && u != ident) || (u == ident && decision.AlreadyOkay?)
    requires forall u :: u in s.requiresSuggestions <==> u in w.requiresSuggestions || (u == ident && decision.AwaitSuggestions?)
    requires stop <==> StopsOn(decision)
    ensures Settled(env, w, ident, s, stop)
  {
    SettledPut(w, ident, s);
    DecidedApplied(env, w, ident, decision, s.sar.entries[ident], s.alreadyOkay, s.requiresSuggestions);
    DecidedLists(env, w, ident, decision, s.alreadyOkay, s.requiresSuggestions);
  }

  lemma DecidedApplied(env: Env, w: Work, ident: IdentHash, decision: Decision, sel: SelectionInfo,
                       alreadyOkay: seq<IdentHash>, requiresSuggestions: seq<IdentHash>)
    requires WellFormed(env.state.itemMap) && ident in env.state.itemMap.entries
    requires !UserSelected(env.state, ident) && Verdict(env, w, ident) == Success(decision)
    requires Applied(ident, EntryOr(w.sar, ident, FreshSelection), decision, sel, alreadyOkay, requiresSuggestions)
    ensures Decided(env, w, ident, sel, alreadyOkay, requiresSuggestions)
  {
  }

  lemma DecidedLists(env: Env, w: Work, ident: IdentHash, decision: Decision,
                     alreadyOkay: seq<IdentHash>, requiresSuggestions: seq<IdentHash>)
    requires WellFormed(env.state.itemMap) && ident in env.state.itemMap.entries
    requires !UserSelected(env.state, ident) && Verdict(env, w, ident) == Success(decision)
    requires forall u :: u in alreadyOkay <==> (u in w.alreadyOkay && u != ident) || (u == ident && decision.AlreadyOkay?)
    requires forall u :: u in requiresSuggestions <==> u in w.requiresSuggestions || (u == ident && decision.AwaitSuggestions?)
    ensures Lists(env, w, ident, alreadyOkay, requiresSuggestions)
  {
  }

  lemma SettledPut(w: Work, ident: IdentHash, s: Work)
    requires s.inc == w.inc && s.queue == w.queue && s.metaFetching == w.metaFetching - {ident}
    requires ident in s.sar.entries && s.sar == Put(w.sar, ident, s.sar.entries[ident])
    requires s.sar.entries[ident] == EntryOr(w.sar, ident, FreshSelection).(
      conflictingRanges := s.sar.entries[ident].conflictingRanges, selectedRange := s.sar.entries[ident].selectedRange,
      suggestions := s.sar.entries[ident].suggestions, validRange := s.sar.entries[ident].validRange)
    ensures SettledShape(w, ident, s)
  {
    assert s.sar.keys == AddLast(w.sar.keys, ident);
  }

  /**
   * Lines 86-140: the entry of `ident` is fetched or created, `ident` leaves
   * the sets of packages awaiting metadata and already okay, and, without a
   * user-selected range, the decision is applied. `stop` is a `continue`.
   */
  method Settle(env: Env, w: Work, ident: IdentHash) returns (r: Result<(Work, bool)>)
    requires WellFormed(env.state.itemMap) && ident in env.state.itemMap.entries && Inv(env, w)
    ensures r.Failure? <==> !UserSelected(env.state, ident) && Verdict(env, w, ident).Failure?
    ensures r.Success? ==> Settled(env, w, ident, r.value.0, r.value.1) && Inv(env, r.value.0)
  {
    var item := env.state.itemMap.entries[ident];
    var before := EntryOr(w.sar, ident, FreshSelection);
    var metaFetching := w.metaFetching - {ident};
    var alreadyOkay := RemoveElement(w.alreadyOkay, ident);
    if item.selectedRange.IsSet() {
      var s := Work(Put(w.sar, ident, before), w.inc, w.queue, alreadyOkay, metaFetching, w.requiresSuggestions);
      SettleSelected(env, w, ident, s);
      return Success((s, false));
    }
    var decision :- Verdict(env, w, ident);
    var after, alreadyOkay', requiresSuggestions, stop := Apply(ident, before, decision, alreadyOkay, w.requiresSuggestions);
    var s := Work(Put(w.sar, ident, after), w.inc, w.queue, alreadyOkay', metaFetching, requiresSuggestions);
    SettleDecided(env, w, ident, decision, s, stop);
    return Success((s, stop));
  }

  /** Lines 102-139: the decision taken on an unselected package applied to its entry and to the two lists. */
  method Apply(ident: IdentHash, before: SelectionInfo, decision: Decision, alreadyOkay: seq<IdentHash>, requiresSuggestions: seq<IdentHash>)
    returns (after: SelectionInfo, alreadyOkay': seq<IdentHash>, requiresSuggestions': seq<IdentHash>, stop: bool)
    ensures after == before.(conflictingRanges := after.conflictingRanges, selectedRange := after.selectedRange,
                             suggestions := after.suggestions, validRange := after.validRange)
    ensures Applied(ident, before, decision, after, alreadyOkay', requiresSuggestions')
    ensures forall u :: u in alreadyOkay' <==>
      (u in alreadyOkay && !(u == ident && decision.Suggest?)) || (u == ident && decision.AlreadyOkay?)
    ensures forall u :: u in requiresSuggestions' <==> u in requiresSuggestions || (u == ident && decision.AwaitSuggestions?)
    ensures stop <==> StopsOn(decision)
  {
    after, alreadyOkay', requiresSuggestions', stop := before, alreadyOkay, requiresSuggestions, true;
    match decision {
      case Conflict =>
        after := before.(conflictingRanges := true, validRange := None);
      case AlreadyOkay =>
        after := before.(conflictingRanges := false, selectedRange := None, suggestions := None, validRange := None);
        alreadyOkay' := AddLast(alreadyOkay', ident);
        stop := false;
      case AwaitSuggestions =>
        after := before.(conflictingRanges := false);
        requiresSuggestions' := AddLast(requiresSuggestions', ident);
      case Unchanged =>
        after := before.(conflictingRanges := false);
      case Suggest(suggestions, range) =>
        after := before.(conflictingRanges := false, suggestions := Some(suggestions), selectedRange := LastOf(suggestions), validRange := Some(range));
        alreadyOkay' := RemoveElement(alreadyOkay', ident);
        stop := false;
    }
  }

  // ---------------------------------------------------------------------------
  // Recording the demands of a package with a selected range (lines 158-216)

  /** `toIdentMap(Object.entries(meta.peerDependencies))` */
  function PeersOf(meta: UpdatableManifest): OMap<IdentHash, string>
    requires meta.peerDependencies.Some?
  {
    FromEntries(meta.peerDependencies.value)
  }

  /** `meta['ng-update']?.packageGroup != null` */
  predicate HasGroup(meta: UpdatableManifest) {
    meta.ngUpdate.Some? && meta.ngUpdate.value.packageGroup.Some?
  }

  /** Lines 190-194: a list of names is read as each name at the manifest's own version. */
  function GroupOf(meta: UpdatableManifest): OMap<IdentHash, string>
    requires HasGroup(meta)
  {
    match meta.ngUpdate.value.packageGroup.value
    case GroupNames(names) => FromEntries(seq(|names|, i requires 0 <= i < |names| => (names[i], meta.version)))
    case GroupRanges(entries) => FromEntries(entries)
  }

  /** `meta['ng-update']?.migrations != null` */
  predicate HasMigrations(meta: UpdatableManifest) {
    meta.ngUpdate.Some? && meta.ngUpdate.value.migrations.Some?
  }

  /**
   * The demanders after `ident` records its demands: `ident` demands exactly
   * the eligible targets of `demands`, each as its range text says; entries
   * are created for those targets only; a target that is not eligible keeps
   * its demanders; and every demand by another package stays as it was.
   */
  ghost predicate Rewired<V(!new)>(lib: Lib, m: OMap<IdentHash, V>, byOf: V -> OMap<IdentHash, Demand>,
                                   ident: IdentHash, demands: OMap<IdentHash, string>, eligible: set<IdentHash>, m': OMap<IdentHash, V>) {
    && (forall t :: t in m'.entries <==> t in m.entries || (t in demands.entries && t in eligible))
    && (forall t :: t in demands.entries && t in eligible ==>
          t in m'.entries && ident in byOf(m'.entries[t]).entries && byOf(m'.entries[t]).entries[ident] == DemandOf(lib, demands.entries[t]))
    && (forall t :: t in m'.entries && t !in demands.entries ==> ident !in byOf(m'.entries[t]).entries)
    && (forall t :: t in m.entries && t in demands.entries && t !in eligible ==> byOf(m'.entries[t]) == byOf(m.entries[t]))
    && (forall t, d :: t in m'.entries && d in byOf(m'.entries[t]).entries && d != ident ==>
          t in m.entries && d in byOf(m.entries[t]).entries && byOf(m'.entries[t]).entries[d] == byOf(m.entries[t]).entries[d])
    && (forall t, d :: t in m.entries && d in byOf(m.entries[t]).entries && d != ident ==> d in byOf(m'.entries[t]).entries)
  }

  /** Every entry is the one there was (or a fresh one) with its demanders replaced: nothing else about it changed. */
  ghost predicate OnlyDemanders<V(!new)>(m: OMap<IdentHash, V>, byOf: V -> OMap<IdentHash, Demand>, withBy: (V, OMap<IdentHash, Demand>) -> V,
                                         blank: V, m': OMap<IdentHash, V>) {
    forall t :: t in m'.entries ==>
      m'.entries[t] == EntryOr(m, t, blank) || m'.entries[t] == withBy(EntryOr(m, t, blank), byOf(m'.entries[t]))
  }

  /** The entries after `Record`: rewired, and changed in their demanders only. */
  ghost predicate Recorded<V(!new)>(lib: Lib, m: OMap<IdentHash, V>, byOf: V -> OMap<IdentHash, Demand>, withBy: (V, OMap<IdentHash, Demand>) -> V,
                                    blank: V, ident: IdentHash, demands: OMap<IdentHash, string>, eligible: set<IdentHash>, m': OMap<IdentHash, V>) {
    Rewired(lib, m, byOf, ident, demands, eligible, m') && OnlyDemanders(m, byOf, withBy, blank, m')
  }

  /** The entries after `Record`: what each of its two steps does to them, composed. */
  lemma RecordEntries<V(!new)>(lib: Lib, m: OMap<IdentHash, V>, byOf: V -> OMap<IdentHash, Demand>, withBy: (V, OMap<IdentHash, Demand>) -> V,
                               blank: V, ident: IdentHash, demands: OMap<IdentHash, string>, eligible: set<IdentHash>,
                               m1: OMap<IdentHash, V>, m': OMap<IdentHash, V>)
    requires Lens(byOf, withBy) && byOf(blank).entries == map[]
    requires DemandsAdded(lib, m, byOf, withBy, blank, ident, demands, eligible, m1)
    requires Dropped(m1, byOf, withBy, ident, demands.entries.Keys, m')
    ensures Recorded(lib, m, byOf, withBy, blank, ident, demands, eligible, m')
  {
    RecordRewired(lib, m, byOf, withBy, blank, ident, demands, eligible, m1, m');
    forall t | t in m'.entries
      ensures m'.entries[t] == EntryOr(m, t, blank) || m'.entries[t] == withBy(EntryOr(m, t, blank), byOf(m'.entries[t]))
    {
      var e := EntryOr(m, t, blank);
      if m1.entries[t] != e && m'.entries[t] != m1.entries[t] {
        assert withBy(withBy(e, byOf(m1.entries[t])), byOf(m'.entries[t])) == withBy(e, byOf(m'.entries[t]));
      }
    }
  }

  /** The demanders after `Record`: what each of its two steps does to them, composed. */
  lemma RecordRewired<V(!new)>(lib: Lib, m: OMap<IdentHash, V>, byOf: V -> OMap<IdentHash, Demand>, withBy: (V, OMap<IdentHash, Demand>) -> V,
                               blank: V, ident: IdentHash, demands: OMap<IdentHash, string>, eligible: set<IdentHash>,
                               m1: OMap<IdentHash, V>, m': OMap<IdentHash, V>)
    requires byOf(blank).entries == map[]
    requires DemandsAdded(lib, m, byOf, withBy, blank, ident, demands, eligible, m1)
    requires Dropped(m1, byOf, withBy, ident, demands.entries.Keys, m')
    ensures Rewired(lib, m, byOf, ident, demands, eligible, m')
  {
    forall t, d | t in m'.entries && d in byOf(m'.entries[t]).entries && d != ident
      ensures t in m.entries && d in byOf(m.entries[t]).entries && byOf(m'.entries[t]).entries[d] == byOf(m.entries[t]).entries[d]
    {
      assert d in byOf(m1.entries[t]).entries;
      assert d in byOf(EntryOr(m, t, blank)).entries;
    }
  }

  /** The entries after `Record`, read off the postconditions of its two steps. */
  lemma RecordSteps<V(!new)>(lib: Lib, m: OMap<IdentHash, V>, byOf: V -> OMap<IdentHash, Demand>, withBy: (V, OMap<IdentHash, Demand>) -> V,
                             blank: V, ident: IdentHash, demands: OMap<IdentHash, string>, eligible: set<IdentHash>,
                             m1: OMap<IdentHash, V>, m': OMap<IdentHash, V>)
    requires Lens(byOf, withBy) && byOf(blank).entries == map[]
    requires m1.keys == AddAllLast(m.keys, Filter(demands.keys, Eligible(demands, eligible)))
    requires forall t :: t in m1.entries ==> m1.entries[t] == AfterDemand(lib, m, byOf, withBy, blank, ident, demands, eligible, t)
    requires m'.keys == m1.keys
    requires forall i :: i in m1.entries ==> m'.entries[i] == AfterDrop(m1, byOf, withBy, ident, demands.entries.Keys, i)
    ensures Recorded(lib, m, byOf, withBy, blank, ident, demands, eligible, m')
  {
    DemandsKeys(m, demands, eligible, m1);
    DemandsEntries(lib, m, byOf, withBy, blank, ident, demands, eligible, m1);
    DropEntries(m1, byOf, withBy, ident, demands.entries.Keys, m');
    RecordEntries(lib, m, byOf, withBy, blank, ident, demands, eligible, m1, m');
  }

  /** The queue after `Record`, read off the postconditions of its two steps. */
  lemma RequeueSteps<V(!new)>(lib: Lib, m: OMap<IdentHash, V>, byOf: V -> OMap<IdentHash, Demand>, withBy: (V, OMap<IdentHash, Demand>) -> V,
                              blank: V, ident: IdentHash, demands: OMap<IdentHash, string>, eligible: set<IdentHash>, queue: seq<IdentHash>,
                              m1: OMap<IdentHash, V>, queue1: seq<IdentHash>, m': OMap<IdentHash, V>, queue': seq<IdentHash>)
    requires Lens(byOf, withBy)
    requires ident !in byOf(blank).entries
    requires m1.keys == AddAllLast(m.keys, Filter(demands.keys, Eligible(demands, eligible)))
    requires forall t :: t in m1.entries ==> m1.entries[t] == AfterDemand(lib, m, byOf, withBy, blank, ident, demands, eligible, t)
    requires queue1 == AddAllLast(queue, Filter(demands.keys, Changes(lib, m, byOf, blank, ident, demands, eligible)))
    requires m'.keys == m1.keys
    requires forall i :: i in m1.entries ==> m'.entries[i] == AfterDrop(m1, byOf, withBy, ident, demands.entries.Keys, i)
    requires queue' == AddAllLast(queue1, Filter(m1.keys, Drops(m1, byOf, ident, demands.entries.Keys)))
    ensures Requeued(m, byOf, queue, m', queue')
  {
    DemandsKeys(m, demands, eligible, m1);
    DemandsQueue(lib, m, byOf, withBy, blank, ident, demands, eligible, queue, m1, queue1);
    DropQueue(m1, byOf, withBy, ident, demands.entries.Keys, queue1, m', queue');
    RequeuedTrans(m, byOf, queue, m1, queue1, m', queue');
  }

  /**
   * Lines 165-184 and 196-215: `ident` demands each eligible target of
   * `demands`, and every other entry stops being demanded by it; each entry
   * created or whose demanders change is queued.
   */
  method Record<V(!new)>(lib: Lib, m: OMap<IdentHash, V>, byOf: V -> OMap<IdentHash, Demand>, withBy: (V, OMap<IdentHash, Demand>) -> V,
                   blank: V, ident: IdentHash, demands: OMap<IdentHash, string>, eligible: set<IdentHash>, queue: seq<IdentHash>)
    returns (m': OMap<IdentHash, V>, queue': seq<IdentHash>)
    requires Lens(byOf, withBy)
    requires byOf(blank).entries == map[]
    ensures Recorded(lib, m, byOf, withBy, blank, ident, demands, eligible, m')
    ensures Requeued(m, byOf, queue, m', queue')
    ensures m.entries.Keys <= m'.entries.Keys
  {
    var m1, queue1 := AddDemands(lib, m, byOf, withBy, blank, ident, demands, eligible, queue);
    m', queue' := DropDemander(m1, byOf, withBy, ident, demands.entries.Keys, queue1);
    RecordSteps(lib, m, byOf, withBy, blank, ident, demands, eligible, m1, m');
    RequeueSteps(lib, m, byOf, withBy, blank, ident, demands, eligible, queue, m1, queue1, m', queue');
  }

  // ---------------------------------------------------------------------------
  // The edges of one package, as seen from the demander maps

  /** Nothing about the demanders changed, entry for entry. */
  ghost predicate Untouched<V(!new)>(m: OMap<IdentHash, V>, byOf: V -> OMap<IdentHash, Demand>, m': OMap<IdentHash, V>) {
    && (forall t :: t in m'.entries <==> t in m.entries)
    && (forall t :: t in m'.entries ==> byOf(m'.entries[t]) == byOf(m.entries[t]))
  }

  lemma LensSelection()
    ensures Lens(SelectionDemanders, SelectionWithDemanders)
  {
  }

  lemma LensInclusion()
    ensures Lens(InclusionDemanders, InclusionWithDemanders)
  {
  }

  /**
   * The selected/required entries after lines 162-187: rewired to the peer
   * dependencies among the items when the manifest lists any, otherwise
   * untouched; and only `ident`'s `hasMigrations` changes besides.
   */
  ghost predicate PeersLinked(lib: Lib, items: set<IdentHash>, sar: Required, ident: IdentHash, meta: UpdatableManifest, sar': Required) {
    && (if meta.peerDependencies.Some? then Rewired(lib, sar, SelectionDemanders, ident, PeersOf(meta), items, sar')
        else Untouched(sar, SelectionDemanders, sar'))
    && (forall t :: t in sar'.entries ==>
          var e := EntryOr(sar, t, FreshSelection);
          sar'.entries[t] == e.(demanders := sar'.entries[t].demanders, hasMigrations := if t == ident then HasMigrations(meta) else e.hasMigrations))
  }

  /**
   * The included entries after lines 189-216: rewired to the package group
   * among the items other than `ident` itself when the manifest has one,
   * otherwise untouched.
   */
  ghost predicate GroupLinked(lib: Lib, items: set<IdentHash>, inc: Included, ident: IdentHash, meta: UpdatableManifest, inc': Included) {
    && (if HasGroup(meta) then Rewired(lib, inc, InclusionDemanders, ident, GroupOf(meta), items - {ident}, inc')
        else Untouched(inc, InclusionDemanders, inc'))
    && (forall t :: t in inc'.entries ==> inc'.entries[t] == EntryOr(inc, t, FreshInclusion).(demanders := inc'.entries[t].demanders))
  }

  /** Changing an entry in everything but its demanders keeps what was said about the demanders. */
  lemma UntouchedKeeps<V(!new)>(lib: Lib, m: OMap<IdentHash, V>, byOf: V -> OMap<IdentHash, Demand>, ident: IdentHash,
                                demands: OMap<IdentHash, string>, eligible: set<IdentHash>, queue: seq<IdentHash>,
                                m1: OMap<IdentHash, V>, queue': seq<IdentHash>, m2: OMap<IdentHash, V>)
    requires Untouched(m1, byOf, m2)
    ensures Rewired(lib, m, byOf, ident, demands, eligible, m1) ==> Rewired(lib, m, byOf, ident, demands, eligible, m2)
    ensures Untouched(m, byOf, m1) ==> Untouched(m, byOf, m2)
    ensures Requeued(m, byOf, queue, m1, queue') ==> Requeued(m, byOf, queue, m2, queue')
  {
  }

  lemma PeersFields(lib: Lib, items: set<IdentHash>, sar: Required, ident: IdentHash, meta: UpdatableManifest, mid: Required, sar': Required)
    requires meta.peerDependencies.Some? ==> OnlyDemanders(sar, SelectionDemanders, SelectionWithDemanders, FreshSelection, mid)
    requires meta.peerDependencies.None? ==> mid == sar
    requires ident in mid.entries && sar' == Put(mid, ident, mid.entries[ident].(hasMigrations := HasMigrations(meta)))
    ensures forall t :: t in sar'.entries ==>
      var e := EntryOr(sar, t, FreshSelection);
      sar'.entries[t] == e.(demanders := sar'.entries[t].demanders, hasMigrations := if t == ident then HasMigrations(meta) else e.hasMigrations)
  {
    forall t | t in sar'.entries
      ensures var e := EntryOr(sar, t, FreshSelection);
        sar'.entries[t] == e.(demanders := sar'.entries[t].demanders, hasMigrations := if t == ident then HasMigrations(meta) else e.hasMigrations)
    {
      assert mid.entries[t] == EntryOr(sar, t, FreshSelection) ||
             mid.entries[t] == SelectionWithDemanders(EntryOr(sar, t, FreshSelection), mid.entries[t].demanders);
    }
  }

  /** Setting `hasMigrations` leaves the demanders untouched. */
  lemma MigrationsUntouched(sar: Required, ident: IdentHash, hasMigrations: bool)
    requires ident in sar.entries
    ensures Untouched(sar, SelectionDemanders, Put(sar, ident, sar.entries[ident].(hasMigrations := hasMigrations)))
  {
  }

  lemma PeersDone(lib: Lib, items: set<IdentHash>, sar: Required, ident: IdentHash, meta: UpdatableManifest,
                  queue: seq<IdentHash>, mid: Required, queue': seq<IdentHash>, sar': Required)
    requires meta.peerDependencies.Some? ==>
      Recorded(lib, sar, SelectionDemanders, SelectionWithDemanders, FreshSelection, ident, PeersOf(meta), items, mid)
    requires meta.peerDependencies.None? ==> mid == sar && queue' == queue
    requires Requeued(sar, SelectionDemanders, queue, mid, queue')
    requires ident in mid.entries && sar' == Put(mid, ident, mid.entries[ident].(hasMigrations := HasMigrations(meta)))
    ensures PeersLinked(lib, items, sar, ident, meta, sar')
    ensures Requeued(sar, SelectionDemanders, queue, sar', queue')
  {
    PeersFields(lib, items, sar, ident, meta, mid, sar');
    MigrationsUntouched(mid, ident, HasMigrations(meta));
    var peers := if meta.peerDependencies.Some? then PeersOf(meta) else Empty();
    UntouchedKeeps(lib, sar, SelectionDemanders, ident, peers, items, queue, mid, queue', sar');
  }

  /** Lines 162-187: the peer dependencies are recorded, then whether the manifest ships migrations. */
  method LinkPeers(lib: Lib, items: set<IdentHash>, sar: Required, ident: IdentHash, meta: UpdatableManifest, queue: seq<IdentHash>)
    returns (sar': Required, queue': seq<IdentHash>)
    requires ident in sar.entries
    ensures PeersLinked(lib, items, sar, ident, meta, sar')
    ensures Requeued(sar, SelectionDemanders, queue, sar', queue')
  {
    var mid := sar;
    queue' := queue;
    if meta.peerDependencies.Some? {
      LensSelection();
      mid, queue' := Record(lib, sar, SelectionDemanders, SelectionWithDemanders, FreshSelection, ident, PeersOf(meta), items, queue);
    }
    sar' := Put(mid, ident, mid.entries[ident].(hasMigrations := HasMigrations(meta)));
    PeersDone(lib, items, sar, ident, meta, queue, mid, queue', sar');
  }

  lemma GroupDone(lib: Lib, items: set<IdentHash>, inc: Included, ident: IdentHash, meta: UpdatableManifest, inc': Included)
    requires HasGroup(meta)
    requires Recorded(lib, inc, InclusionDemanders, InclusionWithDemanders, FreshInclusion, ident, GroupOf(meta), items - {ident}, inc')
    ensures GroupLinked(lib, items, inc, ident, meta, inc')
  {
  }

  /** Lines 189-216: the package group is recorded as inclusions. */
  method LinkGroup(lib: Lib, items: set<IdentHash>, inc: Included, ident: IdentHash, meta: UpdatableManifest, queue: seq<IdentHash>)
    returns (inc': Included, queue': seq<IdentHash>)
    ensures GroupLinked(lib, items, inc, ident, meta, inc')
    ensures Requeued(inc, InclusionDemanders, queue, inc', queue')
  {
    inc', queue' := inc, queue;
    if HasGroup(meta) {
      LensInclusion();
      inc', queue' := Record(lib, inc, InclusionDemanders, InclusionWithDemanders, FreshInclusion, ident, GroupOf(meta), items - {ident}, queue);
      GroupDone(lib, items, inc, ident, meta, inc');
    }
  }

  /**
   * The queue after a step: it only grows, holds nothing but entries, and
   * holds every entry that was created or whose demanders changed.
   */
  ghost predicate QueueCovers(w: Work, w': Work) {
    && (forall t :: t in w.queue ==> t in w'.queue)
    && (forall t :: t in w'.queue ==> t in w.queue || t in w'.sar.entries || t in w'.inc.entries)
    && (forall t :: t in w'.sar.entries && (t !in w.sar.entries || w'.sar.entries[t].demanders != w.sar.entries[t].demanders) ==> t in w'.queue)
    && (forall t :: t in w'.inc.entries && (t !in w.inc.entries || w'.inc.entries[t].demanders != w.inc.entries[t].demanders) ==> t in w'.queue)
  }

  /** Two steps, one on each map, each queueing what it changes, queue together what they change. */
  lemma Covers(w: Work, sar': Required, inc': Included, queue1: seq<IdentHash>, queue': seq<IdentHash>, sarFirst: bool)
    requires sarFirst ==> Requeued(w.sar, SelectionDemanders, w.queue, sar', queue1) && Requeued(w.inc, InclusionDemanders, queue1, inc', queue')
    requires !sarFirst ==> Requeued(w.inc, InclusionDemanders, w.queue, inc', queue1) && Requeued(w.sar, SelectionDemanders, queue1, sar', queue')
    ensures QueueCovers(w, w.(sar := sar', inc := inc', queue := queue'))
  {
    var w' := w.(sar := sar', inc := inc', queue := queue');
    forall t | t in w'.sar.entries && (t !in w.sar.entries || w'.sar.entries[t].demanders != w.sar.entries[t].demanders)
      ensures t in queue'
    {
      assert SelectionDemanders(w'.sar.entries[t]) == w'.sar.entries[t].demanders;
    }
    forall t | t in w'.inc.entries && (t !in w.inc.entries || w'.inc.entries[t].demanders != w.inc.entries[t].demanders)
      ensures t in queue'
    {
      assert InclusionDemanders(w'.inc.entries[t]) == w'.inc.entries[t].demanders;
    }
  }

  /**
   * Lines 158-216: with the manifest of its selected range, `ident` requires
   * its peer dependencies and includes its package group, both only among
   * the items, and stops demanding what the manifest no longer lists.
   */
  method Link(env: Env, w: Work, ident: IdentHash, meta: UpdatableManifest) returns (w': Work)
    requires ident in w.sar.entries
    ensures w' == w.(sar := w'.sar, inc := w'.inc, queue := w'.queue)
    ensures PeersLinked(env.lib, env.state.itemMap.entries.Keys, w.sar, ident, meta, w'.sar)
    ensures GroupLinked(env.lib, env.state.itemMap.entries.Keys, w.inc, ident, meta, w'.inc)
    ensures QueueCovers(w, w')
  {
    var items := env.state.itemMap.entries.Keys;
    var sar, queue1 := LinkPeers(env.lib, items, w.sar, ident, meta, w.queue);
    var inc, queue' := LinkGroup(env.lib, items, w.inc, ident, meta, queue1);
    Covers(w, sar, inc, queue1, queue', true);
    w' := w.(sar := sar, inc := inc, queue := queue');
  }

  /** `DropDemander` with nothing exempt rewires `ident` to demand nothing. */
  lemma DroppedRewired<V(!new)>(lib: Lib, m: OMap<IdentHash, V>, byOf: V -> OMap<IdentHash, Demand>, withBy: (V, OMap<IdentHash, Demand>) -> V,
                                blank: V, ident: IdentHash, m': OMap<IdentHash, V>)
    requires Dropped(m, byOf, withBy, ident, {}, m')
    ensures Rewired(lib, m, byOf, ident, Empty(), {}, m') && OnlyDemanders(m, byOf, withBy, blank, m')
  {
  }

  /** Lines 142-150: a package left without a range demands nothing any more; what it demanded is queued. */
  method DropAll(env: Env, w: Work, ident: IdentHash) returns (w': Work)
    ensures w' == w.(sar := w'.sar, inc := w'.inc, queue := w'.queue)
    ensures Rewired(env.lib, w.inc, InclusionDemanders, ident, Empty(), {}, w'.inc)
    ensures OnlyDemanders(w.inc, InclusionDemanders, InclusionWithDemanders, FreshInclusion, w'.inc)
    ensures Rewired(env.lib, w.sar, SelectionDemanders, ident, Empty(), {}, w'.sar)
    ensures OnlyDemanders(w.sar, SelectionDemanders, SelectionWithDemanders, FreshSelection, w'.sar)
    ensures QueueCovers(w, w')
  {
    LensInclusion();
    var inc, queue1 := DropDemander(w.inc, InclusionDemanders, InclusionWithDemanders, ident, {}, w.queue);
    DropEntries(w.inc, InclusionDemanders, InclusionWithDemanders, ident, {}, inc);
    DropQueue(w.inc, InclusionDemanders, InclusionWithDemanders, ident, {}, w.queue, inc, queue1);
    DroppedRewired(env.lib, w.inc, InclusionDemanders, InclusionWithDemanders, FreshInclusion, ident, inc);
    LensSelection();
    var sar, queue' := DropDemander(w.sar, SelectionDemanders, SelectionWithDemanders, ident, {}, queue1);
    DropEntries(w.sar, SelectionDemanders, SelectionWithDemanders, ident, {}, sar);
    DropQueue(w.sar, SelectionDemanders, SelectionWithDemanders, ident, {}, queue1, sar, queue');
    DroppedRewired(env.lib, w.sar, SelectionDemanders, SelectionWithDemanders, FreshSelection, ident, sar);
    Covers(w, sar, inc, queue1, queue', false);
    w' := w.(sar := sar, inc := inc, queue := queue');
  }

  /** A package never includes itself after a rewiring that does not make `ident` include itself. */
  lemma NoSelfInclusion(lib: Lib, inc: Included, ident: IdentHash, demands: OMap<IdentHash, string>, eligible: set<IdentHash>, inc': Included)
    requires forall u :: u in inc.entries ==> u !in inc.entries[u].demanders.entries
    requires ident !in eligible
    requires Rewired(lib, inc, InclusionDemanders, ident, demands, eligible, inc') || Untouched(inc, InclusionDemanders, inc')
    ensures forall u :: u in inc'.entries ==> u !in inc'.entries[u].demanders.entries
  {
    forall u | u in inc'.entries ensures u !in inc'.entries[u].demanders.entries {
      assert InclusionDemanders(inc'.entries[u]) == inc'.entries[u].demanders;
      if u in inc.entries {
        assert InclusionDemanders(inc.entries[u]) == inc.entries[u].demanders;
      }
    }
  }

  /** Linking keeps the invariant. */
  lemma LinkKeeps(env: Env, w: Work, ident: IdentHash, meta: UpdatableManifest, w': Work)
    requires Inv(env, w) && ident in env.state.itemMap.entries
    requires w' == w.(sar := w'.sar, inc := w'.inc, queue := w'.queue)
    requires PeersLinked(env.lib, env.state.itemMap.entries.Keys, w.sar, ident, meta, w'.sar)
    requires GroupLinked(env.lib, env.state.itemMap.entries.Keys, w.inc, ident, meta, w'.inc)
    requires QueueCovers(w, w')
    ensures Inv(env, w')
  {
    var items := env.state.itemMap.entries.Keys;
    var group := if HasGroup(meta) then GroupOf(meta) else Empty();
    NoSelfInclusion(env.lib, w.inc, ident, group, items - {ident}, w'.inc);
  }

  /** Dropping keeps the invariant. */
  lemma DropKeeps(env: Env, w: Work, ident: IdentHash, w': Work)
    requires Inv(env, w)
    requires w' == w.(sar := w'.sar, inc := w'.inc, queue := w'.queue)
    requires Rewired(env.lib, w.inc, InclusionDemanders, ident, Empty(), {}, w'.inc)
    requires OnlyDemanders(w.inc, InclusionDemanders, InclusionWithDemanders, FreshInclusion, w'.inc)
    requires Rewired(env.lib, w.sar, SelectionDemanders, ident, Empty(), {}, w'.sar)
    requires OnlyDemanders(w.sar, SelectionDemanders, SelectionWithDemanders, FreshSelection, w'.sar)
    requires QueueCovers(w, w')
    ensures Inv(env, w')
  {
    NoSelfInclusion(env.lib, w.inc, ident, Empty(), {}, w'.inc);
    forall u | UserSelected(env.state, u)
      ensures w'.sar.entries[u].selectedRange == Some(env.state.itemMap.entries[u].selectedRange.range)
    {
      assert w'.sar.entries[u] == w.sar.entries[u] || w'.sar.entries[u] == SelectionWithDemanders(w.sar.entries[u], w'.sar.entries[u].demanders);
    }
  }

  // ---------------------------------------------------------------------------
  // The rest of processing a package that was not skipped (lines 142-216)

  /**
   * A package left without a range stops demanding anything; one whose
   * manifest is not fetched yet awaits it; otherwise it is linked to what
   * the manifest of its selected range lists. The lists of packages already
   * okay and awaiting suggestions stay as they are.
   */
  ghost predicate Advanced(env: Env, s: Work, ident: IdentHash, w': Work)
    requires ident in s.sar.entries
  {
    var selected := s.sar.entries[ident].selectedRange;
    var items := env.state.itemMap.entries.Keys;
    && w'.alreadyOkay == s.alreadyOkay && w'.requiresSuggestions == s.requiresSuggestions
    && QueueCovers(s, w')
    && (selected.None? ==>
          && w'.metaFetching == s.metaFetching
          && Rewired(env.lib, s.sar, SelectionDemanders, ident, Empty(), {}, w'.sar)
          && OnlyDemanders(s.sar, SelectionDemanders, SelectionWithDemanders, FreshSelection, w'.sar)
          && Rewired(env.lib, s.inc, InclusionDemanders, ident, Empty(), {}, w'.inc)
          && OnlyDemanders(s.inc, InclusionDemanders, InclusionWithDemanders, FreshInclusion, w'.inc))
    && (selected.Some? && ident !in env.state.metaFetched ==> w' == s.(metaFetching := s.metaFetching + {ident}))
    && (selected.Some? && ident in env.state.metaFetched ==>
          var meta := env.getDescriptorMeta(Descriptor(ident, selected.value));
          && w'.metaFetching == s.metaFetching
          && PeersLinked(env.lib, items, s.sar, ident, meta, w'.sar)
          && GroupLinked(env.lib, items, s.inc, ident, meta, w'.inc))
  }

  /** Lines 142-216, after `Settle` did not stop at `ident`. */
  method Advance(env: Env, s: Work, ident: IdentHash) returns (w': Work)
    requires Inv(env, s) && ident in env.state.itemMap.entries && ident in s.sar.entries
    ensures Advanced(env, s, ident, w') && Inv(env, w')
  {
    var selected := s.sar.entries[ident].selectedRange;
    if selected.None? {
      w' := DropAll(env, s, ident);
      DropKeeps(env, s, ident, w');
    } else if ident !in env.state.metaFetched {
      w' := s.(metaFetching := s.metaFetching + {ident});
    } else {
      var meta := env.getDescriptorMeta(Descriptor(ident, selected.value));
      w' := Link(env, s, ident, meta);
      LinkKeeps(env, s, ident, meta, w');
    }
  }
}
