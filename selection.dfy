/**
 * `updateSelection` (ui/app/state/selection.ts): a bounded worklist fixpoint
 * that spreads the user's selections along peer-dependency (requirement) and
 * `ng-update` package-group (inclusion) edges, then prunes what needs no
 * update and strips loops that would pin a user-selected package.
 */
module Selection {
  import opened Wrappers
  import opened Seqs
  import opened Semver
  import opened Structs
  import opened Externals
  import opened OrderedMaps
  import opened Ranges
  import opened AppStates
  import opened Reachability

  // ---------------------------------------------------------------------------
  // Combining demands (getCombinedRange)

  /** The parsed ranges among the demands, in order: the `typeof r !== 'string'` filter. */
  function RangesOf(demands: seq<Demand>): (r: seq<Range>)
    ensures forall x :: x in r <==> RangeDemand(x) in demands
    decreases |demands|
  {
    if |demands| == 0 then []
    else
      var init := RangesOf(demands[..|demands| - 1]);
      var last := demands[|demands| - 1];
      assert forall d :: d in demands <==> d in demands[..|demands| - 1] || d == last by {
        assert demands == demands[..|demands| - 1] + [last];
      }
      if last.RangeDemand? then init + [last.range] else init
  }

  /** `reduce` with getIntersection and no initial value; once null, the accumulator stays null. */
  function IntersectAll(lib: Lib, ranges: seq<Range>): Option<Range>
    requires |ranges| > 0
    decreases |ranges|
  {
    if |ranges| == 1 then Some(ranges[0])
    else
      var acc := IntersectAll(lib, ranges[..|ranges| - 1]);
      if acc.Some? then GetIntersection(lib, acc.value, ranges[|ranges| - 1]) else None
  }

  /**
   * `getCombinedRange`: null when no demand is a parsed range, otherwise the
   * intersection of all parsed ones, which is null as soon as one step is.
   */
  function CombinedRange(lib: Lib, demands: seq<Demand>): (r: Option<Range>)
    ensures (forall d :: d in demands ==> d.TextDemand?) ==> r.None?
  {
    var ranges := RangesOf(demands);
    if |ranges| == 0 then None
    else
      assert RangeDemand(ranges[0]) in demands;
      IntersectAll(lib, ranges)
  }

  /** Text demands never change the combined range. */
  lemma CombinedRangeIgnoresText(lib: Lib, demands: seq<Demand>, text: string)
    ensures CombinedRange(lib, demands + [TextDemand(text)]) == CombinedRange(lib, demands)
  {
    var more := demands + [TextDemand(text)];
    assert more[..|more| - 1] == demands;
  }

  /** A further parsed range narrows the combined range by one intersection; null absorbs. */
  lemma CombinedRangeStep(lib: Lib, demands: seq<Demand>, range: Range)
    ensures var before := CombinedRange(lib, demands);
      CombinedRange(lib, demands + [RangeDemand(range)]) ==
        if |RangesOf(demands)| == 0 then Some(range)
        else if before.Some? then GetIntersection(lib, before.value, range)
        else None
  {
    var more := demands + [RangeDemand(range)];
    assert more[..|more| - 1] == demands;
    var ranges := RangesOf(more);
    assert ranges == RangesOf(demands) + [range];
    assert ranges[..|ranges| - 1] == RangesOf(demands);
  }

  /** Two parsed ranges that do not intersect make every longer list of demands conflict. */
  lemma DisjointDemandsConflict(lib: Lib, a: Range, b: Range, rest: seq<Demand>)
    requires !lib.rangesIntersect(a, b)
    ensures CombinedRange(lib, [RangeDemand(a), RangeDemand(b)] + rest).None?
    decreases |rest|
  {
    var ds := [RangeDemand(a), RangeDemand(b)] + rest;
    if |rest| == 0 {
      CombinedRangeStep(lib, [RangeDemand(a)], b);
      assert [RangeDemand(a)] + [RangeDemand(b)] == ds;
      assert RangesOf([RangeDemand(a)]) == [a] by {
        assert [RangeDemand(a)][..0] == [];
      }
      assert CombinedRange(lib, [RangeDemand(a)]) == Some(a);
    } else {
      var init := [RangeDemand(a), RangeDemand(b)] + rest[..|rest| - 1];
      DisjointDemandsConflict(lib, a, b, rest[..|rest| - 1]);
      assert ds == init + [rest[|rest| - 1]];
      assert RangeDemand(a) in init;
      assert |RangesOf(init)| > 0;
      match rest[|rest| - 1]
      case TextDemand(t) => CombinedRangeIgnoresText(lib, init, t);
      case RangeDemand(x) => CombinedRangeStep(lib, init, x);
    }
  }

  // ---------------------------------------------------------------------------
  // The demand on an unselected package (lines 94-140)

  /** What the demanders of a package ask for in total. */
  datatype Demanded = Undemanded | Conflicting | DemandedRange(range: Range)

  /** The demands that apply: the includers' when there are any, else the requirers'. */
  function ApplyingDemands(inclusion: Option<InclusionInfo>, selection: SelectionInfo): seq<Demand> {
    if inclusion.Some? && |inclusion.value.demanders.keys| > 0 then Values(inclusion.value.demanders) else Values(selection.demanders)
  }

  function DemandOn(lib: Lib, inclusion: Option<InclusionInfo>, selection: SelectionInfo): (r: Demanded)
    ensures r.Undemanded? <==> |ApplyingDemands(inclusion, selection)| == 0
    ensures r.Conflicting? <==> |ApplyingDemands(inclusion, selection)| > 0 && CombinedRange(lib, ApplyingDemands(inclusion, selection)).None?
    ensures r.DemandedRange? ==> Some(r.range) == CombinedRange(lib, ApplyingDemands(inclusion, selection))
  {
    var demands := ApplyingDemands(inclusion, selection);
    if |demands| == 0 then Undemanded
    else match CombinedRange(lib, demands)
      case None => Conflicting
      case Some(range) => DemandedRange(range)
  }

  /** Inclusion demands take precedence: while a package has includers, its requirers do not matter. */
  lemma InclusionTakesPrecedence(lib: Lib, inclusion: InclusionInfo, s1: SelectionInfo, s2: SelectionInfo)
    requires |inclusion.demanders.keys| > 0
    ensures DemandOn(lib, Some(inclusion), s1) == DemandOn(lib, Some(inclusion), s2)
  {
  }

  /** A package whose demanders all give unparsed range text is marked as conflicting. */
  lemma AllTextConflicts(lib: Lib, inclusion: Option<InclusionInfo>, selection: SelectionInfo)
    requires |ApplyingDemands(inclusion, selection)| > 0
    requires forall d :: d in ApplyingDemands(inclusion, selection) ==> d.TextDemand?
    ensures DemandOn(lib, inclusion, selection).Conflicting?
  {
  }

  /** What processing an unselected package decides. */
  datatype Decision =
    | Conflict                                  // lines 102-107
    | AlreadyOkay                               // lines 111-119
    | AwaitSuggestions                          // lines 121-124
    | Unchanged                                 // lines 126-130
    | Suggest(suggestions: seq<string>, range: Range)  // lines 132-138

  /** The first requested range of the item, parsed as `subset` parses it. */
  function CurrentRange(lib: Lib, item: UpdatableItem): Option<Range>
    requires |item.requestedDescriptors| > 0
  {
    lib.validRange(CleanRange(lib, item.requestedDescriptors[0].range))
  }

  /**
   * Lines 102-139. `subset` throws on a first requested range that does not
   * parse; it is only consulted when something is demanded.
   */
  function Decide(lib: Lib, suggestionsFetched: set<IdentHash>, getSuggestions: (Descriptor, Option<Range>) -> seq<string>,
                  ident: IdentHash, item: UpdatableItem, demand: Demanded, validRange: Option<Range>): (r: Result<Decision>)
    requires |item.requestedDescriptors| > 0
    ensures demand.Conflicting? <==> r == Success(Conflict)
    ensures demand.Undemanded? ==> r == Success(AlreadyOkay)
    ensures r.Failure? <==> demand.DemandedRange? && CurrentRange(lib, item).None?
    ensures r == Success(AlreadyOkay) <==>
      demand.Undemanded? || (demand.DemandedRange? && CurrentRange(lib, item).Some? && lib.subset(CurrentRange(lib, item).value, demand.range))
    ensures r == Success(AwaitSuggestions) <==>
      demand.DemandedRange? && CurrentRange(lib, item).Some? && !lib.subset(CurrentRange(lib, item).value, demand.range) &&
      ident !in suggestionsFetched
    ensures r.Success? && (r.value.Unchanged? || r.value.Suggest?) ==>
      demand.DemandedRange? && CurrentRange(lib, item).Some? && !lib.subset(CurrentRange(lib, item).value, demand.range) &&
      ident in suggestionsFetched
    ensures r == Success(Unchanged) ==> validRange.Some? && FormatRange(validRange.value) == FormatRange(demand.range)
    ensures r.Success? && r.value.Suggest? ==>
      r.value.range == demand.range &&
      r.value.suggestions == getSuggestions(item.requestedDescriptors[0], Some(demand.range)) &&
      (validRange.None? || FormatRange(validRange.value) != FormatRange(demand.range))
  {
    match demand
    case Conflicting => Success(Conflict)
    case Undemanded => Success(AlreadyOkay)
    case DemandedRange(range) =>
      match CurrentRange(lib, item)
      case None => Failure("Invalid comparator")
      case Some(current) =>
        if lib.subset(current, range) then Success(AlreadyOkay)
        else if ident !in suggestionsFetched then Success(AwaitSuggestions)
        else if validRange.Some? && FormatRange(range) == FormatRange(validRange.value) then Success(Unchanged)
        else Success(Suggest(getSuggestions(item.requestedDescriptors[0], Some(range)), range))
  }

  /** `suggestions[suggestions.length - 1]`: the strongest suggestion, undefined when there is none. */
  function LastOf(suggestions: seq<string>): (r: Option<string>)
    ensures r.None? <==> |suggestions| == 0
    ensures r.Some? ==> r.value == suggestions[|suggestions| - 1]
  {
    if |suggestions| == 0 then None else Some(suggestions[|suggestions| - 1])
  }

  // ---------------------------------------------------------------------------
  // Demander maps (`by`) inside the selected/required and included maps

  function SelectionDemanders(s: SelectionInfo): OMap<IdentHash, Demand> { s.demanders }
  function SelectionWithDemanders(s: SelectionInfo, demanders: OMap<IdentHash, Demand>): SelectionInfo { s.(demanders := demanders) }
  function InclusionDemanders(s: InclusionInfo): OMap<IdentHash, Demand> { s.demanders }
  function InclusionWithDemanders(s: InclusionInfo, demanders: OMap<IdentHash, Demand>): InclusionInfo { s.(demanders := demanders) }

  /** The entry `getSelection` creates. */
  const FreshSelection := SelectionInfo(Empty(), None, None, None, false, false)

  /** The entry `getInclusion` creates. */
  const FreshInclusion := InclusionInfo(Empty(), None)

  /** The entry `getSelection`/`getInclusion` returns: the stored one, else a fresh one. */
  function EntryOr<V>(m: OMap<IdentHash, V>, k: IdentHash, blank: V): V {
    if k in m.entries then m.entries[k] else blank
  }

  /** The demand a range text makes: `getRange(text) || text`. */
  function DemandOf(lib: Lib, text: string): (d: Demand)
    ensures d.RangeDemand? <==> GetRange(lib, text).Some?
    ensures d.RangeDemand? ==> d.range == GetRange(lib, text).value
    ensures d.TextDemand? ==> d.text == text
  {
    match GetRange(lib, text)
    case Some(range) => RangeDemand(range)
    case None => TextDemand(text)
  }

  /** The entries whose demanders include `ident`, other than the exempt ones. */
  function Drops<V>(m: OMap<IdentHash, V>, byOf: V -> OMap<IdentHash, Demand>, ident: IdentHash, exempt: set<IdentHash>): IdentHash -> bool {
    i => i in m.entries && i !in exempt && ident in byOf(m.entries[i]).entries
  }

  /** An entry after `by.delete(ident)` when it drops `ident`. */
  function AfterDrop<V>(m: OMap<IdentHash, V>, byOf: V -> OMap<IdentHash, Demand>, withBy: (V, OMap<IdentHash, Demand>) -> V,
                        ident: IdentHash, exempt: set<IdentHash>, i: IdentHash): V
    requires i in m.entries
  {
    if Drops(m, byOf, ident, exempt)(i) then withBy(m.entries[i], Remove(byOf(m.entries[i]), ident)) else m.entries[i]
  }

  /**
   * Lines 143-148, 179-184 and 210-215: every entry outside `exempt` that has
   * `ident` among its demanders loses it, and is queued again.
   */
  method DropDemander<V>(m: OMap<IdentHash, V>, byOf: V -> OMap<IdentHash, Demand>, withBy: (V, OMap<IdentHash, Demand>) -> V,
                         ident: IdentHash, exempt: set<IdentHash>, queue: seq<IdentHash>)
    returns (m': OMap<IdentHash, V>, queue': seq<IdentHash>)
    ensures m'.keys == m.keys
    ensures forall i :: i in m.entries ==> m'.entries[i] == AfterDrop(m, byOf, withBy, ident, exempt, i)
    ensures queue' == AddAllLast(queue, Filter(m.keys, Drops(m, byOf, ident, exempt)))
  {
    m', queue' := m, queue;
    for k := 0 to |m.keys|
      invariant DropDone(m, byOf, withBy, ident, exempt, queue, k, m', queue')
    {
      var i := m.keys[k];
      ghost var before, queued := m', queue';
      if Drops(m, byOf, ident, exempt)(i) {
        m' := Put(m', i, withBy(m.entries[i], Remove(byOf(m.entries[i]), ident)));
        queue' := AddLast(queue', i);
      }
      DropStep(m, byOf, withBy, ident, exempt, queue, k, before, queued, m', queue');
    }
    assert m.keys[..|m.keys|] == m.keys;
  }

  /** The loop invariant of `DropDemander` after the first `k` entries. */
  ghost predicate DropDone<V>(m: OMap<IdentHash, V>, byOf: V -> OMap<IdentHash, Demand>, withBy: (V, OMap<IdentHash, Demand>) -> V,
                              ident: IdentHash, exempt: set<IdentHash>, queue: seq<IdentHash>, k: nat,
                              m': OMap<IdentHash, V>, queue': seq<IdentHash>)
  {
    && k <= |m.keys|
    && m'.keys == m.keys
    && DropEntriesDone(m, byOf, withBy, ident, exempt, k, m')
    && queue' == AddAllLast(queue, Filter(m.keys[..k], Drops(m, byOf, ident, exempt)))
  }

  ghost predicate DropEntriesDone<V>(m: OMap<IdentHash, V>, byOf: V -> OMap<IdentHash, Demand>, withBy: (V, OMap<IdentHash, Demand>) -> V,
                                     ident: IdentHash, exempt: set<IdentHash>, k: nat, m': OMap<IdentHash, V>)
    requires k <= |m.keys|
  {
    forall i :: i in m.entries ==> i in m'.entries && m'.entries[i] == if i in m.keys[..k] then AfterDrop(m, byOf, withBy, ident, exempt, i) else m.entries[i]
  }

  /** One entry of `DropDemander` keeps its loop invariant. */
  lemma DropStep<V>(m: OMap<IdentHash, V>, byOf: V -> OMap<IdentHash, Demand>, withBy: (V, OMap<IdentHash, Demand>) -> V,
                    ident: IdentHash, exempt: set<IdentHash>, queue: seq<IdentHash>, k: nat,
                    before: OMap<IdentHash, V>, queued: seq<IdentHash>, m': OMap<IdentHash, V>, queue': seq<IdentHash>)
    requires k < |m.keys| && DropDone(m, byOf, withBy, ident, exempt, queue, k, before, queued)
    requires var i := m.keys[k];
      if Drops(m, byOf, ident, exempt)(i) then
        m' == Put(before, i, withBy(m.entries[i], Remove(byOf(m.entries[i]), ident))) && queue' == AddLast(queued, i)
      else m' == before && queue' == queued
    ensures DropDone(m, byOf, withBy, ident, exempt, queue, k + 1, m', queue')
  {
    var i := m.keys[k];
    AddFilteredSnoc(queue, m.keys, k, Drops(m, byOf, ident, exempt));
    DropEntriesStep(m, byOf, withBy, ident, exempt, k, before, if Drops(m, byOf, ident, exempt)(i) then Some(m'.entries[i]) else None, m');
  }

  /** The entries part of `DropStep`: the entry at `k` is the only one that may change. */
  lemma DropEntriesStep<V>(m: OMap<IdentHash, V>, byOf: V -> OMap<IdentHash, Demand>, withBy: (V, OMap<IdentHash, Demand>) -> V,
                           ident: IdentHash, exempt: set<IdentHash>, k: nat,
                           before: OMap<IdentHash, V>, put: Option<V>, m': OMap<IdentHash, V>)
    requires k < |m.keys|
    requires DropEntriesDone(m, byOf, withBy, ident, exempt, k, before)
    requires put.Some? <==> Drops(m, byOf, ident, exempt)(m.keys[k])
    requires put.Some? ==> put.value == AfterDrop(m, byOf, withBy, ident, exempt, m.keys[k]) && m'.entries == before.entries[m.keys[k] := put.value]
    requires put.None? ==> m' == before
    ensures DropEntriesDone(m, byOf, withBy, ident, exempt, k + 1, m')
  {
    var i := m.keys[k];
    InPrefixSnoc(m.keys, k);
    assert i !in m.keys[..k];
  }

  /** Whether the demand of `ident` on target `t` is new or different, so `t` is updated and queued again. */
  predicate ChangesAt<V>(lib: Lib, m: OMap<IdentHash, V>, byOf: V -> OMap<IdentHash, Demand>, blank: V,
                         ident: IdentHash, demands: OMap<IdentHash, string>, eligible: set<IdentHash>, t: IdentHash) {
    t in demands.entries && t in eligible &&
    var current := byOf(EntryOr(m, t, blank));
    !(ident in current.entries && current.entries[ident] == DemandOf(lib, demands.entries[t]))
  }

  function Changes<V>(lib: Lib, m: OMap<IdentHash, V>, byOf: V -> OMap<IdentHash, Demand>, blank: V,
                      ident: IdentHash, demands: OMap<IdentHash, string>, eligible: set<IdentHash>): IdentHash -> bool {
    t => ChangesAt(lib, m, byOf, blank, ident, demands, eligible, t)
  }

  /** The targets an entry is created for, in order. */
  function Eligible(demands: OMap<IdentHash, string>, eligible: set<IdentHash>): IdentHash -> bool {
    t => t in demands.entries && t in eligible
  }

  /** An entry after the demand of `ident` on it is recorded. */
  function AfterDemand<V>(lib: Lib, m: OMap<IdentHash, V>, byOf: V -> OMap<IdentHash, Demand>, withBy: (V, OMap<IdentHash, Demand>) -> V,
                          blank: V, ident: IdentHash, demands: OMap<IdentHash, string>, eligible: set<IdentHash>, t: IdentHash): V
  {
    var e := EntryOr(m, t, blank);
    if ChangesAt(lib, m, byOf, blank, ident, demands, eligible, t) then
      withBy(e, Put(byOf(e), ident, DemandOf(lib, demands.entries[t])))
    else e
  }

  /** The loop invariant of `AddDemands` after the first `k` targets: the order of keys and queue. */
  ghost predicate OrderDone<V>(lib: Lib, m: OMap<IdentHash, V>, byOf: V -> OMap<IdentHash, Demand>,
                               blank: V, ident: IdentHash, demands: OMap<IdentHash, string>, eligible: set<IdentHash>, queue: seq<IdentHash>,
                               k: nat, m': OMap<IdentHash, V>, queue': seq<IdentHash>)
    requires k <= |demands.keys|
  {
    && m'.keys == AddAllLast(m.keys, Filter(demands.keys[..k], Eligible(demands, eligible)))
    && queue' == AddAllLast(queue, Filter(demands.keys[..k], Changes(lib, m, byOf, blank, ident, demands, eligible)))
  }

  /** The loop invariant of `AddDemands` after the first `k` targets: the entries. */
  ghost predicate EntriesDone<V>(lib: Lib, m: OMap<IdentHash, V>, byOf: V -> OMap<IdentHash, Demand>, withBy: (V, OMap<IdentHash, Demand>) -> V,
                                 blank: V, ident: IdentHash, demands: OMap<IdentHash, string>, eligible: set<IdentHash>,
                                 k: nat, m': OMap<IdentHash, V>)
    requires k <= |demands.keys|
  {
    && (forall t :: t in m'.entries && t in demands.keys[..k] ==>
          m'.entries[t] == AfterDemand(lib, m, byOf, withBy, blank, ident, demands, eligible, t))
    && (forall t :: t in m'.entries && t !in demands.keys[..k] ==> t in m.entries && m'.entries[t] == m.entries[t])
  }

  lemma OrderStep<V>(lib: Lib, m: OMap<IdentHash, V>, byOf: V -> OMap<IdentHash, Demand>,
                     blank: V, ident: IdentHash, demands: OMap<IdentHash, string>, eligible: set<IdentHash>, queue: seq<IdentHash>,
                     k: nat, m1: OMap<IdentHash, V>, q1: seq<IdentHash>, m2: OMap<IdentHash, V>, q2: seq<IdentHash>)
    requires k < |demands.keys|
    requires OrderDone(lib, m, byOf, blank, ident, demands, eligible, queue, k, m1, q1)
    requires m2.keys == if Eligible(demands, eligible)(demands.keys[k]) then AddLast(m1.keys, demands.keys[k]) else m1.keys
    requires q2 == if Changes(lib, m, byOf, blank, ident, demands, eligible)(demands.keys[k]) then AddLast(q1, demands.keys[k]) else q1
    ensures OrderDone(lib, m, byOf, blank, ident, demands, eligible, queue, k + 1, m2, q2)
  {
    AddFilteredSnoc(m.keys, demands.keys, k, Eligible(demands, eligible));
    AddFilteredSnoc(queue, demands.keys, k, Changes(lib, m, byOf, blank, ident, demands, eligible));
  }

  lemma EntriesStep<V>(lib: Lib, m: OMap<IdentHash, V>, byOf: V -> OMap<IdentHash, Demand>, withBy: (V, OMap<IdentHash, Demand>) -> V,
                       blank: V, ident: IdentHash, demands: OMap<IdentHash, string>, eligible: set<IdentHash>,
                       k: nat, m1: OMap<IdentHash, V>, m2: OMap<IdentHash, V>)
    requires k < |demands.keys|
    requires EntriesDone(lib, m, byOf, withBy, blank, ident, demands, eligible, k, m1)
    requires m2.entries == if Eligible(demands, eligible)(demands.keys[k])
      then m1.entries[demands.keys[k] := AfterDemand(lib, m, byOf, withBy, blank, ident, demands, eligible, demands.keys[k])] else m1.entries
    ensures EntriesDone(lib, m, byOf, withBy, blank, ident, demands, eligible, k + 1, m2)
  {
    var t := demands.keys[k];
    assert t !in demands.keys[..k];
    InPrefixSnoc(demands.keys, k);
    forall x | x in m2.entries && x in demands.keys[..k + 1]
      ensures m2.entries[x] == AfterDemand(lib, m, byOf, withBy, blank, ident, demands, eligible, x)
    {
      if x != t {
        assert x in demands.keys[..k] && x in m1.entries;
      } else if !Eligible(demands, eligible)(t) {
        assert t in m.entries && m2.entries[t] == m.entries[t];
      }
    }
    forall x | x in m2.entries && x !in demands.keys[..k + 1]
      ensures x in m.entries && m2.entries[x] == m.entries[x]
    {
      assert x in m1.entries && x !in demands.keys[..k];
    }
  }

  /**
   * Lines 165-177 and 196-208: for each target in `eligible`, in order, the
   * entry is fetched or created and `ident`'s demand recorded on it; a target
   * whose demand is new or different is queued again.
   */
  method AddDemands<V>(lib: Lib, m: OMap<IdentHash, V>, byOf: V -> OMap<IdentHash, Demand>, withBy: (V, OMap<IdentHash, Demand>) -> V,
                       blank: V, ident: IdentHash, demands: OMap<IdentHash, string>, eligible: set<IdentHash>, queue: seq<IdentHash>)
    returns (m': OMap<IdentHash, V>, queue': seq<IdentHash>)
    ensures m'.keys == AddAllLast(m.keys, Filter(demands.keys, Eligible(demands, eligible)))
    ensures forall t :: t in m'.entries ==> m'.entries[t] == AfterDemand(lib, m, byOf, withBy, blank, ident, demands, eligible, t)
    ensures queue' == AddAllLast(queue, Filter(demands.keys, Changes(lib, m, byOf, blank, ident, demands, eligible)))
  {
    var changes := Changes(lib, m, byOf, blank, ident, demands, eligible);
    var elig := Eligible(demands, eligible);
    m', queue' := m, queue;
    for k := 0 to |demands.keys|
      invariant OrderDone(lib, m, byOf, blank, ident, demands, eligible, queue, k, m', queue')
      invariant EntriesDone(lib, m, byOf, withBy, blank, ident, demands, eligible, k, m')
    {
      var t := demands.keys[k];
      ghost var m1, q1 := m', queue';
      if elig(t) {
        // getSelection/getInclusion creates the entry; `by.set` records the demand when it differs.
        m' := Put(m', t, AfterDemand(lib, m, byOf, withBy, blank, ident, demands, eligible, t));
        if changes(t) {
          queue' := AddLast(queue', t);
        }
      }
      OrderStep(lib, m, byOf, blank, ident, demands, eligible, queue, k, m1, q1, m', queue');
      EntriesStep(lib, m, byOf, withBy, blank, ident, demands, eligible, k, m1, m');
    }
    assert demands.keys[..|demands.keys|] == demands.keys;
  }

  /** `withBy` replaces the demanders that `byOf` reads, and nothing else about them. */
  ghost predicate Lens<V(!new)>(byOf: V -> OMap<IdentHash, Demand>, withBy: (V, OMap<IdentHash, Demand>) -> V) {
    && (forall e, b :: byOf(withBy(e, b)) == b)
    && (forall e, b1, b2 :: withBy(withBy(e, b1), b2) == withBy(e, b2))
  }

  /** The queue only grows, with entries only, and holds every entry created or whose demanders changed. */
  ghost predicate Requeued<V(!new)>(m: OMap<IdentHash, V>, byOf: V -> OMap<IdentHash, Demand>, queue: seq<IdentHash>,
                                    m': OMap<IdentHash, V>, queue': seq<IdentHash>) {
    && (forall t :: t in m'.entries && (t !in m.entries || byOf(m'.entries[t]) != byOf(m.entries[t])) ==> t in queue')
    && (forall t :: t in queue ==> t in queue')
    && (forall t :: t in queue' ==> t in queue || t in m'.entries)
  }

  /** Two steps that each queue what they change queue together what they change. */
  lemma RequeuedTrans<V(!new)>(m: OMap<IdentHash, V>, byOf: V -> OMap<IdentHash, Demand>, queue: seq<IdentHash>,
                               m1: OMap<IdentHash, V>, queue1: seq<IdentHash>, m2: OMap<IdentHash, V>, queue2: seq<IdentHash>)
    requires Requeued(m, byOf, queue, m1, queue1) && Requeued(m1, byOf, queue1, m2, queue2)
    requires forall t :: t in m2.entries <==> t in m1.entries
    ensures Requeued(m, byOf, queue, m2, queue2)
  {
    forall t | t in m2.entries && (t !in m.entries || byOf(m2.entries[t]) != byOf(m.entries[t])) ensures t in queue2 {
      if t !in m.entries || byOf(m1.entries[t]) != byOf(m.entries[t]) {
        assert t in queue1;
      }
    }
  }

  /** The entries `AddDemands` leaves: the old ones and one per eligible target. */
  lemma DemandsKeys<V>(m: OMap<IdentHash, V>, demands: OMap<IdentHash, string>, eligible: set<IdentHash>, m': OMap<IdentHash, V>)
    requires m'.keys == AddAllLast(m.keys, Filter(demands.keys, Eligible(demands, eligible)))
    ensures forall t :: t in m'.entries <==> t in m.entries || (t in demands.entries && t in eligible)
  {
    forall t ensures t in m'.entries <==> t in m.entries || (t in demands.entries && t in eligible) {
      assert t in m'.keys <==> t in m.keys || (t in demands.keys && Eligible(demands, eligible)(t));
    }
  }

  /** The entries after `AddDemands`: each eligible target now demanded by `ident`, nothing else added. */
  ghost predicate DemandsAdded<V(!new)>(lib: Lib, m: OMap<IdentHash, V>, byOf: V -> OMap<IdentHash, Demand>, withBy: (V, OMap<IdentHash, Demand>) -> V,
                                    blank: V, ident: IdentHash, demands: OMap<IdentHash, string>, eligible: set<IdentHash>, m': OMap<IdentHash, V>) {
    && (forall t :: t in m'.entries <==> t in m.entries || (t in demands.entries && t in eligible))
    && (forall t :: t in m'.entries ==>
          m'.entries[t] == EntryOr(m, t, blank) || m'.entries[t] == withBy(EntryOr(m, t, blank), byOf(m'.entries[t])))
    && (forall t :: t in demands.entries && t in eligible ==>
          t in m'.entries && ident in byOf(m'.entries[t]).entries && byOf(m'.entries[t]).entries[ident] == DemandOf(lib, demands.entries[t]))
    && (forall t, d :: t in m'.entries && d in byOf(m'.entries[t]).entries ==>
          d in byOf(EntryOr(m, t, blank)).entries || (d == ident && t in eligible))
    && (forall t, d :: t in m.entries && d in byOf(m.entries[t]).entries && d != ident ==>
          t in m'.entries && d in byOf(m'.entries[t]).entries && byOf(m'.entries[t]).entries[d] == byOf(m.entries[t]).entries[d])
    && (forall t :: t in m.entries && t !in eligible ==> m'.entries[t] == m.entries[t])
  }

  /** The entries after `DropDemander`: `ident` gone from every entry outside `exempt`, nothing else changed. */
  ghost predicate Dropped<V(!new)>(m: OMap<IdentHash, V>, byOf: V -> OMap<IdentHash, Demand>, withBy: (V, OMap<IdentHash, Demand>) -> V,
                                   ident: IdentHash, exempt: set<IdentHash>, m': OMap<IdentHash, V>) {
    && (forall t :: t in m'.entries <==> t in m.entries)
    && (forall t :: t in m'.entries ==> m'.entries[t] == m.entries[t] || m'.entries[t] == withBy(m.entries[t], byOf(m'.entries[t])))
    && (forall t :: t in m'.entries && t !in exempt ==> ident !in byOf(m'.entries[t]).entries)
    && (forall t :: t in m'.entries && t in exempt ==> m'.entries[t] == m.entries[t])
    && (forall t, d :: t in m'.entries && d in byOf(m'.entries[t]).entries ==> d in byOf(m.entries[t]).entries)
    && (forall t, d :: t in m.entries && d in byOf(m.entries[t]).entries && d != ident ==>
          t in m'.entries && d in byOf(m'.entries[t]).entries && byOf(m'.entries[t]).entries[d] == byOf(m.entries[t]).entries[d])
  }

  /** What `AddDemands` does to each entry, read off its postcondition. */
  lemma DemandsEntries<V(!new)>(lib: Lib, m: OMap<IdentHash, V>, byOf: V -> OMap<IdentHash, Demand>, withBy: (V, OMap<IdentHash, Demand>) -> V,
                          blank: V, ident: IdentHash, demands: OMap<IdentHash, string>, eligible: set<IdentHash>, m': OMap<IdentHash, V>)
    requires Lens(byOf, withBy)
    requires forall t :: t in m'.entries <==> t in m.entries || (t in demands.entries && t in eligible)
    requires forall t :: t in m'.entries ==> m'.entries[t] == AfterDemand(lib, m, byOf, withBy, blank, ident, demands, eligible, t)
    ensures DemandsAdded(lib, m, byOf, withBy, blank, ident, demands, eligible, m')
  {
    forall t | t in demands.entries && t in eligible
      ensures t in m'.entries && ident in byOf(m'.entries[t]).entries && byOf(m'.entries[t]).entries[ident] == DemandOf(lib, demands.entries[t])
    {
      assert m'.entries[t] == AfterDemand(lib, m, byOf, withBy, blank, ident, demands, eligible, t);
    }
    forall t | t in m.entries && t !in eligible ensures m'.entries[t] == m.entries[t] {
      assert m'.entries[t] == AfterDemand(lib, m, byOf, withBy, blank, ident, demands, eligible, t);
    }
    DemandsRetain(lib, m, byOf, withBy, blank, ident, demands, eligible, m');
  }

  /** `AddDemands` only ever sets the demand of `ident`: every other demand stays. */
  lemma DemandsRetain<V(!new)>(lib: Lib, m: OMap<IdentHash, V>, byOf: V -> OMap<IdentHash, Demand>, withBy: (V, OMap<IdentHash, Demand>) -> V,
                               blank: V, ident: IdentHash, demands: OMap<IdentHash, string>, eligible: set<IdentHash>, m': OMap<IdentHash, V>)
    requires Lens(byOf, withBy)
    requires forall t :: t in m'.entries <==> t in m.entries || (t in demands.entries && t in eligible)
    requires forall t :: t in m'.entries ==> m'.entries[t] == AfterDemand(lib, m, byOf, withBy, blank, ident, demands, eligible, t)
    ensures forall t, d :: t in m.entries && d in byOf(m.entries[t]).entries && d != ident ==>
      t in m'.entries && d in byOf(m'.entries[t]).entries && byOf(m'.entries[t]).entries[d] == byOf(m.entries[t]).entries[d]
  {
    forall t, d | t in m.entries && d in byOf(m.entries[t]).entries && d != ident
      ensures t in m'.entries && d in byOf(m'.entries[t]).entries && byOf(m'.entries[t]).entries[d] == byOf(m.entries[t]).entries[d]
    {
      var e := m.entries[t];
      assert m'.entries[t] == AfterDemand(lib, m, byOf, withBy, blank, ident, demands, eligible, t);
      if ChangesAt(lib, m, byOf, blank, ident, demands, eligible, t) {
        assert byOf(m'.entries[t]) == Put(byOf(e), ident, DemandOf(lib, demands.entries[t]));
      }
    }
  }

  /** What `AddDemands` does to the queue: every entry created or changed is queued. */
  lemma DemandsQueue<V(!new)>(lib: Lib, m: OMap<IdentHash, V>, byOf: V -> OMap<IdentHash, Demand>, withBy: (V, OMap<IdentHash, Demand>) -> V,
                        blank: V, ident: IdentHash, demands: OMap<IdentHash, string>, eligible: set<IdentHash>, queue: seq<IdentHash>,
                        m': OMap<IdentHash, V>, queue': seq<IdentHash>)
    requires Lens(byOf, withBy)
    requires ident !in byOf(blank).entries
    requires forall t :: t in m'.entries <==> t in m.entries || (t in demands.entries && t in eligible)
    requires forall t :: t in m'.entries ==> m'.entries[t] == AfterDemand(lib, m, byOf, withBy, blank, ident, demands, eligible, t)
    requires queue' == AddAllLast(queue, Filter(demands.keys, Changes(lib, m, byOf, blank, ident, demands, eligible)))
    ensures Requeued(m, byOf, queue, m', queue')
  {
    var changes := Changes(lib, m, byOf, blank, ident, demands, eligible);
    forall t | t in m'.entries && (t !in m.entries || byOf(m'.entries[t]) != byOf(m.entries[t])) ensures t in queue' {
      assert ChangesAt(lib, m, byOf, blank, ident, demands, eligible, t);
      assert changes(t);
    }
    forall t | t in queue' ensures t in queue || t in m'.entries {
      if t !in queue {
        assert changes(t);
      }
    }
  }

  /** What `DropDemander` does to each entry, read off its postcondition. */
  lemma DropEntries<V(!new)>(m: OMap<IdentHash, V>, byOf: V -> OMap<IdentHash, Demand>, withBy: (V, OMap<IdentHash, Demand>) -> V,
                             ident: IdentHash, exempt: set<IdentHash>, m': OMap<IdentHash, V>)
    requires Lens(byOf, withBy)
    requires m'.keys == m.keys
    requires forall i :: i in m.entries ==> m'.entries[i] == AfterDrop(m, byOf, withBy, ident, exempt, i)
    ensures Dropped(m, byOf, withBy, ident, exempt, m')
  {
  }

  /** What `DropDemander` does to the queue: every entry that loses `ident` is queued. */
  lemma DropQueue<V(!new)>(m: OMap<IdentHash, V>, byOf: V -> OMap<IdentHash, Demand>, withBy: (V, OMap<IdentHash, Demand>) -> V,
                           ident: IdentHash, exempt: set<IdentHash>, queue: seq<IdentHash>, m': OMap<IdentHash, V>, queue': seq<IdentHash>)
    requires Lens(byOf, withBy)
    requires m'.keys == m.keys
    requires forall i :: i in m.entries ==> m'.entries[i] == AfterDrop(m, byOf, withBy, ident, exempt, i)
    requires queue' == AddAllLast(queue, Filter(m.keys, Drops(m, byOf, ident, exempt)))
    ensures Requeued(m, byOf, queue, m', queue')
  {
    var drops := Drops(m, byOf, ident, exempt);
    forall t | t in m'.entries && byOf(m'.entries[t]) != byOf(m.entries[t]) ensures t in queue' {
      assert drops(t);
    }
  }
}
