/**
 * `updateSelection` (ui/app/state/selection.ts lines 43-304) as a whole: the
 * user's selections seed the worklist, at most 20 passes propagate them,
 * then the entries that need no update are pruned, the loops back to the
 * selected packages are stripped, the inclusion ranges are filled in and the
 * new state is assembled.
 */
module SelectionUpdate {
  import opened Wrappers
  import opened Seqs
  import opened Structs
  import opened Externals
  import opened OrderedMaps
  import opened Misc
  import opened AppStates
  import opened Selection
  import opened LoopStripping
  import opened Propagation

  // ---------------------------------------------------------------------------
  // Seeding the worklist (lines 58-67)

  /** `selectedRange != null`, as the filter at line 63 reads it. */
  function IsUserSelected(state: AppState): IdentHash -> bool {
    u => UserSelected(state, u)
  }

  /** The entry line 66 leaves for a user-selected package: a fresh one holding the user's range. */
  function SeedEntry(state: AppState, u: IdentHash): SelectionInfo
    requires UserSelected(state, u)
  {
    FreshSelection.(selectedRange := Some(state.itemMap.entries[u].selectedRange.range))
  }

  /**
   * Lines 58-67 and 73-74: the user-selected packages, in item order, are
   * the initial packages and the first queue, and each has an entry holding
   * exactly its range; nothing else is known yet.
   */
  method Seed(env: Env) returns (w: Work, initial: seq<IdentHash>)
    ensures initial == Filter(env.state.itemMap.keys, IsUserSelected(env.state)) && Distinct(initial)
    ensures w.inc == Empty() && w.queue == initial && w.alreadyOkay == [] && w.metaFetching == {} && w.requiresSuggestions == []
    ensures w.sar.keys == initial
    ensures forall u :: u in w.sar.entries ==> UserSelected(env.state, u) && w.sar.entries[u] == SeedEntry(env.state, u)
    ensures Inv(env, w)
  {
    var selected := Filter(env.state.itemMap.keys, IsUserSelected(env.state));
    FilterDistinct(env.state.itemMap.keys, IsUserSelected(env.state));
    var sar: Required := Empty();
    initial := [];
    for n := 0 to |selected|
      invariant initial == selected[..n] && sar.keys == initial
      invariant forall u :: u in sar.entries ==> UserSelected(env.state, u) && sar.entries[u] == SeedEntry(env.state, u)
    {
      var ident := selected[n];
      assert ident !in selected[..n];
      assert selected[..n + 1] == selected[..n] + [ident];
      initial := AddLast(initial, ident);
      sar := Put(sar, ident, EntryOr(sar, ident, FreshSelection).(selectedRange := Some(env.state.itemMap.entries[ident].selectedRange.range)));
    }
    assert selected[..|selected|] == selected;
    w := Work(sar, Empty(), initial, [], {}, []);
  }

  // ---------------------------------------------------------------------------
  // The passes (lines 73-218)

  /** Processing fails only on a package whose first requested range does not parse. */
  lemma VerdictFailure(env: Env, w: Work, ident: IdentHash)
    requires WellFormed(env.state.itemMap) && ident in env.state.itemMap.entries
    ensures !UserSelected(env.state, ident) && Verdict(env, w, ident).Failure? ==> BadItem(env, ident)
  {
  }

  /** Lines 86-216 on one package: it is settled and, unless that stopped at a `continue`, advanced. */
  ghost predicate Processed(env: Env, w: Work, ident: IdentHash, w': Work) {
    && WellFormed(env.state.itemMap)
    && ident in env.state.itemMap.entries
    && exists s: Work, stop: bool :: Settled(env, w, ident, s, stop) && (if stop then w' == s else Advanced(env, s, ident, w'))
  }

  /** `Processed` as a step relation. */
  ghost function StepOf(env: Env): (Work, IdentHash, Work) -> bool {
    (w: Work, ident: IdentHash, w': Work) => Processed(env, w, ident, w')
  }

  /** `trace` runs through `xs`: each state is one `step` on the next element from the state before. */
  ghost predicate Chain<S, X>(step: (S, X, S) -> bool, xs: seq<X>, trace: seq<S>) {
    |trace| == |xs| + 1 && forall k :: 0 <= k < |xs| ==> step(trace[k], xs[k], trace[k + 1])
  }

  /** A chain through the first `n` elements extended by one step is a chain through the first `n + 1`. */
  lemma ChainSnoc<S, X>(step: (S, X, S) -> bool, xs: seq<X>, n: nat, trace: seq<S>, next: S)
    requires n < |xs| && Chain(step, xs[..n], trace)
    requires step(trace[n], xs[n], next)
    ensures Chain(step, xs[..n + 1], trace + [next])
  {
    var t := trace + [next];
    forall k | 0 <= k < n + 1
      ensures step(t[k], xs[..n + 1][k], t[k + 1])
    {
      if k < n {
        assert t[k] == trace[k] && t[k + 1] == trace[k + 1] && xs[..n + 1][k] == xs[..n][k];
      }
    }
  }

  /** One pass: from `w` with the queue emptied, each package of the old queue processed in queue order. */
  ghost predicate PassOf(env: Env, w: Work, w': Work) {
    exists trace :: Chain(StepOf(env), w.queue, trace) && trace[0] == w.(queue := []) && trace[|w.queue|] == w'
  }

  /**
   * Lines 82-217: one pass over the queue, gathering the next queue. The
   * result is the packages of the old queue processed one after the other,
   * the invariant of the worklist is kept, and the pass fails only at a
   * queued package whose requested range does not parse.
   */
  method RunPass(env: Env, w: Work) returns (r: Result<Work>)
    requires WellFormed(env.state.itemMap) && Inv(env, w)
    ensures r.Failure? ==> exists k :: 0 <= k < |w.queue| && BadItem(env, w.queue[k])
    ensures r.Success? ==> Inv(env, r.value) && PassOf(env, w, r.value)
  {
    var oldQueue := w.queue;
    var cur := w.(queue := []);
    InvClearQueue(env, w);
    ghost var trace := [cur];
    for n := 0 to |oldQueue|
      invariant Inv(env, cur)
      invariant |trace| == n + 1 && trace[0] == w.(queue := []) && trace[n] == cur
      invariant Chain(StepOf(env), oldQueue[..n], trace)
    {
      var next := Process(env, cur, oldQueue[n]);
      if next.Failure? {
        return Failure(next.error);
      }
      ChainSnoc(StepOf(env), oldQueue, n, trace, next.value);
      cur := next.value;
      trace := trace + [cur];
    }
    TracedPass(env, w, trace);
    return Success(cur);
  }

  /** Lines 86-216 on one package: the pass goes on from what processing it gives, or fails at a bad item. */
  method Process(env: Env, w: Work, ident: IdentHash) returns (r: Result<Work>)
    requires WellFormed(env.state.itemMap) && ident in env.state.itemMap.entries && Inv(env, w)
    ensures r.Failure? ==> BadItem(env, ident)
    ensures r.Success? ==> Inv(env, r.value) && Processed(env, w, ident, r.value)
  {
    var settled := Settle(env, w, ident);
    if settled.Failure? {
      VerdictFailure(env, w, ident);
      return Failure(settled.error);
    }
    var s := settled.value.0;
    if settled.value.1 {
      r := Success(s);
    } else {
      assert ident in s.sar.entries;
      var w' := Advance(env, s, ident);
      r := Success(w');
    }
    assert Settled(env, w, ident, s, settled.value.1);
  }

  /** A pass starts from the worklist with its queue emptied, which keeps the invariant. */
  lemma InvClearQueue(env: Env, w: Work)
    requires Inv(env, w)
    ensures Inv(env, w.(queue := []))
  {
  }

  /** A trace through the whole queue is a pass. */
  lemma TracedPass(env: Env, w: Work, trace: seq<Work>)
    requires Chain(StepOf(env), w.queue[..|w.queue|], trace) && trace[0] == w.(queue := [])
    ensures PassOf(env, w, trace[|w.queue|])
  {
    assert w.queue[..|w.queue|] == w.queue;
  }

  /** `PassOf` as a relation. */
  ghost function PassRel(env: Env): (Work, Work) -> bool {
    (w: Work, w': Work) => PassOf(env, w, w')
  }

  /** Each state of `works` is related by `rel` to the one before. */
  ghost predicate Linked<S>(rel: (S, S) -> bool, works: seq<S>) {
    forall k :: 0 <= k < |works| - 1 ==> rel(works[k], works[k + 1])
  }

  /** A linked sequence extended by one related state stays linked. */
  lemma LinkedSnoc<S>(rel: (S, S) -> bool, works: seq<S>, next: S)
    requires |works| > 0 && Linked(rel, works)
    requires rel(works[|works| - 1], next)
    ensures Linked(rel, works + [next])
  {
    var t := works + [next];
    assert forall k :: 0 <= k < |works| ==> t[k] == works[k];
  }

  /**
   * Lines 73-80: passes run while the queue is not empty, but no more than
   * 20 of them; after the twentieth the partial result is kept. `works` are
   * the states before and after each pass, and every pass but the last
   * ended with a queue that was not empty.
   */
  method RunPasses(env: Env, w: Work) returns (r: Result<Work>, passes: nat, ghost works: seq<Work>)
    requires WellFormed(env.state.itemMap) && Inv(env, w)
    ensures passes <= 20
    ensures r.Success? ==> Inv(env, r.value) && (|r.value.queue| == 0 || passes == 20)
    ensures r.Success? ==> |works| == passes + 1 && works[0] == w && works[passes] == r.value && Linked(PassRel(env), works)
    ensures r.Success? ==> forall k :: 0 <= k < passes ==> |works[k].queue| > 0
    ensures r.Failure? ==> exists u :: BadItem(env, u)
  {
    var cur := w;
    passes := 0;
    works := [w];
    while |cur.queue| > 0
      invariant Inv(env, cur) && passes <= 20
      invariant |works| == passes + 1 && works[0] == w && works[passes] == cur && Linked(PassRel(env), works)
      invariant forall k :: 0 <= k < passes ==> |works[k].queue| > 0
      decreases 20 - passes
    {
      if passes == 20 {
        break;
      }
      var next := RunPass(env, cur);
      if next.Failure? {
        return Failure(next.error), passes + 1, works;
      }
      passes := passes + 1;
      LinkedSnoc(PassRel(env), works, next.value);
      cur := next.value;
      works := works + [cur];
    }
    return Success(cur), passes, works;
  }

  // ---------------------------------------------------------------------------
  // Pruning (lines 220-237)

  /** `m'` is `m` with the keys in `gone` deleted, the others keeping their order. */
  ghost predicate Pruned<V(!new)>(m: OMap<IdentHash, V>, gone: set<IdentHash>, m': OMap<IdentHash, V>) {
    m'.keys == Without(m.keys, gone) && m'.entries == m.entries - gone
  }

  /** The elements of a sequence, as a set. */
  function Members(xs: seq<IdentHash>): set<IdentHash> {
    set u | u in xs
  }

  /** Deleting one more key keeps what was said about deleting the ones before it. */
  lemma PrunedStep<V(!new)>(m: OMap<IdentHash, V>, gone: set<IdentHash>, cur: OMap<IdentHash, V>, x: IdentHash)
    requires Pruned(m, gone, cur)
    ensures Pruned(m, gone + {x}, Remove(cur, x))
  {
    WithoutRemove(m.keys, gone, x);
  }

  lemma PrunedNothing<V(!new)>(m: OMap<IdentHash, V>)
    ensures Pruned(m, {}, m)
  {
    WithoutNothing(m.keys);
  }

  lemma OkayStep<V(!new)>(m: OMap<IdentHash, V>, xs: seq<IdentHash>, n: nat, cur: OMap<IdentHash, V>)
    requires n < |xs| && Pruned(m, Members(xs[..n]), cur)
    ensures Pruned(m, Members(xs[..n + 1]), Remove(cur, xs[n]))
  {
    PrunedStep(m, Members(xs[..n]), cur, xs[n]);
    InPrefixSnoc(xs, n);
    assert Members(xs[..n + 1]) == Members(xs[..n]) + {xs[n]};
  }

  /** Lines 222-225: the packages already okay leave both maps. */
  method DeleteOkay(sar: Required, inc: Included, alreadyOkay: seq<IdentHash>) returns (sar': Required, inc': Included)
    ensures Pruned(sar, Members(alreadyOkay), sar') && Pruned(inc, Members(alreadyOkay), inc')
  {
    sar', inc' := sar, inc;
    PrunedNothing(sar);
    PrunedNothing(inc);
    assert Members(alreadyOkay[..0]) == {};
    for n := 0 to |alreadyOkay|
      invariant Pruned(sar, Members(alreadyOkay[..n]), sar') && Pruned(inc, Members(alreadyOkay[..n]), inc')
    {
      OkayStep(inc, alreadyOkay, n, inc');
      OkayStep(sar, alreadyOkay, n, sar');
      inc' := Remove(inc', alreadyOkay[n]);
      sar' := Remove(sar', alreadyOkay[n]);
    }
    assert alreadyOkay[..|alreadyOkay|] == alreadyOkay;
  }

  /** The keys deleted once the first `n` keys of `m` are visited. */
  function Visited<V>(m: OMap<IdentHash, V>, drop: IdentHash -> bool, n: nat): set<IdentHash>
    requires n <= |m.keys|
  {
    set u | u in m.keys[..n] && drop(u)
  }

  lemma VisitStep<V(!new)>(m: OMap<IdentHash, V>, drop: IdentHash -> bool, n: nat, cur: OMap<IdentHash, V>)
    requires n < |m.keys| && Pruned(m, Visited(m, drop, n), cur)
    ensures drop(m.keys[n]) ==> Pruned(m, Visited(m, drop, n + 1), Remove(cur, m.keys[n]))
    ensures !drop(m.keys[n]) ==> Pruned(m, Visited(m, drop, n + 1), cur)
  {
    var k := m.keys[n];
    VisitedSnoc(m, drop, n);
    if drop(k) {
      PrunedStep(m, Visited(m, drop, n), cur, k);
      assert Visited(m, drop, n + 1) == Visited(m, drop, n) + {k};
    } else {
      assert Visited(m, drop, n) + {} == Visited(m, drop, n);
    }
  }

  lemma VisitedSnoc<V>(m: OMap<IdentHash, V>, drop: IdentHash -> bool, n: nat)
    requires n < |m.keys|
    ensures Visited(m, drop, n + 1) == Visited(m, drop, n) + (if drop(m.keys[n]) then {m.keys[n]} else {})
  {
    InPrefixSnoc(m.keys, n);
    var before, after := Visited(m, drop, n), Visited(m, drop, n + 1);
    var added := if drop(m.keys[n]) then {m.keys[n]} else {};
    forall u ensures u in after <==> u in before + added {
      assert u in m.keys[..n + 1] <==> u in m.keys[..n] || u == m.keys[n];
    }
  }

  lemma VisitedAll<V(!new)>(m: OMap<IdentHash, V>, drop: IdentHash -> bool)
    ensures Visited(m, drop, 0) == {}
    ensures Visited(m, drop, |m.keys|) == set u | u in m.entries && drop(u)
  {
    assert m.keys[..|m.keys|] == m.keys;
  }

  /**
   * Lines 227-231 and 233-237: each entry is visited in order and deleted when
   * `drop` holds of it; deleting the visited entry does not disturb the visit.
   */
  method DeleteWhere<V(!new)>(m: OMap<IdentHash, V>, drop: IdentHash -> bool) returns (m': OMap<IdentHash, V>)
    ensures Pruned(m, (set u | u in m.entries && drop(u)), m')
  {
    m' := m;
    PrunedNothing(m);
    VisitedAll(m, drop);
    for n := 0 to |m.keys|
      invariant Pruned(m, Visited(m, drop, n), m')
    {
      VisitStep(m, drop, n, m');
      if drop(m.keys[n]) {
        m' := Remove(m', m.keys[n]);
      }
    }
  }

  /** JavaScript truthiness of the user-selected range (line 234). */
  predicate TruthySelected(state: AppState, u: IdentHash) {
    u in state.itemMap.entries && state.itemMap.entries[u].selectedRange.Truthy()
  }

  /** The inclusions lines 222-231 delete: those already okay and those nobody includes any more. */
  function InclusionsGone(w: Work): set<IdentHash> {
    set u | u in w.inc.entries && (u in w.alreadyOkay || |w.inc.entries[u].demanders.keys| == 0)
  }

  /** The inclusions lines 222-231 leave. */
  predicate InclusionLeft(w: Work, u: IdentHash) {
    u in w.inc.entries && u !in InclusionsGone(w)
  }

  /**
   * The selected/required entries lines 222-237 delete: those already okay,
   * and those nobody demands or still includes and that have no truthy
   * user-selected range.
   */
  function SelectionsGone(state: AppState, w: Work): set<IdentHash> {
    set u | u in w.sar.entries &&
      (u in w.alreadyOkay || (|w.sar.entries[u].demanders.keys| == 0 && !InclusionLeft(w, u) && !TruthySelected(state, u)))
  }

  /** Pruning twice is pruning once by both sets. */
  lemma PrunedTwice<V(!new)>(m: OMap<IdentHash, V>, a: set<IdentHash>, m1: OMap<IdentHash, V>, b: set<IdentHash>,
                             m2: OMap<IdentHash, V>, both: set<IdentHash>)
    requires Pruned(m, a, m1) && Pruned(m1, b, m2)
    requires forall u :: u in m.entries ==> (u in both <==> u in a || u in b)
    requires both <= m.entries.Keys
    ensures Pruned(m, both, m2)
  {
    WithoutTwice(m.keys, a, b);
    WithoutExt(m.keys, a + b, both);
    MinusTwice(m.entries, a, b, both);
  }

  lemma MinusTwice<V>(m: map<IdentHash, V>, a: set<IdentHash>, b: set<IdentHash>, both: set<IdentHash>)
    requires forall u :: u in m ==> (u in both <==> u in a || u in b)
    ensures (m - a) - b == m - both
  {
    var lhs, rhs := (m - a) - b, m - both;
    assert forall u :: u in lhs <==> u in rhs;
    forall u | u in lhs ensures lhs[u] == rhs[u] {
      assert lhs[u] == m[u];
    }
  }

  lemma InclusionsPruned(w: Work, inc1: Included, dropInc: IdentHash -> bool, inc: Included)
    requires Pruned(w.inc, Members(w.alreadyOkay), inc1)
    requires forall u :: dropInc(u) == (u in inc1.entries && |inc1.entries[u].demanders.keys| == 0)
    requires Pruned(inc1, (set u | u in inc1.entries && dropInc(u)), inc)
    ensures Pruned(w.inc, InclusionsGone(w), inc)
  {
    PrunedTwice(w.inc, Members(w.alreadyOkay), inc1, (set u | u in inc1.entries && dropInc(u)), inc, InclusionsGone(w));
  }

  lemma SelectionsPruned(state: AppState, w: Work, sar1: Required, inc: Included, dropSar: IdentHash -> bool, sar: Required)
    requires Pruned(w.sar, Members(w.alreadyOkay), sar1)
    requires forall u ::
      dropSar(u) == (u in sar1.entries && |sar1.entries[u].demanders.keys| == 0 && u !in inc.entries && !TruthySelected(state, u))
    requires Pruned(sar1, (set u | u in sar1.entries && dropSar(u)), sar)
    requires forall u :: u in inc.entries <==> InclusionLeft(w, u)
    ensures Pruned(w.sar, SelectionsGone(state, w), sar)
  {
    PrunedTwice(w.sar, Members(w.alreadyOkay), sar1, (set u | u in sar1.entries && dropSar(u)), sar, SelectionsGone(state, w));
  }

  /**
   * Lines 220-237: the packages already okay leave both maps, then the
   * inclusions nobody demands, then the selected/required entries that nobody
   * demands or includes and that the user has no truthy range for.
   */
  method Prune(env: Env, w: Work) returns (sar: Required, inc: Included)
    ensures Pruned(w.inc, InclusionsGone(w), inc)
    ensures Pruned(w.sar, SelectionsGone(env.state, w), sar)
  {
    var sar1, inc1 := DeleteOkay(w.sar, w.inc, w.alreadyOkay);
    var dropInc := u => u in inc1.entries && |inc1.entries[u].demanders.keys| == 0;
    inc := DeleteWhere(inc1, dropInc);
    InclusionsPruned(w, inc1, dropInc, inc);
    var dropSar := u => u in sar1.entries && |sar1.entries[u].demanders.keys| == 0 && u !in inc.entries && !TruthySelected(env.state, u);
    sar := DeleteWhere(sar1, dropSar);
    SelectionsPruned(env.state, w, sar1, inc, dropSar, sar);
  }

  // ---------------------------------------------------------------------------
  // Filling in the inclusion ranges (lines 281-285) and assembling (287-304)

  /** Lines 283-285: every inclusion's valid range becomes the combination of its demands. */
  method FillInclusionRanges(lib: Lib, inc: Included) returns (inc': Included)
    ensures inc'.keys == inc.keys
    ensures forall u :: u in inc.entries ==>
      inc'.entries[u] == inc.entries[u].(validRange := CombinedRange(lib, Values(inc.entries[u].demanders)))
  {
    inc' := inc;
    for n := 0 to |inc.keys|
      invariant inc'.keys == inc.keys
      invariant forall u :: u in inc.entries ==>
        inc'.entries[u] == if u in inc.keys[..n] then inc.entries[u].(validRange := CombinedRange(lib, Values(inc.entries[u].demanders))) else inc.entries[u]
    {
      var u := inc.keys[n];
      InPrefixSnoc(inc.keys, n);
      var e := inc'.entries[u];
      inc' := Put(inc', u, e.(validRange := CombinedRange(lib, Values(e.demanders))));
    }
    assert inc.keys[..|inc.keys|] == inc.keys;
  }

  /**
   * Lines 289-293: the packages awaiting metadata, as the previous set
   * itself when the contents are the same, else as a new set, left undefined
   * when empty.
   */
  function MetaFetchingOut(previous: Option<set<IdentHash>>, metaFetching: set<IdentHash>): (r: Option<set<IdentHash>>)
    ensures Elements(r) == metaFetching
    ensures Elements(previous) == metaFetching ==> r == previous
    ensures r.Some? && r != previous ==> |r.value| > 0
  {
    if SetEquals(previous, Some(metaFetching)) then previous
    else if |metaFetching| > 0 then Some(metaFetching)
    else None
  }

  /** `miscUtils.setIntersect` of yarn: undefined stays undefined, else the elements also in `keys`. */
  function SetIntersect(s: Option<set<IdentHash>>, keys: set<IdentHash>): (r: Option<set<IdentHash>>)
    ensures r.None? <==> s.None?
    ensures r.Some? ==> forall u :: u in r.value <==> u in s.value && u in keys
  {
    if s.None? then None else Some(s.value * keys)
  }

  // ---------------------------------------------------------------------------
  // The end of updateSelection (lines 220-304)

  /** The packages the user selected a range for. */
  function UserSelections(state: AppState): set<IdentHash> {
    set u | u in state.itemMap.entries && UserSelected(state, u)
  }

  /**
   * A user-selected package whose range is the empty string: line 234 reads
   * it as no selection and prunes the entry when nothing else demands the
   * package, and line 249 then reads the missing entry.
   */
  predicate EmptySelectionPruned(state: AppState, w: Work, p: IdentHash) {
    && UserSelected(state, p) && state.itemMap.entries[p].selectedRange.range == ""
    && p in w.sar.entries && |w.sar.entries[p].demanders.keys| == 0 && !InclusionLeft(w, p)
  }

  /** The fields lines 295-304 set; the rest of the state is carried over. */
  ghost predicate Assembled(env: Env, w: Work, s: AppState) {
    s == env.state.(
      selectedAndRequired := s.selectedAndRequired,
      included := s.included,
      metaFetching := MetaFetchingOut(env.state.metaFetching, w.metaFetching),
      migrationsDisabled := SetIntersect(env.state.migrationsDisabled, s.selectedAndRequired.entries.Keys),
      suggestionsFetching := SetWithAll(env.state.suggestionsFetching, w.requiresSuggestions))
  }

  /**
   * The included map after lines 220-285: the inclusions still demanded,
   * other than the user-selected packages, each with its valid range
   * combined from its demands.
   */
  ghost predicate FinalInclusions(env: Env, w: Work, inc: Included) {
    && (forall u :: u in inc.entries <==> InclusionLeft(w, u) && !UserSelected(env.state, u))
    && (forall u :: u in inc.entries ==>
          inc.entries[u] == w.inc.entries[u].(validRange := CombinedRange(env.lib, Values(w.inc.entries[u].demanders))))
  }

  /**
   * The selected/required map after lines 220-279: the pruned entries are
   * gone and the others keep their order; an entry the user did not select
   * is as the passes left it; a user-selected one only loses the demanders
   * that merely close a loop back to it, and has its valid range recombined.
   */
  ghost predicate FinalSelections(env: Env, w: Work, sar: Required, inc: Included) {
    && sar.keys == Without(w.sar.keys, SelectionsGone(env.state, w))
    && (forall u :: u in sar.entries <==> u in w.sar.entries && u !in SelectionsGone(env.state, w))
    && (forall u :: u in sar.entries && !UserSelected(env.state, u) ==> sar.entries[u] == w.sar.entries[u])
    && (forall p :: UserSelected(env.state, p) ==> p in w.sar.entries && p in sar.entries && StrippedEntry(w.sar.entries[p], sar.entries[p]))
    && (forall p, q :: UserSelected(env.state, p) && q in w.sar.entries[p].demanders.entries ==>
          (q in sar.entries[p].demanders.entries <==> Kept(sar, inc, UserSelections(env.state), p, q)))
  }

  /** The initial packages are the user-selected ones. */
  lemma InitialSelections(state: AppState, initial: seq<IdentHash>)
    requires initial == Filter(state.itemMap.keys, IsUserSelected(state))
    ensures forall u :: u in initial <==> UserSelected(state, u)
    ensures (set x | x in initial) == UserSelections(state)
  {
  }

  /** The stripping fails exactly at a user-selected package pruned for its empty range. */
  lemma StripFailure(env: Env, w: Work, initial: seq<IdentHash>, sar: Required)
    requires Inv(env, w) && forall u :: u in initial <==> UserSelected(env.state, u)
    requires Pruned(w.sar, SelectionsGone(env.state, w), sar)
    ensures (exists p :: p in initial && p !in sar.entries) <==> exists p :: EmptySelectionPruned(env.state, w, p)
  {
    if p :| p in initial && p !in sar.entries {
      assert EmptySelectionPruned(env.state, w, p);
    }
    if p :| EmptySelectionPruned(env.state, w, p) {
      assert p in initial && p !in sar.entries;
    }
  }

  /** Filling in the ranges changes no demander, so the loops kept are the same. */
  lemma KeptIgnoresRanges(sar: Required, i1: Included, i2: Included, selected: set<IdentHash>)
    requires forall u :: u in i1.entries <==> u in i2.entries
    requires forall u :: u in i1.entries ==> i1.entries[u].demanders == i2.entries[u].demanders
    ensures forall p, q :: Kept(sar, i1, selected, p, q) <==> Kept(sar, i2, selected, p, q)
  {
    forall u ensures DemandGraph(sar, i1)(u) == DemandGraph(sar, i2)(u) {
      assert Demanders(sar, i1, u) == Demanders(sar, i2, u);
    }
    forall p, q ensures Kept(sar, i1, selected, p, q) <==> Kept(sar, i2, selected, p, q) {
      ReachesAgree(DemandGraph(sar, i1), DemandGraph(sar, i2), q, selected - {p});
    }
  }

  lemma InclusionsFinal(env: Env, w: Work, initial: seq<IdentHash>, inc: Included, stripped: Included, inc': Included)
    requires forall u :: u in initial <==> UserSelected(env.state, u)
    requires Pruned(w.inc, InclusionsGone(w), inc)
    requires stripped.entries == inc.entries - (set p | p in initial)
    requires inc'.keys == stripped.keys
    requires forall u :: u in stripped.entries ==>
      inc'.entries[u] == stripped.entries[u].(validRange := CombinedRange(env.lib, Values(stripped.entries[u].demanders)))
    ensures FinalInclusions(env, w, inc')
  {
  }

  lemma SelectionsFinal(env: Env, w: Work, initial: seq<IdentHash>, sar: Required, stripped: Included, sar': Required, inc': Included)
    requires Inv(env, w) && forall u :: u in initial <==> UserSelected(env.state, u)
    requires (set x | x in initial) == UserSelections(env.state)
    requires Pruned(w.sar, SelectionsGone(env.state, w), sar)
    requires forall p :: p in initial ==> p in sar.entries
    requires sar'.keys == sar.keys
    requires forall u :: u in sar.entries && u !in initial ==> sar'.entries[u] == sar.entries[u]
    requires forall p :: p in initial ==> p in sar.entries && StrippedEntry(sar.entries[p], sar'.entries[p])
    requires forall p, q :: p in initial && q in sar.entries[p].demanders.entries ==>
      (q in sar'.entries[p].demanders.entries <==> Kept(sar', stripped, (set x | x in initial), p, q))
    requires forall u :: u in stripped.entries <==> u in inc'.entries
    requires forall u :: u in stripped.entries ==> stripped.entries[u].demanders == inc'.entries[u].demanders
    ensures FinalSelections(env, w, sar', inc')
  {
    KeptIgnoresRanges(sar', stripped, inc', UserSelections(env.state));
  }

  /**
   * Lines 220-304 after the passes: pruning, loop stripping, the inclusion
   * ranges and the new state. It fails exactly when a user-selected package
   * with an empty range was pruned.
   */
  method Finish(env: Env, w: Work, initial: seq<IdentHash>) returns (r: Result<AppState>)
    requires Inv(env, w)
    requires initial == Filter(env.state.itemMap.keys, IsUserSelected(env.state)) && Distinct(initial)
    ensures r.Failure? <==> exists p :: EmptySelectionPruned(env.state, w, p)
    ensures r.Success? ==>
      && Assembled(env, w, r.value)
      && FinalInclusions(env, w, r.value.included)
      && FinalSelections(env, w, r.value.selectedAndRequired, r.value.included)
  {
    InitialSelections(env.state, initial);
    var sar, inc := Prune(env, w);
    StripFailure(env, w, initial, sar);
    var stripped :- StripLoops(env.lib, sar, inc, initial);
    var included := FillInclusionRanges(env.lib, stripped.1);
    InclusionsFinal(env, w, initial, inc, stripped.1, included);
    SelectionsFinal(env, w, initial, sar, stripped.1, stripped.0, included);
    var metaFetching := MetaFetchingOut(env.state.metaFetching, w.metaFetching);
    r := Success(env.state.(
      selectedAndRequired := stripped.0,
      included := included,
      metaFetching := metaFetching,
      migrationsDisabled := SetIntersect(env.state.migrationsDisabled, stripped.0.entries.Keys),
      suggestionsFetching := SetWithAll(env.state.suggestionsFetching, w.requiresSuggestions)));
  }

  /**
   * What `updateSelection` promises of the state it returns, first part: the
   * items and what was fetched are as they were, and the packages awaiting
   * metadata or suggestions are items whose metadata or suggestions are not
   * fetched, besides those already awaited.
   */
  ghost predicate UpdatedFrame(env: Env, s: AppState) {
    var items := env.state.itemMap.entries;
    && s.itemMap == env.state.itemMap && s.itemOrder == env.state.itemOrder
    && s.suggestionsFetched == env.state.suggestionsFetched && s.metaFetched == env.state.metaFetched
    && (forall u :: u in Elements(s.metaFetching) ==> u in items && u !in env.state.metaFetched)
    && (forall u :: u in Elements(s.suggestionsFetching) ==>
          u in Elements(env.state.suggestionsFetching) || (u in items && u !in env.state.suggestionsFetched))
    && Elements(env.state.suggestionsFetching) <= Elements(s.suggestionsFetching)
  }

  /**
   * Second part: every user-selected package keeps an entry holding exactly
   * its range, each demand left on it comes from a package another
   * user-selected package demands, and only items have entries.
   */
  ghost predicate UpdatedSelections(env: Env, s: AppState) {
    var items := env.state.itemMap.entries;
    && (forall p :: UserSelected(env.state, p) ==>
          p in s.selectedAndRequired.entries && s.selectedAndRequired.entries[p].selectedRange == Some(items[p].selectedRange.range))
    && (forall p, q :: UserSelected(env.state, p) && q in s.selectedAndRequired.entries[p].demanders.entries ==>
          Kept(s.selectedAndRequired, s.included, UserSelections(env.state), p, q))
    && (forall u :: u in s.selectedAndRequired.entries ==> u in items)
  }

  /**
   * Third part: no user-selected package is included, and each inclusion
   * left is an item that is demanded and carries the combination of its
   * demands.
   */
  ghost predicate UpdatedInclusions(env: Env, s: AppState) {
    forall u :: u in s.included.entries ==>
      && u in env.state.itemMap.entries && !UserSelected(env.state, u) && |s.included.entries[u].demanders.keys| > 0
      && s.included.entries[u].validRange == CombinedRange(env.lib, Values(s.included.entries[u].demanders))
  }

  ghost predicate Updated(env: Env, s: AppState) {
    UpdatedFrame(env, s) && UpdatedSelections(env, s) && UpdatedInclusions(env, s)
  }

  lemma FrameUpdated(env: Env, w: Work, s: AppState)
    requires Inv(env, w) && Assembled(env, w, s)
    ensures UpdatedFrame(env, s)
  {
    AssembledFields(env, w, s);
    SetWithAllElements(env.state.suggestionsFetching, w.requiresSuggestions);
  }

  /** The fields `Assembled` sets, one by one. */
  lemma AssembledFields(env: Env, w: Work, s: AppState)
    requires Assembled(env, w, s)
    ensures s.itemMap == env.state.itemMap && s.itemOrder == env.state.itemOrder
    ensures s.suggestionsFetched == env.state.suggestionsFetched && s.metaFetched == env.state.metaFetched
    ensures Elements(s.metaFetching) == w.metaFetching
    ensures s.suggestionsFetching == SetWithAll(env.state.suggestionsFetching, w.requiresSuggestions)
  {
  }

  /** Adding values to an optional set keeps its elements and adds nothing else. */
  lemma SetWithAllElements(s: Option<set<IdentHash>>, values: seq<IdentHash>)
    ensures Elements(s) <= Elements(SetWithAll(s, values))
    ensures forall u :: u in Elements(SetWithAll(s, values)) ==> u in Elements(s) || u in values
  {
  }

  lemma SelectionsUpdated(env: Env, w: Work, s: AppState)
    requires Inv(env, w) && FinalSelections(env, w, s.selectedAndRequired, s.included)
    ensures UpdatedSelections(env, s)
  {
    forall p | UserSelected(env.state, p)
      ensures s.selectedAndRequired.entries[p].selectedRange == Some(env.state.itemMap.entries[p].selectedRange.range)
    {
      assert StrippedEntry(w.sar.entries[p], s.selectedAndRequired.entries[p]);
    }
    forall p, q | UserSelected(env.state, p) && q in s.selectedAndRequired.entries[p].demanders.entries
      ensures Kept(s.selectedAndRequired, s.included, UserSelections(env.state), p, q)
    {
      assert SubMap(s.selectedAndRequired.entries[p].demanders, w.sar.entries[p].demanders);
    }
  }

  lemma InclusionsUpdated(env: Env, w: Work, s: AppState)
    requires Inv(env, w) && FinalInclusions(env, w, s.included)
    ensures UpdatedInclusions(env, s)
  {
    forall u | u in s.included.entries
      ensures |s.included.entries[u].demanders.keys| > 0
    {
      assert u !in InclusionsGone(w);
    }
  }

  /**
   * Lines 43-304: the user's selections seed the worklist, at most 20 passes
   * propagate them, and `Finish` prunes, strips and assembles. It fails only
   * on an unselected package whose requested range does not parse, or on a
   * user-selected empty range.
   */
  method UpdateSelection(env: Env) returns (r: Result<AppState>)
    requires WellFormed(env.state.itemMap)
    ensures r.Failure? ==>
      (exists u :: BadItem(env, u)) ||
      (exists p :: UserSelected(env.state, p) && env.state.itemMap.entries[p].selectedRange.range == "")
    ensures r.Success? ==> Updated(env, r.value)
  {
    var w0, initial := Seed(env);
    var passed, passes;
    ghost var works;
    passed, passes, works := RunPasses(env, w0);
    if passed.Failure? {
      return Failure(passed.error);
    }
    var w := passed.value;
    r := Finish(env, w, initial);
    if r.Success? {
      FrameUpdated(env, w, r.value);
      SelectionsUpdated(env, w, r.value);
      InclusionsUpdated(env, w, r.value);
    }
  }
}
