/**
 * Lines 239-279 of ui/app/state/selection.ts: after the worklist settles, the
 * demands on each user-selected package are kept only when the demander is
 * itself demanded, through requirements and inclusions, by another
 * user-selected package; otherwise the demand only closes a loop back to the
 * selected package and would keep the user from unselecting it.
 */
module LoopStripping {
  import opened Wrappers
  import opened Seqs
  import opened Structs
  import opened Externals
  import opened OrderedMaps
  import opened AppStates
  import opened Reachability
  import opened Selection

  type Required = OMap<IdentHash, SelectionInfo>
  type Included = OMap<IdentHash, InclusionInfo>

  /** The demanders of `u`, requirers first and includers second (the `concatIterables` at lines 261-264). */
  function Demanders(sar: Required, inc: Included, u: IdentHash): (r: seq<IdentHash>)
    ensures forall v :: v in r <==>
      (u in sar.entries && v in sar.entries[u].demanders.entries) || (u in inc.entries && v in inc.entries[u].demanders.entries)
  {
    (if u in sar.entries then sar.entries[u].demanders.keys else []) +
    (if u in inc.entries then inc.entries[u].demanders.keys else [])
  }

  /** The graph the walk follows: from a package to each package that demands it. */
  ghost function DemandGraph(sar: Required, inc: Included): IdentHash -> set<IdentHash> {
    u => set v | v in Demanders(sar, inc, u)
  }

  /** Every package that demands something. */
  ghost function AllDemanders(sar: Required, inc: Included): set<IdentHash> {
    (set u, v | u in sar.entries && v in sar.entries[u].demanders.entries :: v) +
    (set u, v | u in inc.entries && v in inc.entries[u].demanders.entries :: v)
  }

  lemma DemandersInAll(sar: Required, inc: Included, u: IdentHash)
    ensures forall v :: v in Demanders(sar, inc, u) ==> v in AllDemanders(sar, inc)
  {
  }

  /** The walk so far: every package seen is reachable, and those already expanded are no target and have all their demanders seen. */
  ghost predicate Walked(sar: Required, inc: Included, start: IdentHash, targets: set<IdentHash>, universe: set<IdentHash>,
                         seen: seq<IdentHash>, i: nat) {
    && i <= |seen| && 0 < |seen| && Distinct(seen) && seen[0] == start
    && (forall x :: x in seen ==> x in universe)
    && (forall x :: x in seen ==> ReachableFrom(DemandGraph(sar, inc), start, x))
    && (forall j :: 0 <= j < i ==> seen[j] !in targets)
    && (forall j :: 0 <= j < i ==> Contains(seen, Demanders(sar, inc, seen[j])))
  }

  /** Every element of `t` is in `s`. */
  ghost predicate Contains(s: seq<IdentHash>, t: seq<IdentHash>) {
    forall v :: v in t ==> v in s
  }

  /** Expanding the next package of the walk keeps `Walked`. */
  lemma WalkStep(sar: Required, inc: Included, start: IdentHash, targets: set<IdentHash>, universe: set<IdentHash>,
                  seen: seq<IdentHash>, i: nat)
    requires Walked(sar, inc, start, targets, universe, seen, i) && i < |seen| && seen[i] !in targets
    requires forall v :: v in Demanders(sar, inc, seen[i]) ==> v in universe
    ensures Walked(sar, inc, start, targets, universe, AddAllLast(seen, Demanders(sar, inc, seen[i])), i + 1)
  {
    var g := DemandGraph(sar, inc);
    var u := seen[i];
    var next := Demanders(sar, inc, u);
    var after := AddAllLast(seen, next);
    assert forall j :: 0 <= j < |seen| ==> after[j] == seen[j] by {
      assert after[..|seen|] == seen;
    }
    forall x | x in after ensures ReachableFrom(g, start, x) {
      if x !in seen {
        assert x in next;
        assert x in g(u);
        ReachableStep(g, start, u, x);
      }
    }
    forall j | 0 <= j < i + 1 ensures after[j] !in targets {
      assert after[j] == seen[j];
    }
    forall j | 0 <= j < i + 1 ensures Contains(after, Demanders(sar, inc, after[j])) {
      var d := Demanders(sar, inc, seen[j]);
      assert after[j] == seen[j];
      if j < i {
        assert Contains(seen, d);
      }
      forall v | v in d ensures v in after {
        if j < i {
          assert v in seen;
        }
      }
    }
  }

  /** A walk that expanded every package it saw, none a target, proves no target reachable. */
  lemma WalkExhausted(sar: Required, inc: Included, start: IdentHash, targets: set<IdentHash>, universe: set<IdentHash>, seen: seq<IdentHash>)
    requires Walked(sar, inc, start, targets, universe, seen, |seen|)
    ensures !Reaches(DemandGraph(sar, inc), start, targets)
  {
    var g := DemandGraph(sar, inc);
    var closed := set x | x in seen;
    forall u | u in closed ensures g(u) <= closed {
      var j :| 0 <= j < |seen| && seen[j] == u;
      assert Contains(seen, Demanders(sar, inc, u));
    }
    ClosedUnreachable(g, start, targets, closed);
  }

  /**
   * Lines 252-267: the breadth-first walk over `transitiveDependants`, a set
   * that grows while it is iterated, stopping at the first package in
   * `targets`.
   */
  method ReachesTarget(sar: Required, inc: Included, start: IdentHash, targets: set<IdentHash>) returns (found: bool)
    ensures found <==> Reaches(DemandGraph(sar, inc), start, targets)
  {
    ghost var universe := {start} + AllDemanders(sar, inc);
    var seen := [start];
    assert IsPath(DemandGraph(sar, inc), [start]);
    var i := 0;
    while i < |seen|
      invariant Walked(sar, inc, start, targets, universe, seen, i)
      decreases |universe| - i
    {
      DistinctBound(seen, universe);
      var u := seen[i];
      if u in targets {
        ReachableTarget(DemandGraph(sar, inc), start, u, targets);
        return true;
      }
      DemandersInAll(sar, inc, u);
      WalkStep(sar, inc, start, targets, universe, seen, i);
      seen := AddAllLast(seen, Demanders(sar, inc, u));
      i := i + 1;
      DistinctBound(seen, universe);
    }
    WalkExhausted(sar, inc, start, targets, universe, seen);
    return false;
  }

  /** Two states whose demanders agree everywhere except at `p` give graphs that agree except at `p`. */
  lemma GraphAgreesExcept(s1: Required, i1: Included, s2: Required, i2: Included, p: IdentHash)
    requires forall u :: u != p ==> (u in s1.entries <==> u in s2.entries) && (u in i1.entries <==> u in i2.entries)
    requires forall u :: u != p && u in s1.entries ==> s1.entries[u].demanders == s2.entries[u].demanders
    requires forall u :: u != p && u in i1.entries ==> i1.entries[u].demanders == i2.entries[u].demanders
    ensures forall u :: u != p ==> DemandGraph(s1, i1)(u) == DemandGraph(s2, i2)(u)
  {
    forall u | u != p ensures DemandGraph(s1, i1)(u) == DemandGraph(s2, i2)(u) {
      assert Demanders(s1, i1, u) == Demanders(s2, i2, u);
    }
  }

  /** Reachability of `targets` does not see a change confined to one target. */
  lemma ReachesAgree(g1: IdentHash -> set<IdentHash>, g2: IdentHash -> set<IdentHash>, x: IdentHash, targets: set<IdentHash>)
    requires forall u :: u !in targets ==> g1(u) == g2(u)
    ensures Reaches(g1, x, targets) <==> Reaches(g2, x, targets)
  {
    AgreeOutsideTargets(g1, g2, x, targets);
    AgreeOutsideTargets(g2, g1, x, targets);
  }

  /** Whether the demander `q` stays on the selected package `p`: it is demanded by another selected package. */
  ghost predicate Kept(sar: Required, inc: Included, selected: set<IdentHash>, p: IdentHash, q: IdentHash) {
    Reaches(DemandGraph(sar, inc), q, selected - {p})
  }

  /** `selection.by.delete(ident)`: the selected package `p` loses its demander `q`. */
  function Unlink(sar: Required, p: IdentHash, q: IdentHash): Required
    requires p in sar.entries
  {
    Put(sar, p, sar.entries[p].(demanders := Remove(sar.entries[p].demanders, q)))
  }

  /** Removing the demander `q` from `p`, when `q` reaches no target, changes nothing about reaching targets. */
  lemma DropDeadDemander(sar: Required, inc: Included, p: IdentHash, q: IdentHash, targets: set<IdentHash>, x: IdentHash)
    requires p in sar.entries && p !in inc.entries
    requires !Reaches(DemandGraph(sar, inc), q, targets)
    ensures Reaches(DemandGraph(sar, inc), x, targets) <==> Reaches(DemandGraph(Unlink(sar, p, q), inc), x, targets)
  {
    var after := Unlink(sar, p, q);
    var g1, g2 := DemandGraph(sar, inc), DemandGraph(after, inc);
    GraphAgreesExcept(sar, inc, after, inc, p);
    assert forall u :: g2(u) <= g1(u);
    forall u, v | v in g1(u) && v !in g2(u) ensures !Reaches(g1, v, targets) {
      assert u == p && v == q;
    }
    PruneDeadEdges(g1, g2, x, targets);
  }

  /** Every entry of `a` is an entry of `b`. */
  predicate SubMap(a: OMap<IdentHash, Demand>, b: OMap<IdentHash, Demand>) {
    forall q :: q in a.entries ==> q in b.entries && a.entries[q] == b.entries[q]
  }

  /**
   * The loop invariant of `StripSelected` after the first `j` demanders of
   * `p`, first part: only the demanders of `p` change, they only shrink, and
   * those not yet examined are all still there.
   */
  predicate StripFrame(sar: Required, p: IdentHash, j: nat, cur: Required)
    requires p in sar.entries && j <= |sar.entries[p].demanders.keys|
  {
    && cur.keys == sar.keys && p in cur.entries
    && (forall u :: u in sar.entries && u != p ==> cur.entries[u] == sar.entries[u])
    && cur.entries[p] == sar.entries[p].(demanders := cur.entries[p].demanders)
    && SubMap(cur.entries[p].demanders, sar.entries[p].demanders)
    && (forall q :: q in sar.entries[p].demanders.keys[j..] ==> q in cur.entries[p].demanders.entries)
  }

  /** Second part: each demander examined so far is still there exactly when it reaches a target. */
  ghost predicate StripReach(sar: Required, inc: Included, p: IdentHash, targets: set<IdentHash>, j: nat, cur: Required)
    requires p in sar.entries && j <= |sar.entries[p].demanders.keys| && p in cur.entries
  {
    forall q :: q in sar.entries[p].demanders.keys[..j] ==>
      (q in cur.entries[p].demanders.entries <==> Reaches(DemandGraph(cur, inc), q, targets))
  }

  /** Keeping a demander that reaches a target keeps the invariant. */
  lemma KeepStep(sar: Required, inc: Included, p: IdentHash, targets: set<IdentHash>, j: nat, cur: Required)
    requires p in sar.entries && j < |sar.entries[p].demanders.keys|
    requires StripFrame(sar, p, j, cur) && StripReach(sar, inc, p, targets, j, cur)
    requires Reaches(DemandGraph(cur, inc), sar.entries[p].demanders.keys[j], targets)
    ensures StripFrame(sar, p, j + 1, cur) && StripReach(sar, inc, p, targets, j + 1, cur)
  {
    var keys := sar.entries[p].demanders.keys;
    InPrefixSnoc(keys, j);
    InSuffixStep(keys, j);
  }

  /** Dropping a demander keeps the first part of the invariant. */
  lemma DropFrame(sar: Required, p: IdentHash, j: nat, cur: Required)
    requires p in sar.entries && j < |sar.entries[p].demanders.keys|
    requires StripFrame(sar, p, j, cur)
    ensures StripFrame(sar, p, j + 1, Unlink(cur, p, sar.entries[p].demanders.keys[j]))
  {
    var keys := sar.entries[p].demanders.keys;
    var q := keys[j];
    UnlinkShape(cur, p, q);
    DropFrameWith(sar, p, j, cur, Remove(cur.entries[p].demanders, q), Unlink(cur, p, q));
  }

  /** `DropFrame` for any state whose only change is that `p` has the demanders `dem`, those of `cur` less `keys[j]`. */
  lemma DropFrameWith(sar: Required, p: IdentHash, j: nat, cur: Required, dem: OMap<IdentHash, Demand>, after: Required)
    requires p in sar.entries && j < |sar.entries[p].demanders.keys|
    requires StripFrame(sar, p, j, cur)
    requires dem.entries == cur.entries[p].demanders.entries - {sar.entries[p].demanders.keys[j]}
    requires after.keys == cur.keys && after.entries == cur.entries[p := cur.entries[p].(demanders := dem)]
    ensures StripFrame(sar, p, j + 1, after)
  {
    var keys := sar.entries[p].demanders.keys;
    InSuffixStep(keys, j);
  }

  /** `Unlink` changes only the demanders of `p`, which lose `q`. */
  lemma UnlinkShape(sar: Required, p: IdentHash, q: IdentHash)
    requires p in sar.entries
    ensures Unlink(sar, p, q).keys == sar.keys
    ensures Unlink(sar, p, q).entries == sar.entries[p := sar.entries[p].(demanders := Remove(sar.entries[p].demanders, q))]
  {
  }

  /** Dropping a demander that reaches no target keeps the second part of the invariant. */
  lemma DropReach(sar: Required, inc: Included, p: IdentHash, targets: set<IdentHash>, j: nat, cur: Required)
    requires p in sar.entries && p !in inc.entries && j < |sar.entries[p].demanders.keys| && p in cur.entries
    requires StripReach(sar, inc, p, targets, j, cur)
    requires !Reaches(DemandGraph(cur, inc), sar.entries[p].demanders.keys[j], targets)
    ensures StripReach(sar, inc, p, targets, j + 1, Unlink(cur, p, sar.entries[p].demanders.keys[j]))
  {
    var keys := sar.entries[p].demanders.keys;
    var q := keys[j];
    var after := Unlink(cur, p, q);
    var dem := Remove(cur.entries[p].demanders, q);
    assert after.entries[p].demanders == dem;
    InPrefixSnoc(keys, j);
    forall x | x in keys[..j + 1]
      ensures x in dem.entries <==> Reaches(DemandGraph(after, inc), x, targets)
    {
      DropDeadDemander(cur, inc, p, q, targets, x);
    }
  }

  /** What `StripSelected` promises about the entry of `p`. */
  predicate SelectedFrame(sar: Required, p: IdentHash, sar': Required) {
    && p in sar.entries && sar'.keys == sar.keys
    && (forall u :: u in sar.entries && u != p ==> sar'.entries[u] == sar.entries[u])
    && StrippedEntry(sar.entries[p], sar'.entries[p])
  }

  ghost predicate SelectedKept(sar: Required, inc: Included, p: IdentHash, selected: set<IdentHash>, sar': Required)
    requires p in sar.entries && p in sar'.entries
  {
    forall q :: q in sar.entries[p].demanders.entries ==>
      (q in sar'.entries[p].demanders.entries <==> Kept(sar', inc, selected, p, q))
  }

  predicate SelectedRange(lib: Lib, before: SelectionInfo, after: SelectionInfo) {
    && ((forall q :: q in before.demanders.entries ==> q in after.demanders.entries) ==> after == before)
    && ((exists q :: q in before.demanders.entries && q !in after.demanders.entries) ==>
          after.validRange == if |after.demanders.keys| > 0 then CombinedRange(lib, Values(after.demanders)) else None)
  }

  /**
   * Lines 249-278 for one selected package `p` (its inclusion already
   * deleted): each demander is kept exactly when it is demanded by another
   * selected package in the resulting state, the entries kept are unchanged,
   * and when any was dropped the valid range is recombined from those left.
   */
  method StripSelected(lib: Lib, sar: Required, inc: Included, p: IdentHash, selected: set<IdentHash>) returns (sar': Required)
    requires p in sar.entries && p !in inc.entries
    ensures SelectedFrame(sar, p, sar')
    ensures SelectedKept(sar, inc, p, selected, sar')
    ensures SelectedRange(lib, sar.entries[p], sar'.entries[p])
  {
    var keys := sar.entries[p].demanders.keys;
    var targets := selected - {p};
    var changed := false;
    sar' := sar;
    for j := 0 to |keys|
      invariant StripFrame(sar, p, j, sar')
      invariant StripReach(sar, inc, p, targets, j, sar')
      invariant !changed ==> sar' == sar
      invariant changed ==> exists q :: q in sar.entries[p].demanders.entries && q !in sar'.entries[p].demanders.entries
    {
      var q := keys[j];
      var keep := ReachesTarget(sar', inc, q, targets);
      if keep {
        KeepStep(sar, inc, p, targets, j, sar');
      } else {
        DropFrame(sar, p, j, sar');
        DropReach(sar, inc, p, targets, j, sar');
        assert q in sar.entries[p].demanders.entries;
        changed := true;
        sar' := Unlink(sar', p, q);
      }
    }
    FinishStrip(lib, sar, inc, p, selected, sar', changed);
    if changed {
      sar' := Recombined(lib, sar', p);
    }
  }

  /** Lines 275-278: `validRange` recombined from the demanders left, undefined when none is left or they conflict. */
  function Recombined(lib: Lib, sar: Required, p: IdentHash): Required
    requires p in sar.entries
  {
    var selection := sar.entries[p];
    Put(sar, p, selection.(validRange := if |selection.demanders.keys| > 0 then CombinedRange(lib, Values(selection.demanders)) else None))
  }

  /** After the last demander, the invariant of `StripSelected` and the recombined range give its postcondition. */
  lemma FinishStrip(lib: Lib, sar: Required, inc: Included, p: IdentHash, selected: set<IdentHash>, cur: Required, changed: bool)
    requires p in sar.entries
    requires StripFrame(sar, p, |sar.entries[p].demanders.keys|, cur)
    requires StripReach(sar, inc, p, selected - {p}, |sar.entries[p].demanders.keys|, cur)
    requires !changed ==> cur == sar
    requires changed ==> exists q :: q in sar.entries[p].demanders.entries && q !in cur.entries[p].demanders.entries
    ensures var r := if changed then Recombined(lib, cur, p) else cur;
      SelectedFrame(sar, p, r) && SelectedKept(sar, inc, p, selected, r) && SelectedRange(lib, sar.entries[p], r.entries[p])
  {
    var keys := sar.entries[p].demanders.keys;
    assert keys[..|keys|] == keys;
    assert forall q :: q in sar.entries[p].demanders.entries ==> (q in cur.entries[p].demanders.entries <==> Kept(cur, inc, selected, p, q));
    if changed {
      FinishChanged(lib, sar, inc, p, selected, cur);
    }
  }

  lemma FinishChanged(lib: Lib, sar: Required, inc: Included, p: IdentHash, selected: set<IdentHash>, cur: Required)
    requires p in sar.entries
    requires StripFrame(sar, p, |sar.entries[p].demanders.keys|, cur)
    requires forall q :: q in sar.entries[p].demanders.entries ==> (q in cur.entries[p].demanders.entries <==> Kept(cur, inc, selected, p, q))
    requires exists q :: q in sar.entries[p].demanders.entries && q !in cur.entries[p].demanders.entries
    ensures var r := Recombined(lib, cur, p);
      SelectedFrame(sar, p, r) && SelectedKept(sar, inc, p, selected, r) && SelectedRange(lib, sar.entries[p], r.entries[p])
  {
    var result := Recombined(lib, cur, p);
    RecombinedFrame(lib, sar, p, cur);
    RecombinedKept(lib, sar, inc, p, selected, cur);
    RecombinedRange(lib, sar, p, cur);
  }

  /** Recombining keeps the frame of the loop: only the valid range of `p` changes besides its demanders. */
  lemma RecombinedFrame(lib: Lib, sar: Required, p: IdentHash, cur: Required)
    requires p in sar.entries
    requires StripFrame(sar, p, |sar.entries[p].demanders.keys|, cur)
    ensures SelectedFrame(sar, p, Recombined(lib, cur, p))
  {
  }

  /** Recombining changes no demanders, so it changes nothing about which are kept. */
  lemma RecombinedKept(lib: Lib, sar: Required, inc: Included, p: IdentHash, selected: set<IdentHash>, cur: Required)
    requires p in sar.entries
    requires StripFrame(sar, p, |sar.entries[p].demanders.keys|, cur)
    requires forall q :: q in sar.entries[p].demanders.entries ==> (q in cur.entries[p].demanders.entries <==> Kept(cur, inc, selected, p, q))
    ensures SelectedKept(sar, inc, p, selected, Recombined(lib, cur, p))
  {
    var result := Recombined(lib, cur, p);
    forall u | u in cur.entries ensures cur.entries[u].demanders == result.entries[u].demanders {
    }
    SameDemandersSameKept(cur, result, inc, p, selected);
  }

  /** Once a demander is gone, the valid range is the one recombined from those left. */
  lemma RecombinedRange(lib: Lib, sar: Required, p: IdentHash, cur: Required)
    requires p in sar.entries
    requires StripFrame(sar, p, |sar.entries[p].demanders.keys|, cur)
    requires exists q :: q in sar.entries[p].demanders.entries && q !in cur.entries[p].demanders.entries
    ensures SelectedRange(lib, sar.entries[p], Recombined(lib, cur, p).entries[p])
  {
  }

  /** Changing only fields other than the demanders changes nothing about which demanders are kept. */
  lemma SameDemandersSameKept(s1: Required, s2: Required, inc: Included, p: IdentHash, selected: set<IdentHash>)
    requires s1.keys == s2.keys
    requires forall u :: u in s1.entries ==> s1.entries[u].demanders == s2.entries[u].demanders
    ensures forall q :: Kept(s1, inc, selected, p, q) <==> Kept(s2, inc, selected, p, q)
  {
    forall q ensures Kept(s1, inc, selected, p, q) <==> Kept(s2, inc, selected, p, q) {
      assert forall u :: DemandGraph(s1, inc)(u) == DemandGraph(s2, inc)(u) by {
        forall u ensures DemandGraph(s1, inc)(u) == DemandGraph(s2, inc)(u) {
          assert Demanders(s1, inc, u) == Demanders(s2, inc, u);
        }
      }
      ReachesAgree(DemandGraph(s1, inc), DemandGraph(s2, inc), q, selected - {p});
    }
  }

  /** `after` differs from `before` at most in its demanders, which it only loses, and its valid range. */
  predicate StrippedEntry(before: SelectionInfo, after: SelectionInfo) {
    && after == before.(demanders := after.demanders, validRange := after.validRange)
    && SubMap(after.demanders, before.demanders)
  }

  /**
   * The loop invariant of `StripLoops` after the first `n` selected packages,
   * first part: their inclusions are gone and only their entries changed.
   */
  ghost predicate LoopsFrame(sar: Required, inc: Included, initial: seq<IdentHash>, n: nat, s: Required, i: Included)
    requires n <= |initial|
  {
    && s.keys == sar.keys
    && (forall u :: u in i.entries <==> u in inc.entries && u !in initial[..n])
    && (forall u :: u in i.entries ==> i.entries[u] == inc.entries[u])
    && (forall u :: u in sar.entries && u !in initial[..n] ==> s.entries[u] == sar.entries[u])
    && (forall p :: p in initial[..n] ==> p in sar.entries && StrippedEntry(sar.entries[p], s.entries[p]))
  }

  /** Second part: each of their demanders is kept exactly when it is demanded by another selected package. */
  ghost predicate LoopsKept(sar: Required, initial: seq<IdentHash>, selected: set<IdentHash>, n: nat, s: Required, i: Included)
    requires n <= |initial|
    requires forall p :: p in initial[..n] ==> p in sar.entries && p in s.entries
  {
    forall p, q :: p in initial[..n] && q in sar.entries[p].demanders.entries ==>
      (q in s.entries[p].demanders.entries <==> Kept(s, i, selected, p, q))
  }

  /** Stripping the next selected package keeps the first part of the invariant. */
  lemma LoopsFrameStep(sar: Required, inc: Included, initial: seq<IdentHash>, n: nat, s: Required, i: Included, s': Required)
    requires Distinct(initial) && n < |initial|
    requires LoopsFrame(sar, inc, initial, n, s, i)
    requires SelectedFrame(s, initial[n], s')
    ensures LoopsFrame(sar, inc, initial, n + 1, s', Remove(i, initial[n]))
  {
    DistinctNotBefore(initial, n);
    InPrefixSnoc(initial, n);
    LoopsInclusionsStep(inc, initial, n, i);
    LoopsEntriesStep(sar, initial, n, s, s');
    LoopsFrameIntro(sar, inc, initial, n + 1, s', Remove(i, initial[n]));
  }

  /** `LoopsFrame` from its parts, proved apart from any other facts. */
  lemma LoopsFrameIntro(sar: Required, inc: Included, initial: seq<IdentHash>, n: nat, s: Required, i: Included)
    requires n <= |initial|
    requires s.keys == sar.keys
    requires forall u :: u in i.entries <==> u in inc.entries && u !in initial[..n]
    requires forall u :: u in i.entries ==> i.entries[u] == inc.entries[u]
    requires forall u :: u in sar.entries && u !in initial[..n] ==> s.entries[u] == sar.entries[u]
    requires forall p :: p in initial[..n] ==> p in sar.entries && StrippedEntry(sar.entries[p], s.entries[p])
    ensures LoopsFrame(sar, inc, initial, n, s, i)
  {
  }

  /** The inclusions part of `LoopsFrameStep`: the inclusion of the package just stripped is gone. */
  lemma LoopsInclusionsStep(inc: Included, initial: seq<IdentHash>, n: nat, i: Included)
    requires n < |initial|
    requires forall x :: x in initial[..n + 1] <==> x in initial[..n] || x == initial[n]
    requires forall u :: u in i.entries <==> u in inc.entries && u !in initial[..n]
    requires forall u :: u in i.entries ==> i.entries[u] == inc.entries[u]
    ensures forall u :: u in Remove(i, initial[n]).entries <==> u in inc.entries && u !in initial[..n + 1]
    ensures forall u :: u in Remove(i, initial[n]).entries ==> Remove(i, initial[n]).entries[u] == inc.entries[u]
  {
  }

  /** The entries part of `LoopsFrameStep`: only the entry of the package just stripped changes. */
  lemma LoopsEntriesStep(sar: Required, initial: seq<IdentHash>, n: nat, s: Required, s': Required)
    requires n < |initial| && initial[n] !in initial[..n] && s.keys == sar.keys
    requires forall x :: x in initial[..n + 1] <==> x in initial[..n] || x == initial[n]
    requires forall u :: u in sar.entries && u !in initial[..n] ==> s.entries[u] == sar.entries[u]
    requires forall p :: p in initial[..n] ==> p in sar.entries && StrippedEntry(sar.entries[p], s.entries[p])
    requires SelectedFrame(s, initial[n], s')
    ensures forall u :: u in sar.entries && u !in initial[..n + 1] ==> s'.entries[u] == sar.entries[u]
    ensures forall p :: p in initial[..n + 1] ==> p in sar.entries && StrippedEntry(sar.entries[p], s'.entries[p])
  {
    var p := initial[n];
    forall k | k in initial[..n + 1] ensures k in sar.entries && StrippedEntry(sar.entries[k], s'.entries[k]) {
      if k == p {
        assert s.entries[p] == sar.entries[p];
      } else {
        assert k in initial[..n];
      }
    }
  }

  /**
   * Stripping the next selected package keeps the second part of the
   * invariant: it only changes the graph at `p`, a target for every earlier
   * selected package.
   */
  lemma LoopsKeptStep(sar: Required, inc: Included, initial: seq<IdentHash>, selected: set<IdentHash>, n: nat,
                      s: Required, i: Included, s': Required)
    requires Distinct(initial) && n < |initial| && initial[n] in selected
    requires LoopsFrame(sar, inc, initial, n, s, i)
    requires LoopsKept(sar, initial, selected, n, s, i)
    requires SelectedFrame(s, initial[n], s') && SelectedKept(s, Remove(i, initial[n]), initial[n], selected, s')
    requires LoopsFrame(sar, inc, initial, n + 1, s', Remove(i, initial[n]))
    ensures LoopsKept(sar, initial, selected, n + 1, s', Remove(i, initial[n]))
  {
    var p := initial[n];
    var i' := Remove(i, p);
    assert p !in initial[..n] by {
      assert Distinct(initial);
    }
    InPrefixSnoc(initial, n);
    assert s.entries[p] == sar.entries[p];
    StripAgrees(s, i, s', p);
    forall k, q | k in initial[..n] && q in sar.entries[k].demanders.entries
      ensures q in s'.entries[k].demanders.entries <==> Kept(s', i', selected, k, q)
    {
      assert k != p;
      ReachesAgree(DemandGraph(s, i), DemandGraph(s', i'), q, selected - {k});
    }
  }

  /** Stripping `p` changes the graph at `p` only. */
  lemma StripAgrees(s: Required, i: Included, s': Required, p: IdentHash)
    requires SelectedFrame(s, p, s')
    ensures forall u :: u != p ==> DemandGraph(s, i)(u) == DemandGraph(s', Remove(i, p))(u)
  {
    GraphAgreesExcept(s, i, s', Remove(i, p), p);
  }

  /**
   * Lines 241-279: for each user-selected package in selection order, its
   * inclusion is deleted and the loops through it are stripped. The source
   * reads the selected package's entry unguarded and throws when the pruning
   * before it removed the entry; that is the failure here.
   */
  method StripLoops(lib: Lib, sar: Required, inc: Included, initial: seq<IdentHash>)
    returns (r: Result<(Required, Included)>)
    requires Distinct(initial)
    ensures r.Failure? <==> exists p :: p in initial && p !in sar.entries
    ensures r.Success? ==> var (sar', inc') := r.value;
      && sar'.keys == sar.keys
      && inc'.entries == inc.entries - (set p | p in initial)
      && (forall u :: u in sar.entries && u !in initial ==> sar'.entries[u] == sar.entries[u])
      && (forall p :: p in initial ==> p in sar.entries && StrippedEntry(sar.entries[p], sar'.entries[p]))
      && (forall p, q :: p in initial && q in sar.entries[p].demanders.entries ==>
            (q in sar'.entries[p].demanders.entries <==> Kept(sar', inc', (set x | x in initial), p, q)))
  {
    var selected := set x | x in initial;
    var s, i := sar, inc;
    for n := 0 to |initial|
      invariant LoopsFrame(sar, inc, initial, n, s, i)
      invariant LoopsKept(sar, initial, selected, n, s, i)
    {
      var p := initial[n];
      if p !in s.entries {
        return Failure("Cannot read properties of undefined (reading 'by')");
      }
      var i' := Remove(i, p);
      var s' := StripSelected(lib, s, i', p, selected);
      LoopsFrameStep(sar, inc, initial, n, s, i, s');
      LoopsKeptStep(sar, inc, initial, selected, n, s, i, s');
      s, i := s', i';
    }
    LoopsDone(sar, inc, initial, s, i);
    return Success((s, i));
  }

  /** Once every selected package is stripped, the invariant of `StripLoops` is its postcondition. */
  lemma LoopsDone(sar: Required, inc: Included, initial: seq<IdentHash>, s: Required, i: Included)
    requires LoopsFrame(sar, inc, initial, |initial|, s, i)
    requires LoopsKept(sar, initial, set x | x in initial, |initial|, s, i)
    ensures forall p :: p in initial ==> p in sar.entries
    ensures
      && s.keys == sar.keys
      && i.entries == inc.entries - (set p | p in initial)
      && (forall u :: u in sar.entries && u !in initial ==> s.entries[u] == sar.entries[u])
      && (forall p :: p in initial ==> p in sar.entries && StrippedEntry(sar.entries[p], s.entries[p]))
      && (forall p, q :: p in initial && q in sar.entries[p].demanders.entries ==>
            (q in s.entries[p].demanders.entries <==> Kept(s, i, (set x | x in initial), p, q)))
  {
    assert initial[..|initial|] == initial;
  }

  // ---------------------------------------------------------------------------
  // Line 251 declares a second `ident` that shadows the selected package, so
  // line 256 compares each walked package with the demander it started from.

  /** The test lines 255-267 make as written: the walk from demander `q` stops at a selected package other than `q`. */
  ghost predicate KeptAsWritten(sar: Required, inc: Included, selected: set<IdentHash>, q: IdentHash) {
    Reaches(DemandGraph(sar, inc), q, selected - {q})
  }

  /**
   * The loop the comment at lines 246-248 describes: `core` is selected and
   * includes `common`, which requires `core`. As written, the demand of
   * `common` on `core` is kept, since the walk from `common` reaches `core`;
   * once the walk excludes the selected package instead, it is stripped.
   */
  lemma ShadowedIdentKeepsLoop()
    ensures "common" in LoopSelections().entries["core"].demanders.entries
    ensures KeptAsWritten(LoopSelections(), LoopInclusions(), {"core"}, "common")
    ensures !Kept(LoopSelections(), LoopInclusions(), {"core"}, "core", "common")
  {
    LoopDemand();
    var g := DemandGraph(LoopSelections(), LoopInclusions());
    assert Edge(g, "common", "core");
    assert IsPath(g, ["common", "core"]);
    assert {"core"} - {"core"} == {};
  }

  /** `core`, selected at `^12.0.0`, demanded by `common`. */
  function LoopSelections(): Required {
    RawMap(["core"], map["core" := SelectionInfo(RawMap(["common"], map["common" := TextDemand("^12.0.0")]), None, Some("^12.0.0"), None, false, false)])
  }

  /** `common`, included by `core`. */
  function LoopInclusions(): Included {
    RawMap(["common"], map["common" := InclusionInfo(RawMap(["core"], map["core" := TextDemand("^12.0.0")]), None)])
  }

  lemma LoopDemand()
    ensures "core" in LoopSelections().entries && "common" in LoopSelections().entries["core"].demanders.entries
    ensures "core" in Demanders(LoopSelections(), LoopInclusions(), "common")
  {
  }
}
