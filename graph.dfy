/**
 * Reachability in a graph given by its successor function: the walk the
 * selection makes from a demander through the demanders of its demanders.
 */
module Reachability {
  import opened Structs

  /** `v` is a successor of `u`. */
  ghost predicate Edge(g: IdentHash -> set<IdentHash>, u: IdentHash, v: IdentHash) {
    v in g(u)
  }

  /** A non-empty walk along successor edges. */
  ghost predicate IsPath(g: IdentHash -> set<IdentHash>, path: seq<IdentHash>) {
    |path| > 0 && forall i :: 0 <= i < |path| - 1 ==> Edge(g, path[i], path[i + 1])
  }

  /** Some walk from `x` ends in `targets` (the empty walk counts when `x` is a target). */
  ghost predicate Reaches(g: IdentHash -> set<IdentHash>, x: IdentHash, targets: set<IdentHash>) {
    exists path :: IsPath(g, path) && path[0] == x && path[|path| - 1] in targets
  }

  /** Some walk leads from `x` to `y`. */
  ghost predicate ReachableFrom(g: IdentHash -> set<IdentHash>, x: IdentHash, y: IdentHash) {
    exists path :: IsPath(g, path) && path[0] == x && path[|path| - 1] == y
  }

  lemma ReachableStep(g: IdentHash -> set<IdentHash>, x: IdentHash, u: IdentHash, v: IdentHash)
    requires ReachableFrom(g, x, u) && v in g(u)
    ensures ReachableFrom(g, x, v)
  {
    var path :| IsPath(g, path) && path[0] == x && path[|path| - 1] == u;
    var longer := path + [v];
    assert IsPath(g, longer);
  }

  lemma ReachableTarget(g: IdentHash -> set<IdentHash>, x: IdentHash, y: IdentHash, targets: set<IdentHash>)
    requires ReachableFrom(g, x, y) && y in targets
    ensures Reaches(g, x, targets)
  {
  }

  /** A walk that starts inside a set closed under successors never leaves it. */
  lemma {:induction false} PathStaysInside(g: IdentHash -> set<IdentHash>, path: seq<IdentHash>, closed: set<IdentHash>, i: nat)
    requires IsPath(g, path) && path[0] in closed
    requires forall u :: u in closed ==> g(u) <= closed
    requires i < |path|
    ensures path[i] in closed
  {
    if i > 0 {
      PathStaysInside(g, path, closed, i - 1);
      assert path[i] in g(path[i - 1]);
    }
  }

  /** A set closed under successors that holds `x` and no target shows that no target is reachable. */
  lemma ClosedUnreachable(g: IdentHash -> set<IdentHash>, x: IdentHash, targets: set<IdentHash>, closed: set<IdentHash>)
    requires x in closed
    requires forall u :: u in closed ==> g(u) <= closed
    requires forall u :: u in closed ==> u !in targets
    ensures !Reaches(g, x, targets)
  {
    forall path | IsPath(g, path) && path[0] == x
      ensures path[|path| - 1] !in targets
    {
      PathStaysInside(g, path, closed, |path| - 1);
    }
  }

  /** A walk to a target can be cut at its first target. */
  lemma FirstTarget(g: IdentHash -> set<IdentHash>, path: seq<IdentHash>, targets: set<IdentHash>) returns (j: nat)
    requires IsPath(g, path) && path[|path| - 1] in targets
    ensures j < |path| && path[j] in targets
    ensures forall i :: 0 <= i < j ==> path[i] !in targets
  {
    j := 0;
    while path[j] !in targets
      invariant j < |path|
      invariant forall i :: 0 <= i < j ==> path[i] !in targets
      decreases |path| - j
    {
      j := j + 1;
    }
  }

  /**
   * Changing the successors of targets only does not change which nodes reach
   * a target: a walk can stop at the first target it meets.
   */
  lemma {:induction false} AgreeOutsideTargets(g1: IdentHash -> set<IdentHash>, g2: IdentHash -> set<IdentHash>, x: IdentHash, targets: set<IdentHash>)
    requires forall u :: u !in targets ==> g1(u) == g2(u)
    ensures Reaches(g1, x, targets) ==> Reaches(g2, x, targets)
  {
    if Reaches(g1, x, targets) {
      var path :| IsPath(g1, path) && path[0] == x && path[|path| - 1] in targets;
      var j := FirstTarget(g1, path, targets);
      var cut := path[..j + 1];
      forall i | 0 <= i < |cut| - 1 ensures cut[i + 1] in g2(cut[i]) {
        assert path[i] !in targets;
        assert path[i + 1] in g1(path[i]);
      }
      assert IsPath(g2, cut);
    }
  }

  /**
   * Dropping edges toward nodes that reach no target does not change which
   * nodes reach a target.
   */
  lemma {:induction false} PruneDeadEdges(g1: IdentHash -> set<IdentHash>, g2: IdentHash -> set<IdentHash>, x: IdentHash, targets: set<IdentHash>)
    requires forall u :: g2(u) <= g1(u)
    requires forall u, v :: v in g1(u) && v !in g2(u) ==> !Reaches(g1, v, targets)
    ensures Reaches(g1, x, targets) <==> Reaches(g2, x, targets)
  {
    if Reaches(g2, x, targets) {
      var path :| IsPath(g2, path) && path[0] == x && path[|path| - 1] in targets;
      forall i | 0 <= i < |path| - 1 ensures path[i + 1] in g1(path[i]) {
        assert path[i + 1] in g2(path[i]);
      }
      assert IsPath(g1, path);
    }
    if Reaches(g1, x, targets) {
      var path :| IsPath(g1, path) && path[0] == x && path[|path| - 1] in targets;
      forall i | 0 <= i < |path| - 1 ensures path[i + 1] in g2(path[i]) {
        var rest := path[i + 1..];
        assert IsPath(g1, rest) by {
          forall k | 0 <= k < |rest| - 1 ensures rest[k + 1] in g1(rest[k]) {
            assert rest[k] == path[i + 1 + k] && rest[k + 1] == path[i + 2 + k];
          }
        }
        assert rest[0] == path[i + 1] && rest[|rest| - 1] == path[|path| - 1];
        assert Reaches(g1, path[i + 1], targets);
      }
      assert IsPath(g2, path);
    }
  }
}
