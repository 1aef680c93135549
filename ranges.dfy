/**
 * The range algebra of `utils/ranges.ts`: clause intersection, satisfiability,
 * the descriptor sort by effective maximum version, range simplification and
 * the style-preserving rewrite of a range around a new version.
 */
module Ranges {
  import opened Wrappers
  import opened Seqs
  import opened Semver
  import opened Structs
  import opened Externals
  import opened Sorting

  /** `cleanRange`: the selector of the manifest form of a descriptor range. */
  function CleanRange(lib: Lib, range: string): string {
    lib.manifestSelector(range)
  }

  /** `getRange`: the cleaned range parsed, or null when it is not a semver range. */
  function GetRange(lib: Lib, range: string): Option<Range> {
    lib.validRange(CleanRange(lib, range))
  }

  // ---------------------------------------------------------------------------
  // Bounds of a clause

  predicate IsLowerBound(c: Comparator) {
    (c.op == GtOp || c.op == GeOp) && c.semver.At?
  }

  predicate IsUpperBound(c: Comparator) {
    (c.op == LtOp || c.op == LeOp) && c.semver.At?
  }

  /** `array.find(p)` */
  function Find(s: seq<Comparator>, p: Comparator -> bool): (r: Option<Comparator>)
    ensures r.Some? ==> p(r.value) && r.value in s
    ensures r.None? <==> forall i :: 0 <= i < |s| ==> !p(s[i])
    ensures r.Some? && p(s[0]) ==> r.value == s[0]
  {
    if |s| == 0 then None
    else if p(s[0]) then Some(s[0])
    else Find(s[1..], p)
  }

  datatype Bounds = Bounds(lower: Option<Comparator>, upper: Option<Comparator>)

  /** `getBounds`: the first lower and the first upper bound of a clause. */
  function GetBounds(clause: seq<Comparator>): (b: Bounds)
    ensures b.lower.Some? ==> IsLowerBound(b.lower.value) && b.lower.value in clause
    ensures b.upper.Some? ==> IsUpperBound(b.upper.value) && b.upper.value in clause
    ensures b.lower.None? <==> forall i :: 0 <= i < |clause| ==> !IsLowerBound(clause[i])
    ensures b.upper.None? <==> forall i :: 0 <= i < |clause| ==> !IsUpperBound(clause[i])
  {
    Bounds(Find(clause, IsLowerBound), Find(clause, IsUpperBound))
  }

  // ---------------------------------------------------------------------------
  // Merging bounds (getIntersectionComp, lines 43-81)

  /** The tighter of two lower bounds. */
  function MergeLower(a: Option<Comparator>, b: Option<Comparator>): (r: Option<Comparator>)
    requires a.Some? ==> IsLowerBound(a.value)
    requires b.Some? ==> IsLowerBound(b.value)
    ensures r.Some? <==> a.Some? || b.Some?
    ensures r == a || r == b
  {
    if a.None? then b
    else if b.None? then a
    else
      var x, y := a.value, b.value;
      if x.op == y.op || x.op == GtOp then
        (if Gt(y.semver.version, x.semver.version) then b else a)
      else
        (if Gt(x.semver.version, y.semver.version) then a else b)
  }

  /** The tighter of two upper bounds. */
  function MergeUpper(a: Option<Comparator>, b: Option<Comparator>): (r: Option<Comparator>)
    requires a.Some? ==> IsUpperBound(a.value)
    requires b.Some? ==> IsUpperBound(b.value)
    ensures r.Some? <==> a.Some? || b.Some?
    ensures r == a || r == b
  {
    if a.None? then b
    else if b.None? then a
    else
      var x, y := a.value, b.value;
      if x.op == y.op || x.op == LtOp then
        (if Lt(y.semver.version, x.semver.version) then b else a)
      else
        (if Lt(x.semver.version, y.semver.version) then a else b)
  }

  /**
   * The merged lower bound keeps the higher version, and at equal versions the
   * strict `>` wins over `>=`.
   */
  lemma MergeLowerKeepsHigher(x: Comparator, y: Comparator)
    requires IsLowerBound(x) && IsLowerBound(y)
    ensures var m := MergeLower(Some(x), Some(y)).value;
      Ge(m.semver.version, x.semver.version) && Ge(m.semver.version, y.semver.version) &&
      (x.semver == y.semver && (x.op == GtOp || y.op == GtOp) ==> m.op == GtOp)
  {
    CompareAntisymmetric(x.semver.version, y.semver.version);
    CompareAntisymmetric(x.semver.version, x.semver.version);
    CompareAntisymmetric(y.semver.version, y.semver.version);
  }

  /**
   * The merged upper bound keeps the lower version, and at equal versions the
   * strict `<` wins over `<=`.
   */
  lemma MergeUpperKeepsLower(x: Comparator, y: Comparator)
    requires IsUpperBound(x) && IsUpperBound(y)
    ensures var m := MergeUpper(Some(x), Some(y)).value;
      Le(m.semver.version, x.semver.version) && Le(m.semver.version, y.semver.version) &&
      (x.semver == y.semver && (x.op == LtOp || y.op == LtOp) ==> m.op == LtOp)
  {
    CompareAntisymmetric(x.semver.version, y.semver.version);
    CompareAntisymmetric(x.semver.version, x.semver.version);
    CompareAntisymmetric(y.semver.version, y.semver.version);
  }

  /** The merged lower bound accepts exactly the versions both bounds accept. */
  lemma MergeLowerExact(x: Comparator, y: Comparator, v: Version)
    requires IsLowerBound(x) && IsLowerBound(y)
    ensures Test(MergeLower(Some(x), Some(y)).value, v) <==> Test(x, v) && Test(y, v)
  {
    var a, b := x.semver.version, y.semver.version;
    CompareAntisymmetric(a, b);
    CompareAntisymmetric(v, a);
    CompareAntisymmetric(v, b);
    if Compare(a, b) <= 0 {
      if Compare(v, b) >= 0 { CompareTransitive(a, b, v); }
      if Compare(v, b) > 0 { CompareStrictTransitive(a, b, v); }
    }
    if Compare(b, a) <= 0 {
      if Compare(v, a) >= 0 { CompareTransitive(b, a, v); }
      if Compare(v, a) > 0 { CompareStrictTransitive(b, a, v); }
    }
  }

  /** The merged upper bound accepts exactly the versions both bounds accept. */
  lemma MergeUpperExact(x: Comparator, y: Comparator, v: Version)
    requires IsUpperBound(x) && IsUpperBound(y)
    ensures Test(MergeUpper(Some(x), Some(y)).value, v) <==> Test(x, v) && Test(y, v)
  {
    var a, b := x.semver.version, y.semver.version;
    CompareAntisymmetric(a, b);
    CompareAntisymmetric(v, a);
    CompareAntisymmetric(v, b);
    if Compare(a, b) <= 0 {
      if Compare(v, a) <= 0 { CompareTransitive(v, a, b); }
      if Compare(v, a) < 0 { CompareStrictTransitive(v, a, b); }
    }
    if Compare(b, a) <= 0 {
      if Compare(v, b) <= 0 { CompareTransitive(v, b, a); }
      if Compare(v, b) < 0 { CompareStrictTransitive(v, b, a); }
    }
  }

  // ---------------------------------------------------------------------------
  // Satisfiability (isSatisfiable)

  /** Every pair of comparators intersects. */
  predicate Satisfiable(lib: Lib, cs: seq<Comparator>) {
    forall i, j :: 0 <= i < j < |cs| ==> lib.comparatorsIntersect(cs[j], cs[i])
  }

  /** Every comparator before `m` intersects `cs[m]`. */
  predicate IntersectsAllBefore(lib: Lib, cs: seq<Comparator>, m: nat)
    requires m < |cs|
  {
    forall i :: 0 <= i < m ==> lib.comparatorsIntersect(cs[m], cs[i])
  }

  /**
   * `isSatisfiable`: pops comparators off a copy from the end and checks each
   * against all that remain, stopping at the first failure.
   */
  method IsSatisfiable(lib: Lib, comparators: seq<Comparator>) returns (result: bool)
    ensures result <==> Satisfiable(lib, comparators)
  {
    result := true;
    var remaining := comparators;
    var test: Option<Comparator> := None;
    if |remaining| > 0 {
      test := Some(remaining[|remaining| - 1]);
      remaining := remaining[..|remaining| - 1];
    }
    while result && test.Some?
      invariant |remaining| < |comparators| || test.None?
      invariant remaining == comparators[..|remaining|]
      invariant test.Some? ==> test.value == comparators[|remaining|]
      invariant test.None? ==> |remaining| == 0
      invariant result ==> forall j :: |remaining| + (if test.Some? then 1 else 0) <= j < |comparators| ==>
        IntersectsAllBefore(lib, comparators, j)
      invariant !result ==> !Satisfiable(lib, comparators)
      decreases |remaining| + (if test.Some? then 1 else 0)
    {
      var m := |remaining|;
      result := forall k :: 0 <= k < |remaining| ==> lib.comparatorsIntersect(test.value, remaining[k]);
      assert result == IntersectsAllBefore(lib, comparators, m);
      if !result {
        var k :| 0 <= k < m && !lib.comparatorsIntersect(comparators[m], comparators[k]);
      }
      if |remaining| > 0 {
        test := Some(remaining[|remaining| - 1]);
        remaining := remaining[..|remaining| - 1];
      } else {
        test := None;
      }
    }
    if result {
      forall i, j | 0 <= i < j < |comparators| ensures lib.comparatorsIntersect(comparators[j], comparators[i]) {
        assert IntersectsAllBefore(lib, comparators, j);
      }
    }
  }

  // ---------------------------------------------------------------------------
  // Clause intersection (getIntersectionComp)

  /**
   * The exact-version shortcut of line 31. By operator precedence it fires for
   * a one-comparator `=` clause, and for ANY clause whose first operator is bare.
   */
  predicate ExactShortcut(a: Clause) {
    (|a| == 1 && a[0].op == EqOp) || a[0].op == BareOp
  }

  /** The inner `filter`: the comparators the value passes, or null if none does. */
  function FilterPassing(arr: Clause, val: Target): (r: Option<Clause>)
    ensures r.Some? <==> exists i :: 0 <= i < |arr| && TestTarget(arr[i], val)
    ensures r.Some? ==> forall c :: c in r.value <==> c in arr && TestTarget(c, val)
  {
    var kept := Filter(arr, c => TestTarget(c, val));
    assert forall i :: 0 <= i < |arr| && TestTarget(arr[i], val) ==> arr[i] in kept;
    assert |kept| > 0 ==> kept[0] in arr && TestTarget(kept[0], val);
    if |kept| > 0 then Some(kept) else None
  }

  function BoundsClause(lower: Option<Comparator>, upper: Option<Comparator>): (r: seq<Comparator>)
    ensures |r| == (if lower.Some? then 1 else 0) + (if upper.Some? then 1 else 0)
    ensures forall c :: c in r <==> (lower.Some? && c == lower.value) || (upper.Some? && c == upper.value)
  {
    (if lower.Some? then [lower.value] else []) + (if upper.Some? then [upper.value] else [])
  }

  /** `getIntersectionComp`: the intersection of two clauses, or null. */
  function IntersectClauses(lib: Lib, a: Clause, b: Clause): (r: Option<Clause>)
    ensures ExactShortcut(a) ==>
      (r.Some? <==> exists i :: 0 <= i < |b| && TestTarget(b[i], a[0].semver)) &&
      (r.Some? ==> forall c :: c in r.value <==> c in b && TestTarget(c, a[0].semver))
    ensures !ExactShortcut(a) && ExactShortcut(b) ==>
      (r.Some? <==> exists i :: 0 <= i < |a| && TestTarget(a[i], b[0].semver)) &&
      (r.Some? ==> forall c :: c in r.value <==> c in a && TestTarget(c, b[0].semver))
    ensures !ExactShortcut(a) && !ExactShortcut(b) ==>
      var ba, bb := GetBounds(a), GetBounds(b);
      if ba.lower.None? && bb.lower.None? && ba.upper.None? && bb.upper.None? then r == Some(a)
      else
        (r.Some? <==> Satisfiable(lib, BoundsClause(MergeLower(ba.lower, bb.lower), MergeUpper(ba.upper, bb.upper)))) &&
        (r.Some? ==> |r.value| <= 2 && forall c :: c in r.value ==> (c in a || c in b))
  {
    if ExactShortcut(a) then FilterPassing(b, a[0].semver)
    else if ExactShortcut(b) then FilterPassing(a, b[0].semver)
    else
      var ba, bb := GetBounds(a), GetBounds(b);
      var result := BoundsClause(MergeLower(ba.lower, bb.lower), MergeUpper(ba.upper, bb.upper));
      if |result| == 0 then Some(a)
      else if Satisfiable(lib, result) then Some(result)
      else None
  }

  /** Every comparator of the clause accepts the version (the prerelease rule aside). */
  predicate AcceptsAll(clause: seq<Comparator>, v: Version) {
    forall i :: 0 <= i < |clause| ==> Test(clause[i], v)
  }

  /** The intersection never loses a version that both clauses accept. */
  lemma IntersectClausesKeepsCommon(lib: Lib, a: Clause, b: Clause, v: Version)
    requires AcceptsAll(a, v) && AcceptsAll(b, v)
    requires IntersectClauses(lib, a, b).Some?
    ensures AcceptsAll(IntersectClauses(lib, a, b).value, v)
  {
    var r := IntersectClauses(lib, a, b).value;
    forall k | 0 <= k < |r| ensures Test(r[k], v) {
      assert r[k] in r;
      if ExactShortcut(a) {
        assert r[k] in b;
      } else if ExactShortcut(b) {
        assert r[k] in a;
      } else {
        assert r[k] in a || r[k] in b;
      }
    }
  }

  /** A clause of one lower and one upper bound, the shape caret, tilde and hyphen ranges take. */
  predicate BoundPair(c: Clause) {
    |c| == 2 && IsLowerBound(c[0]) && IsUpperBound(c[1])
  }

  /** On bound pairs the merged clause accepts exactly the versions both clauses accept. */
  lemma IntersectBoundPairsExact(lib: Lib, a: Clause, b: Clause, v: Version)
    requires BoundPair(a) && BoundPair(b)
    requires IntersectClauses(lib, a, b).Some?
    ensures AcceptsAll(IntersectClauses(lib, a, b).value, v) <==> AcceptsAll(a, v) && AcceptsAll(b, v)
  {
    var r := IntersectClauses(lib, a, b).value;
    assert !ExactShortcut(a) && !ExactShortcut(b);
    assert GetBounds(a) == Bounds(Some(a[0]), Some(a[1]));
    assert GetBounds(b) == Bounds(Some(b[0]), Some(b[1]));
    var lo, hi := MergeLower(Some(a[0]), Some(b[0])).value, MergeUpper(Some(a[1]), Some(b[1])).value;
    MergeLowerExact(a[0], b[0], v);
    MergeUpperExact(a[1], b[1], v);
    assert r == [lo, hi];
    assert AcceptsAll(a, v) <==> Test(a[0], v) && Test(a[1], v);
    assert AcceptsAll(b, v) <==> Test(b[0], v) && Test(b[1], v);
    assert r[0] == lo && r[1] == hi;
    assert AcceptsAll(r, v) <==> Test(r[0], v) && Test(r[1], v);
  }

  /**
   * The shortcut of line 31 keeps comparators of the other clause that the
   * exact version passes, whether or not it passes the rest: intersecting
   * `1.5.0` with `>=1.0.0 <1.2.0` yields `>=1.0.0`, which accepts 1.0.0.
   */
  lemma ExactShortcutKeepsPartialMatch(lib: Lib)
    ensures var lo := Comparator(GeOp, At(Version(1, 0, 0, [])));
      var hi := Comparator(LtOp, At(Version(1, 2, 0, [])));
      var exact := Comparator(BareOp, At(Version(1, 5, 0, [])));
      IntersectClauses(lib, [exact], [lo, hi]) == Some([lo]) &&
      AcceptsAll([lo], Version(1, 0, 0, [])) && !AcceptsAll([exact], Version(1, 0, 0, []))
  {
    var lo := Comparator(GeOp, At(Version(1, 0, 0, [])));
    var hi := Comparator(LtOp, At(Version(1, 2, 0, [])));
    var exact := Comparator(BareOp, At(Version(1, 5, 0, [])));
    ShortcutWindowTests();
    assert ExactShortcut([exact]);
    FilterFirstOfTwo(lo, hi, c => TestTarget(c, exact.semver));
  }

  lemma ShortcutWindowTests()
    ensures Test(Comparator(GeOp, At(Version(1, 0, 0, []))), Version(1, 5, 0, []))
    ensures !Test(Comparator(LtOp, At(Version(1, 2, 0, []))), Version(1, 5, 0, []))
    ensures Test(Comparator(GeOp, At(Version(1, 0, 0, []))), Version(1, 0, 0, []))
    ensures !Test(Comparator(BareOp, At(Version(1, 5, 0, []))), Version(1, 0, 0, []))
  {
  }

  lemma FilterFirstOfTwo<T(!new)>(x: T, y: T, p: T -> bool)
    requires p(x) && !p(y)
    ensures Filter([x, y], p) == [x]
  {
    assert [x, y][1..] == [y];
    assert [y][1..] == [];
  }

  // ---------------------------------------------------------------------------
  // Range intersection (getIntersection)

  /** The values of the present options, in order (`filter(isntNull)`). */
  function Present<T(!new)>(os: seq<Option<T>>): (r: seq<T>)
    ensures |r| <= |os|
    ensures forall x :: x in r <==> Some(x) in os
  {
    if |os| == 0 then []
    else
      assert os == [os[0]] + os[1..];
      (if os[0].Some? then [os[0].value] else []) + Present(os[1..])
  }

  /** The rows of a nested array joined in order (`flat`). */
  function Flatten<T(!new)>(rows: seq<seq<T>>): (r: seq<T>)
    ensures forall x :: x in r <==> exists i :: 0 <= i < |rows| && x in rows[i]
  {
    if |rows| == 0 then []
    else
      var rest := Flatten(rows[1..]);
      assert forall i :: 1 <= i < |rows| ==> rows[i] == rows[1..][i - 1];
      rows[0] + rest
  }

  /** `array.map(f)` */
  function MapSeq<A, B>(s: seq<A>, f: A -> B): (r: seq<B>)
    ensures |r| == |s| && forall k :: 0 <= k < |s| ==> r[k] == f(s[k])
  {
    seq(|s|, k requires 0 <= k < |s| => f(s[k]))
  }

  lemma MapSeqCons<A, B>(s: seq<A>, f: A -> B)
    requires |s| > 0
    ensures MapSeq(s, f) == [f(s[0])] + MapSeq(s[1..], f)
  {
    assert forall k :: 1 <= k < |s| ==> s[k] == s[1..][k - 1];
  }

  /** `compB => getIntersectionComp(compA, compB)` */
  function IntersectWith(lib: Lib, a: Clause): Clause -> Option<Clause> {
    b => IntersectClauses(lib, a, b)
  }

  /**
   * The non-null intersections of `a` with each clause of `bs`: the row
   * `b.set.map(compB => getIntersectionComp(compA, compB))` with its nulls
   * filtered out, so every non-null intersection is kept, in the order of `bs`.
   */
  function RowIntersections(lib: Lib, a: Clause, bs: seq<Clause>): (r: seq<Clause>)
    ensures r == Present(MapSeq(bs, IntersectWith(lib, a)))
  {
    if |bs| == 0 then []
    else
      var head := IntersectClauses(lib, a, bs[0]);
      var row := MapSeq(bs, IntersectWith(lib, a));
      MapSeqCons(bs, IntersectWith(lib, a));
      assert row[0] == head && row[1..] == MapSeq(bs[1..], IntersectWith(lib, a));
      (if head.Some? then [head.value] else []) + RowIntersections(lib, a, bs[1..])
  }

  /** A clause is in a row exactly when it is the intersection of `a` with some clause of `bs`. */
  lemma RowIntersectionsMembers(lib: Lib, a: Clause, bs: seq<Clause>)
    ensures forall c :: c in RowIntersections(lib, a, bs) <==>
      exists k :: 0 <= k < |bs| && IntersectClauses(lib, a, bs[k]) == Some(c)
  {
    var row := MapSeq(bs, IntersectWith(lib, a));
    forall c ensures Some(c) in row <==> exists k :: 0 <= k < |bs| && IntersectClauses(lib, a, bs[k]) == Some(c) {
      if Some(c) in row {
        var k :| 0 <= k < |row| && row[k] == Some(c);
        assert IntersectClauses(lib, a, bs[k]) == Some(c);
      }
      if exists k :: 0 <= k < |bs| && IntersectClauses(lib, a, bs[k]) == Some(c) {
        var k :| 0 <= k < |bs| && IntersectClauses(lib, a, bs[k]) == Some(c);
        assert row[k] == Some(c);
      }
    }
  }

  /** `compA => b.set.map(...)`, nulls filtered: one row of the pair map per left clause. */
  function RowWith(lib: Lib, bs: seq<Clause>): Clause -> seq<Clause> {
    a => RowIntersections(lib, a, bs)
  }

  /**
   * All clause-pair intersections of `left` with `bs`, nulls dropped (`map`,
   * `flat`, `filter`): the rows in the order of `left`, each in the order of
   * `bs`.
   */
  function PairIntersections(lib: Lib, left: seq<Clause>, bs: seq<Clause>): (r: seq<Clause>)
    ensures r == Flatten(MapSeq(left, RowWith(lib, bs)))
  {
    if |left| == 0 then []
    else
      var rows := MapSeq(left, RowWith(lib, bs));
      MapSeqCons(left, RowWith(lib, bs));
      assert rows[0] == RowIntersections(lib, left[0], bs) && rows[1..] == MapSeq(left[1..], RowWith(lib, bs));
      RowIntersections(lib, left[0], bs) + PairIntersections(lib, left[1..], bs)
  }

  /** A clause is kept exactly when it is the intersection of some clause pair. */
  lemma PairIntersectionsMembers(lib: Lib, left: seq<Clause>, bs: seq<Clause>)
    ensures forall c :: c in PairIntersections(lib, left, bs) <==>
      exists i, k :: 0 <= i < |left| && 0 <= k < |bs| && IntersectClauses(lib, left[i], bs[k]) == Some(c)
  {
    forall c | c in PairIntersections(lib, left, bs)
      ensures exists i, k :: 0 <= i < |left| && 0 <= k < |bs| && IntersectClauses(lib, left[i], bs[k]) == Some(c)
    {
      PairMemberFrom(lib, left, bs, c);
    }
    forall c, i, k | 0 <= i < |left| && 0 <= k < |bs| && IntersectClauses(lib, left[i], bs[k]) == Some(c)
      ensures c in PairIntersections(lib, left, bs)
    {
      PairMemberTo(lib, left, bs, i, k);
    }
  }

  lemma PairMemberFrom(lib: Lib, left: seq<Clause>, bs: seq<Clause>, c: Clause)
    requires c in PairIntersections(lib, left, bs)
    ensures exists i, k :: 0 <= i < |left| && 0 <= k < |bs| && IntersectClauses(lib, left[i], bs[k]) == Some(c)
  {
    var rows := MapSeq(left, RowWith(lib, bs));
    var i :| 0 <= i < |rows| && c in rows[i];
    assert rows[i] == RowIntersections(lib, left[i], bs);
    RowIntersectionsMembers(lib, left[i], bs);
    var k :| 0 <= k < |bs| && IntersectClauses(lib, left[i], bs[k]) == Some(c);
  }

  lemma PairMemberTo(lib: Lib, left: seq<Clause>, bs: seq<Clause>, i: int, k: int)
    requires 0 <= i < |left| && 0 <= k < |bs| && IntersectClauses(lib, left[i], bs[k]).Some?
    ensures IntersectClauses(lib, left[i], bs[k]).value in PairIntersections(lib, left, bs)
  {
    var rows := MapSeq(left, RowWith(lib, bs));
    assert rows[i] == RowIntersections(lib, left[i], bs);
    RowIntersectionsMembers(lib, left[i], bs);
    assert IntersectClauses(lib, left[i], bs[k]).value in rows[i];
  }

  /** The text a clause list is joined to before it is parsed again. */
  function ClausesText(cs: seq<Clause>): string {
    Join(seq(|cs|, i requires 0 <= i < |cs| => ClauseText(cs[i])), "||")
  }

  /**
   * `getIntersection`: null when the ranges do not intersect or no clause pair
   * survives; otherwise the surviving clause intersections, ORed.
   */
  function GetIntersection(lib: Lib, a: Range, b: Range): (r: Option<Range>)
    ensures !lib.rangesIntersect(a, b) ==> r.None?
    ensures lib.rangesIntersect(a, b) ==> (r.None? <==> |PairIntersections(lib, a.clauses, b.clauses)| == 0)
    ensures r.Some? ==> r.value.clauses == PairIntersections(lib, a.clauses, b.clauses)
    ensures r.Some? ==> forall c :: c in r.value.clauses <==>
      exists i, k :: 0 <= i < |a.clauses| && 0 <= k < |b.clauses| && IntersectClauses(lib, a.clauses[i], b.clauses[k]) == Some(c)
  {
    if !lib.rangesIntersect(a, b) then None
    else
      var cs := PairIntersections(lib, a.clauses, b.clauses);
      PairIntersectionsMembers(lib, a.clauses, b.clauses);
      if |cs| == 0 then None else Some(Range(cs, ClausesText(cs)))
  }

  /**
   * A version that a clause of each range accepts, where that clause pair has
   * an intersection, is accepted by a clause of the intersected range.
   */
  lemma GetIntersectionKeepsCommon(lib: Lib, a: Range, b: Range, ca: Clause, cb: Clause, v: Version)
    requires lib.rangesIntersect(a, b)
    requires ca in a.clauses && cb in b.clauses
    requires AcceptsAll(ca, v) && AcceptsAll(cb, v)
    requires IntersectClauses(lib, ca, cb).Some?
    ensures GetIntersection(lib, a, b).Some?
    ensures exists c :: c in GetIntersection(lib, a, b).value.clauses && AcceptsAll(c, v)
  {
    var c := IntersectClauses(lib, ca, cb).value;
    var i :| 0 <= i < |a.clauses| && a.clauses[i] == ca;
    var k :| 0 <= k < |b.clauses| && b.clauses[k] == cb;
    assert IntersectClauses(lib, a.clauses[i], b.clauses[k]) == Some(c);
    IntersectClausesKeepsCommon(lib, ca, cb, v);
  }

  // ---------------------------------------------------------------------------
  // Sorting descriptors by their effective maximum version (sortByMaxVersion)

  const VersionZero := Version(0, 0, 0, [])

  /** Appends the digit 0 to the text of a prerelease identifier. */
  function AppendZero(id: Identifier): Identifier {
    match id
    case Num(n) => Num(n * 10)
    case Alnum(s) => Alnum(s + "0")
  }

  /**
   * `getLowestNextVersion`: a release X.Y.Z becomes X.Y.(Z+1)-0; a prerelease
   * ending in 0 has it replaced by 1; any other prerelease gets a 0 appended to
   * its text.
   */
  function LowestNextVersion(v: Version): (r: Version)
    ensures |v.prerelease| == 0 ==> r == Version(v.major, v.minor, v.patch + 1, [Num(0)])
    ensures Gt(r, v)
  {
    if |v.prerelease| > 0 then
      var n := |v.prerelease|;
      var last := v.prerelease[n - 1];
      var next := if last == Num(0) then Num(1) else AppendZero(last);
      NextIdentifierGreater(v.prerelease[..n - 1], last, next);
      assert v.prerelease == v.prerelease[..n - 1] + [last];
      v.(prerelease := v.prerelease[..n - 1] + [next])
    else
      Version(v.major, v.minor, v.patch + 1, [Num(0)])
  }

  lemma {:induction false} NextIdentifierGreater(p: seq<Identifier>, last: Identifier, next: Identifier)
    requires next == if last == Num(0) then Num(1) else AppendZero(last)
    ensures CompareIdentifiers(p + [next], p + [last]) > 0
    decreases |p|
  {
    if |p| > 0 {
      assert (p + [next])[1..] == p[1..] + [next];
      assert (p + [last])[1..] == p[1..] + [last];
      NextIdentifierGreater(p[1..], last, next);
    } else {
      if last.Alnum? && last != Num(0) {
        assert next.s[..|last.s|] == last.s;
        PrefixTextSmaller(last.s, next.s);
      }
    }
  }

  lemma {:induction false} PrefixTextSmaller(a: string, b: string)
    requires |a| < |b| && b[..|a|] == a
    ensures CompareText(b, a) > 0
    decreases |a|
  {
    if |a| > 0 {
      assert b[1..][..|a| - 1] == a[1..];
      PrefixTextSmaller(a[1..], b[1..]);
    }
  }

  /** No version lies strictly between a release and its lowest next version. */
  lemma LowestNextVersionIsNext(v: Version, w: Version)
    requires |v.prerelease| == 0 && Gt(w, v)
    ensures Ge(w, LowestNextVersion(v))
  {
    var r := LowestNextVersion(v);
    if w.major == v.major && w.minor == v.minor {
      if w.patch == r.patch && |w.prerelease| > 0 {
        if w.prerelease[0] == Num(0) {
          assert CompareIdentifiers(w.prerelease, [Num(0)]) == CompareIdentifiers(w.prerelease[1..], []);
        } else {
          assert CompareIdentifiers(w.prerelease, [Num(0)]) == CompareIdentifier(w.prerelease[0], Num(0));
        }
      }
    }
  }

  /** The key a clause contributes: its first `<` bound, or the next version after its first `<=`/`=`/bare bound. */
  function ClauseKey(parts: seq<Comparator>): Version {
    if |parts| == 0 then VersionZero
    else match parts[0].semver
      case Any => ClauseKey(parts[1..])
      case At(v) =>
        match parts[0].op
        case LtOp => v
        case LeOp => LowestNextVersion(v)
        case EqOp => LowestNextVersion(v)
        case BareOp => LowestNextVersion(v)
        case _ => ClauseKey(parts[1..])
  }

  /** `reduce((a, b) => (b.compare(a) === 1 ? b : a))`: the first maximal version. */
  function MaxVersion(vs: seq<Version>): (r: Version)
    requires |vs| > 0
    ensures r in vs
    ensures forall i :: 0 <= i < |vs| ==> Le(vs[i], r)
  {
    if |vs| == 1 then
      CompareAntisymmetric(vs[0], vs[0]);
      vs[0]
    else
      var acc := MaxVersion(vs[..|vs| - 1]);
      var b := vs[|vs| - 1];
      assert forall i :: 0 <= i < |vs| - 1 ==> vs[i] == vs[..|vs| - 1][i];
      CompareAntisymmetric(b, acc);
      CompareAntisymmetric(b, b);
      if Gt(b, acc) then
        assert forall i :: 0 <= i < |vs| ==> Le(vs[i], b) by {
          forall i | 0 <= i < |vs| - 1 ensures Le(vs[i], b) { CompareTransitive(vs[i], acc, b); }
        }
        b
      else acc
  }

  /** The version a descriptor is ordered by. */
  function SortKey(lib: Lib, d: Descriptor): Version {
    match GetRange(lib, d.range)
    case None => VersionZero
    case Some(range) =>
      match lib.validVersion(range.raw)
      case Some(v) => LowestNextVersion(v)
      case None => MaxVersion(seq(|range.clauses|, i requires 0 <= i < |range.clauses| => ClauseKey(range.clauses[i])))
  }

  /** Descending order of sort keys. */
  function ByKeyDescending(lib: Lib): (Descriptor, Descriptor) -> int {
    (a: Descriptor, b: Descriptor) => Compare(SortKey(lib, b), SortKey(lib, a))
  }

  lemma ByKeyDescendingConsistent(lib: Lib)
    ensures Consistent(ByKeyDescending(lib))
  {
    var cmp := ByKeyDescending(lib);
    forall a, b ensures cmp(a, b) == -cmp(b, a) {
      CompareAntisymmetric(SortKey(lib, b), SortKey(lib, a));
    }
    forall a, b, c | cmp(a, b) <= 0 && cmp(b, c) <= 0 ensures cmp(a, c) <= 0 {
      CompareTransitive(SortKey(lib, c), SortKey(lib, b), SortKey(lib, a));
    }
  }

  /** `sortByMaxVersion`: a permutation of the descriptors in descending key order. */
  function SortByMaxVersion(lib: Lib, descriptors: seq<Descriptor>): (r: seq<Descriptor>)
    ensures multiset(r) == multiset(descriptors)
    ensures forall i, j :: 0 <= i < j < |r| ==> Ge(SortKey(lib, r[i]), SortKey(lib, r[j]))
  {
    ByKeyDescendingConsistent(lib);
    SortBySorted(descriptors, ByKeyDescending(lib));
    SortBy(descriptors, ByKeyDescending(lib))
  }

  /** The key of a descriptor: 0.0.0 unparseable, the next version after an exact one, else the greatest clause key. */
  lemma SortKeyCases(lib: Lib, d: Descriptor)
    ensures GetRange(lib, d.range).None? ==> SortKey(lib, d) == VersionZero
    ensures GetRange(lib, d.range).Some? && lib.validVersion(GetRange(lib, d.range).value.raw).Some? ==>
      SortKey(lib, d) == LowestNextVersion(lib.validVersion(GetRange(lib, d.range).value.raw).value)
    ensures GetRange(lib, d.range).Some? && lib.validVersion(GetRange(lib, d.range).value.raw).None? ==>
      var cs := GetRange(lib, d.range).value.clauses;
      (exists i :: 0 <= i < |cs| && SortKey(lib, d) == ClauseKey(cs[i])) &&
      (forall i :: 0 <= i < |cs| ==> Le(ClauseKey(cs[i]), SortKey(lib, d)))
  {
    match GetRange(lib, d.range)
    case None =>
    case Some(range) =>
      if lib.validVersion(range.raw).None? {
        var keys := seq(|range.clauses|, i requires 0 <= i < |range.clauses| => ClauseKey(range.clauses[i]));
        assert SortKey(lib, d) == MaxVersion(keys);
        assert forall i :: 0 <= i < |keys| ==> keys[i] == ClauseKey(range.clauses[i]);
        var k :| 0 <= k < |keys| && keys[k] == MaxVersion(keys);
      }
  }

  // ---------------------------------------------------------------------------
  // The memoised range mutated by the sort

  /**
   * The key of one clause as the sort computes it on the memoised range: for
   * a release version behind `<=`, `=` or a bare operator the next version is
   * taken by `inc('prepatch')`, which overwrites the comparator's version in
   * place, so the clause left in the range cache afterwards is the second
   * component.
   */
  function ClauseKeyMutating(parts: seq<Comparator>): (r: (Version, seq<Comparator>))
    ensures r.0 == ClauseKey(parts)
    ensures |r.1| == |parts|
  {
    if |parts| == 0 then (VersionZero, parts)
    else match parts[0].semver
      case Any =>
        var (k, rest) := ClauseKeyMutating(parts[1..]);
        (k, [parts[0]] + rest)
      case At(v) =>
        match parts[0].op
        case LtOp => (v, parts)
        case GtOp =>
          var (k, rest) := ClauseKeyMutating(parts[1..]);
          (k, [parts[0]] + rest)
        case GeOp =>
          var (k, rest) := ClauseKeyMutating(parts[1..]);
          (k, [parts[0]] + rest)
        case _ =>
          var next := LowestNextVersion(v);
          if |v.prerelease| == 0 then (next, [Comparator(parts[0].op, At(next))] + parts[1..])
          else (next, parts)
  }

  /**
   * Sorting twice by a range such as `<=1.2.3` that is not itself a version:
   * the first sort rewrites the memoised comparator to `<=1.2.4-0`, after
   * which the range accepts 1.2.4-0 and the next sort keys the descriptor by
   * 1.2.4-1 instead of 1.2.4-0.
   */
  lemma SortMutatesMemoisedRange()
    ensures var clause := [Comparator(LeOp, At(Version(1, 2, 3, [])))];
      var (first, cached) := ClauseKeyMutating(clause);
      var (second, _) := ClauseKeyMutating(cached);
      first == Version(1, 2, 4, [Num(0)]) && second == Version(1, 2, 4, [Num(1)]) &&
      first != second &&
      !Test(clause[0], Version(1, 2, 4, [Num(0)])) && Test(cached[0], Version(1, 2, 4, [Num(0)]))
  {
    var clause := [Comparator(LeOp, At(Version(1, 2, 3, [])))];
    var next := Version(1, 2, 4, [Num(0)]);
    assert clause[1..] == [];
    assert LowestNextVersion(Version(1, 2, 3, [])) == next;
    assert ClauseKeyMutating(clause).0 == next;
    assert ClauseKeyMutating(clause).1 == [Comparator(LeOp, At(next))] + clause[1..];
    assert LowestNextVersion(next) == Version(1, 2, 4, [Num(1)]);
    CompareAntisymmetric(next, next);
  }

  // ---------------------------------------------------------------------------
  // Rewriting a range around a new version in the style of an old one
  // (rangeStyles and getUpdatableRange)

  /** The characters `String#trim` removes: white space and line terminators. */
  predicate JsWhitespace(c: char) {
    var n := c as int;
    n == 0x09 || n == 0x0A || n == 0x0B || n == 0x0C || n == 0x0D || n == 0x20 ||
    n == 0xA0 || n == 0x1680 || (0x2000 <= n <= 0x200A) || n == 0x2028 || n == 0x2029 ||
    n == 0x202F || n == 0x205F || n == 0x3000 || n == 0xFEFF
  }

  /** The characters a regular expression's `.` does not match. */
  predicate LineTerminator(c: char) {
    var n := c as int;
    n == 0x0A || n == 0x0D || n == 0x2028 || n == 0x2029
  }

  function TrimStart(s: string): (r: string)
    ensures |r| <= |s|
    ensures |r| > 0 ==> !JsWhitespace(r[0])
    ensures r == s[|s| - |r|..]
  {
    if |s| > 0 && JsWhitespace(s[0]) then TrimStart(s[1..]) else s
  }

  function TrimEnd(s: string): (r: string)
    ensures |r| <= |s|
    ensures |r| > 0 ==> !JsWhitespace(r[|r| - 1])
    ensures r == s[..|r|]
  {
    if |s| > 0 && JsWhitespace(s[|s| - 1]) then TrimEnd(s[..|s| - 1]) else s
  }

  /** `String#trim` */
  function TrimJs(s: string): (r: string)
    ensures |r| <= |s|
    ensures |r| > 0 ==> !JsWhitespace(r[0]) && !JsWhitespace(r[|r| - 1])
    ensures |s| > 0 && !JsWhitespace(s[0]) && !JsWhitespace(s[|s| - 1]) ==> r == s
  {
    TrimEnd(TrimStart(s))
  }

  /** Lies in the class `[^ <>=~]`. */
  predicate PlainChar(c: char) {
    c != ' ' && c != '<' && c != '>' && c != '=' && c != '~'
  }

  predicate AllPlain(s: string) {
    forall i :: 0 <= i < |s| ==> PlainChar(s[i])
  }

  predicate NoLineTerminator(s: string) {
    forall i :: 0 <= i < |s| ==> !LineTerminator(s[i])
  }

  /** The five range styles, in the order they are tried. */
  datatype Style = CaretStyle | TildeStyle | GreaterStyle | AtLeastStyle | BoundedStyle

  const Styles: seq<Style> := [CaretStyle, TildeStyle, GreaterStyle, AtLeastStyle, BoundedStyle]

  /**
   * The regular expression of a style, tested on a trimmed range:
   * `^\^[^ <>=~]+$`, `^~[^ <>=~]+$`, `^>[^ <>=~]+$`, `^>=[^ <>=~]+$` and `^>=.+<.+$`.
   */
  predicate Matches(style: Style, t: string) {
    match style
    case CaretStyle => |t| >= 2 && t[0] == '^' && AllPlain(t[1..])
    case TildeStyle => |t| >= 2 && t[0] == '~' && AllPlain(t[1..])
    case GreaterStyle => |t| >= 2 && t[0] == '>' && AllPlain(t[1..])
    case AtLeastStyle => |t| >= 3 && t[..2] == ">=" && AllPlain(t[2..])
    case BoundedStyle =>
      |t| >= 2 && t[..2] == ">=" && NoLineTerminator(t[2..]) &&
      exists k :: 3 <= k <= |t| - 2 && t[k] == '<'
  }

  /** No text matches two styles, so the order in which they are tried does not matter. */
  lemma StylesExclusive(a: Style, b: Style, t: string)
    requires Matches(a, t) && Matches(b, t)
    ensures a == b
  {
    if a == BoundedStyle || b == BoundedStyle {
      var k :| 3 <= k <= |t| - 2 && t[k] == '<';
    } else if a == GreaterStyle || b == GreaterStyle {
      assert t[1..][0] == t[1];
    }
  }

  /** `Math.trunc(minor / 100)`: the Angular major version inside a 0.x00 minor. */
  function HundredMajor(minor: nat): nat {
    minor / 100
  }

  /** The lower and upper versions of a range that is a single clause whose first bounds are `>=` and `<`. */
  function BoundVersions(lib: Lib, copyFrom: string): Option<(Version, Version)> {
    var range := GetRange(lib, copyFrom);
    if range.None? || |range.value.clauses| != 1 || !BoundPairShape(range.value.clauses[0]) then None
    else
      var bounds := GetBounds(range.value.clauses[0]);
      Some((bounds.lower.value.semver.version, bounds.upper.value.semver.version))
  }

  /** `>=a <b` with `b` the next major: the pair `^a` stands for. */
  predicate NextMajorPair(lo: Version, up: Version) {
    up.major == lo.major + 1 && up.minor == 0 && up.patch == 0
  }

  /** `>=a <b` with `b` the next minor of the same major: the pair `~a` stands for. */
  predicate NextMinorPair(lo: Version, up: Version) {
    lo.major == up.major && up.minor == lo.minor + 1 && up.patch == 0
  }

  /** `>=0.a <0.b00.0` with `b00` the next hundred above `a`'s: a window of the 0.x00 numbering. */
  predicate NextWindowPair(lo: Version, up: Version) {
    lo.major == up.major && up.minor == 100 * (HundredMajor(lo.minor) + 1) && up.patch == 0
  }

  /** The caret, tilde and window texts around one version are told apart by their first character. */
  lemma RewritesDiffer(version: string, parsed: Version)
    ensures "^" + version != "~" + version
    ensures "^" + version != WindowText(version, parsed) && "~" + version != WindowText(version, parsed)
  {
    assert ("^" + version)[0] == '^' && ("~" + version)[0] == '~' && WindowText(version, parsed)[0] == '>';
  }

  /** The window written around a version. */
  function WindowText(version: string, parsed: Version): string {
    ">=" + version + " <0." + NatToString(HundredMajor(parsed.minor) + 1) + "00.0"
  }

  /**
   * The bounded style: a `>=` / `<` pair mapped onto a caret when its upper
   * bound is the next major, else onto a tilde when it is the next minor, else
   * onto a 0.x00 window when it is the next hundred minor; nothing for any
   * other pair, an unparseable new version, or a range that is no such pair.
   */
  function BoundedRewrite(lib: Lib, version: string, copyFrom: string): (r: Option<string>)
    ensures lib.validVersion(version).None? || BoundVersions(lib, copyFrom).None? ==> r.None?
    ensures lib.validVersion(version).Some? && BoundVersions(lib, copyFrom).Some? ==>
      var (lo, up) := BoundVersions(lib, copyFrom).value;
      (r == Some("^" + version) <==> NextMajorPair(lo, up)) &&
      (r == Some("~" + version) <==> !NextMajorPair(lo, up) && NextMinorPair(lo, up)) &&
      (r == Some(WindowText(version, lib.validVersion(version).value)) <==>
        !NextMajorPair(lo, up) && !NextMinorPair(lo, up) && NextWindowPair(lo, up)) &&
      (r.None? <==> !NextMajorPair(lo, up) && !NextMinorPair(lo, up) && !NextWindowPair(lo, up))
    ensures r.Some? ==>
      lib.validVersion(version).Some? &&
      (r.value == "^" + version || r.value == "~" + version || r.value == WindowText(version, lib.validVersion(version).value))
  {
    if lib.validVersion(version).None? then None
    else
      RewritesDiffer(version, lib.validVersion(version).value);
      match GetRange(lib, copyFrom)
      case None => None
      case Some(range) =>
        if |range.clauses| != 1 then None
        else
          var bounds := GetBounds(range.clauses[0]);
          if bounds.lower.None? || bounds.lower.value.op != GeOp || bounds.upper.None? || bounds.upper.value.op != LtOp then None
          else
            var lower, upper := bounds.lower.value.semver.version, bounds.upper.value.semver.version;
            if upper.major == lower.major + 1 && upper.minor == 0 && upper.patch == 0 then Some("^" + version)
            else if lower.major != upper.major then None
            else if upper.minor == lower.minor + 1 && upper.patch == 0 then Some("~" + version)
            else if upper.minor != 100 * (HundredMajor(lower.minor) + 1) || upper.patch != 0 then None
            else
              var major := HundredMajor(lib.validVersion(version).value.minor);
              assert ">=" + version + " <0." + NatToString(major + 1) + "00.0" == WindowText(version, lib.validVersion(version).value);
              Some(">=" + version + " <0." + NatToString(major + 1) + "00.0")
  }

  /** The rewrite function of a style; the first four never decline. */
  function Rewrite(lib: Lib, style: Style, version: string, copyFrom: string): (r: Option<string>)
    ensures style != BoundedStyle ==> r.Some?
  {
    match style
    case CaretStyle => Some("^" + version)
    case TildeStyle => Some("~" + version)
    case GreaterStyle => Some(">" + version)
    case AtLeastStyle => Some(">=" + version)
    case BoundedStyle => BoundedRewrite(lib, version, copyFrom)
  }

  /** The loop over the styles: the first style that matches and rewrites, else the bare version. */
  function FirstRewrite(lib: Lib, styles: seq<Style>, version: string, copyFrom: string): string {
    if |styles| == 0 then version
    else if Matches(styles[0], TrimJs(copyFrom)) && Rewrite(lib, styles[0], version, copyFrom).Some? then
      Rewrite(lib, styles[0], version, copyFrom).value
    else FirstRewrite(lib, styles[1..], version, copyFrom)
  }

  /** What `getUpdatableRange` returns. */
  function UpdatableRange(lib: Lib, version: string, copyFrom: Option<string>): string {
    if copyFrom.None? then version
    else if lib.validVersion(copyFrom.value).Some? then version
    else FirstRewrite(lib, Styles, version, copyFrom.value)
  }

  /** `getUpdatableRange(version, copyFrom)` */
  method GetUpdatableRange(lib: Lib, version: string, copyFrom: Option<string>) returns (r: string)
    ensures r == UpdatableRange(lib, version, copyFrom)
  {
    if copyFrom.None? {
      return version;
    }
    if lib.validVersion(copyFrom.value).Some? {
      return version;
    }
    var trimmed := TrimJs(copyFrom.value);
    var i := 0;
    while i < |Styles|
      invariant 0 <= i <= |Styles|
      invariant FirstRewrite(lib, Styles[i..], version, copyFrom.value) == UpdatableRange(lib, version, copyFrom)
    {
      var rest := Styles[i..];
      assert rest[0] == Styles[i] && rest[1..] == Styles[i + 1..];
      if Matches(Styles[i], trimmed) {
        var updated := Rewrite(lib, Styles[i], version, copyFrom.value);
        if updated.Some? {
          FirstRewriteHead(lib, rest, version, copyFrom.value);
          return updated.value;
        }
      }
      FirstRewriteHead(lib, rest, version, copyFrom.value);
      i := i + 1;
    }
    return version;
  }

  /** One turn of the loop over the styles. */
  lemma FirstRewriteHead(lib: Lib, styles: seq<Style>, version: string, copyFrom: string)
    requires |styles| > 0
    ensures var taken := Matches(styles[0], TrimJs(copyFrom)) && Rewrite(lib, styles[0], version, copyFrom).Some?;
      FirstRewrite(lib, styles, version, copyFrom) ==
        if taken then Rewrite(lib, styles[0], version, copyFrom).value else FirstRewrite(lib, styles[1..], version, copyFrom)
  {
  }

  /** A version text the styles can wrap: non-empty, in `[^ <>=~]`, with no line terminator or outer white space. */
  predicate PlainVersionText(version: string) {
    |version| > 0 && AllPlain(version) && NoLineTerminator(version) &&
    !JsWhitespace(version[0]) && !JsWhitespace(version[|version| - 1])
  }

  /**
   * When the old range matches a style, the loop returns that style's rewrite
   * when the style is tried and rewrites, and the bare version otherwise.
   */
  lemma {:induction false} FirstRewriteMatches(lib: Lib, styles: seq<Style>, version: string, copyFrom: string, style: Style)
    requires Matches(style, TrimJs(copyFrom))
    ensures var taken := style in styles && Rewrite(lib, style, version, copyFrom).Some?;
      FirstRewrite(lib, styles, version, copyFrom) == if taken then Rewrite(lib, style, version, copyFrom).value else version
    decreases |styles|
  {
    if |styles| > 0 {
      FirstRewriteHead(lib, styles, version, copyFrom);
      assert style in styles <==> styles[0] == style || style in styles[1..] by {
        assert styles == [styles[0]] + styles[1..];
      }
      if styles[0] != style {
        if Matches(styles[0], TrimJs(copyFrom)) {
          StylesExclusive(styles[0], style, TrimJs(copyFrom));
        }
        FirstRewriteMatches(lib, styles[1..], version, copyFrom, style);
      } else if Rewrite(lib, style, version, copyFrom).None? {
        FirstRewriteMatches(lib, styles[1..], version, copyFrom, style);
      }
    }
  }

  /**
   * The rewritten range keeps the style of the range it copies: `^1.2.0`
   * with 1.6.0 gives `^1.6.0`, and likewise a tilde stays a tilde and `>`
   * and `>=` stay; a bounded range becomes a caret, a tilde or another
   * bounded range as its bounds decide, or the bare version when they fit
   * none of them.
   */
  lemma UpdatableRangeKeepsStyle(lib: Lib, version: string, copyFrom: string, style: Style)
    requires PlainVersionText(version)
    requires lib.validVersion(copyFrom).None?
    requires Matches(style, TrimJs(copyFrom))
    ensures var r := UpdatableRange(lib, version, Some(copyFrom));
      r == if Rewrite(lib, style, version, copyFrom).Some? then Rewrite(lib, style, version, copyFrom).value else version
    ensures style != BoundedStyle ==> Matches(style, UpdatableRange(lib, version, Some(copyFrom)))
    ensures var r := UpdatableRange(lib, version, Some(copyFrom));
      r == version || Matches(style, r) ||
      (style == BoundedStyle && (Matches(CaretStyle, r) || Matches(TildeStyle, r)))
  {
    var r := FirstRewrite(lib, Styles, version, copyFrom);
    assert UpdatableRange(lib, version, Some(copyFrom)) == r;
    assert style in Styles;
    FirstRewriteMatches(lib, Styles, version, copyFrom, style);
    if Rewrite(lib, style, version, copyFrom).Some? {
      RewriteKeepsStyle(lib, style, version, copyFrom);
    }
  }

  /** One style's rewrite is in that style, or, for the bounded style, a caret or tilde range. */
  lemma RewriteKeepsStyle(lib: Lib, style: Style, version: string, copyFrom: string)
    requires PlainVersionText(version)
    requires Rewrite(lib, style, version, copyFrom).Some?
    ensures var r := Rewrite(lib, style, version, copyFrom).value;
      Matches(style, r) || (style == BoundedStyle && (Matches(CaretStyle, r) || Matches(TildeStyle, r)))
  {
    PrefixedMatches(version);
    if style == BoundedStyle {
      var parsed := lib.validVersion(version).value;
      WindowMatches(version, NatToString(HundredMajor(parsed.minor) + 1));
      assert WindowText(version, parsed) == ">=" + version + " <0." + NatToString(HundredMajor(parsed.minor) + 1) + "00.0";
    }
  }

  /** A version behind one of the four operator prefixes matches that prefix's style. */
  lemma PrefixedMatches(version: string)
    requires PlainVersionText(version)
    ensures Matches(CaretStyle, "^" + version)
    ensures Matches(TildeStyle, "~" + version)
    ensures Matches(GreaterStyle, ">" + version)
    ensures Matches(AtLeastStyle, ">=" + version)
  {
    assert ("^" + version)[1..] == version;
    assert ("~" + version)[1..] == version;
    assert (">" + version)[1..] == version;
    assert (">=" + version)[2..] == version;
    assert (">=" + version)[..2] == ">=";
  }

  /** The 0.x00 window written around a version matches the bounded style. */
  lemma WindowMatches(version: string, digits: string)
    requires PlainVersionText(version)
    requires forall i :: 0 <= i < |digits| ==> '0' <= digits[i] <= '9'
    ensures var r := ">=" + version + " <0." + digits + "00.0";
      Matches(BoundedStyle, r)
  {
    var tail := " <0." + digits + "00.0";
    var r := ">=" + version + tail;
    assert r == ">=" + (version + tail);
    assert r[..2] == ">=";
    assert r[2..] == version + tail;
    assert NoLineTerminator(tail) by {
      forall i | 0 <= i < |tail| ensures !LineTerminator(tail[i]) {
        if 4 <= i < 4 + |digits| {
          assert tail[i] == digits[i - 4];
        }
      }
    }
    assert NoLineTerminator(r[2..]) by {
      forall i | 0 <= i < |r[2..]| ensures !LineTerminator(r[2..][i]) {
        if i >= |version| {
          assert r[2..][i] == tail[i - |version|];
        }
      }
    }
    var k := 2 + |version| + 1;
    assert 3 <= k <= |r| - 2 && r[k] == '<';
    assert Matches(BoundedStyle, r);
    assert r == ">=" + version + " <0." + digits + "00.0";
  }

  // ---------------------------------------------------------------------------
  // Simplifying a range for display (simplifyRange)

  /** One simplified clause: a caret range, a tilde range, or the clause written out. */
  datatype Part = CaretPart(base: Version) | TildePart(base: Version) | Verbatim(clause: Clause)

  /** The upper bound node-semver gives `^v`: the next major, or for 0.x the next minor, or for 0.0.x the next patch, as `-0`. */
  function CaretUpper(v: Version): Version {
    if v.major > 0 then Version(v.major + 1, 0, 0, [Num(0)])
    else if v.minor > 0 then Version(0, v.minor + 1, 0, [Num(0)])
    else Version(0, 0, v.patch + 1, [Num(0)])
  }

  /** The upper bound node-semver gives `~v`: the next minor, as `-0`. */
  function TildeUpper(v: Version): Version {
    Version(v.major, v.minor + 1, 0, [Num(0)])
  }

  /** The clause a part denotes when parsed again. */
  function Meaning(p: Part): Clause {
    match p
    case CaretPart(v) => [Comparator(GeOp, At(v)), Comparator(LtOp, At(CaretUpper(v)))]
    case TildePart(v) => [Comparator(GeOp, At(v)), Comparator(LtOp, At(TildeUpper(v)))]
    case Verbatim(c) => c
  }

  /**
   * The clause loop of `simplifyRange` as written: a `>=` / `<` pair whose
   * upper bound is the next major becomes a caret range, one whose upper
   * bound is the next minor a tilde range.
   */
  function SimplifyClauseAsWritten(clause: Clause): (p: Part)
    ensures p.CaretPart? || p.TildePart? ==> BoundPairShape(clause)
  {
    var bounds := GetBounds(clause);
    if !BoundPairShape(clause) then Verbatim(clause)
    else
      var lower, upper := bounds.lower.value.semver.version, bounds.upper.value.semver.version;
      if upper.major == lower.major + 1 && upper.minor == 0 && upper.patch == 0 then CaretPart(lower)
      else if lower.major == upper.major && upper.minor == lower.minor + 1 && upper.patch == 0 then TildePart(lower)
      else Verbatim(clause)
  }

  /** The first lower bound is `>=` and the first upper bound is `<`. */
  predicate BoundPairShape(clause: Clause) {
    var bounds := GetBounds(clause);
    bounds.lower.Some? && bounds.lower.value.op == GeOp && bounds.upper.Some? && bounds.upper.value.op == LtOp
  }

  /**
   * `^0.2.3` stands for `>=0.2.3 <0.3.0-0`, so simplifying `>=0.2.3 <1.0.0`
   * to it drops 0.5.0.
   */
  lemma CaretOfZeroMajorNarrows()
    ensures var clause: Clause := [Comparator(GeOp, At(Version(0, 2, 3, []))), Comparator(LtOp, At(Version(1, 0, 0, [])))];
      SimplifyClauseAsWritten(clause) == CaretPart(Version(0, 2, 3, [])) &&
      TestClause(clause, Version(0, 5, 0, [])) &&
      !TestClause(Meaning(SimplifyClauseAsWritten(clause)), Version(0, 5, 0, []))
  {
    var clause: Clause := [Comparator(GeOp, At(Version(0, 2, 3, []))), Comparator(LtOp, At(Version(1, 0, 0, [])))];
    assert GetBounds(clause) == Bounds(Some(clause[0]), Some(clause[1]));
    assert SimplifyClauseAsWritten(clause) == CaretPart(Version(0, 2, 3, []));
    assert Test(clause[0], Version(0, 5, 0, [])) && Test(clause[1], Version(0, 5, 0, []));
    assert !Test(Meaning(CaretPart(Version(0, 2, 3, [])))[1], Version(0, 5, 0, []));
  }

  /**
   * `~1.2.3` stands for `>=1.2.3 <1.3.0-0`, so simplifying `>=1.2.3 <1.3.0-beta`
   * to it drops 1.3.0-0.
   */
  lemma TildeOfPrereleaseUpperNarrows()
    ensures var clause: Clause := [Comparator(GeOp, At(Version(1, 2, 3, []))), Comparator(LtOp, At(Version(1, 3, 0, [Alnum("beta")])))];
      SimplifyClauseAsWritten(clause) == TildePart(Version(1, 2, 3, [])) &&
      TestClause(clause, Version(1, 3, 0, [Num(0)])) &&
      !TestClause(Meaning(SimplifyClauseAsWritten(clause)), Version(1, 3, 0, [Num(0)]))
  {
    var clause: Clause := [Comparator(GeOp, At(Version(1, 2, 3, []))), Comparator(LtOp, At(Version(1, 3, 0, [Alnum("beta")])))];
    assert GetBounds(clause) == Bounds(Some(clause[0]), Some(clause[1]));
    assert AllowsPrereleaseOf(clause[1].semver.version, Version(1, 3, 0, [Num(0)]));
    assert SimplifyClauseAsWritten(clause) == TildePart(Version(1, 2, 3, []));
    assert Test(clause[0], Version(1, 3, 0, [Num(0)])) && Test(clause[1], Version(1, 3, 0, [Num(0)]));
    var zero := Version(1, 3, 0, [Num(0)]);
    CompareAntisymmetric(zero, zero);
    assert !Test(Meaning(TildePart(Version(1, 2, 3, [])))[1], zero);
  }

  /**
   * Only the first lower and upper bounds are looked at, so a clause with a
   * further comparator, `>=1.2.3 <2.0.0 <1.5.0`, becomes `^1.2.3`, which
   * admits 1.6.0 that the clause rejects; the corrected simplification keeps
   * it as it is.
   */
  lemma ExtraComparatorWidens()
    ensures var clause: Clause := [Comparator(GeOp, At(Version(1, 2, 3, []))), Comparator(LtOp, At(Version(2, 0, 0, []))), Comparator(LtOp, At(Version(1, 5, 0, [])))];
      SimplifyClauseAsWritten(clause) == CaretPart(Version(1, 2, 3, [])) &&
      !TestClause(clause, Version(1, 6, 0, [])) &&
      TestClause(Meaning(SimplifyClauseAsWritten(clause)), Version(1, 6, 0, [])) &&
      SimplifyClause(clause) == Verbatim(clause)
  {
    var clause: Clause := [Comparator(GeOp, At(Version(1, 2, 3, []))), Comparator(LtOp, At(Version(2, 0, 0, []))), Comparator(LtOp, At(Version(1, 5, 0, [])))];
    var w := Version(1, 6, 0, []);
    assert GetBounds(clause) == Bounds(Some(clause[0]), Some(clause[1]));
    assert !Test(clause[2], w);
    var m := Meaning(CaretPart(Version(1, 2, 3, [])));
    assert Test(m[0], w) && Test(m[1], w);
  }

  /**
   * The clause simplification the rest of the model uses: a caret or tilde
   * range is only written where it denotes the same versions, that is for a
   * clause holding nothing but its `>=` / `<` pair, an upper bound that is a
   * release or carries the prerelease `-0` (the form node-semver itself gives
   * `^` and `~` ranges), and for a caret only above major 0.
   */
  function SimplifyClause(clause: Clause): (p: Part)
    ensures p.CaretPart? || p.TildePart? ==> BoundPairShape(clause) && |clause| == 2
    ensures p.Verbatim? ==> p.clause == clause
  {
    var bounds := GetBounds(clause);
    if !BoundPairShape(clause) || |clause| != 2 then Verbatim(clause)
    else
      var lower, upper := bounds.lower.value.semver.version, bounds.upper.value.semver.version;
      if |upper.prerelease| > 0 && upper.prerelease != [Num(0)] then Verbatim(clause)
      else if lower.major > 0 && upper.major == lower.major + 1 && upper.minor == 0 && upper.patch == 0 then CaretPart(lower)
      else if lower.major == upper.major && upper.minor == lower.minor + 1 && upper.patch == 0 then TildePart(lower)
      else Verbatim(clause)
  }

  /**
   * The clauses node-semver gives `^1.2.3` and `~0.2.3` are written back as
   * those ranges, just as the code as written does.
   */
  lemma NormalisedRangesSimplified()
    ensures var caret: Clause := [Comparator(GeOp, At(Version(1, 2, 3, []))), Comparator(LtOp, At(Version(2, 0, 0, [Num(0)])))];
      SimplifyClause(caret) == SimplifyClauseAsWritten(caret) == CaretPart(Version(1, 2, 3, []))
    ensures var tilde: Clause := [Comparator(GeOp, At(Version(0, 2, 3, []))), Comparator(LtOp, At(Version(0, 3, 0, [Num(0)])))];
      SimplifyClause(tilde) == SimplifyClauseAsWritten(tilde) == TildePart(Version(0, 2, 3, []))
  {
    var caret: Clause := [Comparator(GeOp, At(Version(1, 2, 3, []))), Comparator(LtOp, At(Version(2, 0, 0, [Num(0)])))];
    var tilde: Clause := [Comparator(GeOp, At(Version(0, 2, 3, []))), Comparator(LtOp, At(Version(0, 3, 0, [Num(0)])))];
    assert GetBounds(caret) == Bounds(Some(caret[0]), Some(caret[1]));
    assert GetBounds(tilde) == Bounds(Some(tilde[0]), Some(tilde[1]));
  }

  /** Below an upper bound whose version part differs from the lower bound's, `<u` and `<u-0` admit the same versions. */
  lemma ZeroPrereleaseUpperSame(v: Version, u: Version, w: Version)
    requires |u.prerelease| == 0
    requires v.major != u.major || v.minor != u.minor || v.patch != u.patch
    ensures var strict: Clause := [Comparator(GeOp, At(v)), Comparator(LtOp, At(u))];
      var zero: Clause := [Comparator(GeOp, At(v)), Comparator(LtOp, At(u.(prerelease := [Num(0)])))];
      TestClause(strict, w) <==> TestClause(zero, w)
  {
    var u0 := u.(prerelease := [Num(0)]);
    var strict: Clause := [Comparator(GeOp, At(v)), Comparator(LtOp, At(u))];
    var zero: Clause := [Comparator(GeOp, At(v)), Comparator(LtOp, At(u0))];
    if w.major == u.major && w.minor == u.minor && w.patch == u.patch {
      AllowsPrereleasePair(v, u, w);
      if |w.prerelease| == 0 {
        assert !Test(strict[1], w) && !Test(zero[1], w);
      } else {
        assert !AllowsPrerelease(strict, w);
        if w.prerelease[0] == Num(0) {
          assert CompareIdentifiers(w.prerelease, [Num(0)]) == CompareIdentifiers(w.prerelease[1..], []);
        } else {
          assert CompareIdentifiers(w.prerelease, [Num(0)]) == CompareIdentifier(w.prerelease[0], Num(0));
        }
        assert !Test(zero[1], w);
      }
    } else {
      assert Compare(w, u) == Compare(w, u0);
      AllowsPrereleasePair(v, u, w);
      AllowsPrereleasePair(v, u0, w);
      assert !AllowsPrereleaseOf(u, w) && !AllowsPrereleaseOf(u0, w);
      assert TestClause(strict, w) <==> Test(strict[0], w) && Test(strict[1], w) && (|w.prerelease| == 0 || AllowsPrereleaseOf(v, w));
      assert TestClause(zero, w) <==> Test(zero[0], w) && Test(zero[1], w) && (|w.prerelease| == 0 || AllowsPrereleaseOf(v, w));
    }
  }

  /** A prerelease is allowed by a bound pair when it shares its version part with either bound's prerelease. */
  lemma AllowsPrereleasePair(lo: Version, hi: Version, w: Version)
    ensures AllowsPrerelease([Comparator(GeOp, At(lo)), Comparator(LtOp, At(hi))], w) <==>
      AllowsPrereleaseOf(lo, w) || AllowsPrereleaseOf(hi, w)
  {
    var pair: Clause := [Comparator(GeOp, At(lo)), Comparator(LtOp, At(hi))];
    if AllowsPrerelease(pair, w) {
      var i :| 0 <= i < |pair| && pair[i].semver.At? && AllowsPrereleaseOf(pair[i].semver.version, w);
      assert i == 0 || i == 1;
    }
    if AllowsPrereleaseOf(lo, w) {
      assert pair[0].semver.At? && AllowsPrereleaseOf(pair[0].semver.version, w);
    }
    if AllowsPrereleaseOf(hi, w) {
      assert pair[1].semver.At? && AllowsPrereleaseOf(pair[1].semver.version, w);
    }
  }

  /** A clause accepts the same versions whatever the order of its two comparators. */
  lemma SwappedPairSame(a: Comparator, b: Comparator, w: Version)
    ensures TestClause([a, b], w) <==> TestClause([b, a], w)
  {
    var ab, ba := [a, b], [b, a];
    if Test(a, w) && Test(b, w) {
      assert forall i :: 0 <= i < |ab| ==> Test(ab[i], w) by {
        forall i | 0 <= i < |ab| ensures Test(ab[i], w) { assert i == 0 || i == 1; }
      }
      assert forall i :: 0 <= i < |ba| ==> Test(ba[i], w) by {
        forall i | 0 <= i < |ba| ensures Test(ba[i], w) { assert i == 0 || i == 1; }
      }
    } else {
      assert !Test(ab[0], w) || !Test(ab[1], w);
      assert !Test(ba[0], w) || !Test(ba[1], w);
    }
    if |w.prerelease| > 0 && AllowsPrerelease(ab, w) {
      var i :| 0 <= i < 2 && ab[i].semver.At? && AllowsPrereleaseOf(ab[i].semver.version, w);
      assert ba[1 - i] == ab[i];
    }
    if |w.prerelease| > 0 && AllowsPrerelease(ba, w) {
      var i :| 0 <= i < 2 && ba[i].semver.At? && AllowsPrereleaseOf(ba[i].semver.version, w);
      assert ab[1 - i] == ba[i];
    }
  }

  /**
   * Every clause denotes the same versions as the part it is simplified to:
   * the simplification never widens nor narrows a clause.
   */
  lemma SimplifyClauseExact(clause: Clause, w: Version)
    ensures TestClause(Meaning(SimplifyClause(clause)), w) <==> TestClause(clause, w)
  {
    var p := SimplifyClause(clause);
    if !p.Verbatim? {
      var lo, up := GetBounds(clause).lower.value, GetBounds(clause).upper.value;
      assert lo != up;
      assert clause == [lo, up] || clause == [up, lo];
      SwappedPairSame(lo, up, w);
      var v, u := lo.semver.version, up.semver.version;
      var strict: Clause := [Comparator(GeOp, At(v)), Comparator(LtOp, At(u))];
      assert [lo, up] == strict;
      if u.prerelease == [Num(0)] {
        assert Meaning(p) == strict;
      } else {
        ZeroPrereleaseUpperSame(v, u, w);
        assert Meaning(p) == [Comparator(GeOp, At(v)), Comparator(LtOp, At(u.(prerelease := [Num(0)])))];
      }
    }
  }

  /** The error `format` raises on ANY, which has no such method. */
  const AnyFormatError := "TypeError: c.semver.format is not a function"

  /** `${c.operator}${c.semver.format()}`, which throws for ANY. */
  function ComparatorText(c: Comparator): Result<string> {
    match c.semver
    case Any => Failure(AnyFormatError)
    case At(v) => Success(OpText(c.op) + FormatVersion(v))
  }

  /** The comparators of a clause written out and joined with spaces. */
  function VerbatimText(clause: seq<Comparator>): (r: Result<string>)
    ensures r.Failure? <==> exists i :: 0 <= i < |clause| && clause[i].semver.Any?
    ensures r.Failure? ==> r.error == AnyFormatError
  {
    if |clause| == 0 then Success("")
    else
      var head :- ComparatorText(clause[0]);
      var rest := VerbatimText(clause[1..]);
      assert rest.Failure? <==> exists i :: 1 <= i < |clause| && clause[i].semver.Any? by {
        if rest.Failure? {
          var i :| 0 <= i < |clause[1..]| && clause[1..][i].semver.Any?;
          assert clause[i + 1].semver.Any?;
        }
      }
      if rest.Failure? then rest
      else if |clause| == 1 then Success(head)
      else Success(head + " " + rest.value)
  }

  function PartText(p: Part): (r: Result<string>)
    ensures r.Failure? ==> r.error == AnyFormatError
  {
    match p
    case CaretPart(v) => Success("^" + FormatVersion(v))
    case TildePart(v) => Success("~" + FormatVersion(v))
    case Verbatim(c) => VerbatimText(c)
  }

  /** The clauses of a range, each simplified. */
  function SimplifiedParts(clauses: seq<Clause>): (ps: seq<Part>)
    ensures |ps| == |clauses|
    ensures forall i :: 0 <= i < |clauses| ==> ps[i] == SimplifyClause(clauses[i])
  {
    seq(|clauses|, i requires 0 <= i < |clauses| => SimplifyClause(clauses[i]))
  }

  /** The parts' texts, or the error of the first that cannot be written. */
  function PartsText(ps: seq<Part>): (r: Result<seq<string>>)
    ensures r.Success? ==> |r.value| == |ps|
    ensures r.Failure? ==> r.error == AnyFormatError
  {
    if |ps| == 0 then Success([])
    else
      var head := PartText(ps[0]);
      var rest := PartsText(ps[1..]);
      if head.Failure? then Failure(AnyFormatError)
      else if rest.Failure? then Failure(AnyFormatError)
      else Success([head.value] + rest.value)
  }

  /** What `simplifyRange` returns: the input when it is no range, else the parts joined with ` || `. */
  function SimplifiedRange(lib: Lib, rangeStr: string): Result<string> {
    match GetRange(lib, rangeStr)
    case None => Success(rangeStr)
    case Some(range) =>
      var texts :- PartsText(SimplifiedParts(range.clauses));
      Success(Join(texts, " || "))
  }

  /** `simplifyRange(rangeStr)`: one part per clause, pushed in order, then joined. */
  method SimplifyRange(lib: Lib, rangeStr: string) returns (r: Result<string>)
    ensures r == SimplifiedRange(lib, rangeStr)
  {
    var range := GetRange(lib, rangeStr);
    if range.None? {
      return Success(rangeStr);
    }
    var texts :- WriteParts(range.value.clauses);
    r := Success(Join(texts, " || "));
  }

  /** The loop of `simplifyRange`: each clause simplified and written, stopping at the first that cannot be. */
  method WriteParts(clauses: seq<Clause>) returns (r: Result<seq<string>>)
    ensures r == PartsText(SimplifiedParts(clauses))
  {
    ghost var ps := SimplifiedParts(clauses);
    var texts: seq<string> := [];
    for i := 0 to |clauses|
      invariant PartsText(ps[..i]) == Success(texts)
    {
      var part := SimplifyClause(clauses[i]);
      var text := PartText(part);
      if text.Failure? {
        PartsTextFailsAt(ps, i);
        return Failure(AnyFormatError);
      }
      PartsTextStep(ps, i, texts);
      texts := texts + [text.value];
    }
    assert ps[..|clauses|] == ps;
    return Success(texts);
  }

  lemma PartsTextFailsAt(ps: seq<Part>, i: nat)
    requires i < |ps| && PartText(ps[i]).Failure?
    ensures PartsText(ps) == Failure(AnyFormatError)
  {
    PartsTextSuccessIff(ps);
  }

  lemma PartsTextStep(ps: seq<Part>, i: nat, texts: seq<string>)
    requires i < |ps| && PartText(ps[i]).Success? && PartsText(ps[..i]) == Success(texts)
    ensures PartsText(ps[..i + 1]) == Success(texts + [PartText(ps[i]).value])
  {
    assert ps[..i + 1] == ps[..i] + [ps[i]];
    PartsTextAppend(ps[..i], ps[i]);
  }

  lemma {:induction false} PartsTextAppend(ps: seq<Part>, p: Part)
    requires PartsText(ps).Success? && PartText(p).Success?
    ensures PartsText(ps + [p]) == Success(PartsText(ps).value + [PartText(p).value])
    decreases |ps|
  {
    if |ps| == 0 {
      assert ps + [p] == [p];
      assert [p][1..] == [];
      assert PartsText([p]) == Success([PartText(p).value] + []);
      assert [PartText(p).value] + [] == [] + [PartText(p).value];
    } else {
      var all := ps + [p];
      assert all[0] == ps[0];
      assert all[1..] == ps[1..] + [p];
      PartsTextAppend(ps[1..], p);
      var h, t := PartText(ps[0]).value, PartText(p).value;
      var mid := PartsText(ps[1..]).value;
      assert PartsText(ps) == Success([h] + mid);
      assert PartsText(all[1..]) == Success(mid + [t]);
      assert [h] + (mid + [t]) == ([h] + mid) + [t];
    }
  }

  /** The parts are written out exactly when every part can be, each in its place. */
  lemma PartsTextSucceeds(ps: seq<Part>)
    ensures PartsText(ps).Success? <==> forall i :: 0 <= i < |ps| ==> PartText(ps[i]).Success?
    ensures PartsText(ps).Success? ==> forall i :: 0 <= i < |ps| ==> PartsText(ps).value[i] == PartText(ps[i]).value
  {
    PartsTextSuccessIff(ps);
    if PartsText(ps).Success? {
      PartsTextValues(ps);
    }
  }

  lemma {:induction false} PartsTextSuccessIff(ps: seq<Part>)
    ensures PartsText(ps).Success? <==> forall i :: 0 <= i < |ps| ==> PartText(ps[i]).Success?
    decreases |ps|
  {
    if |ps| > 0 {
      PartsTextSuccessIff(ps[1..]);
      assert forall i :: 1 <= i < |ps| ==> ps[1..][i - 1] == ps[i];
    }
  }

  lemma {:induction false} PartsTextValues(ps: seq<Part>)
    requires PartsText(ps).Success? && forall i :: 0 <= i < |ps| ==> PartText(ps[i]).Success?
    ensures forall i :: 0 <= i < |ps| ==> PartsText(ps).value[i] == PartText(ps[i]).value
    decreases |ps|
  {
    if |ps| > 0 {
      var tail := ps[1..];
      assert forall i :: 1 <= i < |ps| ==> tail[i - 1] == ps[i];
      PartsTextValues(tail);
      var texts, rest := PartsText(ps).value, PartsText(tail).value;
      assert texts == [PartText(ps[0]).value] + rest;
      forall i | 1 <= i < |ps| ensures texts[i] == PartText(ps[i]).value {
        assert texts[i] == rest[i - 1];
      }
    }
  }

  /** Simplification fails exactly when a clause kept verbatim holds ANY. */
  lemma SimplifiedRangeFails(lib: Lib, rangeStr: string)
    ensures SimplifiedRange(lib, rangeStr).Failure? <==>
      GetRange(lib, rangeStr).Some? &&
      exists i :: 0 <= i < |GetRange(lib, rangeStr).value.clauses| && FormatsAny(SimplifyClause(GetRange(lib, rangeStr).value.clauses[i]))
  {
    match GetRange(lib, rangeStr)
    case None =>
    case Some(range) =>
      var ps := SimplifiedParts(range.clauses);
      PartsTextSucceeds(ps);
      forall i | 0 <= i < |ps| ensures PartText(ps[i]).Failure? <==> FormatsAny(ps[i]) {
      }
  }

  /** A part written out verbatim that holds ANY. */
  predicate FormatsAny(p: Part) {
    p.Verbatim? && exists j :: 0 <= j < |p.clause| && p.clause[j].semver.Any?
  }
}
