/** Small sequence helpers shared by the rest of the model (JavaScript array operations). */
module Seqs {

  /** `array.filter(p)` */
  function Filter<T(!new)>(s: seq<T>, p: T -> bool): (r: seq<T>)
    ensures |r| <= |s|
    ensures forall x :: x in r <==> x in s && p(x)
    ensures multiset(r) <= multiset(s)
  {
    if |s| == 0 then []
    else
      assert s == [s[0]] + s[1..];
      if p(s[0]) then [s[0]] + Filter(s[1..], p)
      else Filter(s[1..], p)
  }

  /** Filtering a non-empty sequence: its head, when it passes, then the filtered tail. */
  lemma FilterCons<T(!new)>(s: seq<T>, p: T -> bool)
    requires |s| > 0
    ensures Filter(s, p) == (if p(s[0]) then [s[0]] else []) + Filter(s[1..], p)
  {
    if !p(s[0]) {
      assert [] + Filter(s[1..], p) == Filter(s[1..], p);
    }
  }

  /** The elements a non-empty sequence's filter keeps: its head, when it passes, and those of its tail. */
  lemma FilterConsMultiset<T(!new)>(s: seq<T>, p: T -> bool)
    requires |s| > 0
    ensures p(s[0]) ==> multiset(Filter(s, p)) == multiset{s[0]} + multiset(Filter(s[1..], p))
    ensures !p(s[0]) ==> multiset(Filter(s, p)) == multiset(Filter(s[1..], p))
  {
    FilterCons(s, p);
  }

  /** Three filters of which every element passes exactly one split the sequence. */
  lemma {:induction false} FilterSplit3<T(!new)>(s: seq<T>, p: T -> bool, q: T -> bool, r: T -> bool)
    requires forall k :: 0 <= k < |s| ==> (p(s[k]) <==> !q(s[k]) && !r(s[k])) && !(q(s[k]) && r(s[k]))
    ensures multiset(Filter(s, p)) + multiset(Filter(s, q)) + multiset(Filter(s, r)) == multiset(s)
  {
    if |s| > 0 {
      var rest := s[1..];
      assert forall k :: 0 <= k < |rest| ==> rest[k] == s[k + 1];
      FilterSplit3(rest, p, q, r);
      var a, b, c := multiset(Filter(rest, p)), multiset(Filter(rest, q)), multiset(Filter(rest, r));
      var a', b', c' := multiset(Filter(s, p)), multiset(Filter(s, q)), multiset(Filter(s, r));
      if p(s[0]) {
        FilterSplitStep(s, p, q, r);
      } else if q(s[0]) {
        UnionSwap(a, b, c);
        FilterSplitStep(s, q, p, r);
        UnionSwap(b', a', c');
      } else {
        UnionRotate(a, b, c);
        FilterSplitStep(s, r, p, q);
        UnionRotate(c', a', b');
        UnionRotate(b', c', a');
      }
    }
  }

  lemma FilterSplitStep<T(!new)>(s: seq<T>, p: T -> bool, q: T -> bool, r: T -> bool)
    requires |s| > 0 && p(s[0]) && !q(s[0]) && !r(s[0])
    requires multiset(Filter(s[1..], p)) + multiset(Filter(s[1..], q)) + multiset(Filter(s[1..], r)) == multiset(s[1..])
    ensures multiset(Filter(s, p)) + multiset(Filter(s, q)) + multiset(Filter(s, r)) == multiset(s)
  {
    var rest := s[1..];
    MultisetCons(s);
    FilterConsMultiset(s, p);
    FilterConsMultiset(s, q);
    FilterConsMultiset(s, r);
    UnionFront(multiset{s[0]}, multiset(Filter(rest, p)), multiset(Filter(rest, q)), multiset(Filter(rest, r)));
  }

  lemma MultisetCons<T>(s: seq<T>)
    requires |s| > 0
    ensures multiset(s) == multiset{s[0]} + multiset(s[1..])
  {
    assert s == [s[0]] + s[1..];
  }

  lemma UnionFront<T>(x: multiset<T>, a: multiset<T>, b: multiset<T>, c: multiset<T>)
    ensures (x + a) + b + c == x + (a + b + c)
  {
  }

  lemma UnionSwap<T>(a: multiset<T>, b: multiset<T>, c: multiset<T>)
    ensures b + a + c == a + b + c
  {
  }

  lemma UnionRotate<T>(a: multiset<T>, b: multiset<T>, c: multiset<T>)
    ensures c + a + b == a + b + c
  {
  }

  /** Filtering a sequence with one more element at its end. */
  lemma {:induction false} FilterSnoc<T(!new)>(s: seq<T>, x: T, p: T -> bool)
    ensures Filter(s + [x], p) == Filter(s, p) + (if p(x) then [x] else [])
  {
    var t := s + [x];
    if |s| == 0 {
      assert t == [x] && t[1..] == [];
    } else {
      assert t[0] == s[0] && t[1..] == s[1..] + [x];
      var tail := if p(x) then [x] else [];
      assert Filter(t[1..], p) == Filter(s[1..], p) + tail by {
        FilterSnoc(s[1..], x, p);
      }
      if p(s[0]) {
        calc {
          Filter(t, p);
          [s[0]] + Filter(t[1..], p);
          [s[0]] + (Filter(s[1..], p) + tail);
          { AppendAssoc([s[0]], Filter(s[1..], p), tail); }
          ([s[0]] + Filter(s[1..], p)) + tail;
          Filter(s, p) + tail;
        }
      } else {
        assert Filter(t, p) == Filter(t[1..], p);
        assert Filter(s, p) == Filter(s[1..], p);
      }
    }
  }

  lemma AppendAssoc<T>(a: seq<T>, b: seq<T>, c: seq<T>)
    ensures a + (b + c) == (a + b) + c
  {
  }

  /** A sequence without repetitions (the iteration order of a JavaScript Set). */
  predicate Distinct<T(==)>(s: seq<T>) {
    forall i, j :: 0 <= i < j < |s| ==> s[i] != s[j]
  }

  /** In a sequence without duplicates, no element occurs before its own position. */
  lemma DistinctNotBefore<T>(s: seq<T>, n: nat)
    requires Distinct(s) && n < |s|
    ensures s[n] !in s[..n]
  {
  }

  /** `set.add(x)` on an insertion-ordered set: appends `x` unless it is already present. */
  function AddLast<T(==,!new)>(s: seq<T>, x: T): (r: seq<T>)
    ensures Distinct(s) ==> Distinct(r)
    ensures forall y :: y in r <==> y in s || y == x
    ensures x in s ==> r == s
  {
    if x in s then s else s + [x]
  }

  /** `set.add(x)` for each `x` of `xs` in turn. */
  function AddAllLast<T(==,!new)>(s: seq<T>, xs: seq<T>): (r: seq<T>)
    ensures Distinct(s) ==> Distinct(r)
    ensures forall y :: y in r <==> y in s || y in xs
    ensures |r| >= |s| && r[..|s|] == s
    decreases |xs|
  {
    if |xs| == 0 then s
    else
      var init := AddAllLast(s, xs[..|xs| - 1]);
      assert forall y :: y in xs <==> y in xs[..|xs| - 1] || y == xs[|xs| - 1] by {
        assert xs == xs[..|xs| - 1] + [xs[|xs| - 1]];
      }
      AddLast(init, xs[|xs| - 1])
  }

  lemma AddAllLastSnoc<T(!new)>(s: seq<T>, xs: seq<T>, x: T)
    ensures AddAllLast(s, xs + [x]) == AddLast(AddAllLast(s, xs), x)
  {
    assert (xs + [x])[..|xs|] == xs;
  }

  /** Appending the filtered one-element extension of a filtered prefix. */
  lemma AddFilteredSnoc<T(!new)>(q: seq<T>, s: seq<T>, k: nat, p: T -> bool)
    requires k < |s|
    ensures AddAllLast(q, Filter(s[..k + 1], p)) == if p(s[k]) then AddLast(AddAllLast(q, Filter(s[..k], p)), s[k]) else AddAllLast(q, Filter(s[..k], p))
  {
    assert s[..k + 1] == s[..k] + [s[k]];
    FilterSnoc(s[..k], s[k], p);
    if p(s[k]) {
      assert Filter(s[..k + 1], p) == Filter(s[..k], p) + [s[k]];
      AddAllLastSnoc(q, Filter(s[..k], p), s[k]);
    } else {
      assert Filter(s[..k + 1], p) == Filter(s[..k], p);
    }
  }

  lemma InPrefixSnoc<T>(s: seq<T>, k: nat)
    requires k < |s|
    ensures forall x :: x in s[..k + 1] <==> x in s[..k] || x == s[k]
  {
    assert s[..k + 1] == s[..k] + [s[k]];
  }

  lemma InSuffixStep<T>(s: seq<T>, k: nat)
    requires k < |s|
    ensures forall x :: x in s[k + 1..] ==> x in s[k..] && (Distinct(s) ==> x != s[k])
  {
    assert s[k..] == [s[k]] + s[k + 1..];
    if Distinct(s) {
      var t := s[k + 1..];
      forall i | 0 <= i < |t| ensures t[i] != s[k] {
        assert t[i] == s[k + 1 + i];
      }
    }
  }

  /** Filtering keeps a sequence free of repetitions. */
  lemma {:induction false} FilterDistinct<T(!new)>(s: seq<T>, p: T -> bool)
    requires Distinct(s)
    ensures Distinct(Filter(s, p))
  {
    if |s| > 0 {
      assert Distinct(s[1..]);
      FilterDistinct(s[1..], p);
      assert s[0] !in s[1..];
    }
  }

  /** The elements of `s` outside `gone`, in order. */
  function Without<T(!new)>(s: seq<T>, gone: set<T>): (r: seq<T>)
    ensures forall x :: x in r <==> x in s && x !in gone
  {
    if |s| == 0 then []
    else
      assert s == [s[0]] + s[1..];
      if s[0] in gone then Without(s[1..], gone) else [s[0]] + Without(s[1..], gone)
  }

  lemma {:induction false} WithoutNothing<T(!new)>(s: seq<T>)
    ensures Without(s, {}) == s
  {
    if |s| > 0 {
      WithoutNothing(s[1..]);
      assert s == [s[0]] + s[1..];
    }
  }

  /** Removing one more element. */
  lemma {:induction false} WithoutRemove<T(!new)>(s: seq<T>, gone: set<T>, x: T)
    ensures RemoveElement(Without(s, gone), x) == Without(s, gone + {x})
  {
    if |s| > 0 {
      WithoutRemove(s[1..], gone, x);
      var rest := Without(s[1..], gone);
      if s[0] !in gone {
        var t := [s[0]] + rest;
        assert Without(s, gone) == t;
        assert t[0] == s[0] && t[1..] == rest;
        if s[0] == x {
          assert RemoveElement(t, x) == RemoveElement(rest, x);
        } else {
          assert RemoveElement(t, x) == [s[0]] + RemoveElement(rest, x);
        }
      }
    }
  }

  /** Removing in two rounds. */
  lemma {:induction false} WithoutTwice<T(!new)>(s: seq<T>, a: set<T>, b: set<T>)
    ensures Without(Without(s, a), b) == Without(s, a + b)
  {
    if |s| > 0 {
      WithoutTwice(s[1..], a, b);
      var rest := Without(s[1..], a);
      if s[0] !in a {
        var t := [s[0]] + rest;
        assert Without(s, a) == t;
        assert t[0] == s[0] && t[1..] == rest;
        if s[0] in b {
          assert Without(t, b) == Without(rest, b);
        } else {
          assert Without(t, b) == [s[0]] + Without(rest, b);
        }
      }
    }
  }

  /** Only the elements of `s` matter. */
  lemma {:induction false} WithoutExt<T(!new)>(s: seq<T>, a: set<T>, b: set<T>)
    requires forall x :: x in s ==> (x in a <==> x in b)
    ensures Without(s, a) == Without(s, b)
  {
    if |s| > 0 {
      assert s[0] in s;
      assert forall x :: x in s[1..] ==> x in s;
      WithoutExt(s[1..], a, b);
    }
  }

  /** Filtering by two predicates that agree everywhere gives the same result. */
  lemma {:induction false} FilterExt<T(!new)>(s: seq<T>, p: T -> bool, q: T -> bool)
    requires forall x :: p(x) == q(x)
    ensures Filter(s, p) == Filter(s, q)
  {
    if |s| > 0 {
      FilterExt(s[1..], p, q);
    }
  }

  /** Removes every occurrence of `x`, keeping the order of the rest. */
  function RemoveElement<T(==,!new)>(s: seq<T>, x: T): (r: seq<T>)
    ensures Distinct(s) ==> Distinct(r)
    ensures forall y :: y in r <==> y in s && y != x
    ensures |r| <= |s|
  {
    if |s| == 0 then []
    else if s[0] == x then RemoveElement(s[1..], x)
    else
      assert Distinct(s) ==> s[0] !in s[1..] && Distinct(s[1..]);
      [s[0]] + RemoveElement(s[1..], x)
  }

  /** Removing `x` from a filtered sequence filters out `x` as well. */
  lemma {:induction false} RemoveFiltered<T(!new)>(s: seq<T>, p: T -> bool, x: T)
    ensures RemoveElement(Filter(s, p), x) == Filter(s, y => p(y) && y != x)
  {
    if |s| > 0 {
      RemoveFiltered(s[1..], p, x);
      var rest := Filter(s[1..], p);
      if p(s[0]) {
        var f := [s[0]] + rest;
        assert Filter(s, p) == f;
        assert f[0] == s[0] && f[1..] == rest;
        if s[0] == x {
          assert RemoveElement(f, x) == RemoveElement(rest, x);
        } else {
          assert RemoveElement(f, x) == [s[0]] + RemoveElement(rest, x);
        }
      } else {
        assert Filter(s, p) == rest;
      }
    }
  }

  /** The distinct elements of a sequence are no more than a set they all lie in. */
  lemma {:induction false} DistinctBound<T>(s: seq<T>, u: set<T>)
    requires Distinct(s)
    requires forall x :: x in s ==> x in u
    ensures |s| <= |u|
  {
    if |s| > 0 {
      var x := s[|s| - 1];
      var init := s[..|s| - 1];
      assert forall y :: y in init ==> y in u - {x} by {
        forall y | y in init ensures y in u - {x} {
          var k :| 0 <= k < |init| && init[k] == y;
          assert s[k] == y;
        }
      }
      DistinctBound(init, u - {x});
    }
  }

  /** `array.reverse()` on a copy. */
  function Reverse<T>(s: seq<T>): (r: seq<T>)
    ensures |r| == |s|
    ensures forall i :: 0 <= i < |s| ==> r[i] == s[|s| - 1 - i]
  {
    if |s| == 0 then [] else Reverse(s[1..]) + [s[0]]
  }

  /** `array.map(f)` */
  function Map<A, B>(s: seq<A>, f: A -> B): (r: seq<B>)
    ensures |r| == |s|
    ensures forall i :: 0 <= i < |s| ==> r[i] == f(s[i])
  {
    seq(|s|, i requires 0 <= i < |s| => f(s[i]))
  }

  /** Mapping commutes with reversing. */
  lemma MapReverse<A, B>(s: seq<A>, f: A -> B)
    ensures Reverse(Map(s, f)) == Map(Reverse(s), f)
  {
    var r, m := Reverse(Map(s, f)), Map(Reverse(s), f);
    forall i | 0 <= i < |s| ensures r[i] == m[i] {
      assert Reverse(s)[i] == s[|s| - 1 - i];
    }
  }

  /** `strings.join(sep)` */
  function Join(parts: seq<string>, sep: string): string {
    if |parts| == 0 then ""
    else if |parts| == 1 then parts[0]
    else parts[0] + sep + Join(parts[1..], sep)
  }
}
