/**
 * Candidate derivation of `update-resolver.ts`: the filters that narrow the
 * versions a package has been published in, the bucketing that turns them into
 * at most four suggestions, and the resolver object that holds the pre-fetched
 * version lists.
 */
module Resolver {
  import opened Wrappers
  import opened Seqs
  import opened Semver
  import opened Structs
  import opened Externals
  import opened Sorting
  import opened Ranges

  // ---------------------------------------------------------------------------
  // Parsing with the `npm:` protocol stripped

  function StripNpm(s: string): (r: string)
    ensures |s| >= 4 && s[..4] == "npm:" ==> r == s[4..]
    ensures !(|s| >= 4 && s[..4] == "npm:") ==> r == s
  {
    if |s| >= 4 && s[..4] == "npm:" then s[4..] else s
  }

  /** `validSemVer`: the exact version a string denotes once `npm:` is stripped, or null. */
  function ValidSemVer(lib: Lib, version: string): (r: Option<Version>)
    ensures |version| >= 4 && version[..4] == "npm:" ==> r == lib.validVersion(version[4..])
    ensures !(|version| >= 4 && version[..4] == "npm:") ==> r == lib.validVersion(version)
  {
    lib.validVersion(StripNpm(version))
  }

  /** `validSemVerRange`: the range a string denotes once `npm:` is stripped, or null. */
  function ValidSemVerRange(lib: Lib, range: string): (r: Option<Range>)
    ensures |range| >= 4 && range[..4] == "npm:" ==> r == lib.validRange(range[4..])
    ensures !(|range| >= 4 && range[..4] == "npm:") ==> r == lib.validRange(range)
  {
    lib.validRange(StripNpm(range))
  }

  /** Exactly one `npm:` is stripped: `npm:` followed by any text is read as that text. */
  lemma ValidSemVerNpm(lib: Lib, s: string)
    ensures ValidSemVer(lib, "npm:" + s) == lib.validVersion(s)
    ensures ValidSemVerRange(lib, "npm:" + s) == lib.validRange(s)
  {
    assert ("npm:" + s)[..4] == "npm:";
    assert ("npm:" + s)[4..] == s;
  }

  /** A text without the prefix is read unchanged, so prefixing it does not change its reading. */
  lemma ValidSemVerPlain(lib: Lib, s: string)
    requires !(|s| >= 4 && s[..4] == "npm:")
    ensures ValidSemVer(lib, s) == lib.validVersion(s) == ValidSemVer(lib, "npm:" + s)
    ensures ValidSemVerRange(lib, s) == lib.validRange(s) == ValidSemVerRange(lib, "npm:" + s)
  {
    ValidSemVerNpm(lib, s);
  }

  /** `npm:1.2.3` is read as 1.2.3 while `1.2.3` itself is read unchanged. */
  lemma StripNpmExamples()
    ensures StripNpm("npm:1.2.3") == "1.2.3"
    ensures StripNpm("1.2.3") == "1.2.3"
  {
    assert "npm:1.2.3"[..4] == "npm:";
    assert "1.2.3"[..4][0] != "npm:"[0];
  }

  // ---------------------------------------------------------------------------
  // Filters

  /** Keeps the versions that pass, unless none does. */
  function KeepUnlessEmpty(versions: seq<Version>, p: Version -> bool): (r: seq<Version>)
    ensures (forall v :: v in versions ==> !p(v)) ==> r == versions
    ensures (exists v :: v in versions && p(v)) ==> forall v :: v in r <==> v in versions && p(v)
    ensures multiset(r) <= multiset(versions)
  {
    var filtered := Filter(versions, p);
    if |filtered| > 0 then
      assert filtered[0] in filtered;
      filtered
    else versions
  }

  /** `removeVersionsAfterLatest`: the versions up to `latest`, unless there is no latest or none is. */
  function RemoveVersionsAfterLatest(latest: Option<Version>, versions: seq<Version>): (r: seq<Version>)
    ensures latest.None? ==> r == versions
    ensures latest.Some? && (forall v :: v in versions ==> Gt(v, latest.value)) ==> r == versions
    ensures latest.Some? && (exists v :: v in versions && Le(v, latest.value)) ==>
      forall v :: v in r <==> v in versions && Le(v, latest.value)
    ensures multiset(r) <= multiset(versions)
  {
    if latest.None? then versions
    else KeepUnlessEmpty(versions, v => Le(v, latest.value))
  }

  /** The version the descriptor range starts at: the exact version, else the range's minimum. */
  function MinimumVersion(lib: Lib, range: string): Option<Version> {
    match ValidSemVer(lib, range)
    case Some(v) => Some(v)
    case None =>
      match ValidSemVerRange(lib, range)
      case None => None
      case Some(r) => lib.minVersion(r)
  }

  /** `removeOlderVersions`: the versions from the range's minimum on, unless it has none or none is. */
  function RemoveOlderVersions(lib: Lib, range: string, versions: seq<Version>): (r: seq<Version>)
    ensures MinimumVersion(lib, range).None? ==> r == versions
    ensures MinimumVersion(lib, range).Some? && (exists v :: v in versions && Ge(v, MinimumVersion(lib, range).value)) ==>
      forall v :: v in r <==> v in versions && Ge(v, MinimumVersion(lib, range).value)
    ensures MinimumVersion(lib, range).Some? && (forall v :: v in versions ==> Lt(v, MinimumVersion(lib, range).value)) ==>
      r == versions
    ensures multiset(r) <= multiset(versions)
  {
    match MinimumVersion(lib, range)
    case None => versions
    case Some(minimum) => KeepUnlessEmpty(versions, v => Ge(v, minimum))
  }

  /** `applyRequirement`: exactly the versions the requirement accepts, possibly none. */
  function ApplyRequirement(requirement: Option<Range>, versions: seq<Version>): (r: seq<Version>)
    ensures requirement.None? ==> r == versions
    ensures requirement.Some? ==> forall v :: v in r <==> v in versions && Satisfies(requirement.value, v)
    ensures multiset(r) <= multiset(versions)
  {
    if requirement.None? then versions
    else Filter(versions, v => Satisfies(requirement.value, v))
  }

  // ---------------------------------------------------------------------------
  // Bucketing (cleanVersions)

  /** Buckets are keyed by `${major}` or `${major}.${minor}`, two key shapes that never collide. */
  datatype Bucket = MajorKey(major: nat) | MinorKey(major: nat, minor: nat)

  datatype Kind = ByMajor | ByMinor

  function KeyOf(kind: Kind, v: Version): Bucket {
    match kind
    case ByMajor => MajorKey(v.major)
    case ByMinor => MinorKey(v.major, v.minor)
  }

  function KeysOf(kind: Kind, s: seq<Version>): (r: seq<Bucket>)
    ensures |r| == |s|
    ensures forall i :: 0 <= i < |s| ==> r[i] == KeyOf(kind, s[i])
  {
    seq(|s|, i requires 0 <= i < |s| => KeyOf(kind, s[i]))
  }

  lemma KeysOfAppend(kind: Kind, a: seq<Version>, b: seq<Version>)
    ensures KeysOf(kind, a + b) == KeysOf(kind, a) + KeysOf(kind, b)
  {
  }

  /** The first version of each key, in order of first appearance. */
  function Heads(kind: Kind, s: seq<Version>): seq<Version>
    decreases |s|
  {
    if |s| == 0 then []
    else
      var h := Heads(kind, s[..|s| - 1]);
      var x := s[|s| - 1];
      if KeyOf(kind, x) in KeysOf(kind, h) then h else h + [x]
  }

  lemma HeadsAppend(kind: Kind, p: seq<Version>, x: Version)
    ensures Heads(kind, p + [x]) ==
      if KeyOf(kind, x) in KeysOf(kind, Heads(kind, p)) then Heads(kind, p) else Heads(kind, p) + [x]
  {
    assert (p + [x])[..|p|] == p;
  }

  /** The heads are versions of `s`, one per key, and every key of `s` has one. */
  lemma {:induction false} HeadsProps(kind: Kind, s: seq<Version>)
    ensures forall h :: h in Heads(kind, s) ==> h in s
    ensures forall v :: v in s ==> KeyOf(kind, v) in KeysOf(kind, Heads(kind, s))
    ensures Distinct(KeysOf(kind, Heads(kind, s)))
    decreases |s|
  {
    if |s| > 0 {
      var p := s[..|s| - 1];
      var x := s[|s| - 1];
      assert s == p + [x];
      HeadsAppend(kind, p, x);
      HeadsProps(kind, p);
      KeysOfAppend(kind, Heads(kind, p), [x]);
    }
  }

  /** The versions of `s` with the given major, in order. */
  function OfMajor(s: seq<Version>, major: nat): (r: seq<Version>)
    ensures forall v :: v in r <==> v in s && v.major == major
    ensures |s| > 0 && s[0].major == major ==> |r| > 0 && r[0] == s[0]
  {
    if |s| == 0 then []
    else (if s[0].major == major then [s[0]] else []) + OfMajor(s[1..], major)
  }

  lemma {:induction false} OfMajorAppend(s: seq<Version>, x: Version, major: nat)
    ensures OfMajor(s + [x], major) == OfMajor(s, major) + (if x.major == major then [x] else [])
    decreases |s|
  {
    if |s| == 0 {
      assert [x][1..] == [];
    } else {
      assert (s + [x])[1..] == s[1..] + [x];
      OfMajorAppend(s[1..], x, major);
    }
  }

  /** `versionsToUse`: minors with one major; the newer major's minors then the older's with two; else majors. */
  function VersionsToUse(sorted: seq<Version>): seq<Version> {
    var majors := Heads(ByMajor, sorted);
    var minors := Heads(ByMinor, sorted);
    if |majors| == 1 then minors
    else if |majors| == 2 then OfMajor(minors, majors[0].major) + OfMajor(minors, majors[1].major)
    else majors
  }

  /** `rcompare`: newer versions first. */
  function NewestFirst(): (Version, Version) -> int {
    (a: Version, b: Version) => Compare(b, a)
  }

  function SortDescending(versions: seq<Version>): seq<Version> {
    SortBy(versions, NewestFirst())
  }

  /** The versions suggested, oldest first: the newest of each of the first four buckets, reversed. */
  function Picks(versions: seq<Version>): seq<Version> {
    if |versions| == 0 then []
    else
      var use := VersionsToUse(SortDescending(versions));
      Reverse(use[..if |use| < 4 then |use| else 4])
  }

  /** What `cleanVersions` returns: each pick rewritten in the style of the current range. */
  function CleanedVersions(lib: Lib, current: string, versions: seq<Version>): (r: seq<string>)
    ensures |r| == |Picks(versions)|
  {
    Map(Picks(versions), Restyle(lib, current))
  }

  /** A version rewritten in the style of the current range: `getUpdatableRange(v.format(), current)`. */
  function Restyle(lib: Lib, current: string): Version -> string {
    v => UpdatableRange(lib, FormatVersion(v), Some(current))
  }

  /** The sets and maps `cleanVersions` fills while it walks the sorted versions. */
  datatype Tally = Tally(majors: seq<Bucket>, minors: seq<Bucket>,
                         majorMinorMap: map<Bucket, seq<Bucket>>, versionMap: map<Bucket, Version>)

  /** One pass of the loop: a new major or minor is recorded with the version that opened it. */
  function Record(t: Tally, version: Version): Tally {
    var major := MajorKey(version.major);
    var minor := MinorKey(version.major, version.minor);
    var t' := if major in t.majors then t
              else t.(majors := t.majors + [major], versionMap := t.versionMap[major := version]);
    if minor in t'.minors then t'
    else
      var list := if major in t'.majorMinorMap then t'.majorMinorMap[major] else [];
      t'.(minors := t'.minors + [minor], versionMap := t'.versionMap[minor := version],
          majorMinorMap := t'.majorMinorMap[major := list + [minor]])
  }

  function TallyOf(s: seq<Version>): Tally
    decreases |s|
  {
    if |s| == 0 then Tally([], [], map[], map[])
    else Record(TallyOf(s[..|s| - 1]), s[|s| - 1])
  }

  /** The tally of `s` holds the first version of each major and minor, and each major's minors in order. */
  ghost predicate Describes(s: seq<Version>, t: Tally) {
    FirstsRecorded(s, t) && ListsRecorded(s, t)
  }

  ghost predicate FirstsRecorded(s: seq<Version>, t: Tally) {
    FirstsOf(ByMajor, s, t.majors, t.versionMap) && FirstsOf(ByMinor, s, t.minors, t.versionMap)
  }

  /** `keys` lists the buckets of one kind in order of appearance, and `versionMap` their first versions. */
  ghost predicate FirstsOf(kind: Kind, s: seq<Version>, keys: seq<Bucket>, versionMap: map<Bucket, Version>) {
    keys == KeysOf(kind, Heads(kind, s)) &&
    forall h :: h in Heads(kind, s) ==> KeyOf(kind, h) in versionMap && versionMap[KeyOf(kind, h)] == h
  }

  ghost predicate ListsRecorded(s: seq<Version>, t: Tally) {
    (forall k :: k in t.majorMinorMap ==> k in t.majors) &&
    (forall k :: k in t.majors ==> k in t.majorMinorMap && t.majorMinorMap[k] == KeysOf(ByMinor, OfMajor(Heads(ByMinor, s), k.major)))
  }

  lemma MajorsAreMajorKeys(hs: seq<Version>, k: Bucket)
    requires k in KeysOf(ByMajor, hs)
    ensures k.MajorKey? && exists h :: h in hs && h.major == k.major
  {
    var i :| 0 <= i < |hs| && KeysOf(ByMajor, hs)[i] == k;
    assert hs[i] in hs;
  }

  lemma {:induction false} OfMajorNone(s: seq<Version>, major: nat)
    requires forall v :: v in s ==> v.major != major
    ensures OfMajor(s, major) == []
  {
    if |s| > 0 {
      assert s[0] in s;
      assert forall v :: v in s[1..] ==> v in s;
      OfMajorNone(s[1..], major);
    }
  }

  /** A version opening a new major also opens a new minor, and no earlier minor has its major. */
  lemma NewMajorNewMinor(p: seq<Version>, x: Version, t: Tally)
    requires FirstsRecorded(p, t) && MajorKey(x.major) !in t.majors
    ensures MinorKey(x.major, x.minor) !in t.minors
    ensures OfMajor(Heads(ByMinor, p), x.major) == []
  {
    var minorHeads := Heads(ByMinor, p);
    assert t.majors == KeysOf(ByMajor, Heads(ByMajor, p));
    assert t.minors == KeysOf(ByMinor, minorHeads);
    HeadsProps(ByMinor, p);
    HeadsProps(ByMajor, p);
    forall h | h in minorHeads ensures h.major != x.major {
      assert h in p;
      assert KeyOf(ByMajor, h) in t.majors;
    }
    OfMajorNone(minorHeads, x.major);
    forall i | 0 <= i < |minorHeads| ensures t.minors[i] != MinorKey(x.major, x.minor) {
      assert minorHeads[i] in minorHeads;
    }
  }

  /** Recording one more version keeps the keys and first versions of one kind of bucket. */
  lemma FirstsStep(kind: Kind, p: seq<Version>, x: Version, keys: seq<Bucket>, versionMap: map<Bucket, Version>)
    requires FirstsOf(kind, p, keys, versionMap)
    ensures var k := KeyOf(kind, x);
      FirstsOf(kind, p + [x], if k in keys then keys else keys + [k], if k in keys then versionMap else versionMap[k := x])
  {
    HeadsAppend(kind, p, x);
    KeysOfAppend(kind, Heads(kind, p), [x]);
  }

  /** Recording a bucket of the other kind leaves one kind's first versions alone. */
  lemma FirstsFrame(kind: Kind, s: seq<Version>, keys: seq<Bucket>, versionMap: map<Bucket, Version>, k: Bucket, v: Version)
    requires FirstsOf(kind, s, keys, versionMap)
    requires if kind == ByMajor then k.MinorKey? else k.MajorKey?
    ensures FirstsOf(kind, s, keys, versionMap[k := v])
  {
  }

  lemma RecordKeepsFirsts(p: seq<Version>, x: Version, t: Tally)
    requires FirstsRecorded(p, t)
    ensures FirstsRecorded(p + [x], Record(t, x))
  {
    var major := MajorKey(x.major);
    var minor := MinorKey(x.major, x.minor);
    var majors := if major in t.majors then t.majors else t.majors + [major];
    var vm := if major in t.majors then t.versionMap else t.versionMap[major := x];
    var minors := if minor in t.minors then t.minors else t.minors + [minor];
    var vm' := if minor in t.minors then vm else vm[minor := x];
    assert Record(t, x).majors == majors && Record(t, x).minors == minors && Record(t, x).versionMap == vm';
    FirstsStep(ByMajor, p, x, t.majors, t.versionMap);
    if major !in t.majors {
      FirstsFrame(ByMinor, p, t.minors, t.versionMap, major, x);
    }
    FirstsStep(ByMinor, p, x, t.minors, vm);
    if minor !in t.minors {
      FirstsFrame(ByMajor, p + [x], majors, vm, minor, x);
    }
  }

  /** A new minor is appended to its own major's list. */
  lemma NewMinorOwnList(p: seq<Version>, x: Version, t: Tally)
    requires Describes(p, t) && MinorKey(x.major, x.minor) !in t.minors
    ensures MajorKey(x.major) in Record(t, x).majorMinorMap
    ensures Record(t, x).majorMinorMap[MajorKey(x.major)] == KeysOf(ByMinor, OfMajor(Heads(ByMinor, p) + [x], x.major))
  {
    var major := MajorKey(x.major);
    var minorHeads := Heads(ByMinor, p);
    var list := if major in t.majorMinorMap then t.majorMinorMap[major] else [];
    assert Record(t, x).majorMinorMap[major] == list + [MinorKey(x.major, x.minor)];
    OfMajorAppend(minorHeads, x, x.major);
    KeysOfAppend(ByMinor, OfMajor(minorHeads, x.major), [x]);
    if major !in t.majors {
      NewMajorNewMinor(p, x, t);
    }
  }

  /** A new minor leaves the lists of the other majors alone. */
  lemma NewMinorOtherList(p: seq<Version>, x: Version, t: Tally, k: Bucket)
    requires ListsRecorded(p, t) && t.majors == KeysOf(ByMajor, Heads(ByMajor, p))
    requires MinorKey(x.major, x.minor) !in t.minors
    requires k in t.majors && k != MajorKey(x.major)
    ensures k in Record(t, x).majorMinorMap
    ensures Record(t, x).majorMinorMap[k] == KeysOf(ByMinor, OfMajor(Heads(ByMinor, p) + [x], k.major))
  {
    MajorsAreMajorKeys(Heads(ByMajor, p), k);
    OfMajorAppend(Heads(ByMinor, p), x, k.major);
  }

  lemma RecordKeepsLists(p: seq<Version>, x: Version, t: Tally)
    requires Describes(p, t)
    ensures ListsRecorded(p + [x], Record(t, x))
  {
    var minor := MinorKey(x.major, x.minor);
    HeadsAppend(ByMinor, p, x);
    if MajorKey(x.major) !in t.majors {
      NewMajorNewMinor(p, x, t);
    }
    if minor !in t.minors {
      assert Heads(ByMinor, p + [x]) == Heads(ByMinor, p) + [x];
      NewMinorOwnList(p, x, t);
      forall k | k in t.majors && k != MajorKey(x.major)
        ensures k in Record(t, x).majorMinorMap
        ensures Record(t, x).majorMinorMap[k] == KeysOf(ByMinor, OfMajor(Heads(ByMinor, p + [x]), k.major))
      {
        NewMinorOtherList(p, x, t, k);
      }
    }
  }

  lemma {:induction false} TallyOfDescribes(s: seq<Version>)
    ensures Describes(s, TallyOf(s))
    decreases |s|
  {
    if |s| > 0 {
      var p := s[..|s| - 1];
      assert s == p + [s[|s| - 1]];
      TallyOfDescribes(p);
      RecordKeepsFirsts(p, s[|s| - 1], TallyOf(p));
      RecordKeepsLists(p, s[|s| - 1], TallyOf(p));
    }
  }

  /** Looking up the first keys of the chosen buckets yields the first versions of the chosen list. */
  lemma LookUpKeys(kind: Kind, use: seq<Version>, keys: seq<Bucket>, versionMap: map<Bucket, Version>, n: nat)
    requires keys == KeysOf(kind, use) && n <= |use|
    requires forall h :: h in use ==> KeyOf(kind, h) in versionMap && versionMap[KeyOf(kind, h)] == h
    ensures forall i :: 0 <= i < n ==> keys[i] in versionMap && versionMap[keys[i]] == use[i]
  {
    forall i | 0 <= i < n ensures keys[i] in versionMap && versionMap[keys[i]] == use[i] {
      assert use[i] in use;
    }
  }

  /**
   * `cleanVersions`: sorts the versions newest first, records the first
   * version of every major and every minor, picks the buckets by the number of
   * majors, and rewrites the newest four of them in the style of `current`.
   */
  method CleanVersions(lib: Lib, current: string, versions: seq<Version>) returns (r: seq<string>)
    ensures r == CleanedVersions(lib, current, versions)
  {
    if |versions| == 0 {
      return [];
    }
    var sorted := SortDescending(versions);
    var majors, minors, majorMinorMap, versionMap := TallyVersions(sorted);
    ghost var use := VersionsToUse(sorted);
    ghost var kind := if |majors| <= 2 then ByMinor else ByMajor;
    TallyChooses(sorted);
    var keysToUse: seq<Bucket>;
    if |majors| == 1 {
      keysToUse := minors;
    } else if |majors| == 2 {
      var latest, previous := majors[0], majors[1];
      keysToUse := majorMinorMap[latest] + majorMinorMap[previous];
    } else {
      keysToUse := majors;
    }
    var n := if |keysToUse| < 4 then |keysToUse| else 4;
    LookUpKeys(kind, use, keysToUse, versionMap, n);
    var chosen := seq(n, i requires 0 <= i < n => versionMap[keysToUse[i]]);
    assert chosen == use[..n];
    var cleaned := Map(chosen, Restyle(lib, current));
    r := Reverse(cleaned);
    PicksAreChosen(versions, use, n);
    MapReverse(chosen, Restyle(lib, current));
  }

  /** The walk of `cleanVersions` over the sorted versions, filling the sets and maps of buckets. */
  method TallyVersions(sorted: seq<Version>)
    returns (majors: seq<Bucket>, minors: seq<Bucket>, majorMinorMap: map<Bucket, seq<Bucket>>, versionMap: map<Bucket, Version>)
    ensures Tally(majors, minors, majorMinorMap, versionMap) == TallyOf(sorted)
  {
    majors, minors, majorMinorMap, versionMap := [], [], map[], map[];
    for i := 0 to |sorted|
      invariant Tally(majors, minors, majorMinorMap, versionMap) == TallyOf(sorted[..i])
    {
      ghost var before := Tally(majors, minors, majorMinorMap, versionMap);
      var version := sorted[i];
      var major := MajorKey(version.major);
      var minor := MinorKey(version.major, version.minor);
      if major !in majors {
        majors := majors + [major];
        versionMap := versionMap[major := version];
      }
      if minor !in minors {
        minors := minors + [minor];
        versionMap := versionMap[minor := version];
        var list := if major in majorMinorMap then majorMinorMap[major] else [];
        majorMinorMap := majorMinorMap[major := list + [minor]];
      }
      assert Tally(majors, minors, majorMinorMap, versionMap) == Record(before, version);
      assert sorted[..i + 1][..i] == sorted[..i];
    }
    assert sorted[..|sorted|] == sorted;
  }

  /** The picks are the first four chosen versions, reversed. */
  lemma PicksAreChosen(versions: seq<Version>, use: seq<Version>, n: nat)
    requires |versions| > 0 && use == VersionsToUse(SortDescending(versions))
    requires n == if |use| < 4 then |use| else 4
    ensures Picks(versions) == Reverse(use[..n])
  {
  }

  /** After the walk, the keys `cleanVersions` selects are those of `VersionsToUse`, and each maps to its version. */
  lemma TallyChooses(sorted: seq<Version>)
    requires |sorted| > 0
    ensures var t := TallyOf(sorted);
      var use := VersionsToUse(sorted);
      var kind := if |t.majors| <= 2 then ByMinor else ByMajor;
      |t.majors| >= 1 &&
      (|t.majors| == 1 ==> t.minors == KeysOf(ByMinor, use)) &&
      (|t.majors| == 2 ==> (t.majors[0] in t.majorMinorMap && t.majors[1] in t.majorMinorMap &&
        t.majorMinorMap[t.majors[0]] + t.majorMinorMap[t.majors[1]] == KeysOf(ByMinor, use))) &&
      (|t.majors| > 2 ==> t.majors == KeysOf(ByMajor, use)) &&
      forall h :: h in use ==> KeyOf(kind, h) in t.versionMap && t.versionMap[KeyOf(kind, h)] == h
  {
    var t := TallyOf(sorted);
    TallyOfDescribes(sorted);
    var majorHeads := Heads(ByMajor, sorted);
    var minorHeads := Heads(ByMinor, sorted);
    HeadsFirst(ByMajor, sorted);
    if |majorHeads| == 2 {
      var a, b := OfMajor(minorHeads, majorHeads[0].major), OfMajor(minorHeads, majorHeads[1].major);
      KeysOfAppend(ByMinor, a, b);
      assert t.majors[0] == MajorKey(majorHeads[0].major);
      assert t.majors[1] == MajorKey(majorHeads[1].major);
    }
  }

  // ---------------------------------------------------------------------------
  // What the bucketing guarantees

  /** Newest first, with no two equal versions next to each other in rank. */
  predicate StrictlyDescending(s: seq<Version>) {
    forall i, j :: 0 <= i < j < |s| ==> Gt(s[i], s[j])
  }

  predicate NonIncreasing(s: seq<Version>) {
    forall i, j :: 0 <= i < j < |s| ==> Ge(s[i], s[j])
  }

  lemma NewestFirstConsistent()
    ensures Consistent(NewestFirst())
  {
    var cmp := NewestFirst();
    forall a, b ensures cmp(a, b) == -cmp(b, a) {
      CompareAntisymmetric(a, b);
    }
    forall a, b, c | cmp(a, b) <= 0 && cmp(b, c) <= 0 ensures cmp(a, c) <= 0 {
      CompareTransitive(c, b, a);
    }
  }

  /** The sorted copy is a permutation, newest first. */
  lemma SortDescendingProps(versions: seq<Version>)
    ensures multiset(SortDescending(versions)) == multiset(versions)
    ensures NonIncreasing(SortDescending(versions))
  {
    NewestFirstConsistent();
    SortBySorted(versions, NewestFirst());
  }

  lemma {:induction false} HeadsFirst(kind: Kind, s: seq<Version>)
    requires |s| > 0
    ensures |Heads(kind, s)| > 0 && Heads(kind, s)[0] == s[0]
    decreases |s|
  {
    var p := s[..|s| - 1];
    assert s == p + [s[|s| - 1]];
    HeadsAppend(kind, p, s[|s| - 1]);
    if |p| > 0 {
      HeadsFirst(kind, p);
    }
  }

  /** On a list sorted newest first, each head is the newest of its bucket. */
  lemma {:induction false} HeadsNewestOfBucket(kind: Kind, s: seq<Version>)
    requires NonIncreasing(s)
    ensures forall h, v :: h in Heads(kind, s) && v in s && KeyOf(kind, v) == KeyOf(kind, h) ==> Le(v, h)
    decreases |s|
  {
    if |s| > 0 {
      var p := s[..|s| - 1];
      var x := s[|s| - 1];
      assert s == p + [x];
      HeadsAppend(kind, p, x);
      HeadsNewestOfBucket(kind, p);
      HeadsProps(kind, p);
      var hs := Heads(kind, p);
      forall h, v | h in Heads(kind, s) && v in s && KeyOf(kind, v) == KeyOf(kind, h) ensures Le(v, h) {
        if h == x && v == x {
          CompareAntisymmetric(x, x);
        } else if h == x {
          assert v in p;
          assert KeyOf(kind, x) in KeysOf(kind, hs);
        } else if v == x {
          assert h in p;
          var j :| 0 <= j < |p| && p[j] == h;
          assert s[j] == h;
          CompareAntisymmetric(x, h);
        }
      }
    }
  }

  /** On a list sorted newest first, the heads are sorted too. */
  lemma {:induction false} HeadsNonIncreasing(kind: Kind, s: seq<Version>)
    requires NonIncreasing(s)
    ensures NonIncreasing(Heads(kind, s))
    decreases |s|
  {
    if |s| > 0 {
      var p := s[..|s| - 1];
      var x := s[|s| - 1];
      assert s == p + [x];
      HeadsAppend(kind, p, x);
      HeadsNonIncreasing(kind, p);
      HeadsProps(kind, p);
      var hs := Heads(kind, p);
      var r := hs + [x];
      forall i, j | 0 <= i < j < |r| ensures Ge(r[i], r[j]) {
        if j == |hs| {
          assert r[i] in p;
          var k :| 0 <= k < |p| && p[k] == r[i];
          assert s[k] == r[i];
        } else {
          assert r[i] == hs[i] && r[j] == hs[j];
        }
      }
    }
  }

  /** Sorted versions in distinct buckets are strictly sorted. */
  lemma DistinctKeysStrict(kind: Kind, hs: seq<Version>)
    requires NonIncreasing(hs) && Distinct(KeysOf(kind, hs))
    ensures StrictlyDescending(hs)
  {
    forall i, j | 0 <= i < j < |hs| ensures Gt(hs[i], hs[j]) {
      CompareAntisymmetric(hs[i], hs[j]);
      assert KeysOf(kind, hs)[i] != KeysOf(kind, hs)[j];
    }
  }

  lemma HeadsOfSorted(kind: Kind, s: seq<Version>)
    requires NonIncreasing(s)
    ensures StrictlyDescending(Heads(kind, s))
    ensures forall h, v :: h in Heads(kind, s) && v in s && KeyOf(kind, v) == KeyOf(kind, h) ==> Le(v, h)
    ensures |s| > 0 ==> |Heads(kind, s)| > 0 && Heads(kind, s)[0] == s[0]
  {
    HeadsNonIncreasing(kind, s);
    HeadsProps(kind, s);
    DistinctKeysStrict(kind, Heads(kind, s));
    HeadsNewestOfBucket(kind, s);
    if |s| > 0 {
      HeadsFirst(kind, s);
    }
  }

  lemma {:induction false} OfMajorDescending(s: seq<Version>, major: nat)
    requires StrictlyDescending(s)
    ensures StrictlyDescending(OfMajor(s, major))
    decreases |s|
  {
    if |s| > 0 {
      assert StrictlyDescending(s[1..]) by {
        forall i, j | 0 <= i < j < |s[1..]| ensures Gt(s[1..][i], s[1..][j]) {
          assert s[1..][i] == s[i + 1] && s[1..][j] == s[j + 1];
        }
      }
      OfMajorDescending(s[1..], major);
      var rest := OfMajor(s[1..], major);
      forall y | y in rest ensures Gt(s[0], y) {
        var j :| 0 <= j < |s[1..]| && s[1..][j] == y;
        assert s[j + 1] == y;
      }
    }
  }

  /** The first major met on a sorted list is the newer one. */
  lemma MajorsDescending(sorted: seq<Version>)
    requires NonIncreasing(sorted) && |Heads(ByMajor, sorted)| >= 2
    ensures Heads(ByMajor, sorted)[0].major > Heads(ByMajor, sorted)[1].major
  {
    var majors := Heads(ByMajor, sorted);
    HeadsOfSorted(ByMajor, sorted);
    HeadsProps(ByMajor, sorted);
    assert KeysOf(ByMajor, majors)[0] != KeysOf(ByMajor, majors)[1];
    assert Gt(majors[0], majors[1]);
  }

  lemma ConcatDescending(a: seq<Version>, b: seq<Version>)
    requires StrictlyDescending(a) && StrictlyDescending(b)
    requires forall x, y :: x in a && y in b ==> Gt(x, y)
    ensures StrictlyDescending(a + b)
  {
    var use := a + b;
    forall i, j | 0 <= i < j < |use| ensures Gt(use[i], use[j]) {
      if i < |a| && j >= |a| {
        assert use[i] in a && use[j] in b;
      } else if i >= |a| {
        assert use[i] == b[i - |a|] && use[j] == b[j - |a|];
      }
    }
  }

  /** With two majors, the newer major's minors come first and all of them are newer than the older major's. */
  lemma TwoMajorsDescending(sorted: seq<Version>)
    requires NonIncreasing(sorted) && |sorted| > 0 && |Heads(ByMajor, sorted)| == 2
    ensures |VersionsToUse(sorted)| > 0 && VersionsToUse(sorted)[0] == sorted[0]
    ensures StrictlyDescending(VersionsToUse(sorted))
  {
    var majors := Heads(ByMajor, sorted);
    var minors := Heads(ByMinor, sorted);
    HeadsOfSorted(ByMajor, sorted);
    HeadsOfSorted(ByMinor, sorted);
    MajorsDescending(sorted);
    var m0, m1 := majors[0].major, majors[1].major;
    OfMajorDescending(minors, m0);
    OfMajorDescending(minors, m1);
    ConcatDescending(OfMajor(minors, m0), OfMajor(minors, m1));
  }

  /** The bucket kind `cleanVersions` ends up using: majors with three majors or more, else minors. */
  function UsedKind(sorted: seq<Version>): Kind {
    if |Heads(ByMajor, sorted)| >= 3 then ByMajor else ByMinor
  }

  /** On a sorted list, the chosen versions are strictly descending, start with the newest, and head their buckets. */
  lemma VersionsToUseProps(sorted: seq<Version>)
    requires NonIncreasing(sorted) && |sorted| > 0
    ensures |VersionsToUse(sorted)| > 0 && VersionsToUse(sorted)[0] == sorted[0]
    ensures StrictlyDescending(VersionsToUse(sorted))
    ensures forall h :: h in VersionsToUse(sorted) ==> h in Heads(UsedKind(sorted), sorted)
  {
    var majors := Heads(ByMajor, sorted);
    HeadsOfSorted(ByMajor, sorted);
    HeadsOfSorted(ByMinor, sorted);
    if |majors| == 2 {
      TwoMajorsDescending(sorted);
    }
  }

  /** `Reverse` of a prefix of a strictly descending list is strictly ascending. */
  lemma ReversedAscending(s: seq<Version>, n: nat)
    requires StrictlyDescending(s) && n <= |s|
    ensures forall i, j :: 0 <= i < j < n ==> Lt(Reverse(s[..n])[i], Reverse(s[..n])[j])
  {
    forall i, j | 0 <= i < j < n ensures Lt(Reverse(s[..n])[i], Reverse(s[..n])[j]) {
      var a, b := n - 1 - i, n - 1 - j;
      assert Reverse(s[..n])[i] == s[a] && Reverse(s[..n])[j] == s[b];
      CompareAntisymmetric(s[b], s[a]);
    }
  }

  /** The sorted copy holds the same versions, newest first. */
  lemma SortedSameVersions(versions: seq<Version>)
    ensures forall v :: v in versions <==> v in SortDescending(versions)
    ensures NonIncreasing(SortDescending(versions))
  {
    SortDescendingProps(versions);
    var sorted := SortDescending(versions);
    forall v ensures v in versions <==> v in sorted {
      assert v in versions <==> v in multiset(versions);
      assert v in sorted <==> v in multiset(sorted);
    }
  }

  /** The picks, newest last, are the chosen versions of the sorted list. */
  lemma PicksFromUse(versions: seq<Version>)
    requires |versions| > 0
    ensures var use := VersionsToUse(SortDescending(versions));
      var n := |Picks(versions)|;
      n == (if |use| < 4 then |use| else 4) &&
      forall i :: 0 <= i < n ==> Picks(versions)[i] == use[n - 1 - i]
  {
  }

  /** The picks: none for no versions, at most four otherwise, each one of the versions. */
  lemma PicksBounded(versions: seq<Version>)
    ensures |Picks(versions)| == 0 <==> |versions| == 0
    ensures |Picks(versions)| <= 4
    ensures forall p :: p in Picks(versions) ==> p in versions
  {
    if |versions| > 0 {
      var sorted := SortDescending(versions);
      SortedSameVersions(versions);
      assert versions[0] in sorted;
      VersionsToUseProps(sorted);
      HeadsProps(UsedKind(sorted), sorted);
      PicksFromUse(versions);
      var picks := Picks(versions);
      forall p | p in picks ensures p in versions {
        var i :| 0 <= i < |picks| && picks[i] == p;
      }
    }
  }

  /** The picks are strictly ascending, and the last one is the newest of all versions. */
  lemma PicksAscending(versions: seq<Version>)
    ensures forall i, j :: 0 <= i < j < |Picks(versions)| ==> Lt(Picks(versions)[i], Picks(versions)[j])
    ensures |Picks(versions)| > 0 ==> forall v :: v in versions ==> Le(v, Picks(versions)[|Picks(versions)| - 1])
  {
    if |versions| > 0 {
      var sorted := SortDescending(versions);
      SortedSameVersions(versions);
      assert versions[0] in sorted;
      VersionsToUseProps(sorted);
      var use := VersionsToUse(sorted);
      var n := if |use| < 4 then |use| else 4;
      assert Picks(versions) == Reverse(use[..n]);
      ReversedAscending(use, n);
      forall v | v in versions ensures Le(v, sorted[0]) {
        var j :| 0 <= j < |sorted| && sorted[j] == v;
        if j > 0 {
          assert Ge(sorted[0], sorted[j]);
        }
        CompareAntisymmetric(v, sorted[0]);
      }
    }
  }

  /**
   * Each pick is the newest version of its bucket: of its major when the
   * versions span three majors or more, else of its minor.
   */
  lemma PicksNewestOfBucket(versions: seq<Version>)
    ensures var kind := UsedKind(SortDescending(versions));
      forall p, v :: p in Picks(versions) && v in versions && KeyOf(kind, v) == KeyOf(kind, p) ==> Le(v, p)
  {
    if |versions| > 0 {
      var sorted := SortDescending(versions);
      SortedSameVersions(versions);
      assert versions[0] in sorted;
      VersionsToUseProps(sorted);
      HeadsOfSorted(UsedKind(sorted), sorted);
      PicksFromUse(versions);
      var picks := Picks(versions);
      forall p | p in picks ensures p in VersionsToUse(sorted) {
        var i :| 0 <= i < |picks| && picks[i] == p;
      }
    }
  }

  // ---------------------------------------------------------------------------
  // latest and next

  /**
   * The latest/next choice of `fetchLatest`: `next` when both exist and it is
   * not older, otherwise whichever exists.
   */
  function ChooseLatest(latest: Option<Version>, next: Option<Version>): (r: Option<Version>)
    ensures r.None? <==> latest.None? && next.None?
    ensures r == latest || r == next
    ensures latest.Some? && next.Some? ==> (r == next <==> Ge(next.value, latest.value))
    ensures r.Some? && latest.Some? ==> Ge(r.value, latest.value)
    ensures r.Some? && next.Some? ==> Ge(r.value, next.value)
  {
    CompareAntisymmetric(latest.GetOr(VersionZero), next.GetOr(VersionZero));
    CompareAntisymmetric(latest.GetOr(VersionZero), latest.GetOr(VersionZero));
    CompareAntisymmetric(next.GetOr(VersionZero), next.GetOr(VersionZero));
    if latest.Some? && next.Some? then
      if Ge(next.value, latest.value) then next else latest
    else if next.Some? then next
    else latest
  }

  /** The first element of a resolution result, `array[0] ?? null`. */
  function First(s: seq<Version>): (r: Option<Version>)
    ensures r.None? <==> |s| == 0
    ensures r.Some? ==> r.value == s[0]
  {
    if |s| == 0 then None else Some(s[0])
  }

  /** The error the synchronous getters throw for an ident that was not pre-fetched. */
  function PrefetchError(ident: IdentHash): string {
    "Pre-fetch data for " + ident + " before calling synchronous API"
  }

  /** What `getPossibleVersions` returns for the given caches. */
  function PossibleVersions(lib: Lib, latestCache: map<IdentHash, Option<Version>>, versionCache: map<IdentHash, seq<Version>>,
                            descriptor: Descriptor, requirement: Option<Range>): (r: Result<seq<string>>)
    ensures r.Failure? <==> descriptor.ident !in latestCache || descriptor.ident !in versionCache
  {
    if descriptor.ident !in latestCache then Failure(PrefetchError(descriptor.ident))
    else if descriptor.ident !in versionCache then Failure(PrefetchError(descriptor.ident))
    else
      var latest := latestCache[descriptor.ident];
      var all := versionCache[descriptor.ident];
      var narrowed := ApplyRequirement(requirement, RemoveOlderVersions(lib, descriptor.range, RemoveVersionsAfterLatest(latest, all)));
      Success(CleanedVersions(lib, descriptor.range, narrowed))
  }

  /** The candidates handed to the bucketing are drawn from the cached versions and satisfy the requirement. */
  lemma PossibleVersionsDrawnFromCache(lib: Lib, latestCache: map<IdentHash, Option<Version>>, versionCache: map<IdentHash, seq<Version>>,
                                       descriptor: Descriptor, requirement: Option<Range>)
    requires descriptor.ident in latestCache && descriptor.ident in versionCache
    ensures var all := versionCache[descriptor.ident];
      var narrowed := ApplyRequirement(requirement, RemoveOlderVersions(lib, descriptor.range, RemoveVersionsAfterLatest(latestCache[descriptor.ident], all)));
      (forall v :: v in narrowed ==> v in all) &&
      (requirement.Some? ==> forall v :: v in narrowed ==> Satisfies(requirement.value, v)) &&
      (forall p :: p in Picks(narrowed) ==> p in all)
  {
    var all := versionCache[descriptor.ident];
    var a := RemoveVersionsAfterLatest(latestCache[descriptor.ident], all);
    var b := RemoveOlderVersions(lib, descriptor.range, a);
    var narrowed := ApplyRequirement(requirement, b);
    forall v | v in narrowed ensures v in all {
      assert v in multiset(narrowed);
      assert v in multiset(b);
      assert v in multiset(a);
    }
    PicksBounded(narrowed);
  }

  /**
   * The resolver: the latest version and the full version list of every
   * ident, filled by the asynchronous fetches and read by the synchronous
   * getters.
   */
  class UpdateResolver {
    /** Whether the `next` dist-tag is consulted. */
    const next: bool
    var latestCache: map<IdentHash, Option<Version>>
    var versionCache: map<IdentHash, seq<Version>>

    constructor(next: bool)
      ensures this.next == next
      ensures latestCache == map[] && versionCache == map[]
    {
      this.next := next;
      latestCache := map[];
      versionCache := map[];
    }

    /**
     * The part of `fetchLatest` after resolution: the first fetch of an ident
     * records its latest version; `next` only counts when enabled.
     */
    method RecordLatest(ident: IdentHash, latestArray: seq<Version>, nextArray: seq<Version>)
      modifies this
      ensures versionCache == old(versionCache)
      ensures ident in old(latestCache) ==> latestCache == old(latestCache)
      ensures ident !in old(latestCache) ==>
        latestCache == old(latestCache)[ident := ChooseLatest(First(latestArray), if next then First(nextArray) else None)]
    {
      if ident in latestCache {
        return;
      }
      var nextVersion := if next then First(nextArray) else None;
      var latest := First(latestArray);
      latestCache := latestCache[ident := ChooseLatest(latest, nextVersion)];
    }

    /** `fetchAllVersions` after resolution: the first fetch of an ident records its versions. */
    method RecordAllVersions(ident: IdentHash, versions: seq<Version>)
      modifies this
      ensures latestCache == old(latestCache)
      ensures ident in old(versionCache) ==> versionCache == old(versionCache)
      ensures ident !in old(versionCache) ==> versionCache == old(versionCache)[ident := versions]
    {
      if ident in versionCache {
        return;
      }
      versionCache := versionCache[ident := versions];
    }

    /** `getLatest`: throws for an ident that was not pre-fetched. */
    function GetLatest(ident: IdentHash): (r: Result<Option<Version>>)
      reads this
      ensures r.Failure? <==> ident !in latestCache
      ensures r.Success? ==> r.value == latestCache[ident]
    {
      if ident in latestCache then Success(latestCache[ident]) else Failure(PrefetchError(ident))
    }

    /** `getAllVersions`: throws for an ident that was not pre-fetched. */
    function GetAllVersions(ident: IdentHash): (r: Result<seq<Version>>)
      reads this
      ensures r.Failure? <==> ident !in versionCache
      ensures r.Success? ==> r.value == versionCache[ident]
    {
      if ident in versionCache then Success(versionCache[ident]) else Failure(PrefetchError(ident))
    }

    /** `getPossibleVersions`: the filters after-latest, older, requirement, then the bucketing. */
    method GetPossibleVersions(lib: Lib, descriptor: Descriptor, requirement: Option<Range>) returns (r: Result<seq<string>>)
      ensures r == PossibleVersions(lib, latestCache, versionCache, descriptor, requirement)
    {
      var latest := GetLatest(descriptor.ident);
      if latest.Failure? {
        return Failure(latest.error);
      }
      var all := GetAllVersions(descriptor.ident);
      if all.Failure? {
        return Failure(all.error);
      }
      var narrowed := ApplyRequirement(requirement, RemoveOlderVersions(lib, descriptor.range, RemoveVersionsAfterLatest(latest.value, all.value)));
      var cleaned := CleanVersions(lib, descriptor.range, narrowed);
      return Success(cleaned);
    }
  }
}
