/**
 * Versions, comparators and ranges as node-semver represents them, with the
 * precedence of section 11 of Semantic Versioning 2.0.0.  The parser itself is
 * not modelled: parsed values are the datatypes below.
 */
module Semver {
  import opened Seqs

  /** A prerelease identifier; numeric identifiers compare as numbers. */
  datatype Identifier = Num(n: nat) | Alnum(s: string)

  /** A version without build metadata. */
  datatype Version = Version(major: nat, minor: nat, patch: nat, prerelease: seq<Identifier>)

  function Sign(a: int, b: int): (c: int)
    ensures c == 0 <==> a == b
    ensures c < 0 <==> a < b
    ensures -1 <= c <= 1
  {
    if a < b then -1 else if a > b then 1 else 0
  }

  /** JavaScript's `<` on strings: character by character, a proper prefix first. */
  function CompareText(a: string, b: string): (c: int)
    ensures -1 <= c <= 1
    decreases |a|
  {
    if |a| == 0 && |b| == 0 then 0
    else if |a| == 0 then -1
    else if |b| == 0 then 1
    else if a[0] != b[0] then Sign(a[0] as int, b[0] as int)
    else CompareText(a[1..], b[1..])
  }

  /** Section 11.4.1-11.4.3: numeric identifiers sort before alphanumeric ones. */
  function CompareIdentifier(a: Identifier, b: Identifier): (c: int)
    ensures -1 <= c <= 1
  {
    match (a, b)
    case (Num(x), Num(y)) => Sign(x, y)
    case (Num(_), Alnum(_)) => -1
    case (Alnum(_), Num(_)) => 1
    case (Alnum(x), Alnum(y)) => CompareText(x, y)
  }

  /** Section 11.4.4: identifier lists compare left to right, a proper prefix first. */
  function CompareIdentifiers(a: seq<Identifier>, b: seq<Identifier>): (c: int)
    ensures -1 <= c <= 1
    decreases |a|
  {
    if |a| == 0 && |b| == 0 then 0
    else if |a| == 0 then -1
    else if |b| == 0 then 1
    else if a[0] != b[0] then CompareIdentifier(a[0], b[0])
    else CompareIdentifiers(a[1..], b[1..])
  }

  /** Section 11.3: a version with a prerelease sorts before the same version without. */
  function ComparePrerelease(a: seq<Identifier>, b: seq<Identifier>): (c: int)
    ensures -1 <= c <= 1
  {
    if |a| > 0 && |b| == 0 then -1
    else if |a| == 0 && |b| > 0 then 1
    else CompareIdentifiers(a, b)
  }

  /** `SemVer#compare` (and `compareBuild`, build metadata being left out). */
  function Compare(a: Version, b: Version): (c: int)
    ensures -1 <= c <= 1
  {
    if a.major != b.major then Sign(a.major, b.major)
    else if a.minor != b.minor then Sign(a.minor, b.minor)
    else if a.patch != b.patch then Sign(a.patch, b.patch)
    else ComparePrerelease(a.prerelease, b.prerelease)
  }

  predicate Lt(a: Version, b: Version) { Compare(a, b) < 0 }
  predicate Le(a: Version, b: Version) { Compare(a, b) <= 0 }
  predicate Gt(a: Version, b: Version) { Compare(a, b) > 0 }
  predicate Ge(a: Version, b: Version) { Compare(a, b) >= 0 }

  // ---------------------------------------------------------------------------
  // Compare is a total order

  lemma {:induction false} TextAntisymmetric(a: string, b: string)
    ensures CompareText(a, b) == -CompareText(b, a)
    ensures CompareText(a, b) == 0 <==> a == b
    decreases |a|
  {
    if |a| > 0 && |b| > 0 && a[0] == b[0] {
      TextAntisymmetric(a[1..], b[1..]);
      assert a == [a[0]] + a[1..] && b == [b[0]] + b[1..];
    }
  }

  lemma {:induction false} TextTransitive(a: string, b: string, c: string)
    requires CompareText(a, b) <= 0 && CompareText(b, c) <= 0
    ensures CompareText(a, c) <= 0
    decreases |a|
  {
    if |a| > 0 && |b| > 0 && |c| > 0 && a[0] == b[0] && b[0] == c[0] {
      TextTransitive(a[1..], b[1..], c[1..]);
    }
  }

  lemma IdentifierAntisymmetric(a: Identifier, b: Identifier)
    ensures CompareIdentifier(a, b) == -CompareIdentifier(b, a)
    ensures CompareIdentifier(a, b) == 0 <==> a == b
  {
    if a.Alnum? && b.Alnum? {
      TextAntisymmetric(a.s, b.s);
    }
  }

  lemma IdentifierTransitive(a: Identifier, b: Identifier, c: Identifier)
    requires CompareIdentifier(a, b) <= 0 && CompareIdentifier(b, c) <= 0
    ensures CompareIdentifier(a, c) <= 0
  {
    if a.Alnum? && b.Alnum? && c.Alnum? {
      TextTransitive(a.s, b.s, c.s);
    }
  }

  lemma {:induction false} IdentifiersAntisymmetric(a: seq<Identifier>, b: seq<Identifier>)
    ensures CompareIdentifiers(a, b) == -CompareIdentifiers(b, a)
    ensures CompareIdentifiers(a, b) == 0 <==> a == b
    decreases |a|
  {
    if |a| > 0 && |b| > 0 {
      IdentifierAntisymmetric(a[0], b[0]);
      if a[0] == b[0] {
        IdentifiersAntisymmetric(a[1..], b[1..]);
        assert a == [a[0]] + a[1..] && b == [b[0]] + b[1..];
      }
    }
  }

  lemma {:induction false} IdentifiersTransitive(a: seq<Identifier>, b: seq<Identifier>, c: seq<Identifier>)
    requires CompareIdentifiers(a, b) <= 0 && CompareIdentifiers(b, c) <= 0
    ensures CompareIdentifiers(a, c) <= 0
    decreases |a|
  {
    if |a| > 0 && |b| > 0 && |c| > 0 {
      IdentifierAntisymmetric(a[0], b[0]);
      IdentifierAntisymmetric(b[0], c[0]);
      IdentifierAntisymmetric(a[0], c[0]);
      if a[0] == b[0] && b[0] == c[0] {
        IdentifiersTransitive(a[1..], b[1..], c[1..]);
      } else if a[0] == b[0] {
      } else if b[0] == c[0] {
      } else {
        IdentifierTransitive(a[0], b[0], c[0]);
      }
    }
  }

  /** Compare(a, b) and Compare(b, a) have opposite signs, and vanish only on equal versions. */
  lemma CompareAntisymmetric(a: Version, b: Version)
    ensures Compare(a, b) == -Compare(b, a)
    ensures Compare(a, b) == 0 <==> a == b
  {
    IdentifiersAntisymmetric(a.prerelease, b.prerelease);
  }

  /** Precedence is transitive. */
  lemma CompareTransitive(a: Version, b: Version, c: Version)
    requires Compare(a, b) <= 0 && Compare(b, c) <= 0
    ensures Compare(a, c) <= 0
  {
    if a.major == b.major == c.major && a.minor == b.minor == c.minor && a.patch == b.patch == c.patch {
      var p, q, r := a.prerelease, b.prerelease, c.prerelease;
      if |p| > 0 && |q| > 0 && |r| > 0 {
        IdentifiersTransitive(p, q, r);
      }
    }
  }

  /** A strict step followed by a non-strict one is strict. */
  lemma CompareStrictTransitive(a: Version, b: Version, c: Version)
    requires (Compare(a, b) < 0 && Compare(b, c) <= 0) || (Compare(a, b) <= 0 && Compare(b, c) < 0)
    ensures Compare(a, c) < 0
  {
    CompareTransitive(a, b, c);
    CompareAntisymmetric(a, c);
    CompareAntisymmetric(a, b);
    CompareAntisymmetric(b, c);
  }

  // ---------------------------------------------------------------------------
  // Comparators and ranges

  /** Comparator operators; the parser normalises `=` to the bare operator. */
  datatype Op = LtOp | LeOp | GtOp | GeOp | EqOp | BareOp

  /** The version a comparator tests against; `Any` is node-semver's ANY (`*`). */
  datatype Target = Any | At(version: Version)

  datatype Comparator = Comparator(op: Op, semver: Target)

  /** An AND-clause of comparators; node-semver never produces an empty one. */
  type Clause = c: seq<Comparator> | |c| > 0 witness [Comparator(BareOp, Any)]

  /** The OR of clauses of a range; never empty. */
  type ClauseSet = s: seq<Clause> | |s| > 0 witness [[Comparator(BareOp, Any)]]

  /** A parsed range together with the text it was parsed from. */
  datatype Range = Range(clauses: ClauseSet, raw: string)

  /** `Comparator#test` against a version. */
  predicate Test(c: Comparator, v: Version) {
    match c.semver
    case Any => true
    case At(w) =>
      match c.op
      case LtOp => Lt(v, w)
      case LeOp => Le(v, w)
      case GtOp => Gt(v, w)
      case GeOp => Ge(v, w)
      case EqOp => Compare(v, w) == 0
      case BareOp => Compare(v, w) == 0
  }

  /** `Comparator#test` against a target, where ANY passes every comparator. */
  predicate TestTarget(c: Comparator, t: Target) {
    match t
    case Any => true
    case At(v) => Test(c, v)
  }

  /** A comparator of the clause names a prerelease of the version's major.minor.patch. */
  predicate AllowsPrerelease(clause: Clause, v: Version) {
    exists i :: 0 <= i < |clause| && clause[i].semver.At? && AllowsPrereleaseOf(clause[i].semver.version, v)
  }

  predicate AllowsPrereleaseOf(w: Version, v: Version) {
    |w.prerelease| > 0 && w.major == v.major && w.minor == v.minor && w.patch == v.patch
  }

  /** node-semver's `testSet`: every comparator passes, and a prerelease must be allowed. */
  predicate TestClause(clause: Clause, v: Version) {
    (forall i :: 0 <= i < |clause| ==> Test(clause[i], v)) &&
    (|v.prerelease| == 0 || AllowsPrerelease(clause, v))
  }

  /** `Range#test` / `satisfies`: some clause accepts the version. */
  predicate Satisfies(r: Range, v: Version) {
    exists i :: 0 <= i < |r.clauses| && TestClause(r.clauses[i], v)
  }

  // ---------------------------------------------------------------------------
  // Formatting

  function DigitChar(d: nat): (c: char)
    requires d < 10
    ensures '0' <= c <= '9'
  {
    ('0' as int + d) as char
  }

  function NatToString(n: nat): (s: string)
    ensures |s| > 0
    ensures forall i :: 0 <= i < |s| ==> '0' <= s[i] <= '9'
    decreases n
  {
    if n < 10 then [DigitChar(n)] else NatToString(n / 10) + [DigitChar(n % 10)]
  }

  function IdentifierText(id: Identifier): string {
    match id
    case Num(n) => NatToString(n)
    case Alnum(s) => s
  }

  /** `SemVer#format`: `major.minor.patch[-prerelease]`. */
  function FormatVersion(v: Version): string {
    NatToString(v.major) + "." + NatToString(v.minor) + "." + NatToString(v.patch) +
    (if |v.prerelease| == 0 then ""
     else "-" + Join(seq(|v.prerelease|, i requires 0 <= i < |v.prerelease| => IdentifierText(v.prerelease[i])), "."))
  }

  function OpText(op: Op): string {
    match op
    case LtOp => "<"
    case LeOp => "<="
    case GtOp => ">"
    case GeOp => ">="
    case EqOp => "="
    case BareOp => ""
  }

  /** `Comparator#value`: operator and version, empty for ANY. */
  function ComparatorValue(c: Comparator): string {
    match c.semver
    case Any => ""
    case At(v) => OpText(c.op) + FormatVersion(v)
  }

  /** Removes leading and trailing spaces (the only whitespace a formatted clause holds). */
  function TrimSpaces(s: string): (r: string)
    ensures |r| <= |s|
    ensures |r| > 0 ==> r[0] != ' ' && r[|r| - 1] != ' '
  {
    if |s| > 0 && s[0] == ' ' then TrimSpaces(s[1..])
    else if |s| > 0 && s[|s| - 1] == ' ' then TrimSpaces(s[..|s| - 1])
    else s
  }

  function ClauseText(clause: seq<Comparator>): string {
    Join(seq(|clause|, i requires 0 <= i < |clause| => ComparatorValue(clause[i])), " ")
  }

  /** `Range#format`: clauses joined with `||`. */
  function FormatRange(r: Range): string {
    TrimSpaces(Join(seq(|r.clauses|, i requires 0 <= i < |r.clauses| => TrimSpaces(ClauseText(r.clauses[i]))), "||"))
  }
}
