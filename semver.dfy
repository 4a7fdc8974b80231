/** Version strings and their ordering, as `semver.compare` applies them:
    the grammar and precedence rules of Semantic Versioning 2.0.0 (section 2
    to 10 for the form, section 11 for precedence). Build metadata is parsed
    but ignored by the ordering, so the ordering is a total preorder on
    version strings, not an order: "1.0.0+a" and "1.0.0+b" tie. */
module SemVer {
  import opened Util

  datatype Identifier = Numeric(n: nat) | Alphanumeric(s: string)

  datatype Version = Version(major: nat, minor: nat, patch: nat,
                             prerelease: seq<Identifier>, build: seq<string>)

  // ---------------------------------------------------------------- parsing

  predicate IsDigit(c: char) { '0' <= c <= '9' }

  predicate IsIdentChar(c: char) {
    IsDigit(c) || 'a' <= c <= 'z' || 'A' <= c <= 'Z' || c == '-'
  }

  predicate AllDigits(s: string) { forall i | 0 <= i < |s| :: IsDigit(s[i]) }

  predicate AllIdentChars(s: string) { forall i | 0 <= i < |s| :: IsIdentChar(s[i]) }

  /** A numeric identifier: digits, no leading zero unless it is "0". */
  predicate IsNumericIdent(s: string) {
    |s| > 0 && AllDigits(s) && (|s| == 1 || s[0] != '0')
  }

  function DigitsValue(s: string): nat
    requires AllDigits(s)
  {
    if |s| == 0 then 0
    else DigitsValue(s[..|s| - 1]) * 10 + (s[|s| - 1] as int - '0' as int)
  }

  function IndexOf(s: string, c: char): (o: Option<nat>)
    ensures o.None? ==> c !in s
    ensures o.Some? ==> o.value < |s| && s[o.value] == c && c !in s[..o.value]
  {
    if |s| == 0 then None
    else if s[0] == c then Some(0)
    else match IndexOf(s[1..], c)
      case None => None
      case Some(i) => Some(i + 1)
  }

  /** `s.split(sep)` */
  function Split(s: string, sep: char): (parts: seq<string>)
    ensures |parts| >= 1
    ensures forall p | p in parts :: sep !in p
    decreases |s|
  {
    match IndexOf(s, sep)
    case None => [s]
    case Some(i) => [s[..i]] + Split(s[i + 1..], sep)
  }

  function ParseIdentifier(s: string): Option<Identifier> {
    if IsNumericIdent(s) then Some(Numeric(DigitsValue(s)))
    else if |s| > 0 && AllIdentChars(s) && !AllDigits(s) then Some(Alphanumeric(s))
    else None
  }

  function ParseIdentifiers(parts: seq<string>): (o: Option<seq<Identifier>>)
    ensures o.Some? ==> |o.value| == |parts|
  {
    if |parts| == 0 then Some([])
    else match (ParseIdentifier(parts[0]), ParseIdentifiers(parts[1..]))
      case (Some(x), Some(xs)) => Some([x] + xs)
      case _ => None
  }

  predicate IsBuildIdentifiers(parts: seq<string>) {
    forall i | 0 <= i < |parts| :: |parts[i]| > 0 && AllIdentChars(parts[i])
  }

  /** Parses `MAJOR.MINOR.PATCH[-PRERELEASE][+BUILD]`. */
  function Parse(s: string): Option<Version> {
    var (main, build) := match IndexOf(s, '+')
      case None => (s, None)
      case Some(i) => (s[..i], Some(Split(s[i + 1..], '.')));
    var (core, pre) := match IndexOf(main, '-')
      case None => (main, None)
      case Some(i) => (main[..i], Some(Split(main[i + 1..], '.')));
    var nums := Split(core, '.');
    if |nums| != 3 || !IsNumericIdent(nums[0]) || !IsNumericIdent(nums[1]) || !IsNumericIdent(nums[2]) then None
    else if build.Some? && !IsBuildIdentifiers(build.value) then None
    else
      var ids := if pre.None? then Some([]) else ParseIdentifiers(pre.value);
      if ids.None? then None
      else Some(Version(DigitsValue(nums[0]), DigitsValue(nums[1]), DigitsValue(nums[2]),
                        ids.value, if build.None? then [] else build.value))
  }

  /** The strings `semver.compare` accepts without throwing. */
  predicate Valid(s: string) { Parse(s).Some? }

  // ------------------------------------------------------------- precedence

  function CompareNat(a: nat, b: nat): int {
    if a < b then -1 else if a > b then 1 else 0
  }

  /** Section 11.4.1 to 11.4.3: numeric identifiers compare numerically and
      come before alphanumeric ones, which compare in ASCII order. */
  function CompareIdentifier(a: Identifier, b: Identifier): int {
    match (a, b)
    case (Numeric(x), Numeric(y)) => CompareNat(x, y)
    case (Numeric(_), Alphanumeric(_)) => -1
    case (Alphanumeric(_), Numeric(_)) => 1
    case (Alphanumeric(x), Alphanumeric(y)) =>
      if StrLess(x, y) then -1 else if StrLess(y, x) then 1 else 0
  }

  /** Section 11.4: field by field; a shorter list that is a prefix of the
      other comes first (11.4.4). */
  function CompareIdentifiers(a: seq<Identifier>, b: seq<Identifier>): int {
    if |a| == 0 && |b| == 0 then 0
    else if |a| == 0 then -1
    else if |b| == 0 then 1
    else
      var c := CompareIdentifier(a[0], b[0]);
      if c != 0 then c else CompareIdentifiers(a[1..], b[1..])
  }

  /** Section 11.3: a pre-release version comes before the release. */
  function ComparePrerelease(a: seq<Identifier>, b: seq<Identifier>): int {
    if |a| == 0 && |b| == 0 then 0
    else if |a| == 0 then 1
    else if |b| == 0 then -1
    else CompareIdentifiers(a, b)
  }

  function CompareVersions(a: Version, b: Version): int {
    if a.major != b.major then CompareNat(a.major, b.major)
    else if a.minor != b.minor then CompareNat(a.minor, b.minor)
    else if a.patch != b.patch then CompareNat(a.patch, b.patch)
    else ComparePrerelease(a.prerelease, b.prerelease)
  }

  /** `semver.compare(a, b)`: -1, 0 or 1. */
  function Compare(a: string, b: string): int
    requires Valid(a) && Valid(b)
  {
    CompareVersions(Parse(a).value, Parse(b).value)
  }

  /** Two versions tie exactly when they differ at most in build metadata. */
  predicate SamePrecedence(a: Version, b: Version) {
    a.(build := []) == b.(build := [])
  }

  // ------------------------------------------------------------ properties

  lemma CompareIdentifierProps(a: Identifier, b: Identifier, c: Identifier)
    ensures CompareIdentifier(a, b) in {-1, 0, 1}
    ensures CompareIdentifier(a, b) == -CompareIdentifier(b, a)
    ensures CompareIdentifier(a, b) == 0 <==> a == b
    ensures CompareIdentifier(a, b) <= 0 && CompareIdentifier(b, c) <= 0 ==> CompareIdentifier(a, c) <= 0
  {
    if a.Alphanumeric? && b.Alphanumeric? {
      StrLessIrreflexive(a.s);
      if a.s != b.s { StrLessTotal(a.s, b.s); }
      if c.Alphanumeric? {
        StrLeTotalOrder(a.s, b.s, c.s);
        StrLessIrreflexive(c.s);
        if a.s != c.s { StrLessTotal(a.s, c.s); }
        if b.s != c.s { StrLessTotal(b.s, c.s); }
      }
    }
  }

  lemma {:induction false} CompareIdentifiersProps(a: seq<Identifier>, b: seq<Identifier>, c: seq<Identifier>)
    ensures CompareIdentifiers(a, b) in {-1, 0, 1}
    ensures CompareIdentifiers(a, b) == -CompareIdentifiers(b, a)
    ensures CompareIdentifiers(a, b) == 0 <==> a == b
    ensures CompareIdentifiers(a, b) <= 0 && CompareIdentifiers(b, c) <= 0 ==> CompareIdentifiers(a, c) <= 0
    decreases |a|
  {
    if |a| > 0 && |b| > 0 {
      CompareIdentifierProps(a[0], b[0], if |c| > 0 then c[0] else a[0]);
      if |c| > 0 {
        CompareIdentifierProps(a[0], c[0], b[0]);
        CompareIdentifierProps(b[0], c[0], a[0]);
        CompareIdentifiersProps(a[1..], b[1..], c[1..]);
      } else {
        CompareIdentifiersProps(a[1..], b[1..], a[1..]);
      }
      assert a == [a[0]] + a[1..] && b == [b[0]] + b[1..];
    }
  }

  /** `semver.compare` is a total preorder whose ties are exactly the
      versions that differ only in build metadata. */
  lemma CompareVersionsProps(a: Version, b: Version, c: Version)
    ensures CompareVersions(a, b) in {-1, 0, 1}
    ensures CompareVersions(a, b) == -CompareVersions(b, a)
    ensures CompareVersions(a, b) == 0 <==> SamePrecedence(a, b)
    ensures CompareVersions(a, b) <= 0 && CompareVersions(b, c) <= 0 ==> CompareVersions(a, c) <= 0
  {
    CompareIdentifiersProps(a.prerelease, b.prerelease, c.prerelease);
    CompareIdentifiersProps(b.prerelease, c.prerelease, a.prerelease);
    CompareIdentifiersProps(a.prerelease, c.prerelease, b.prerelease);
  }

  /** The same facts for `semver.compare` on valid version strings. */
  lemma CompareProps(a: string, b: string, c: string)
    requires Valid(a) && Valid(b) && Valid(c)
    ensures Compare(a, b) in {-1, 0, 1}
    ensures Compare(a, b) == -Compare(b, a)
    ensures Compare(a, b) <= 0 && Compare(b, c) <= 0 ==> Compare(a, c) <= 0
  {
    CompareVersionsProps(Parse(a).value, Parse(b).value, Parse(c).value);
  }
}
