/**
 * Version precedence as `semver.gt` and `semver.gte` decide it (Semantic
 * Versioning 2.0.0, section 11), and the two helpers of the version service
 * that fall back to JavaScript string comparison when a version does not parse.
 * Parsing a version string is a parameter: `parse(v)` is None exactly when the
 * `semver` constructor throws for v.
 */
module Semver {
  import opened Wrappers
  import Js

  /** A pre-release identifier: all digits, or containing a non-digit. */
  datatype Identifier = Numeric(n: nat) | Alphanumeric(s: string)

  /** A parsed version; build metadata plays no part in precedence and is not kept. */
  datatype SemVer = SemVer(major: nat, minor: nat, patch: nat, prerelease: seq<Identifier>)

  type Parser = string -> Option<SemVer>

  function CompareNat(a: nat, b: nat): (r: int)
    ensures r == 0 <==> a == b
    ensures r > 0 <==> a > b
    ensures r == -1 || r == 0 || r == 1
  {
    if a < b then -1 else if a > b then 1 else 0
  }

  /** Section 11.4.1 to 11.4.3: numerically, numeric below alphanumeric, or in ASCII order. */
  function CompareIdentifier(a: Identifier, b: Identifier): (r: int)
    ensures r == -1 || r == 0 || r == 1
  {
    match (a, b)
    case (Numeric(x), Numeric(y)) => CompareNat(x, y)
    case (Numeric(_), Alphanumeric(_)) => -1
    case (Alphanumeric(_), Numeric(_)) => 1
    case (Alphanumeric(x), Alphanumeric(y)) =>
      if Js.StrLess(x, y) then -1 else if Js.StrLess(y, x) then 1 else 0
  }

  /** Section 11.4: identifier by identifier, a shorter list that is a prefix of a longer one first. */
  function CompareIdentifiers(a: seq<Identifier>, b: seq<Identifier>): (r: int)
    ensures r == -1 || r == 0 || r == 1
  {
    if a == [] && b == [] then 0
    else if a == [] then -1
    else if b == [] then 1
    else if CompareIdentifier(a[0], b[0]) != 0 then CompareIdentifier(a[0], b[0])
    else CompareIdentifiers(a[1..], b[1..])
  }

  /** Section 11.3: a pre-release version has lower precedence than the release. */
  function ComparePrerelease(a: seq<Identifier>, b: seq<Identifier>): (r: int)
    ensures r == -1 || r == 0 || r == 1
    ensures a == [] && b != [] ==> r == 1
    ensures a != [] && b == [] ==> r == -1
  {
    if a == [] && b == [] then 0
    else if a == [] then 1
    else if b == [] then -1
    else CompareIdentifiers(a, b)
  }

  /** Section 11.2 and 11.3: major, minor and patch numerically, then the pre-release. */
  function Compare(a: SemVer, b: SemVer): (r: int)
    ensures r == -1 || r == 0 || r == 1
    ensures a.major != b.major ==> r == CompareNat(a.major, b.major)
  {
    if a.major != b.major then CompareNat(a.major, b.major)
    else if a.minor != b.minor then CompareNat(a.minor, b.minor)
    else if a.patch != b.patch then CompareNat(a.patch, b.patch)
    else ComparePrerelease(a.prerelease, b.prerelease)
  }

  // ---------------------------------------------------------------------------
  // Precedence is a total order
  // ---------------------------------------------------------------------------

  lemma IdentifierLaws(a: Identifier, b: Identifier)
    ensures CompareIdentifier(a, b) == -CompareIdentifier(b, a)
    ensures CompareIdentifier(a, b) == 0 <==> a == b
  {
    if a.Alphanumeric? && b.Alphanumeric? {
      Js.StrLessTrichotomy(a.s, b.s);
      Js.StrLessIrreflexive(a.s);
    }
  }

  lemma IdentifierTransitive(a: Identifier, b: Identifier, c: Identifier)
    requires CompareIdentifier(a, b) < 0 && CompareIdentifier(b, c) < 0
    ensures CompareIdentifier(a, c) < 0
  {
    if a.Alphanumeric? && b.Alphanumeric? && c.Alphanumeric? {
      Js.StrLessTrichotomy(a.s, b.s);
      Js.StrLessTrichotomy(b.s, c.s);
      Js.StrLessTrichotomy(a.s, c.s);
      Js.StrLessTransitive(a.s, b.s, c.s);
    }
  }

  lemma {:induction false} IdentifiersLaws(a: seq<Identifier>, b: seq<Identifier>)
    ensures CompareIdentifiers(a, b) == -CompareIdentifiers(b, a)
    ensures CompareIdentifiers(a, b) == 0 <==> a == b
  {
    if a != [] && b != [] {
      IdentifierLaws(a[0], b[0]);
      if CompareIdentifier(a[0], b[0]) == 0 {
        IdentifiersLaws(a[1..], b[1..]);
        if a[1..] == b[1..] {
          assert a == [a[0]] + a[1..] && b == [b[0]] + b[1..];
        }
      }
    }
  }

  lemma {:induction false} IdentifiersTransitive(a: seq<Identifier>, b: seq<Identifier>, c: seq<Identifier>)
    requires CompareIdentifiers(a, b) < 0 && CompareIdentifiers(b, c) < 0
    ensures CompareIdentifiers(a, c) < 0
  {
    if a != [] && c != [] {
      IdentifierLaws(a[0], b[0]);
      IdentifierLaws(b[0], c[0]);
      IdentifierLaws(a[0], c[0]);
      if CompareIdentifier(a[0], b[0]) == 0 && CompareIdentifier(b[0], c[0]) == 0 {
        IdentifiersTransitive(a[1..], b[1..], c[1..]);
      } else if CompareIdentifier(a[0], b[0]) < 0 && CompareIdentifier(b[0], c[0]) < 0 {
        IdentifierTransitive(a[0], b[0], c[0]);
      }
    }
  }

  /** Swapping the arguments negates the comparison, and only equal versions compare equal. */
  lemma CompareLaws(a: SemVer, b: SemVer)
    ensures Compare(a, b) == -Compare(b, a)
    ensures Compare(a, b) == 0 <==> a == b
  {
    IdentifiersLaws(a.prerelease, b.prerelease);
  }

  lemma CompareTransitive(a: SemVer, b: SemVer, c: SemVer)
    requires Compare(a, b) > 0 && Compare(b, c) > 0
    ensures Compare(a, c) > 0
  {
    CompareLaws(a, b);
    CompareLaws(b, c);
    CompareLaws(a, c);
    if a.major == b.major == c.major && a.minor == b.minor == c.minor && a.patch == b.patch == c.patch
       && a.prerelease != [] && b.prerelease != [] && c.prerelease != [] {
      IdentifiersLaws(a.prerelease, b.prerelease);
      IdentifiersLaws(b.prerelease, c.prerelease);
      IdentifiersTransitive(c.prerelease, b.prerelease, a.prerelease);
      IdentifiersLaws(a.prerelease, c.prerelease);
    }
  }

  // ---------------------------------------------------------------------------
  // isNewerVersion and isVersionCompatible
  // ---------------------------------------------------------------------------

  /** A nullable string column read as a JavaScript condition: null and "" are falsy. */
  predicate Falsy(v: Option<string>) {
    v.None? || v.value == ""
  }

  /** `isNewerVersion(v1, v2)`: true for a missing v2, `semver.gt` when both parse, `v1 > v2` otherwise. */
  function IsNewerVersion(parse: Parser, v1: string, v2: Option<string>): (r: bool)
    ensures Falsy(v2) ==> r
    ensures !Falsy(v2) && parse(v1).Some? && parse(v2.value).Some? ==>
              (r <==> Compare(parse(v1).value, parse(v2.value).value) > 0)
    ensures !Falsy(v2) && (parse(v1).None? || parse(v2.value).None?) ==> (r <==> Js.StrLess(v2.value, v1))
  {
    if Falsy(v2) then true
    else if parse(v1).Some? && parse(v2.value).Some? then Compare(parse(v1).value, parse(v2.value).value) > 0
    else Js.StrLess(v2.value, v1)
  }

  /**
   * `isVersionCompatible(current, parent)`: `semver.gte` when both parse,
   * `current >= parent` otherwise. A null parent is never compatible.
   */
  function IsVersionCompatible(parse: Parser, current: string, parent: Option<string>): (r: bool)
    ensures parent.None? ==> !r
    ensures parent.Some? && parse(current).Some? && parse(parent.value).Some? ==>
              (r <==> Compare(parse(current).value, parse(parent.value).value) >= 0)
    ensures parent.Some? && (parse(current).None? || parse(parent.value).None?) ==>
              (r <==> !Js.StrLess(current, parent.value))
  {
    if parent.None? then false
    else if parse(current).Some? && parse(parent.value).Some? then
      Compare(parse(current).value, parse(parent.value).value) >= 0
    else !Js.StrLess(current, parent.value)
  }

  /** A version is never newer than itself, and is always compatible with itself. */
  lemma NewerIrreflexive(parse: Parser, v: string)
    requires v != ""
    ensures !IsNewerVersion(parse, v, Some(v))
    ensures IsVersionCompatible(parse, v, Some(v))
  {
    Js.StrLessIrreflexive(v);
    if parse(v).Some? {
      CompareLaws(parse(v).value, parse(v).value);
    }
  }

  /** Of two non-empty versions, at most one is newer than the other. */
  lemma NewerAsymmetric(parse: Parser, v1: string, v2: string)
    requires v1 != "" && v2 != ""
    ensures !(IsNewerVersion(parse, v1, Some(v2)) && IsNewerVersion(parse, v2, Some(v1)))
  {
    Js.StrLessTrichotomy(v1, v2);
    if parse(v1).Some? && parse(v2).Some? {
      CompareLaws(parse(v1).value, parse(v2).value);
    }
  }

  /** A version newer than the parent is compatible with it. */
  lemma NewerIsCompatible(parse: Parser, current: string, parent: string)
    requires parent != ""
    requires IsNewerVersion(parse, current, Some(parent))
    ensures IsVersionCompatible(parse, current, Some(parent))
  {
    Js.StrLessTrichotomy(current, parent);
  }
}
