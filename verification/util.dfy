/** `comparable_version` from src/mcserver/util.py: a dotted `major.minor[.patch]`
    version string becomes a 12-character key `MMMMmmmmpppp` so that string
    comparison of keys stands in for numeric comparison of versions. */
module Util {
  import opened Results
  import opened Strings
  import opened Numerals

  datatype Version = Version(major: nat, minor: nat, patch: nat)

  /** How the Python code fails: `int()` raising ValueError on a component that is
      not an integer, or `components[1]` raising IndexError when there is no minor
      component. */
  datatype VersionError = NotAnInteger(text: string) | MissingMinor

  /** Python's `int(text)`, restricted to plain digit strings. */
  function ParseInt(text: string): (r: Result<nat, VersionError>)
    ensures r.Success? <==> IsNumeral(text)
    ensures r.Failure? ==> r.error == NotAnInteger(text)
  {
    if IsNumeral(text) then Success(Value(text)) else Failure(NotAnInteger(text))
  }

  /** The version strings `comparable_version` accepts: at least two dot-separated
      components, the first two numeric, and the third numeric when present. Any
      further components are never looked at. */
  predicate WellFormed(version: string) {
    var c := Split(version, '.');
    && |c| >= 2
    && IsNumeral(c[0])
    && IsNumeral(c[1])
    && (|c| > 2 ==> IsNumeral(c[2]))
  }

  /** The (major, minor, patch) triple read by `comparable_version`, failing the
      way the Python code does and in the same order: `int(components[0])` is
      evaluated before `components[1]` is indexed, then `int(components[1])`, then
      `int(components[2])` when there is a third component (missing means 0). */
  function ParseVersion(version: string): (r: Result<Version, VersionError>)
    ensures r.Success? <==> WellFormed(version)
    ensures var c := Split(version, '.');
      && (!IsNumeral(c[0]) ==> r == Failure(NotAnInteger(c[0])))
      && (IsNumeral(c[0]) && |c| == 1 ==> r == Failure(MissingMinor))
      && (IsNumeral(c[0]) && |c| >= 2 && !IsNumeral(c[1]) ==> r == Failure(NotAnInteger(c[1])))
      && (|c| >= 3 && IsNumeral(c[0]) && IsNumeral(c[1]) && !IsNumeral(c[2]) ==>
            r == Failure(NotAnInteger(c[2])))
      && (r.Success? ==>
            r.value == Version(Value(c[0]), Value(c[1]), if |c| >= 3 then Value(c[2]) else 0))
  {
    ParseComponents(Split(version, '.'))
  }

  function ParseComponents(c: seq<string>): Result<Version, VersionError>
    requires |c| >= 1
  {
    var major :- ParseInt(c[0]);
    if |c| < 2 then Failure(MissingMinor) else
    var minor :- ParseInt(c[1]);
    var patch :- if |c| > 2 then ParseInt(c[2]) else Success(0);
    Success(Version(major, minor, patch))
  }

  /** Every component fits in four decimal digits. */
  predicate Bounded(v: Version) {
    v.major <= 9999 && v.minor <= 9999 && v.patch <= 9999
  }

  /** Tuple order on (major, minor, patch). */
  predicate VersionLess(a: Version, b: Version) {
    || a.major < b.major
    || (a.major == b.major && a.minor < b.minor)
    || (a.major == b.major && a.minor == b.minor && a.patch < b.patch)
  }

  /** Reads a 12-digit key back as three 4-digit fields. */
  function DecodeKey(key: string): Version
    requires |key| == 12 && AllDigits(key)
  {
    Version(Value(key[..4]), Value(key[4..8]), Value(key[8..]))
  }

  /** `f"{major:04d}{minor:04d}{patch:04d}"`. For bounded versions the key is
      exactly twelve digits and decodes back to the version. */
  function Key(v: Version): (key: string)
    ensures IsNumeral(key)
    ensures Bounded(v) ==> |key| == 12 && DecodeKey(key) == v
  {
    var a, b, c := Format(v.major, 4), Format(v.minor, 4), Format(v.patch, 4);
    DigitsConcat(a, b);
    DigitsConcat(a + b, c);
    if Bounded(v) then
      FieldsOfKey(v.major, v.minor, v.patch);
      a + b + c
    else a + b + c
  }

  lemma DigitsConcat(a: string, b: string)
    requires AllDigits(a) && AllDigits(b)
    ensures AllDigits(a + b)
  {
    forall i | 0 <= i < |a + b|
      ensures IsDigit((a + b)[i])
    {
      if i >= |a| { assert (a + b)[i] == b[i - |a|]; }
    }
  }

  /** The three four-digit fields of a bounded key sit at offsets 0, 4 and 8. */
  lemma FieldsOfKey(major: nat, minor: nat, patch: nat)
    requires major <= 9999 && minor <= 9999 && patch <= 9999
    ensures var key := Format(major, 4) + Format(minor, 4) + Format(patch, 4);
      && |key| == 12
      && key[..4] == Format(major, 4)
      && key[4..8] == Format(minor, 4)
      && key[8..] == Format(patch, 4)
  {
    assert Pow10(4) == 10000;
  }

  /** `comparable_version(version)`: the key of the parsed version, or the error
      of the first step that raises, in Python's evaluation order. */
  function ComparableVersion(version: string): (r: Result<string, VersionError>)
    ensures r.Success? <==> WellFormed(version)
    ensures var c := Split(version, '.');
      && (!IsNumeral(c[0]) ==> r == Failure(NotAnInteger(c[0])))
      && (IsNumeral(c[0]) && |c| == 1 ==> r == Failure(MissingMinor))
      && (IsNumeral(c[0]) && |c| >= 2 && !IsNumeral(c[1]) ==> r == Failure(NotAnInteger(c[1])))
      && (|c| >= 3 && IsNumeral(c[0]) && IsNumeral(c[1]) && !IsNumeral(c[2]) ==>
            r == Failure(NotAnInteger(c[2])))
    ensures r.Success? && Bounded(ParseVersion(version).value) ==>
      |r.value| == 12 && IsNumeral(r.value) && DecodeKey(r.value) == ParseVersion(version).value
  {
    var v :- ParseVersion(version);
    Success(Key(v))
  }

  /** Python's order of failures on two small inputs: a bad major is reported
      even when the minor is missing too, and a good major without a minor
      reports the missing minor. */
  lemma ErrorOrder()
    ensures ComparableVersion("x") == Failure(NotAnInteger("x"))
    ensures ComparableVersion("1") == Failure(MissingMinor)
  {
    SplitWithoutSeparator("x", '.');
    SplitWithoutSeparator("1", '.');
    assert !IsDigit('x');
  }

  // ---------------------------------------------------------------------------
  // Properties of the key
  // ---------------------------------------------------------------------------

  /** One zero-padded field compares like the number it holds. */
  lemma FieldOrder(m: nat, n: nat)
    requires m <= 9999 && n <= 9999
    ensures |Format(m, 4)| == 4 && |Format(n, 4)| == 4
    ensures Less(Format(m, 4), Format(n, 4)) <==> m < n
    ensures Format(m, 4) == Format(n, 4) <==> m == n
  {
    assert Pow10(4) == 10000;
    NumeralOrder(Format(m, 4), Format(n, 4));
  }

  /** Order preservation: for bounded versions, the keys compare as strings exactly
      as the versions compare as (major, minor, patch) tuples. */
  lemma KeyOrder(a: Version, b: Version)
    requires Bounded(a) && Bounded(b)
    ensures Less(Key(a), Key(b)) <==> VersionLess(a, b)
  {
    FieldOrder(a.major, b.major);
    FieldOrder(a.minor, b.minor);
    FieldOrder(a.patch, b.patch);
    ThreeFieldOrder(Format(a.major, 4), Format(a.minor, 4), Format(a.patch, 4),
                    Format(b.major, 4), Format(b.minor, 4), Format(b.patch, 4));
  }

  /** Keys made of three equal-width fields compare field by field. */
  lemma ThreeFieldOrder(a1: string, a2: string, a3: string, b1: string, b2: string, b3: string)
    requires |a1| == |b1| && |a2| == |b2|
    ensures Less(a1 + a2 + a3, b1 + b2 + b3) <==>
      || Less(a1, b1)
      || (a1 == b1 && Less(a2, b2))
      || (a1 == b1 && a2 == b2 && Less(a3, b3))
  {
    assert a1 + a2 + a3 == a1 + (a2 + a3);
    assert b1 + b2 + b3 == b1 + (b2 + b3);
    LessSamePrefix(a1, a2 + a3, b1, b2 + b3);
    LessSamePrefix(a2, a3, b2, b3);
  }

  /** Injectivity: for bounded versions, equal keys mean equal versions. */
  lemma KeyInjective(a: Version, b: Version)
    requires Bounded(a) && Bounded(b)
    ensures Key(a) == Key(b) <==> a == b
  {
  }

  /** The key order, stated on the version strings themselves. */
  lemma ComparableVersionOrder(x: string, y: string)
    requires WellFormed(x) && WellFormed(y)
    requires Bounded(ParseVersion(x).value) && Bounded(ParseVersion(y).value)
    ensures Less(ComparableVersion(x).value, ComparableVersion(y).value)
        <==> VersionLess(ParseVersion(x).value, ParseVersion(y).value)
    ensures ComparableVersion(x).value == ComparableVersion(y).value
        <==> ParseVersion(x).value == ParseVersion(y).value
  {
    KeyOrder(ParseVersion(x).value, ParseVersion(y).value);
    KeyInjective(ParseVersion(x).value, ParseVersion(y).value);
  }

  /** `major.minor.patch` printed without padding. */
  function Render(v: Version): string {
    Decimal(v.major) + "." + Decimal(v.minor) + "." + Decimal(v.patch)
  }

  lemma NumeralHasNoDot(s: string)
    requires IsNumeral(s)
    ensures '.' !in s
  {
  }

  /** Parsing a printed version gives the version back. */
  lemma ParseRender(v: Version)
    ensures ParseVersion(Render(v)) == Success(v)
  {
    var m, n, p := Decimal(v.major), Decimal(v.minor), Decimal(v.patch);
    NumeralHasNoDot(m);
    NumeralHasNoDot(n);
    NumeralHasNoDot(p);
    SplitWithoutSeparator(m, '.');
    SplitWithoutSeparator(n, '.');
    SplitWithoutSeparator(p, '.');
    SplitConcat(m, n, '.');
    SplitConcat(m + "." + n, p, '.');
    assert Render(v) == (m + "." + n) + ['.'] + p;
    assert Split(Render(v), '.') == [m, n, p];
  }

  /** A missing patch component counts as 0: `"M.m"` and `"M.m.0"` get the same
      key, and fail the same way. */
  lemma MissingPatchIsZero(major: string, minor: string)
    requires '.' !in major && '.' !in minor
    ensures ComparableVersion(major + "." + minor) == ComparableVersion(major + "." + minor + ".0")
  {
    var two := major + "." + minor;
    SplitWithoutSeparator(major, '.');
    SplitWithoutSeparator(minor, '.');
    SplitWithoutSeparator("0", '.');
    SplitConcat(major, minor, '.');
    SplitConcat(two, "0", '.');
    assert two == major + ['.'] + minor;
    assert two + ".0" == two + ['.'] + "0";
    assert Split(two, '.') == [major, minor];
    assert Split(two + ".0", '.') == [major, minor, "0"];
    assert ParseInt("0") == Success(0) by {
      assert IsNumeral("0") && Value("0") == 0;
    }
    assert ParseComponents([major, minor, "0"]) == ParseComponents([major, minor]);
  }

  /** Only the first three components matter: appending `.w` to a version that
      already has three components changes nothing, e.g. `"1.2.3.4"` and
      `"1.2.3"`. */
  lemma ExtraComponentsIgnored(version: string, w: string)
    requires |Split(version, '.')| >= 3
    ensures ComparableVersion(version + "." + w) == ComparableVersion(version)
  {
    SplitConcat(version, w, '.');
    assert version + "." + w == version + ['.'] + w;
    var c := Split(version, '.');
    var d := Split(version + "." + w, '.');
    assert d == c + Split(w, '.');
    assert d[0] == c[0] && d[1] == c[1] && d[2] == c[2];
    assert ParseComponents(d) == ParseComponents(c);
  }

  /** Leading zeros in the minor component vanish: `major.<zeros><digits>` and
      `major.<digits>` share a key (and fail alike when the major is bad), so
      `"1.02"` and `"1.2"` give the same key. */
  lemma LeadingZerosShareKey(major: string, zeros: string, digits: string)
    requires '.' !in major
    requires forall i :: 0 <= i < |zeros| ==> zeros[i] == '0'
    requires IsNumeral(digits)
    ensures ComparableVersion(major + "." + zeros + digits) == ComparableVersion(major + "." + digits)
  {
    ValueLeadingZeros(zeros, digits);
    var padded := zeros + digits;
    assert IsNumeral(padded);
    NumeralHasNoDot(padded);
    NumeralHasNoDot(digits);
    SplitWithoutSeparator(major, '.');
    SplitWithoutSeparator(padded, '.');
    SplitWithoutSeparator(digits, '.');
    SplitConcat(major, padded, '.');
    SplitConcat(major, digits, '.');
    assert major + "." + zeros + digits == major + ['.'] + padded;
    assert major + "." + digits == major + ['.'] + digits;
  }

  /** The four-digit bound is needed: a five-digit major widens the key and its
      string order no longer follows the version order. */
  lemma OrderNeedsBound()
    ensures VersionLess(Version(9999, 0, 0), Version(10000, 0, 0))
    ensures Less(Key(Version(10000, 0, 0)), Key(Version(9999, 0, 0)))
  {
    var big := Key(Version(10000, 0, 0));
    var small := Key(Version(9999, 0, 0));
    assert Decimal(10000)[0] == '1';
    assert Decimal(9999)[0] == '9';
    assert big[0] == Format(10000, 4)[0] == '1';
    assert small[0] == Format(9999, 4)[0] == '9';
  }
}
