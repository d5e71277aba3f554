/**
 * The version arithmetic of scripts/trigger_release.py: a version `major.minor.patch` is
 * bumped on one part for a channel. Release versions end in an even patch number and
 * pre-release versions in an odd one. Python's `ValueError` is the `Failure` of a Result.
 */
module Release {
  import opened Options
  import Text

  datatype Version = Version(major: int, minor: int, patch: int)

  /** The three ways `bump_version` raises `ValueError`. */
  datatype Error = MalformedVersion | UnknownChannel(channel: string) | UnknownPart(part: string)

  datatype Result<T> = Success(value: T) | Failure(error: Error)

  const ChannelRelease := "release"
  const ChannelPreRelease := "pre-release"

  /**
   * `next_even_number`: the smallest even number above `number`. Python's `%` by 2 is never
   * negative, like Dafny's, so the test is the same for negative numbers.
   */
  function NextEvenNumber(number: int): (r: int)
    ensures r > number && r % 2 == 0
    ensures forall m :: number < m < r ==> m % 2 != 0
  {
    if number % 2 == 0 then number + 2 else number + 1
  }

  /** `next_odd_number`: the smallest odd number above `number`. */
  function NextOddNumber(number: int): (r: int)
    ensures r > number && r % 2 == 1
    ensures forall m :: number < m < r ==> m % 2 != 1
  {
    if number % 2 != 0 then number + 2 else number + 1
  }

  // ---------------------------------------------------------------------------
  // Text of a version

  /** `str.split('.')`: the pieces between the dots; one piece when there is no dot. */
  function Split(s: string): (r: seq<string>)
    ensures |r| >= 1
  {
    if s == [] then [""]
    else if s[0] == '.' then [""] + Split(s[1..])
    else
      var rest := Split(s[1..]);
      [[s[0]] + rest[0]] + rest[1..]
  }

  /** The pieces joined with dots, the inverse of `Split`. */
  function JoinDots(parts: seq<string>): string
    requires |parts| >= 1
  {
    if |parts| == 1 then parts[0] else parts[0] + "." + JoinDots(parts[1..])
  }

  /** Splitting loses nothing: the pieces joined with dots give the text back. */
  lemma {:induction false} SplitJoin(s: string)
    ensures JoinDots(Split(s)) == s
    decreases |s|
  {
    if s != [] {
      SplitJoin(s[1..]);
      var rest := Split(s[1..]);
      if s[0] == '.' {
        assert Split(s)[1..] == rest;
        assert s == "." + s[1..];
      } else {
        JoinCons(s[0], rest);
        assert s == [s[0]] + s[1..];
      }
    }
  }

  /** A character glued to the first piece comes first in the joined text. */
  lemma JoinCons(c: char, parts: seq<string>)
    requires |parts| >= 1
    ensures JoinDots([[c] + parts[0]] + parts[1..]) == [c] + JoinDots(parts)
  {
    var head := [c] + parts[0];
    var q := [head] + parts[1..];
    assert q[0] == head && q[1..] == parts[1..];
    if |parts| > 1 {
      var j := JoinDots(parts[1..]);
      assert JoinDots(q) == head + "." + j;
      assert JoinDots(parts) == parts[0] + "." + j;
      Text.Assoc(head, ".", j);
      Text.Assoc([c], parts[0], "." + j);
      Text.Assoc(parts[0], ".", j);
    }
  }

  /** No piece holds a dot. */
  lemma {:induction false} SplitPiecesHaveNoDot(s: string)
    ensures forall i :: 0 <= i < |Split(s)| ==> '.' !in Split(s)[i]
    decreases |s|
  {
    if s != [] {
      SplitPiecesHaveNoDot(s[1..]);
      var rest := Split(s[1..]);
      var r := Split(s);
      forall i | 0 <= i < |r|
        ensures '.' !in r[i]
      {
        if i > 0 {
          assert r[i] == rest[if s[0] == '.' then i - 1 else i];
        } else if s[0] != '.' {
          assert r[0] == [s[0]] + rest[0];
        }
      }
    }
  }

  /** A dot-free piece followed by a dot is the first piece. */
  lemma {:induction false} SplitAfterPiece(a: string, b: string)
    requires '.' !in a
    ensures Split(a + "." + b) == [a] + Split(b)
    decreases |a|
  {
    if a == [] {
      assert a + "." + b == "." + b;
      assert ("." + b)[1..] == b;
    } else {
      var s := a + "." + b;
      assert s[0] == a[0];
      assert s[1..] == a[1..] + "." + b;
      assert '.' !in a[1..] by {
        forall j | 0 <= j < |a[1..]| ensures a[1..][j] != '.' {
          assert a[1..][j] == a[j + 1];
        }
      }
      SplitAfterPiece(a[1..], b);
      assert [a[0]] + a[1..] == a;
    }
  }

  lemma {:induction false} SplitOfPiece(a: string)
    requires '.' !in a
    ensures Split(a) == [a]
    decreases |a|
  {
    if a != [] {
      assert '.' !in a[1..] by {
        forall j | 0 <= j < |a[1..]| ensures a[1..][j] != '.' {
          assert a[1..][j] == a[j + 1];
        }
      }
      SplitOfPiece(a[1..]);
      assert [a[0]] + a[1..] == a;
    }
  }

  /**
   * The characters Python's `int()` skips around a number: the ASCII white space, and the
   * non-ASCII white space it first turns into a space. The separators U+001C..U+001F, which
   * `str.isspace()` accepts, are ASCII and not among them.
   */
  predicate IsIntSpace(c: char)
  {
    c == ' ' || ('\t' <= c <= '\r') || c == '\U{85}' || c == '\U{A0}' ||
    c == '\U{1680}' || ('\U{2000}' <= c <= '\U{200A}') || c == '\U{2028}' || c == '\U{2029}' ||
    c == '\U{202F}' || c == '\U{205F}' || c == '\U{3000}'
  }

  /** The text after the white space `int()` skips at the front. */
  function SkipLeadingSpace(s: string): (r: string)
    ensures |r| <= |s| && r == s[|s| - |r|..]
    ensures forall i :: 0 <= i < |s| - |r| ==> IsIntSpace(s[i])
    ensures r != [] ==> !IsIntSpace(r[0])
    decreases |s|
  {
    if s != [] && IsIntSpace(s[0]) then
      var r := SkipLeadingSpace(s[1..]);
      assert s[1..][|s| - 1 - |r|..] == s[|s| - |r|..];
      forall i | 0 <= i < |s| - |r| ensures IsIntSpace(s[i]) {
        if i > 0 { assert s[i] == s[1..][i - 1]; }
      }
      r
    else s
  }

  /** The text before the white space `int()` skips at the end. */
  function SkipTrailingSpace(s: string): (r: string)
    ensures |r| <= |s| && r == s[..|r|]
    ensures forall i :: |r| <= i < |s| ==> IsIntSpace(s[i])
    ensures r != [] ==> !IsIntSpace(r[|r| - 1])
    decreases |s|
  {
    if s != [] && IsIntSpace(s[|s| - 1]) then
      var r := SkipTrailingSpace(s[..|s| - 1]);
      assert s[..|s| - 1][..|r|] == s[..|r|];
      forall i | |r| <= i < |s| ensures IsIntSpace(s[i]) {
        if i < |s| - 1 { assert s[i] == s[..|s| - 1][i]; }
      }
      r
    else s
  }

  predicate IsDigit(c: char)
  {
    '0' <= c <= '9'
  }

  /** Decimal digits with single underscores between them, as `int()` accepts. */
  predicate IsDigitGroups(s: string)
  {
    s != [] && IsDigit(s[0]) && IsDigit(s[|s| - 1]) &&
    (forall i :: 0 <= i < |s| ==> IsDigit(s[i]) || s[i] == '_') &&
    (forall i :: 0 < i < |s| && s[i] == '_' ==> s[i - 1] != '_')
  }

  /** The value of the digits, the underscores skipped. */
  function DigitsValue(s: string): (n: nat)
  {
    if s == [] then 0
    else
      var c := s[|s| - 1];
      if IsDigit(c) then DigitsValue(s[..|s| - 1]) * 10 + (c as int - '0' as int) else DigitsValue(s[..|s| - 1])
  }

  /**
   * Python's `int(s)` on a string: white space around an optional sign and digit groups.
   * Only the ASCII digits are modelled.
   */
  function ParseInt(s: string): (r: Option<int>)
    ensures r.Some? && r.value < 0 ==> '-' in s
    ensures (forall i :: 0 <= i < |s| ==> IsIntSpace(s[i])) ==> r.None?
  {
    var t := SkipTrailingSpace(SkipLeadingSpace(s));
    if t != [] && (t[0] == '+' || t[0] == '-') then
      var body := t[1..];
      var value: int := DigitsValue(body);
      if IsDigitGroups(body) then Some(if t[0] == '-' then -value else value) else None
    else if IsDigitGroups(t) then Some(DigitsValue(t))
    else None
  }

  /** Python's `str(n)` for an integer. */
  function FormatInt(n: int): (r: string)
    ensures r != [] && (r[0] == '-' <==> n < 0)
    ensures forall i :: 0 <= i < |r| ==> IsDigit(r[i]) || (i == 0 && r[i] == '-')
  {
    if n < 0 then "-" + FormatNat(-n) else FormatNat(n)
  }

  function FormatNat(n: nat): (r: string)
    ensures r != [] && forall i :: 0 <= i < |r| ==> IsDigit(r[i])
  {
    var d := ['0' + ((n % 10) as char)];
    if n < 10 then d else FormatNat(n / 10) + d
  }

  /** The three pieces of `version.split('.')`, each converted by `int()`; any failure is a `ValueError`. */
  function ParseVersion(version: string): (r: Option<Version>)
    ensures r.Some? ==> '.' in version
  {
    var parts := Split(version);
    assert '.' !in version ==> |parts| == 1 by {
      if '.' !in version { SplitOfPiece(version); }
    }
    if |parts| != 3 then None
    else
      match (ParseInt(parts[0]), ParseInt(parts[1]), ParseInt(parts[2]))
      case (Some(major), Some(minor), Some(patch)) => Some(Version(major, minor, patch))
      case _ => None
  }

  /** `f"{major}.{minor}.{patch}"`. */
  function FormatVersion(v: Version): (r: string)
    ensures Split(r) == [FormatInt(v.major), FormatInt(v.minor), FormatInt(v.patch)]
  {
    var a, b, c := FormatInt(v.major), FormatInt(v.minor), FormatInt(v.patch);
    assert Split(a + "." + b + "." + c) == [a, b, c] by {
      NoDot(v.major);
      NoDot(v.minor);
      NoDot(v.patch);
      SplitAfterPiece(a, b + "." + c);
      SplitAfterPiece(b, c);
      SplitOfPiece(c);
      Text.Assoc(a + "." + b, ".", c);
      Text.Assoc(a + ".", b, "." + c);
      Text.Assoc(b, ".", c);
      assert a + "." + b + "." + c == a + "." + (b + "." + c);
    }
    a + "." + b + "." + c
  }

  /** `w` comes after `v` in the order of versions: by major, then minor, then patch number. */
  predicate Newer(w: Version, v: Version)
  {
    w.major > v.major || (w.major == v.major && (w.minor > v.minor || (w.minor == v.minor && w.patch > v.patch)))
  }

  /** The branches of `bump_version` on a parsed version: the part is checked first, then the channel. */
  function Bump(v: Version, part: string, channel: string): (r: Result<Version>)
    ensures r.Success? ==> Newer(r.value, v)
    ensures r.Failure? ==> r.error != MalformedVersion
  {
    if part == "major" then
      if channel == ChannelRelease then Success(Version(v.major + 1, 0, 0))
      else if channel == ChannelPreRelease then Success(Version(v.major + 1, 0, 1))
      else Failure(UnknownChannel(channel))
    else if part == "minor" then
      if channel == ChannelRelease then Success(Version(v.major, v.minor + 1, 0))
      else if channel == ChannelPreRelease then Success(Version(v.major, v.minor + 1, 1))
      else Failure(UnknownChannel(channel))
    else if part == "patch" then
      if channel == ChannelRelease then Success(Version(v.major, v.minor, NextEvenNumber(v.patch)))
      else if channel == ChannelPreRelease then Success(Version(v.major, v.minor, NextOddNumber(v.patch)))
      else Failure(UnknownChannel(channel))
    else Failure(UnknownPart(part))
  }

  /** `bump_version`: a malformed version fails before the part and the channel are looked at. */
  function BumpVersion(version: string, part: string, channel: string): (r: Result<string>)
    ensures r.Success? ==>
      ParseVersion(version).Some? && ParseVersion(r.value).Some? && Newer(ParseVersion(r.value).value, ParseVersion(version).value)
  {
    match ParseVersion(version)
    case None => Failure(MalformedVersion)
    case Some(v) =>
      match Bump(v, part, channel)
      case Failure(e) => Failure(e)
      case Success(w) => ParseFormatVersion(w); Success(FormatVersion(w))
  }

  // ---------------------------------------------------------------------------
  // Properties

  /** A major bump starts a new major version; its patch is 0 for a release and 1 for a pre-release. */
  lemma MajorBump(v: Version, channel: string)
    requires channel == ChannelRelease || channel == ChannelPreRelease
    ensures Bump(v, "major", channel) ==
      Success(Version(v.major + 1, 0, if channel == ChannelRelease then 0 else 1))
  {
  }

  /** A minor bump keeps the major number; its patch is 0 for a release and 1 for a pre-release. */
  lemma MinorBump(v: Version, channel: string)
    requires channel == ChannelRelease || channel == ChannelPreRelease
    ensures Bump(v, "minor", channel) ==
      Success(Version(v.major, v.minor + 1, if channel == ChannelRelease then 0 else 1))
  {
  }

  /**
   * A patch bump keeps the major and minor numbers and raises the patch to the next even
   * number for a release and the next odd one for a pre-release.
   */
  lemma PatchBump(v: Version, channel: string)
    requires channel == ChannelRelease || channel == ChannelPreRelease
    ensures Bump(v, "patch", channel).Success?
    ensures var w := Bump(v, "patch", channel).value;
      w.major == v.major && w.minor == v.minor && w.patch > v.patch &&
      w.patch % 2 == (if channel == ChannelRelease then 0 else 1) &&
      forall p :: v.patch < p < w.patch ==> p % 2 != w.patch % 2
  {
  }

  /** Every bump gives a version with the channel's patch parity. */
  lemma BumpParity(v: Version, part: string, channel: string)
    requires Bump(v, part, channel).Success?
    ensures Bump(v, part, channel).value.patch % 2 == if channel == ChannelRelease then 0 else 1
  {
  }

  /** The errors: an unknown part wins over an unknown channel. */
  lemma BumpErrors(v: Version, part: string, channel: string)
    ensures part !in ["major", "minor", "patch"] ==> Bump(v, part, channel) == Failure(UnknownPart(part))
    ensures part in ["major", "minor", "patch"] && channel != ChannelRelease && channel != ChannelPreRelease ==>
      Bump(v, part, channel) == Failure(UnknownChannel(channel))
    ensures part in ["major", "minor", "patch"] && (channel == ChannelRelease || channel == ChannelPreRelease) ==>
      Bump(v, part, channel).Success?
  {
  }

  /** `int(str(n)) == n`. */
  lemma ParseFormatInt(n: int)
    ensures ParseInt(FormatInt(n)) == Some(n)
  {
    var s := FormatInt(n);
    var m: nat := if n < 0 then -n else n;
    var digits := FormatNat(m);
    FormatNatGroups(m);
    if n < 0 {
      assert s == "-" + digits;
      assert s[1..] == digits;
      SkipSpaceOfDigits(s);
    } else {
      assert s == digits;
      assert IsDigit(s[0]);
      SkipSpaceOfDigits(s);
    }
  }

  /** Formatted numbers have no white space for `int()` to skip. */
  lemma SkipSpaceOfDigits(s: string)
    requires s != [] && (IsDigit(s[0]) || s[0] == '-') && IsDigit(s[|s| - 1])
    ensures SkipTrailingSpace(SkipLeadingSpace(s)) == s
  {
    NotIntSpace(s[0]);
    NotIntSpace(s[|s| - 1]);
    SkipLeadingOf(s);
    SkipTrailingOf(s);
  }

  lemma NotIntSpace(c: char)
    requires IsDigit(c) || c == '-'
    ensures !IsIntSpace(c)
  {
  }

  lemma SkipLeadingOf(s: string)
    requires s != [] && !IsIntSpace(s[0])
    ensures SkipLeadingSpace(s) == s
  {
  }

  lemma SkipTrailingOf(s: string)
    requires s != [] && !IsIntSpace(s[|s| - 1])
    ensures SkipTrailingSpace(s) == s
  {
  }

  lemma {:induction false} FormatNatGroups(n: nat)
    ensures IsDigitGroups(FormatNat(n)) && DigitsValue(FormatNat(n)) == n
  {
    var d := ['0' + ((n % 10) as char)];
    if n >= 10 {
      FormatNatGroups(n / 10);
      var r := FormatNat(n / 10) + d;
      assert r[..|r| - 1] == FormatNat(n / 10);
    }
  }

  /** A formatted version parses back to itself. */
  lemma ParseFormatVersion(v: Version)
    ensures ParseVersion(FormatVersion(v)) == Some(v)
  {
    ParseFormatInt(v.major);
    ParseFormatInt(v.minor);
    ParseFormatInt(v.patch);
    ParseOfPieces(FormatVersion(v), FormatInt(v.major), FormatInt(v.minor), FormatInt(v.patch), v);
  }

  lemma ParseOfPieces(version: string, a: string, b: string, c: string, v: Version)
    requires Split(version) == [a, b, c]
    requires ParseInt(a) == Some(v.major) && ParseInt(b) == Some(v.minor) && ParseInt(c) == Some(v.patch)
    ensures ParseVersion(version) == Some(v)
  {
  }

  lemma NoDot(n: int)
    ensures '.' !in FormatInt(n)
  {
    var digits := FormatNat(if n < 0 then -n else n);
    if n < 0 {
      assert FormatInt(n) == "-" + digits;
      assert forall i :: 0 <= i < |FormatInt(n)| ==> FormatInt(n)[i] == '-' || IsDigit(FormatInt(n)[i]) by {
        forall i | 0 <= i < |FormatInt(n)| ensures FormatInt(n)[i] == '-' || IsDigit(FormatInt(n)[i]) {
          if i > 0 { assert FormatInt(n)[i] == digits[i - 1]; }
        }
      }
    }
  }

  /** Bumping the text of a version is bumping the version and formatting the result. */
  lemma BumpFormatted(v: Version, part: string, channel: string)
    ensures BumpVersion(FormatVersion(v), part, channel) ==
      match Bump(v, part, channel)
      case Failure(e) => Failure(e)
      case Success(w) => Success(FormatVersion(w))
  {
    ParseFormatVersion(v);
  }

  /** A version that is not three dot-separated integers fails whatever the part and the channel. */
  lemma MalformedFirst(version: string, part: string, channel: string)
    requires |Split(version)| != 3
    ensures BumpVersion(version, part, channel) == Failure(MalformedVersion)
  {
  }

  /** `int()` rejects a piece that starts with one of the separators U+001C..U+001F. */
  lemma SeparatorIsRejected(s: string)
    requires s != [] && '\U{1C}' <= s[0] <= '\U{1F}'
    ensures ParseInt(s).None?
  {
    SkipLeadingOf(s);
    var t := SkipTrailingSpace(s);
    assert t != [] && t[0] == s[0];
  }

  /** So `bump_version` fails on such a version as on any other malformed one. */
  lemma SeparatorVersionFails(part: string, channel: string)
    ensures BumpVersion("\U{1C}1.0.0", part, channel) == Failure(MalformedVersion)
  {
    var v := "\U{1C}1.0.0";
    SplitAfterPiece("\U{1C}1", "0.0");
    SplitAfterPiece("0", "0");
    SplitOfPiece("0");
    assert v == "\U{1C}1" + "." + "0.0";
    assert "0.0" == "0" + "." + "0";
    SeparatorIsRejected("\U{1C}1");
  }
}
