/**
 Semantic versions as the `semver` crate represents them, ordered by the
 precedence rules of section 11 of Semantic Versioning 2.0.0, with a small
 parser for `MAJOR.MINOR.PATCH[-PRE][+BUILD]` text and its inverse printer.
 */
module SemVer {
  import opened Wrappers
  import opened Orderings
  import opened Text

  /** The crate stores every number as a `u64`. */
  const U64Limit: nat := 0x1_0000_0000_0000_0000

  /** A dot-separated pre-release identifier: all-digit identifiers are
      numbers, anything else is kept as text. */
  datatype Identifier = Numeric(n: nat) | AlphaNumeric(s: string)

  /** `semver::Version`. Build metadata is carried but takes no part in
      precedence. */
  datatype Version = Version(major: nat, minor: nat, patch: nat, pre: seq<Identifier>, build: seq<string>)

  /** `Version::new(0, 0, 0)`. */
  const Zero: Version := Version(0, 0, 0, [], [])

  /** Section 11.4 of Semantic Versioning 2.0.0: numeric identifiers compare
      numerically, alphanumeric ones in ASCII order, and numeric identifiers
      have lower precedence than alphanumeric ones. */
  function IdentifierCmp(a: Identifier, b: Identifier): Ordering {
    match (a, b)
    case (Numeric(x), Numeric(y)) => NatCmp(x, y)
    case (Numeric(_), AlphaNumeric(_)) => Less
    case (AlphaNumeric(_), Numeric(_)) => Greater
    case (AlphaNumeric(x), AlphaNumeric(y)) => StrCmp(x, y)
  }

  /** Sections 11.3 and 11.4: a release (no pre-release identifiers) ranks
      above every pre-release of the same core version; two pre-releases
      compare their identifiers from left to right, and a shorter list that is
      a prefix of the longer one ranks lower. */
  function PreCmp(a: seq<Identifier>, b: seq<Identifier>): Ordering {
    if |a| == 0 && |b| == 0 then Equal
    else if |a| == 0 then Greater
    else if |b| == 0 then Less
    else LexCmp(a, b, IdentifierCmp)
  }

  /** Section 11.2: major, minor and patch compare numerically, in that order;
      then the pre-release decides. Build metadata is ignored (section 11.1). */
  function Precedence(a: Version, b: Version): Ordering {
    if a.major != b.major then NatCmp(a.major, b.major)
    else if a.minor != b.minor then NatCmp(a.minor, b.minor)
    else if a.patch != b.patch then NatCmp(a.patch, b.patch)
    else PreCmp(a.pre, b.pre)
  }

  lemma IdentifierCmpTotalOrder()
    ensures TotalOrder(IdentifierCmp)
  {
    StrCmpTotalOrder();
    forall x: Identifier, y: Identifier ensures IdentifierCmp(x, y) == Flip(IdentifierCmp(y, x)) {
      if x.AlphaNumeric? && y.AlphaNumeric? {
        assert StrCmp(x.s, y.s) == Flip(StrCmp(y.s, x.s));
      }
    }
    forall x: Identifier, y: Identifier, z: Identifier | IdentifierCmp(x, y) != Greater && IdentifierCmp(y, z) != Greater
      ensures IdentifierCmp(x, z) != Greater
    {
      if x.AlphaNumeric? && y.AlphaNumeric? && z.AlphaNumeric? {
        assert StrCmp(x.s, y.s) != Greater && StrCmp(y.s, z.s) != Greater;
      }
    }
    forall x: Identifier, y: Identifier ensures IdentifierCmp(x, y) == Equal <==> x == y {
      if x.AlphaNumeric? && y.AlphaNumeric? {
        assert StrCmp(x.s, y.s) == Equal <==> x.s == y.s;
      }
    }
  }

  lemma PreCmpTotalOrder()
    ensures TotalOrder(PreCmp)
  {
    IdentifierCmpTotalOrder();
    forall a: seq<Identifier>, b: seq<Identifier> ensures PreCmp(a, b) == Flip(PreCmp(b, a)) {
      LexFlip(a, b, IdentifierCmp);
    }
    forall a: seq<Identifier>, b: seq<Identifier>, c: seq<Identifier> | PreCmp(a, b) != Greater && PreCmp(b, c) != Greater
      ensures PreCmp(a, c) != Greater
    {
      if |a| > 0 && |b| > 0 && |c| > 0 {
        LexTransitive(a, b, c, IdentifierCmp);
      }
    }
    forall a: seq<Identifier>, b: seq<Identifier> ensures PreCmp(a, b) == Equal <==> a == b {
      LexEqual(a, b, IdentifierCmp);
    }
  }

  /** Two versions have equal precedence exactly when they agree on everything
      but build metadata. */
  predicate SamePrecedence(a: Version, b: Version) {
    a.major == b.major && a.minor == b.minor && a.patch == b.patch && a.pre == b.pre
  }

  /** Precedence ranks all versions consistently; it is not antisymmetric,
      because versions that differ only in build metadata compare `Equal`. */
  lemma PrecedenceTotalPreorder()
    ensures TotalPreorder(Precedence)
    ensures forall a, b :: Precedence(a, b) == Equal <==> SamePrecedence(a, b)
  {
    PreCmpTotalOrder();
    forall a: Version, b: Version, c: Version | Precedence(a, b) != Greater && Precedence(b, c) != Greater
      ensures Precedence(a, c) != Greater
    {
      if a.major == b.major == c.major && a.minor == b.minor == c.minor && a.patch == b.patch == c.patch {
        assert PreCmp(a.pre, b.pre) != Greater && PreCmp(b.pre, c.pre) != Greater;
      }
    }
  }

  /** Section 11.3: a pre-release ranks below the release it precedes,
      e.g. 1.0.0-alpha < 1.0.0. */
  lemma PreReleaseBelowRelease(v: Version)
    requires |v.pre| > 0
    ensures Precedence(v, v.(pre := [])) == Less
  {}

  /** The example chain of section 11.4:
      1.0.0-alpha < 1.0.0-alpha.1 < 1.0.0-alpha.beta < 1.0.0-beta
      < 1.0.0-beta.2 < 1.0.0-beta.11 < 1.0.0-rc.1 < 1.0.0. */
  lemma PrecedenceExampleChain()
    ensures var alpha, beta, rc := AlphaNumeric("alpha"), AlphaNumeric("beta"), AlphaNumeric("rc");
      && Precedence(Version(1, 0, 0, [alpha], []), Version(1, 0, 0, [alpha, Numeric(1)], [])) == Less
      && Precedence(Version(1, 0, 0, [alpha, Numeric(1)], []), Version(1, 0, 0, [alpha, beta], [])) == Less
      && Precedence(Version(1, 0, 0, [alpha, beta], []), Version(1, 0, 0, [beta], [])) == Less
      && Precedence(Version(1, 0, 0, [beta], []), Version(1, 0, 0, [beta, Numeric(2)], [])) == Less
      && Precedence(Version(1, 0, 0, [beta, Numeric(2)], []), Version(1, 0, 0, [beta, Numeric(11)], [])) == Less
      && Precedence(Version(1, 0, 0, [beta, Numeric(11)], []), Version(1, 0, 0, [rc, Numeric(1)], [])) == Less
      && Precedence(Version(1, 0, 0, [rc, Numeric(1)], []), Version(1, 0, 0, [], [])) == Less
  {
    var beta := AlphaNumeric("beta");
    assert StrCmp("alpha", "beta") == Less;
    assert StrCmp("beta", "rc") == Less;
    CharCmpTotalOrder();
    LexEqual("beta", "beta", CharCmp);
    assert IdentifierCmp(beta, beta) == Equal;
    assert LexCmp([beta], [beta, Numeric(2)], IdentifierCmp) == Less;
    assert LexCmp([beta, Numeric(2)], [beta, Numeric(11)], IdentifierCmp) == Less;
    assert [beta][1..] == [] && [beta, Numeric(2)][1..] == [Numeric(2)];
    assert [beta, Numeric(11)][1..] == [Numeric(11)];
  }

  // ---------------------------------------------------------------------------
  // Text form

  /** Characters allowed in identifiers (section 9 and 10): ASCII letters,
      digits and hyphen. */
  predicate IsIdentChar(c: char) {
    ('a' <= c <= 'z') || ('A' <= c <= 'Z') || IsDigit(c) || c == '-'
  }

  predicate AllIdentChars(s: string) {
    forall i :: 0 <= i < |s| ==> IsIdentChar(s[i])
  }

  predicate ValidIdentifier(id: Identifier) {
    match id
    case Numeric(n) => n < U64Limit
    case AlphaNumeric(s) => |s| > 0 && AllIdentChars(s) && !AllDigits(s)
  }

  predicate ValidBuildIdentifier(s: string) {
    |s| > 0 && AllIdentChars(s)
  }

  /** The versions the text form can express. */
  predicate WellFormed(v: Version) {
    && v.major < U64Limit && v.minor < U64Limit && v.patch < U64Limit
    && (forall i :: 0 <= i < |v.pre| ==> ValidIdentifier(v.pre[i]))
    && (forall i :: 0 <= i < |v.build| ==> ValidBuildIdentifier(v.build[i]))
  }

  /** A numeric field: decimal digits, no leading zero, within `u64`. */
  function ParseNumber(s: string): (r: Option<nat>)
    ensures r.Some? ==> r.value < U64Limit
  {
    if |s| == 0 || !AllDigits(s) || (|s| > 1 && s[0] == '0') then None
    else if DigitsValue(s) >= U64Limit then None
    else Some(DigitsValue(s))
  }

  function ParseIdentifier(s: string): (r: Option<Identifier>)
    ensures r.Some? ==> ValidIdentifier(r.value)
  {
    if |s| == 0 || !AllIdentChars(s) then None
    else if AllDigits(s) then
      match ParseNumber(s)
      case Some(n) => Some(Numeric(n))
      case None => None
    else Some(AlphaNumeric(s))
  }

  /** Every piece must be an identifier; one bad piece rejects the list. */
  function ParseIdentifiers(parts: seq<string>): (r: Option<seq<Identifier>>)
    ensures r.Some? ==> |r.value| == |parts| && forall i :: 0 <= i < |parts| ==> ValidIdentifier(r.value[i])
    decreases |parts|
  {
    if |parts| == 0 then Some([])
    else
      var head, tail := ParseIdentifier(parts[0]), ParseIdentifiers(parts[1..]);
      if head.None? || tail.None? then None else Some([head.value] + tail.value)
  }

  function ParseBuildIdentifiers(parts: seq<string>): (r: Option<seq<string>>)
    ensures r.Some? ==> r.value == parts && forall i :: 0 <= i < |parts| ==> ValidBuildIdentifier(parts[i])
  {
    if forall i :: 0 <= i < |parts| ==> ValidBuildIdentifier(parts[i]) then Some(parts) else None
  }

  /** `Version::parse`, for the grammar `MAJOR.MINOR.PATCH[-PRE][+BUILD]`:
      the text before the first `+` holds the core and pre-release (split at
      the first `-`), the text after it the build metadata; each list is
      dot-separated. */
  function Parse(s: string): (r: Option<Version>)
    ensures r.Some? ==> WellFormed(r.value)
  {
    var plus := SplitOn(s, '+');
    var minus := SplitOn(plus[0], '-');
    var core := SplitOn(minus[0], '.');
    if |plus| > 2 || |core| != 3 then None
    else
      var major, minor, patch := ParseNumber(core[0]), ParseNumber(core[1]), ParseNumber(core[2]);
      var pre := if |minus| == 1 then Some([]) else ParseIdentifiers(SplitOn(Join(minus[1..], '-'), '.'));
      var build := if |plus| == 1 then Some([]) else ParseBuildIdentifiers(SplitOn(plus[1], '.'));
      if major.None? || minor.None? || patch.None? || pre.None? || build.None? then None
      else Some(Version(major.value, minor.value, patch.value, pre.value, build.value))
  }

  function FormatIdentifier(id: Identifier): string {
    match id
    case Numeric(n) => NatToString(n)
    case AlphaNumeric(s) => s
  }

  function FormatIdentifiers(ids: seq<Identifier>): (parts: seq<string>)
    ensures |parts| == |ids|
    ensures forall i :: 0 <= i < |ids| ==> parts[i] == FormatIdentifier(ids[i])
    decreases |ids|
  {
    if |ids| == 0 then [] else [FormatIdentifier(ids[0])] + FormatIdentifiers(ids[1..])
  }

  function CoreParts(v: Version): seq<string> {
    [NatToString(v.major), NatToString(v.minor), NatToString(v.patch)]
  }

  /** The text before any `+`: core version and optional pre-release. */
  function FormatMain(v: Version): string {
    Join(CoreParts(v), '.') + (if |v.pre| == 0 then "" else "-" + Join(FormatIdentifiers(v.pre), '.'))
  }

  /** `Display` for `Version`. */
  function Format(v: Version): string {
    FormatMain(v) + (if |v.build| == 0 then "" else "+" + Join(v.build, '.'))
  }

  // ---------------------------------------------------------------------------
  // Round trip

  lemma ParseNumberFormat(n: nat)
    requires n < U64Limit
    ensures ParseNumber(NatToString(n)) == Some(n)
  {
    NatToStringValue(n);
  }

  lemma ParseIdentifierFormat(id: Identifier)
    requires ValidIdentifier(id)
    ensures ParseIdentifier(FormatIdentifier(id)) == Some(id)
  {
    if id.Numeric? {
      ParseNumberFormat(id.n);
    }
  }

  lemma {:induction false} ParseIdentifiersFormat(ids: seq<Identifier>)
    requires forall i :: 0 <= i < |ids| ==> ValidIdentifier(ids[i])
    ensures ParseIdentifiers(FormatIdentifiers(ids)) == Some(ids)
    decreases |ids|
  {
    if |ids| > 0 {
      var parts := FormatIdentifiers(ids);
      ParseIdentifierFormat(ids[0]);
      assert parts[1..] == FormatIdentifiers(ids[1..]);
      ParseIdentifiersFormat(ids[1..]);
      assert [ids[0]] + ids[1..] == ids;
    }
  }

  lemma NoCharOutside(s: string, c: char)
    requires AllIdentChars(s) && !IsIdentChar(c)
    ensures c !in s
  {
  }

  lemma {:induction false} JoinNoChar(parts: seq<string>, sep: char, c: char)
    requires c != sep
    requires forall i :: 0 <= i < |parts| ==> c !in parts[i]
    ensures c !in Join(parts, sep)
    decreases |parts|
  {
    if |parts| > 1 {
      JoinNoChar(parts[1..], sep, c);
    }
  }

  lemma FormattedIdentifierChars(ids: seq<Identifier>, c: char)
    requires forall i :: 0 <= i < |ids| ==> ValidIdentifier(ids[i])
    requires !IsIdentChar(c)
    ensures forall i :: 0 <= i < |ids| ==> c !in FormatIdentifiers(ids)[i]
  {
    forall i | 0 <= i < |ids| ensures c !in FormatIdentifiers(ids)[i] {
      NoCharOutside(FormatIdentifier(ids[i]), c);
    }
  }

  lemma CorePartsChars(v: Version)
    ensures forall i :: 0 <= i < 3 ==> '+' !in CoreParts(v)[i] && '-' !in CoreParts(v)[i] && '.' !in CoreParts(v)[i]
  {
    var nums := CoreParts(v);
    forall i, c | 0 <= i < 3 && !IsDigit(c) ensures c !in nums[i] {
      assert AllDigits(nums[i]);
    }
  }

  lemma FormatMainNoPlus(v: Version)
    requires WellFormed(v)
    ensures '+' !in FormatMain(v)
  {
    CorePartsChars(v);
    JoinNoChar(CoreParts(v), '.', '+');
    FormattedIdentifierChars(v.pre, '+');
    JoinNoChar(FormatIdentifiers(v.pre), '.', '+');
  }

  /** Splitting the printed text at `+` separates the build metadata. */
  lemma SplitFormatAtPlus(v: Version)
    requires WellFormed(v)
    ensures var plus := SplitOn(Format(v), '+');
      && plus[0] == FormatMain(v)
      && (|plus| == 1 <==> |v.build| == 0)
      && |plus| <= 2
      && (|plus| == 2 ==> ParseBuildIdentifiers(SplitOn(plus[1], '.')) == Some(v.build))
  {
    var main := FormatMain(v);
    FormatMainNoPlus(v);
    if |v.build| == 0 {
      assert Format(v) == main;
      SplitNoSeparator(main, '+');
    } else {
      forall i | 0 <= i < |v.build| ensures '+' !in v.build[i] && '.' !in v.build[i] {
        NoCharOutside(v.build[i], '+');
        NoCharOutside(v.build[i], '.');
      }
      var buildText := Join(v.build, '.');
      JoinNoChar(v.build, '.', '+');
      assert Format(v) == main + ['+'] + buildText;
      SplitAtFirst(main, '+', buildText);
      SplitNoSeparator(buildText, '+');
      SplitJoin(v.build, '.');
    }
  }

  /** Splitting the text before `+` at its first `-` separates the core from
      the pre-release. */
  lemma SplitMainAtMinus(v: Version)
    requires WellFormed(v)
    ensures var minus := SplitOn(FormatMain(v), '-');
      && minus[0] == Join(CoreParts(v), '.')
      && (|minus| == 1 <==> |v.pre| == 0)
      && (|minus| > 1 ==> ParseIdentifiers(SplitOn(Join(minus[1..], '-'), '.')) == Some(v.pre))
  {
    var core := Join(CoreParts(v), '.');
    CorePartsChars(v);
    JoinNoChar(CoreParts(v), '.', '-');
    if |v.pre| == 0 {
      assert FormatMain(v) == core;
      SplitNoSeparator(core, '-');
    } else {
      var preParts := FormatIdentifiers(v.pre);
      var preText := Join(preParts, '.');
      assert FormatMain(v) == core + ['-'] + preText;
      SplitAtFirst(core, '-', preText);
      var minus := SplitOn(FormatMain(v), '-');
      assert minus[1..] == SplitOn(preText, '-');
      JoinSplit(preText, '-');
      FormattedIdentifierChars(v.pre, '.');
      SplitJoin(preParts, '.');
      ParseIdentifiersFormat(v.pre);
    }
  }

  /** Printing a well-formed version and parsing the text gives the version
      back, build metadata included. */
  lemma ParseFormat(v: Version)
    requires WellFormed(v)
    ensures Parse(Format(v)) == Some(v)
  {
    SplitFormatAtPlus(v);
    SplitMainAtMinus(v);
    CorePartsChars(v);
    SplitJoin(CoreParts(v), '.');
    ParseNumberFormat(v.major);
    ParseNumberFormat(v.minor);
    ParseNumberFormat(v.patch);
  }
}
