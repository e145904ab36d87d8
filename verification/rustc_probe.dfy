/**
 Turning the output of `rustc -V` into a `DateVersion` (`rustc_version` in
 src/lib.rs). Running the process is not modelled: its outcome is an input.
 */
module RustcProbe {
  import opened Wrappers
  import opened Orderings
  import opened Text
  import opened SemVer
  import opened DateVersions

  /** Standard output read as UTF-8: either text or bytes that are not UTF-8. */
  datatype Stdout = Utf8(text: string) | InvalidUtf8

  /** The outcome of running a compiler with `-V`: it could not be launched,
      or it ran (whatever its exit status) and produced some output. */
  datatype ProbeOutput = LaunchFailed | Ran(stdout: Stdout)

  /** `String::from_utf8(..).unwrap_or_default()`. */
  function DecodeOrEmpty(out: Stdout): string {
    match out
    case Utf8(text) => text
    case InvalidUtf8 => ""
  }

  /** The key given to a compiler whose version could not be read. */
  const UnknownKey: DateVersion := DateVersion(Zero, "")

  predicate IsCloseParen(c: char) {
    c == ')'
  }

  /** `field.trim_end().trim_end_matches(')')`. */
  function DateField(field: string): string {
    TrimEndWhile(TrimEndWhile(field, IsWhitespace), IsCloseParen)
  }

  /** `date` is what remains of `field` once its tail, a run of `)`
      followed by a run of whitespace, is cut off: the cut-off part holds only
      those characters, in that order, and neither run could be longer. */
  predicate IsDateOf(field: string, date: string) {
    && |date| <= |field| && date == field[..|date|]
    && (|date| == 0 || !IsCloseParen(date[|date| - 1]))
    && (forall i :: |date| <= i < |field| ==> IsCloseParen(field[i]) || IsWhitespace(field[i]))
    && (forall i, j :: |date| <= i < j < |field| && IsWhitespace(field[i]) ==> IsWhitespace(field[j]))
    && (|date| == 0 || !IsWhitespace(date[|date| - 1]) || (|date| < |field| && IsCloseParen(field[|date|])))
  }

  lemma DateFieldIsDate(field: string)
    ensures IsDateOf(field, DateField(field))
  {
    var t := TrimEndWhile(field, IsWhitespace);
    var d := TrimEndWhile(t, IsCloseParen);
    assert d == field[..|d|];
    forall i | |d| <= i < |field| ensures IsCloseParen(field[i]) || IsWhitespace(field[i]) {
      if i < |t| {
        assert field[i] == t[i];
      }
    }
    forall i, j | |d| <= i < j < |field| && IsWhitespace(field[i]) ensures IsWhitespace(field[j]) {
      if i < |t| {
        assert false;
      }
    }
    if |d| > 0 && IsWhitespace(d[|d| - 1]) {
      assert |d| < |t|;
      assert field[|d|] == t[|d|];
    }
  }

  /** Only one string fits the description, so `IsDateOf` pins the date
      down. */
  lemma DateFieldUnique(field: string, date: string)
    requires IsDateOf(field, date)
    ensures date == DateField(field)
  {
    var t := TrimEndWhile(field, IsWhitespace);
    if |t| < |date| {
      assert false;
    }
    assert date == t[..|date|];
    forall i | |date| <= i < |t| ensures IsCloseParen(t[i]) {
      assert t[i] == field[i];
      if IsWhitespace(field[i]) {
        assert false;
      }
    }
    TrimEndWhileUnique(t, IsCloseParen, date);
  }

  /** The part of `rustc_version` after the output has been read: split at
      every space; with more than three pieces the second is the version and
      the fourth holds the date, otherwise the key is 0.0.0 with an empty
      date. A version that does not parse becomes 0.0.0, keeping the date. */
  function ParseVersionText(output: string): DateVersion {
    var parts := SplitOn(output, ' ');
    if |parts| > 3 then DateVersion(Parse(parts[1]).GetOr(Zero), DateField(parts[3]))
    else UnknownKey
  }

  /** `rustc_version`: a launch failure gives the unknown key; otherwise the
      decoded output (empty when it is not UTF-8) is parsed. */
  function RustcVersion(probe: ProbeOutput): DateVersion {
    match probe
    case LaunchFailed => UnknownKey
    case Ran(out) => ParseVersionText(DecodeOrEmpty(out))
  }

  /** `split(' ')` yields one more piece than there are spaces. */
  lemma {:induction false} SplitCount(s: string, c: char)
    ensures |SplitOn(s, c)| == multiset(s)[c] + 1
    decreases |s|
  {
    if |s| > 0 {
      SplitCount(s[1..], c);
      assert s == [s[0]] + s[1..];
      assert multiset(s) == multiset([s[0]]) + multiset(s[1..]);
    }
  }

  /** Output with fewer than three spaces carries no version information: the
      key is 0.0.0 with an empty date. */
  lemma FewSpacesGiveUnknown(output: string)
    requires multiset(output)[' '] < 3
    ensures ParseVersionText(output) == UnknownKey
  {
    SplitCount(output, ' ');
  }

  /** With at least three spaces the version comes from the text between the
      first and second space, falling back to 0.0.0 when it does not parse,
      and the date is the text after the third space (up to a fourth) without
      its closing parentheses and trailing whitespace. */
  lemma ManySpacesGiveFields(output: string)
    requires multiset(output)[' '] >= 3
    ensures var parts := SplitOn(output, ' ');
      && |parts| > 3
      && ParseVersionText(output).rustcVers == (if Parse(parts[1]).Some? then Parse(parts[1]).value else Zero)
      && IsDateOf(parts[3], ParseVersionText(output).date)
  {
    SplitCount(output, ' ');
    DateFieldIsDate(SplitOn(output, ' ')[3]);
  }

  /** A compiler that cannot be launched, or whose output is not UTF-8, gets
      the unknown key. */
  lemma UnreadableProbeGivesUnknown()
    ensures RustcVersion(LaunchFailed) == UnknownKey
    ensures RustcVersion(Ran(InvalidUtf8)) == UnknownKey
  {
    FewSpacesGiveUnknown("");
  }

  /** Four space-free words joined by single spaces split back into the
      words. */
  lemma SplitFour(a: string, b: string, c: string, d: string)
    requires ' ' !in a && ' ' !in b && ' ' !in c && ' ' !in d
    ensures SplitOn(a + [' '] + (b + [' '] + (c + [' '] + d)), ' ') == [a, b, c, d]
  {
    var cd := c + [' '] + d;
    var bcd := b + [' '] + cd;
    SplitNoSeparator(d, ' ');
    SplitAtFirst(c, ' ', d);
    SplitAtFirst(b, ' ', cd);
    SplitAtFirst(a, ' ', bcd);
  }

  /** Output made of exactly four space-free words: the second word is the
      version and the fourth the date field. */
  lemma FourWordOutput(a: string, b: string, c: string, d: string)
    requires ' ' !in a && ' ' !in b && ' ' !in c && ' ' !in d
    ensures ParseVersionText(a + [' '] + (b + [' '] + (c + [' '] + d)))
         == DateVersion(Parse(b).GetOr(Zero), DateField(d))
  {
    SplitFour(a, b, c, d);
  }

  lemma ParseStableVersion()
    ensures Parse("1.32.0") == Some(Version(1, 32, 0, [], []))
  {
    var v := Version(1, 32, 0, [], []);
    assert Format(v) == "1.32.0";
    ParseFormat(v);
  }

  lemma NightlyNumbers()
    ensures NatToString(1) == "1" && NatToString(34) == "34" && NatToString(0) == "0"
    ensures Join(["1", "34", "0"], '.') == "1.34.0"
    ensures "1.34.0" + "-" + "nightly" == "1.34.0-nightly"
  {}

  lemma NightlyText()
    ensures Format(Version(1, 34, 0, [AlphaNumeric("nightly")], [])) == "1.34.0-nightly"
  {
    var v := Version(1, 34, 0, [AlphaNumeric("nightly")], []);
    NightlyNumbers();
    assert CoreParts(v) == ["1", "34", "0"];
    assert FormatIdentifiers(v.pre) == ["nightly"];
    assert Join(["nightly"], '.') == "nightly";
  }

  lemma ParseNightlyVersion()
    ensures Parse("1.34.0-nightly") == Some(Version(1, 34, 0, [AlphaNumeric("nightly")], []))
  {
    var v := Version(1, 34, 0, [AlphaNumeric("nightly")], []);
    assert !IsDigit("nightly"[0]);
    assert WellFormed(v);
    NightlyText();
    ParseFormat(v);
  }

  lemma ParseBadVersion()
    ensures Parse("1.x") == None
  {
    SplitNoSeparator("1.x", '+');
    SplitNoSeparator("1.x", '-');
    SplitJoin(["1", "x"], '.');
  }

  lemma DateFieldExamples()
    ensures DateField("2019-01-16)\n") == "2019-01-16"
    ensures DateField("2019-02-25)\n") == "2019-02-25"
    ensures DateField("2019-02-25)") == "2019-02-25"
  {
    DateFieldUnique("2019-01-16)\n", "2019-01-16");
    DateFieldUnique("2019-02-25)\n", "2019-02-25");
    DateFieldUnique("2019-02-25)", "2019-02-25");
  }

  /** A stable release: `rustc 1.32.0 (9fda7c223 2019-01-16)` with its final
      newline gives version 1.32.0 dated "2019-01-16". */
  lemma StableOutputExample()
    ensures ParseVersionText("rustc" + " " + ("1.32.0" + " " + ("(9fda7c223" + " " + "2019-01-16)\n")))
         == DateVersion(Version(1, 32, 0, [], []), "2019-01-16")
  {
    FourWordOutput("rustc", "1.32.0", "(9fda7c223", "2019-01-16)\n");
    ParseStableVersion();
    DateFieldExamples();
  }

  /** A nightly, `rustc 1.34.0-nightly (00aae71f5 2019-02-25)`: the
      pre-release tag is part of the version. */
  lemma NightlyOutputExample()
    ensures ParseVersionText("rustc" + " " + ("1.34.0-nightly" + " " + ("(00aae71f5" + " " + "2019-02-25)\n")))
         == DateVersion(Version(1, 34, 0, [AlphaNumeric("nightly")], []), "2019-02-25")
  {
    FourWordOutput("rustc", "1.34.0-nightly", "(00aae71f5", "2019-02-25)\n");
    ParseNightlyVersion();
    DateFieldExamples();
  }

  /** A locally built compiler that prints only `rustc 1.35.0-dev` has too few
      pieces, so even its version is lost. */
  lemma VersionOnlyOutputExample()
    ensures ParseVersionText("rustc" + " " + "1.35.0-dev") == UnknownKey
  {
    SplitNoSeparator("1.35.0-dev", ' ');
    SplitAtFirst("rustc", ' ', "1.35.0-dev");
  }

  /** A version that does not parse, `rustc 1.x (00aae71f5 2019-02-25)`,
      falls back to 0.0.0 but the date is kept. */
  lemma UnparsableVersionKeepsDate()
    ensures ParseVersionText("rustc" + " " + ("1.x" + " " + ("(00aae71f5" + " " + "2019-02-25)")))
         == DateVersion(Zero, "2019-02-25")
  {
    FourWordOutput("rustc", "1.x", "(00aae71f5", "2019-02-25)");
    ParseBadVersion();
    DateFieldExamples();
  }

  /** The unknown key ranks at or below every key whose version is not a
      pre-release of 0.0.0; 0.0.0 pre-releases rank below it. */
  lemma UnknownKeyRank(k: DateVersion)
    ensures Le(UnknownKey, k) <==> !(k.rustcVers.major == 0 && k.rustcVers.minor == 0 && k.rustcVers.patch == 0 && |k.rustcVers.pre| > 0)
  {
    if SamePrecedence(Zero, k.rustcVers) {
      StrCmpTotalOrder();
      if |k.date| > 0 {
        PrefixSortsFirst("", k.date, CharCmp);
      }
    }
  }
}
