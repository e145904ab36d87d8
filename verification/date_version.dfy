/**
 The ranking key of one installed toolchain: the compiler's semantic version,
 then its build date as text (`DateVersion` in src/lib.rs).
 */
module DateVersions {
  import opened Orderings
  import opened SemVer

  datatype DateVersion = DateVersion(rustcVers: Version, date: string)

  /** `DateVersion::cmp`: the versions decide unless they have equal
      precedence, in which case the date strings are compared character by
      character. */
  function Cmp(a: DateVersion, b: DateVersion): Ordering {
    var versCmp := Precedence(a.rustcVers, b.rustcVers);
    if versCmp == Equal then StrCmp(a.date, b.date) else versCmp
  }

  /** `a` ranks no higher than `b`. */
  predicate Le(a: DateVersion, b: DateVersion) {
    Cmp(a, b) != Greater
  }

  /** Two keys tie exactly when their versions have equal precedence and their
      dates are the same text. */
  predicate Tied(a: DateVersion, b: DateVersion) {
    SamePrecedence(a.rustcVers, b.rustcVers) && a.date == b.date
  }

  /** `Cmp` ranks every pair of keys consistently: swapping arguments flips
      the answer, "not greater" is transitive, and `Equal` means tied. */
  lemma CmpTotalPreorder()
    ensures TotalPreorder(Cmp)
    ensures forall a, b :: Cmp(a, b) == Equal <==> Tied(a, b)
  {
    PrecedenceTotalPreorder();
    StrCmpTotalOrder();
    forall a: DateVersion, b: DateVersion, c: DateVersion | Cmp(a, b) != Greater && Cmp(b, c) != Greater
      ensures Cmp(a, c) != Greater
    {
      var ab, bc := Precedence(a.rustcVers, b.rustcVers), Precedence(b.rustcVers, c.rustcVers);
      if ab == Equal && bc == Equal {
        assert Precedence(a.rustcVers, c.rustcVers) == Equal;
        assert StrCmp(a.date, b.date) != Greater && StrCmp(b.date, c.date) != Greater;
      } else if ab == Less {
        LessThenNotGreater(Precedence, a.rustcVers, b.rustcVers, c.rustcVers);
      } else {
        NotGreaterThenLess(Precedence, a.rustcVers, b.rustcVers, c.rustcVers);
      }
    }
  }

  lemma LeTransitive(a: DateVersion, b: DateVersion, c: DateVersion)
    requires Le(a, b) && Le(b, c)
    ensures Le(a, c)
  {
    CmpTotalPreorder();
  }

  /** Not ranking below is ranking at or above. */
  lemma NotLessIsGe(a: DateVersion, b: DateVersion)
    requires Cmp(a, b) != Less
    ensures Le(b, a)
  {
    CmpTotalPreorder();
  }

  /** Ranking strictly below excludes ranking at or above. */
  lemma LessIsNotGe(a: DateVersion, b: DateVersion)
    requires Cmp(a, b) == Less
    ensures !Le(b, a)
  {
    CmpTotalPreorder();
  }

  /** Every key ties with itself. */
  lemma CmpReflexive(a: DateVersion)
    ensures Cmp(a, a) == Equal
  {
    CmpTotalPreorder();
  }

  /** When the versions have different precedence the dates are ignored:
      `Cmp` answers as the version comparison does, whatever the dates. */
  lemma VersionDominatesDate(a: DateVersion, b: DateVersion, dateA: string, dateB: string)
    requires !SamePrecedence(a.rustcVers, b.rustcVers)
    ensures Cmp(a, b) == Precedence(a.rustcVers, b.rustcVers)
    ensures Cmp(a, b) == Cmp(a.(date := dateA), b.(date := dateB))
    ensures Cmp(a, b) != Equal
  {
    PrecedenceTotalPreorder();
  }

  /** When the versions have equal precedence the dates decide, as strings. */
  lemma DateBreaksTies(a: DateVersion, b: DateVersion)
    requires SamePrecedence(a.rustcVers, b.rustcVers)
    ensures Cmp(a, b) == StrCmp(a.date, b.date)
    ensures Cmp(a, b) == Equal <==> a.date == b.date
  {
    PrecedenceTotalPreorder();
    StrCmpTotalOrder();
  }

  /** Newer nightlies of the same version rank higher: "2019-04-20" after
      "2019-04-17", whatever the shared version. */
  lemma LaterDateRanksHigher(v: Version)
    ensures Cmp(DateVersion(v, "2019-04-20"), DateVersion(v, "2019-04-17")) == Greater
  {
    PrecedenceTotalPreorder();
    CharCmpTotalOrder();
    LexEqual("2019-04-", "2019-04-", CharCmp);
    assert StrCmp("2019-04-20", "2019-04-17") == Greater;
  }

  /** A higher version wins whatever the dates: 1.2.3 above 1.1.0. */
  lemma HigherVersionRanksHigher(dateA: string, dateB: string)
    ensures Cmp(DateVersion(Version(1, 2, 3, [], []), dateA), DateVersion(Version(1, 1, 0, [], []), dateB)) == Greater
  {}
}
