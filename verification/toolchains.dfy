/**
 `find_installed_component` in src/lib.rs: walk the toolchains directory,
 keep every `bin/<name>` entry together with the version of the `rustc` next
 to it, sort the entries by that version and return the last one. The
 filesystem walk and the compiler runs are inputs: the readable entries in
 the order the walk visits them, and a function giving the outcome of running
 the compiler at a path.
 */
module Toolchains {
  import opened Wrappers
  import opened Orderings
  import opened SemVer
  import opened DateVersions
  import opened RustcProbe

  /** An absolute path, as its components below `/`. */
  type Path = seq<string>

  /** `Path::parent`: the path without its last component; the root `/` has
      none. */
  function Parent(p: Path): Option<Path> {
    if |p| == 0 then None else Some(p[..|p| - 1])
  }

  /** `Path::file_name`: the last component; the root and paths ending in
      `..` have none. */
  function FileName(p: Path): Option<string> {
    if |p| == 0 || p[|p| - 1] == ".." then None else Some(p[|p| - 1])
  }

  /** `Path::ends_with("bin")`, which compares whole components. */
  predicate EndsWithBin(p: Path) {
    |p| > 0 && p[|p| - 1] == "bin"
  }

  /** The entries of `s` that satisfy `keep`, in their original order. */
  function Filter(s: seq<Path>, keep: Path -> bool): (r: seq<Path>)
    ensures |r| <= |s|
    ensures forall x :: x in r <==> x in s && keep(x)
    decreases |s|
  {
    if |s| == 0 then []
    else if keep(s[0]) then [s[0]] + Filter(s[1..], keep)
    else Filter(s[1..], keep)
  }

  /** Filtering keeps order: filtering a concatenation concatenates the
      filtered parts. */
  lemma {:induction false} FilterAppend(a: seq<Path>, b: seq<Path>, keep: Path -> bool)
    ensures Filter(a + b, keep) == Filter(a, keep) + Filter(b, keep)
    decreases |a|
  {
    if |a| == 0 {
      assert a + b == b;
    } else {
      assert (a + b)[1..] == a[1..] + b;
      FilterAppend(a[1..], b, keep);
    }
  }

  /** Nothing passes when no entry satisfies `keep`. */
  lemma {:induction false} FilterNone(s: seq<Path>, keep: Path -> bool)
    requires forall x :: x in s ==> !keep(x)
    ensures Filter(s, keep) == []
    decreases |s|
  {
    if |s| > 0 {
      assert s[0] in s;
      FilterNone(s[1..], keep);
    }
  }

  // ---------------------------------------------------------------------------
  // The walk

  /** `WalkDir::new(root).max_depth(3)`: the root itself and everything at
      most three components below it. */
  const MaxDepth: nat := 3

  predicate InWalk(root: Path, e: Path) {
    |root| <= |e| <= |root| + MaxDepth && e[..|root|] == root
  }

  /** The entries the walk yields, given every readable entry of the
      filesystem in visiting order (unreadable entries are already gone:
      `filter_map(|e| e.ok())`). */
  function Walk(root: Path, entries: seq<Path>): seq<Path> {
    Filter(entries, e => InWalk(root, e))
  }

  // ---------------------------------------------------------------------------
  // Candidate collection

  /** `Component`: a candidate binary and the key of its toolchain. */
  datatype Component = Component(dateVers: DateVersion, path: Path)

  /** What the loop body does with one walked entry: abort the whole search
      (a `?` on a missing parent or file name), skip it, or record it. */
  datatype Visit = Abort | Skip | Keep(c: Component)

  /** The compiler that sits next to a binary in the same `bin` directory. */
  function RustcPath(binDir: Path): Path {
    binDir + ["rustc"]
  }

  function VisitEntry(e: Path, name: string, probe: Path -> ProbeOutput): Visit {
    match Parent(e)
    case None => Abort
    case Some(parent) =>
      if !EndsWithBin(parent) then Skip
      else match FileName(e)
        case None => Abort
        case Some(binName) =>
          if binName == name then Keep(Component(RustcVersion(probe(RustcPath(parent))), e)) else Skip
  }

  /** The `for` loop of `find_installed_component`: `Some` of the recorded
      components in walk order, or `None` when an entry made the function
      return early. */
  function Scan(walk: seq<Path>, name: string, probe: Path -> ProbeOutput): Option<seq<Component>>
    decreases |walk|
  {
    if |walk| == 0 then Some([])
    else match VisitEntry(walk[0], name, probe)
      case Abort => None
      case Skip => Scan(walk[1..], name, probe)
      case Keep(c) =>
        match Scan(walk[1..], name, probe)
        case None => None
        case Some(cs) => Some([c] + cs)
  }

  /** An entry is a candidate when it is `<...>/bin/<name>`. */
  predicate IsCandidate(e: Path, name: string) {
    |e| >= 2 && e[|e| - 2] == "bin" && e[|e| - 1] == name && name != ".."
  }

  /** The candidates among the walked entries, in walk order. */
  function Candidates(walk: seq<Path>, name: string): seq<Path> {
    Filter(walk, e => IsCandidate(e, name))
  }

  /** An entry makes the search give up: the root itself, or a `..` entry in
      a `bin` directory. */
  predicate AbortsSearch(e: Path) {
    |e| == 0 || (|e| >= 2 && e[|e| - 2] == "bin" && e[|e| - 1] == "..")
  }

  /** The directory holding an entry. */
  function DirOf(e: Path): Path {
    if |e| == 0 then [] else e[..|e| - 1]
  }

  /** The key of a candidate: the version reported by the `rustc` in its
      directory. */
  function KeyOf(e: Path, probe: Path -> ProbeOutput): DateVersion {
    RustcVersion(probe(RustcPath(DirOf(e))))
  }

  function Paths(cs: seq<Component>): (ps: seq<Path>)
    ensures |ps| == |cs| && forall k :: 0 <= k < |cs| ==> ps[k] == cs[k].path
    decreases |cs|
  {
    if |cs| == 0 then [] else [cs[0].path] + Paths(cs[1..])
  }

  lemma VisitEntryCases(e: Path, name: string, probe: Path -> ProbeOutput)
    ensures VisitEntry(e, name, probe) == Abort <==> AbortsSearch(e)
    ensures VisitEntry(e, name, probe).Keep? <==> IsCandidate(e, name)
    ensures IsCandidate(e, name) ==> VisitEntry(e, name, probe) == Keep(Component(KeyOf(e, probe), e))
  {
    if |e| >= 1 {
      var parent := e[..|e| - 1];
      assert |e| >= 2 ==> parent[|parent| - 1] == e[|e| - 2];
    }
  }

  /** The loop gives up exactly when some walked entry makes it give up;
      otherwise it records precisely the candidates, in walk order, each with
      the key of the compiler next to it. */
  lemma {:induction false} ScanSpec(walk: seq<Path>, name: string, probe: Path -> ProbeOutput)
    ensures Scan(walk, name, probe).None? <==> exists i :: 0 <= i < |walk| && AbortsSearch(walk[i])
    ensures Scan(walk, name, probe).Some? ==>
      var cs := Scan(walk, name, probe).value;
      && Paths(cs) == Candidates(walk, name)
      && forall k :: 0 <= k < |cs| ==> cs[k].dateVers == KeyOf(cs[k].path, probe)
    decreases |walk|
  {
    if |walk| > 0 {
      VisitEntryCases(walk[0], name, probe);
      ScanSpec(walk[1..], name, probe);
      assert forall i :: 0 < i < |walk| ==> walk[i] == walk[1..][i - 1];
      if AbortsSearch(walk[0]) {
        assert Scan(walk, name, probe).None?;
      } else if IsCandidate(walk[0], name) {
        match Scan(walk[1..], name, probe)
        case None =>
        case Some(cs) =>
          var c := Component(KeyOf(walk[0], probe), walk[0]);
          assert ([c] + cs)[1..] == cs;
      }
    }
  }

  // ---------------------------------------------------------------------------
  // Selection

  /** `Le` on the keys of two components. */
  predicate KeyLe(a: Component, b: Component) {
    Le(a.dateVers, b.dateVers)
  }

  /** Insert `c` after every entry that does not rank above it (stable). */
  function Insert(sorted: seq<Component>, c: Component): (r: seq<Component>)
    ensures |r| == |sorted| + 1
    ensures multiset(r) == multiset(sorted) + multiset{c}
    decreases |sorted|
  {
    if |sorted| > 0 && Cmp(c.dateVers, sorted[|sorted| - 1].dateVers) == Less
    then
      assert sorted == sorted[..|sorted| - 1] + [sorted[|sorted| - 1]];
      Insert(sorted[..|sorted| - 1], c) + [sorted[|sorted| - 1]]
    else sorted + [c]
  }

  /** `components.sort_by(|a, b| a.date_vers.cmp(&b.date_vers))`, as a stable
      insertion sort. A stable sort's result is determined by the order it
      sorts by, so this gives the same sequence as Rust's merge sort. */
  function SortByKey(cs: seq<Component>): (sorted: seq<Component>)
    ensures |sorted| == |cs|
    ensures multiset(sorted) == multiset(cs)
    decreases |cs|
  {
    if |cs| == 0 then []
    else
      assert cs == cs[..|cs| - 1] + [cs[|cs| - 1]];
      Insert(SortByKey(cs[..|cs| - 1]), cs[|cs| - 1])
  }

  predicate SortedByKey(s: seq<Component>) {
    forall i, j :: 0 <= i < j < |s| ==> KeyLe(s[i], s[j])
  }

  lemma {:induction false} InsertSorted(sorted: seq<Component>, c: Component)
    requires SortedByKey(sorted)
    ensures SortedByKey(Insert(sorted, c))
    decreases |sorted|
  {
    var n := |sorted|;
    if n > 0 && Cmp(c.dateVers, sorted[n - 1].dateVers) == Less {
      var front, last := sorted[..n - 1], sorted[n - 1];
      assert forall k :: 0 <= k < n - 1 ==> front[k] == sorted[k];
      InsertSorted(front, c);
      var ins := Insert(front, c);
      forall i | 0 <= i < |ins| ensures KeyLe(ins[i], last) {
        InsertedFrom(front, c, ins[i]);
      }
      AppendSorted(ins, last);
    } else if n > 0 {
      var last := sorted[n - 1];
      NotLessIsGe(c.dateVers, last.dateVers);
      forall i | 0 <= i < n - 1 ensures KeyLe(sorted[i], c) {
        LeTransitive(sorted[i].dateVers, last.dateVers, c.dateVers);
      }
      AppendSorted(sorted, c);
    }
  }

  /** Appending an element that ranks at least as high as every element keeps
      the order. */
  lemma AppendSorted(s: seq<Component>, x: Component)
    requires SortedByKey(s)
    requires forall i :: 0 <= i < |s| ==> KeyLe(s[i], x)
    ensures SortedByKey(s + [x])
  {
    assert forall i :: 0 <= i < |s| ==> (s + [x])[i] == s[i];
  }

  lemma InsertedFrom(sorted: seq<Component>, c: Component, x: Component)
    requires x in Insert(sorted, c)
    ensures x == c || exists k :: 0 <= k < |sorted| && sorted[k] == x
  {
    assert x in multiset(Insert(sorted, c));
    if x != c {
      assert x in multiset(sorted);
    }
  }

  /** The sort orders the components by key (and, by its contract, keeps
      every one of them). */
  lemma {:induction false} SortByKeySorted(cs: seq<Component>)
    ensures SortedByKey(SortByKey(cs))
    decreases |cs|
  {
    if |cs| > 0 {
      var front := cs[..|cs| - 1];
      SortByKeySorted(front);
      InsertSorted(SortByKey(front), cs[|cs| - 1]);
    }
  }

  /** The keys of the components, in order. */
  function Keys(cs: seq<Component>): (keys: seq<DateVersion>)
    ensures |keys| == |cs| && forall k :: 0 <= k < |cs| ==> keys[k] == cs[k].dateVers
    decreases |cs|
  {
    if |cs| == 0 then [] else [cs[0].dateVers] + Keys(cs[1..])
  }

  /** `i` is the position of a maximal key with nothing after it ranking as
      high: the last maximum in enumeration order. */
  predicate IsLastMax(keys: seq<DateVersion>, i: int) {
    && 0 <= i < |keys|
    && (forall j :: 0 <= j < |keys| ==> Le(keys[j], keys[i]))
    && (forall j :: i < j < |keys| ==> Cmp(keys[j], keys[i]) == Less)
  }

  /** At most one position is the last maximum. */
  lemma LastMaxUnique(keys: seq<DateVersion>, i: int, i': int)
    requires IsLastMax(keys, i) && IsLastMax(keys, i')
    ensures i == i'
  {
    if i < i' {
      LessIsNotGe(keys[i'], keys[i]);
      assert false;
    } else if i' < i {
      LessIsNotGe(keys[i], keys[i']);
      assert false;
    }
  }

  /** A left-to-right scan for the last maximum: a later key replaces the
      current best unless it ranks strictly below it. */
  function LastMaxIndex(keys: seq<DateVersion>): (i: nat)
    requires |keys| > 0
    ensures IsLastMax(keys, i)
    decreases |keys|
  {
    var n := |keys|;
    if n == 1 then CmpReflexive(keys[0]); 0
    else
      var best := LastMaxIndex(keys[..n - 1]);
      LastMaxExtend(keys, best);
      if Cmp(keys[n - 1], keys[best]) == Less then best else n - 1
  }

  /** One step of the scan: the last maximum of all but the last key stays
      the last maximum unless the last key ranks at least as high, in which
      case the last key takes over. */
  lemma LastMaxExtend(keys: seq<DateVersion>, best: int)
    requires |keys| > 1 && IsLastMax(keys[..|keys| - 1], best)
    ensures Cmp(keys[|keys| - 1], keys[best]) == Less ==> IsLastMax(keys, best)
    ensures Cmp(keys[|keys| - 1], keys[best]) != Less ==> IsLastMax(keys, |keys| - 1)
  {
    var n := |keys|;
    var front := keys[..n - 1];
    assert forall j :: 0 <= j < n - 1 ==> keys[j] == front[j];
    if Cmp(keys[n - 1], keys[best]) == Less {
      LessIsNotGe(keys[n - 1], keys[best]);
      NotLessIsGe(keys[best], keys[n - 1]);
    } else {
      NotLessIsGe(keys[n - 1], keys[best]);
      CmpReflexive(keys[n - 1]);
      forall j | 0 <= j < n - 1 ensures Le(keys[j], keys[n - 1]) {
        LeTransitive(keys[j], keys[best], keys[n - 1]);
      }
    }
  }

  /** The last element of the sorted sequence is the last maximum. */
  lemma {:induction false} SortByKeyLast(cs: seq<Component>)
    requires |cs| > 0
    ensures SortByKey(cs)[|cs| - 1] == cs[LastMaxIndex(Keys(cs))]
    decreases |cs|
  {
    var n := |cs|;
    if n == 1 {
      assert SortByKey(cs) == Insert(SortByKey([]), cs[0]);
      assert LastMaxIndex(Keys(cs)) == 0;
    } else {
      var front, last := cs[..n - 1], cs[n - 1];
      SortByKeyLast(front);
      var b := LastMaxIndex(Keys(front));
      assert Keys(front) == Keys(cs)[..n - 1];
      assert LastMaxIndex(Keys(cs)) == if Cmp(last.dateVers, cs[b].dateVers) == Less then b else n - 1;
      assert SortByKey(front)[n - 2] == cs[b];
      assert SortByKey(cs) == Insert(SortByKey(front), last);
      InsertLast(SortByKey(front), last);
    }
  }

  /** The last element after an insertion: the old last one if the inserted
      component ranks strictly below it, the inserted one otherwise. */
  lemma InsertLast(sorted: seq<Component>, c: Component)
    requires |sorted| > 0
    ensures Insert(sorted, c)[|sorted|]
         == if Cmp(c.dateVers, sorted[|sorted| - 1].dateVers) == Less then sorted[|sorted| - 1] else c
  {}

  /** `components.pop()` after sorting: the path of the last maximum, or
      `None` when nothing was found. */
  function Select(cs: seq<Component>): Option<Path> {
    var sorted := SortByKey(cs);
    if |sorted| == 0 then None else Some(sorted[|sorted| - 1].path)
  }

  /** Selection fails exactly on no candidates; otherwise it returns the path
      of the candidate that ranks at least as high as every other and above
      every candidate after it. */
  lemma SelectSpec(cs: seq<Component>)
    ensures Select(cs).None? <==> |cs| == 0
    ensures Select(cs).Some? ==> Select(cs).value == cs[LastMaxIndex(Keys(cs))].path
  {
    if |cs| > 0 {
      SortByKeyLast(cs);
    }
  }

  /** Equal keys: the component enumerated last is returned. */
  lemma TieGoesToLast(k: DateVersion, p: Path, q: Path)
    ensures Select([Component(k, p), Component(k, q)]) == Some(q)
  {
    var cs := [Component(k, p), Component(k, q)];
    SelectSpec(cs);
    CmpReflexive(k);
    LastMaxUnique(Keys(cs), LastMaxIndex(Keys(cs)), 1);
  }

  /** A component whose key ranks strictly above every other component's is
      returned, wherever it stands. */
  lemma StrictMaxSelected(cs: seq<Component>, m: int)
    requires 0 <= m < |cs|
    requires forall j :: 0 <= j < |cs| && j != m ==> Cmp(cs[j].dateVers, cs[m].dateVers) == Less
    ensures Select(cs) == Some(cs[m].path)
  {
    var keys := Keys(cs);
    StrictMaxIsLastMax(keys, m);
    SelectSpec(cs);
    LastMaxUnique(keys, LastMaxIndex(keys), m);
  }

  lemma StrictMaxIsLastMax(keys: seq<DateVersion>, m: int)
    requires 0 <= m < |keys|
    requires forall j :: 0 <= j < |keys| && j != m ==> Cmp(keys[j], keys[m]) == Less
    ensures IsLastMax(keys, m)
  {
    CmpReflexive(keys[m]);
  }

  /** Three nightlies of one version dated 2019-02-20, 2019-02-24 and
      2019-01-10: the one dated 2019-02-24 wins. */
  lemma LatestNightlyWins(v: Version, p1: Path, p2: Path, p3: Path)
    ensures Select([Component(DateVersion(v, "2019-02-20"), p1),
                    Component(DateVersion(v, "2019-02-24"), p2),
                    Component(DateVersion(v, "2019-01-10"), p3)]) == Some(p2)
  {
    var cs := [Component(DateVersion(v, "2019-02-20"), p1),
               Component(DateVersion(v, "2019-02-24"), p2),
               Component(DateVersion(v, "2019-01-10"), p3)];
    NightlyDates(v);
    StrictMaxSelected(cs, 1);
  }

  lemma NightlyDates(v: Version)
    ensures Cmp(DateVersion(v, "2019-02-20"), DateVersion(v, "2019-02-24")) == Less
    ensures Cmp(DateVersion(v, "2019-01-10"), DateVersion(v, "2019-02-24")) == Less
  {
    PrecedenceTotalPreorder();
    CharCmpTotalOrder();
    LexEqual("2019-0", "2019-0", CharCmp);
    LexEqual("2019-02-2", "2019-02-2", CharCmp);
    assert StrCmp("2019-02-20", "2019-02-24") == Less;
    assert StrCmp("2019-01-10", "2019-02-24") == Less;
  }

  // ---------------------------------------------------------------------------
  // The whole search

  /** `find_installed_component(name)`: `home` is the result of
      `rustup_home()`, `entries` the readable filesystem entries in visiting
      order and `probe` the outcome of running `<path> -V`. */
  function FindInstalledComponent(home: Option<Path>, entries: seq<Path>, name: string, probe: Path -> ProbeOutput): Option<Path> {
    match home
    case None => None
    case Some(h) =>
      match Scan(Walk(h + ["toolchains"], entries), name, probe)
      case None => None
      case Some(cs) => Select(cs)
  }

  /** The entries the search considers: candidates within the walk. */
  function CandidatesOf(h: Path, entries: seq<Path>, name: string): seq<Path> {
    Candidates(Walk(h + ["toolchains"], entries), name)
  }

  /** Every walked entry lies below the toolchains directory, so none is the
      root; only a `..` entry in a `bin` directory could end the search
      early. */
  predicate NoParentEntries(entries: seq<Path>) {
    forall i :: 0 <= i < |entries| ==> |entries[i]| == 0 || entries[i][|entries[i]| - 1] != ".."
  }

  lemma WalkNeverAborts(h: Path, entries: seq<Path>, name: string, probe: Path -> ProbeOutput)
    requires NoParentEntries(entries)
    ensures Scan(Walk(h + ["toolchains"], entries), name, probe).Some?
  {
    var w := Walk(h + ["toolchains"], entries);
    ScanSpec(w, name, probe);
    forall i | 0 <= i < |w| ensures !AbortsSearch(w[i]) {
      assert w[i] in entries;
    }
  }

  /** The keys of the candidate paths, in order: the version of the
      compiler next to each. */
  function PathKeys(ps: seq<Path>, probe: Path -> ProbeOutput): (keys: seq<DateVersion>)
    ensures |keys| == |ps| && forall k :: 0 <= k < |ps| ==> keys[k] == KeyOf(ps[k], probe)
    decreases |ps|
  {
    if |ps| == 0 then [] else [KeyOf(ps[0], probe)] + PathKeys(ps[1..], probe)
  }

  /** Selection over the recorded components, stated on their paths. */
  lemma SelectCandidates(cs: seq<Component>, cands: seq<Path>, probe: Path -> ProbeOutput)
    requires Paths(cs) == cands
    requires forall k :: 0 <= k < |cs| ==> cs[k].dateVers == KeyOf(cs[k].path, probe)
    ensures Select(cs).None? <==> |cands| == 0
    ensures Select(cs).Some? ==> exists i :: IsLastMax(PathKeys(cands, probe), i) && Select(cs).value == cands[i]
  {
    SelectSpec(cs);
    assert Keys(cs) == PathKeys(cands, probe);
    if |cs| > 0 {
      var i := LastMaxIndex(Keys(cs));
      assert Select(cs).value == cands[i];
    }
  }

  /** With a home directory and a well-behaved walk, a path comes back exactly
      when some candidate exists; the path is a candidate under the
      toolchains directory that ranks at least as high as every other
      candidate, and the last such in walk order. */
  lemma FindInstalledComponentSpec(h: Path, entries: seq<Path>, name: string, probe: Path -> ProbeOutput)
    requires NoParentEntries(entries)
    ensures var found := FindInstalledComponent(Some(h), entries, name, probe);
      var cands := CandidatesOf(h, entries, name);
      && (found.None? <==> |cands| == 0)
      && (found.Some? ==>
            && found.value in entries
            && InWalk(h + ["toolchains"], found.value)
            && IsCandidate(found.value, name)
            && exists i :: IsLastMax(PathKeys(cands, probe), i) && found.value == cands[i])
  {
    var found := FindInstalledComponent(Some(h), entries, name, probe);
    var cands := CandidatesOf(h, entries, name);
    var cs := FindSelects(h, entries, name, probe);
    SelectCandidates(cs, cands, probe);
    if found.Some? {
      var i :| IsLastMax(PathKeys(cands, probe), i) && found.value == cands[i];
      CandidateFacts(h, entries, name, cands[i]);
    }
  }

  /** Without an early return the search selects among the recorded
      components `cs`, which are the candidates with their keys. */
  lemma FindSelects(h: Path, entries: seq<Path>, name: string, probe: Path -> ProbeOutput) returns (cs: seq<Component>)
    requires NoParentEntries(entries)
    ensures FindInstalledComponent(Some(h), entries, name, probe) == Select(cs)
    ensures Paths(cs) == CandidatesOf(h, entries, name)
    ensures forall k :: 0 <= k < |cs| ==> cs[k].dateVers == KeyOf(cs[k].path, probe)
  {
    var w := Walk(h + ["toolchains"], entries);
    WalkNeverAborts(h, entries, name, probe);
    ScanSpec(w, name, probe);
    cs := Scan(w, name, probe).value;
  }

  /** A candidate is an entry within the walk that names the component. */
  lemma CandidateFacts(h: Path, entries: seq<Path>, name: string, p: Path)
    requires p in CandidatesOf(h, entries, name)
    ensures p in entries && InWalk(h + ["toolchains"], p) && IsCandidate(p, name)
  {
    assert p in Walk(h + ["toolchains"], entries);
  }

  /** When the only candidates are `pa` and `pb`, `pb` is among them and its
      key ranks strictly above `pa`'s, the search returns `pb`. */
  lemma HigherOfTwoWins(h: Path, entries: seq<Path>, name: string, probe: Path -> ProbeOutput, pa: Path, pb: Path)
    requires NoParentEntries(entries)
    requires pb in CandidatesOf(h, entries, name)
    requires forall e :: e in CandidatesOf(h, entries, name) ==> e == pa || e == pb
    requires Cmp(KeyOf(pa, probe), KeyOf(pb, probe)) == Less
    ensures FindInstalledComponent(Some(h), entries, name, probe) == Some(pb)
  {
    var cands := CandidatesOf(h, entries, name);
    FindInstalledComponentSpec(h, entries, name, probe);
    var found := FindInstalledComponent(Some(h), entries, name, probe).value;
    var keys := PathKeys(cands, probe);
    var i :| IsLastMax(keys, i) && found == cands[i];
    var k :| 0 <= k < |cands| && cands[k] == pb;
    assert Le(keys[k], keys[i]);
    if found != pb {
      assert cands[i] in cands;
      LessIsNotGe(KeyOf(pa, probe), KeyOf(pb, probe));
      assert false;
    }
  }

  /** `<root>/<t>/bin/<name>`. */
  function ComponentPath(root: Path, t: string, name: string): Path {
    root + [t, "bin", name]
  }

  /** The entries of one toolchain directory `t` as the walk visits them:
      the directory, its `bin`, the compiler and the component. */
  function ToolchainEntries(root: Path, t: string, name: string): seq<Path> {
    [root + [t], root + [t, "bin"], root + [t, "bin", "rustc"], ComponentPath(root, t, name)]
  }

  /** In the entries of one toolchain directory the only candidate is its
      `bin/<name>`, and nothing ends in `..`. */
  lemma ToolchainEntriesShape(root: Path, t: string, name: string)
    requires |root| > 0 && root[|root| - 1] != "bin"
    requires t != ".." && name != ".." && name != "bin"
    ensures NoParentEntries(ToolchainEntries(root, t, name))
    ensures forall e :: e in ToolchainEntries(root, t, name) && IsCandidate(e, name) ==> e == ComponentPath(root, t, name)
    ensures forall e :: e in ToolchainEntries(root, t, name) ==> InWalk(root, e)
  {
    var es := ToolchainEntries(root, t, name);
    assert es[0][|es[0]| - 2] == root[|root| - 1];
    assert es[1][|es[1]| - 2] == t && es[1][|es[1]| - 1] == "bin";
    assert es[2][|es[2]| - 1] == "rustc" && es[3][|es[3]| - 1] == name;
    forall e | e in es ensures InWalk(root, e) {
      assert e[..|root|] == root;
    }
  }

  /** A toolchains directory holding two toolchains, `first` visited before
      `second`. */
  function TwoToolchains(root: Path, first: string, second: string, name: string): seq<Path> {
    [root] + ToolchainEntries(root, first, name) + ToolchainEntries(root, second, name)
  }

  /** In such a directory the candidates are exactly the two `bin/<name>`
      entries. */
  lemma TwoToolchainsShape(h: Path, first: string, second: string, name: string)
    requires first != ".." && second != ".." && name != ".." && name != "bin" && name != "toolchains"
    ensures var root := h + ["toolchains"];
      var entries := TwoToolchains(root, first, second, name);
      && NoParentEntries(entries)
      && ComponentPath(root, first, name) in CandidatesOf(h, entries, name)
      && ComponentPath(root, second, name) in CandidatesOf(h, entries, name)
      && forall e :: e in CandidatesOf(h, entries, name) ==> e == ComponentPath(root, first, name) || e == ComponentPath(root, second, name)
  {
    var root := h + ["toolchains"];
    var e1, e2 := ToolchainEntries(root, first, name), ToolchainEntries(root, second, name);
    var entries := TwoToolchains(root, first, second, name);
    ToolchainEntriesShape(root, first, name);
    ToolchainEntriesShape(root, second, name);
    TwoToolchainsMembers(root, first, second, name);
    assert !IsCandidate(root, name) by {
      assert root[|root| - 1] == "toolchains";
    }
    forall i | 0 <= i < |entries| ensures |entries[i]| == 0 || entries[i][|entries[i]| - 1] != ".." {
      assert entries[i] in entries;
    }
    assert e1[3] in e1 && e2[3] in e2;
    CandidateIn(h, entries, name, e1[3]);
    CandidateIn(h, entries, name, e2[3]);
    forall e | e in CandidatesOf(h, entries, name) ensures e == e1[3] || e == e2[3] {
      CandidateFacts(h, entries, name, e);
    }
  }

  lemma TwoToolchainsMembers(root: Path, first: string, second: string, name: string)
    ensures forall e :: e in TwoToolchains(root, first, second, name) <==>
      (e == root || e in ToolchainEntries(root, first, name) || e in ToolchainEntries(root, second, name))
  {}

  /** An entry within the walk that names the component is a candidate. */
  lemma CandidateIn(h: Path, entries: seq<Path>, name: string, p: Path)
    requires p in entries && InWalk(h + ["toolchains"], p) && IsCandidate(p, name)
    ensures p in CandidatesOf(h, entries, name)
  {
    assert p in Walk(h + ["toolchains"], entries);
  }

  /** Two toolchains `a` and `b`, each with `bin/rustc` and `bin/<name>`:
      the one whose compiler reports the higher key wins, in whichever order
      the walk visits them. */
  lemma HigherToolchainWins(h: Path, a: string, b: string, name: string, probe: Path -> ProbeOutput, aFirst: bool)
    requires a != ".." && b != ".." && name != ".." && name != "bin" && name != "toolchains"
    requires Cmp(KeyOf(ComponentPath(h + ["toolchains"], a, name), probe), KeyOf(ComponentPath(h + ["toolchains"], b, name), probe)) == Less
    ensures var root := h + ["toolchains"];
      var entries := if aFirst then TwoToolchains(root, a, b, name) else TwoToolchains(root, b, a, name);
      FindInstalledComponent(Some(h), entries, name, probe) == Some(ComponentPath(root, b, name))
  {
    var root := h + ["toolchains"];
    var pa, pb := ComponentPath(root, a, name), ComponentPath(root, b, name);
    var entries := if aFirst then TwoToolchains(root, a, b, name) else TwoToolchains(root, b, a, name);
    if aFirst {
      TwoToolchainsShape(h, a, b, name);
    } else {
      TwoToolchainsShape(h, b, a, name);
    }
    HigherOfTwoWins(h, entries, name, probe, pa, pb);
  }

  /** No home directory, or nothing to find: no path. */
  lemma NothingFound(home: Option<Path>, entries: seq<Path>, name: string, probe: Path -> ProbeOutput)
    requires home.None? || forall e :: e in entries ==> !(InWalk(home.value + ["toolchains"], e) && IsCandidate(e, name))
    ensures FindInstalledComponent(home, entries, name, probe) == None
  {
    if home.Some? {
      var w := Walk(home.value + ["toolchains"], entries);
      ScanSpec(w, name, probe);
      if Scan(w, name, probe).Some? {
        var cs := Scan(w, name, probe).value;
        FilterNone(w, e => IsCandidate(e, name));
        SelectSpec(cs);
      }
    }
  }
}
