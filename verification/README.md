# toolchain_find: which installed toolchain provides a component

`toolchain_find` answers one question: which installed Rust toolchain
provides a given component binary (for example `rustfmt`)? It answers it in
`find_installed_component`, which works in four steps:

1. It walks `<rustup home>/toolchains` to depth three.
2. It records every entry `<...>/bin/<name>`, together with the version that
   the `rustc` in the same `bin` directory reports.
3. It sorts the records by that version, stably.
4. It returns the last record after the sort.

This project models that logic in Dafny and proves what it does. The model
has four parts:

- **The ranking key** (`DateVersion` and its `Ord::cmp`). Two keys are
  compared by semantic-version precedence first, and by the date text when
  the versions have equal precedence.
  - Precedence follows section 11 of Semantic Versioning 2.0.0.
  - Build metadata is ignored, so precedence is a total *preorder*.
  - The key comparison is a total preorder, and its `Equal` means "same
    precedence and same date".
- **Reading `rustc -V` output** (`rustc_version`, after the process has
  run). The output is split at every single space.
  - With more than three pieces, the second piece is parsed as a version,
    with 0.0.0 as the fallback.
  - The fourth piece, with trailing whitespace and then trailing `)`
    removed, becomes the date.
  - Anything else gives 0.0.0 with an empty date.
  - Running the process is not modelled: its outcome is an input. That
    outcome is a launch failure, output that is not UTF-8, or some text.
- **Candidate collection** (the `for` loop). The walk is an input: the
  readable filesystem entries in visiting order, each a path of
  components. An entry is recorded when its parent's last component is
  `bin` and its file name is the component name. Its key is the version of
  the `rustc` beside it.
  - The two `?` operators on `parent()` and `file_name()` return early from
    the whole function. The model keeps that behaviour.
- **Selection** (`sort_by` then `pop`). The model sorts with a stable
  insertion sort. A stable sort's output is fixed by the order it sorts
  by, so this gives the same sequence as Rust's merge sort. The result is
  the last maximal candidate in walk order, or nothing when there are no
  candidates.

Modules follow this structure:

| module | file | contents |
|---|---|---|
| `Wrappers` | wrappers.dfy | `Option` |
| `Orderings` | ordering.dfy | `Ordering`, order laws, lexicographic order on sequences and strings |
| `Text` | text.dfy | `split` on one character, `trim_end` / `trim_end_matches`, decimal numbers |
| `SemVer` | semver.dfy | versions, precedence, a parser and printer for version text |
| `DateVersions` | date_version.dfy | the ranking key and its comparison |
| `RustcProbe` | rustc_probe.dfy | turning `rustc -V` output into a key |
| `Toolchains` | toolchains.dfy | the walk, candidate collection, sorting and selection |

## Model

| member | source | states |
|---|---|---|
| Orderings.StrCmpTotalOrder | src/lib.rs:27 | Comparing dates as strings is a total order: swapping the arguments flips the answer, "not greater" is transitive, and `Equal` holds only for identical text. |
| Orderings.PrefixSortsFirst | src/lib.rs:27 | A date that is a proper prefix of another sorts before it. |
| SemVer.PrecedenceTotalPreorder | src/lib.rs:25 | Version precedence is antisymmetric under swapping and transitive. It answers `Equal` exactly when the versions agree on everything but build metadata. |
| SemVer.PreReleaseBelowRelease | src/lib.rs:25 | A pre-release ranks below the release with the same core version. |
| SemVer.PrecedenceExampleChain | src/lib.rs:25 | The seven-step example chain of section 11.4 (1.0.0-alpha up to 1.0.0) is ordered as the standard says. |
| SemVer.Parse | src/lib.rs:73 | Whatever the parser accepts is a well-formed version: numbers below 2^64 and non-empty, valid identifiers. |
| SemVer.ParseFormat | src/lib.rs:73 | Printing any well-formed version and parsing the text gives back that version, pre-release and build metadata included. |
| DateVersions.CmpTotalPreorder | src/lib.rs:23-31 | The key comparison is antisymmetric under swapping and transitive. It answers `Equal` exactly when precedence is equal and the dates are the same text. |
| DateVersions.CmpReflexive | src/lib.rs:23-31 | Every key compares `Equal` with itself. |
| DateVersions.VersionDominatesDate | src/lib.rs:25-29 | When the versions differ in precedence, the answer is the version comparison, whatever the two dates are, and it is never `Equal`. |
| DateVersions.DateBreaksTies | src/lib.rs:26-27 | When the versions have equal precedence, the answer is the string comparison of the dates. It is `Equal` exactly when the dates are identical. |
| DateVersions.LaterDateRanksHigher | src/lib.rs:26-27 | For the same version, a key dated "2019-04-20" ranks above one dated "2019-04-17". |
| DateVersions.HigherVersionRanksHigher | src/lib.rs:24-29 | Version 1.2.3 ranks above 1.1.0, whatever the dates. |
| Text.SplitOn | src/lib.rs:71 | Splitting yields at least one piece, and no piece contains the separator. |
| Text.JoinSplit | src/lib.rs:71 | Gluing the pieces back together with the separator gives the original text. |
| Text.SplitJoin | src/lib.rs:71 | Pieces that do not contain the separator, once joined, split back into the same pieces. |
| Text.TrimEndWhile | src/lib.rs:74-75 | The trimmed text is a prefix of the input. Everything cut off satisfies the predicate. The kept text does not end in a character that satisfies it. |
| Text.TrimEndWhileUnique | src/lib.rs:74-75 | Those three properties determine the trimmed text uniquely. |
| RustcProbe.SplitCount | src/lib.rs:71-72 | The split yields one more piece than there are spaces in the output. |
| RustcProbe.FewSpacesGiveUnknown | src/lib.rs:71-79 | Output with fewer than three spaces gives version 0.0.0 and an empty date. |
| RustcProbe.ManySpacesGiveFields | src/lib.rs:71-77 | With at least three spaces, the version is the second piece parsed, or 0.0.0 when parsing fails. The date is the fourth piece with its tail cut off, as described by `IsDateOf`. |
| RustcProbe.DateFieldIsDate | src/lib.rs:74-76 | The extracted date is the fourth piece minus a tail that is a run of `)` followed by a run of whitespace, and neither run could be longer. |
| RustcProbe.DateFieldUnique | src/lib.rs:74-76 | Exactly one string fits that description, namely the extracted date. |
| RustcProbe.UnreadableProbeGivesUnknown | src/lib.rs:65-81 | A compiler that cannot be launched gives version 0.0.0 with an empty date. So does one whose output is not UTF-8. |
| RustcProbe.FourWordOutput | src/lib.rs:71-77 | Output made of four space-free words gives the second word as the version and the cleaned fourth word as the date. |
| RustcProbe.StableOutputExample | src/lib.rs:67-77 | `rustc 1.32.0 (9fda7c223 2019-01-16)` with a final newline gives 1.32.0 dated "2019-01-16". |
| RustcProbe.NightlyOutputExample | src/lib.rs:71-77 | `rustc 1.34.0-nightly (00aae71f5 2019-02-25)` gives 1.34.0-nightly dated "2019-02-25". |
| RustcProbe.VersionOnlyOutputExample | src/lib.rs:71-79 | `rustc 1.35.0-dev` has too few pieces, so its version is lost: the result is 0.0.0 with an empty date. |
| RustcProbe.UnparsableVersionKeepsDate | src/lib.rs:73-77 | A version that does not parse becomes 0.0.0, and the date is still taken. |
| RustcProbe.UnknownKeyRank | src/lib.rs:79-81 | The key of an unreadable compiler ranks at or below a key exactly when that key is not a pre-release of 0.0.0. |
| Toolchains.Filter | src/lib.rs:93-96 | The walk keeps exactly the entries that satisfy the test, and never more than it was given. |
| Toolchains.VisitEntryCases | src/lib.rs:98-111 | An entry makes the loop return early exactly when it is the filesystem root or a `..` inside a `bin` directory. It is recorded exactly when it is `<...>/bin/<name>`. It is recorded with the key of the `rustc` beside it. |
| Toolchains.ScanSpec | src/lib.rs:93-114 | The loop returns early exactly when some walked entry makes it do so. Otherwise it records precisely the candidates, in walk order, each with the key of its `bin/rustc`. |
| Toolchains.WalkNeverAborts | src/lib.rs:98-100 | A walk below the toolchains directory with no `..` entries never returns early. |
| Toolchains.SortByKey | src/lib.rs:117 | The sort keeps every component, as a permutation, and keeps the length. |
| Toolchains.SortByKeySorted | src/lib.rs:117 | The sort's output is ordered by key. |
| Toolchains.InsertSorted | src/lib.rs:117 | Inserting into an ordered sequence keeps it ordered. |
| Toolchains.LastMaxIndex | src/lib.rs:116-121 | A reference scan for the last maximum: the position it returns satisfies `IsLastMax`. |
| Toolchains.LastMaxUnique | src/lib.rs:116-121 | At most one position is the last maximum. |
| Toolchains.SortByKeyLast | src/lib.rs:117-120 | The last element after the stable sort is the last maximum of the unsorted sequence. |
| Toolchains.SelectSpec | src/lib.rs:116-123 | Sorting and then popping gives nothing exactly when there are no components. Otherwise it gives the path of the last maximum. |
| Toolchains.TieGoesToLast | src/lib.rs:117-120 | Of two components with equal keys, the one enumerated second is returned. |
| Toolchains.StrictMaxSelected | src/lib.rs:117-120 | A component whose key ranks strictly above all others is returned, wherever it stands. |
| Toolchains.LatestNightlyWins | src/lib.rs:117-120 | Of three nightlies of one version dated 2019-02-20, 2019-02-24 and 2019-01-10, the one dated 2019-02-24 is returned. |
| Toolchains.SelectCandidates | src/lib.rs:108-123 | Selection over the recorded components is the last maximum over the candidate paths ranked by their compilers' keys. |
| Toolchains.FindInstalledComponentSpec | src/lib.rs:88-124 | The search finds nothing exactly when there is no candidate. When it finds a path, that path is an entry within the walk. It is `<...>/bin/<name>`, it ranks at least as high as every candidate, and it ranks strictly above every candidate walked after it. |
| Toolchains.HigherToolchainWins | src/lib.rs:88-124 | With two toolchains that both provide the component, the one whose compiler reports the higher key wins, in either walk order. |
| Toolchains.NothingFound | src/lib.rs:88-124 | Without a home directory, or without any candidate in the walk, the search returns nothing. |

## Left out

- `rustup_home` (src/lib.rs:46-58) reads the environment and the home directory. Its result is an input (`home: Option<Path>`).
- Spawning `rustc -V` (src/lib.rs:65) is an effect. Its outcome is an input `probe` per compiler path: a launch failure, output that is not UTF-8, or text.
- `String::from_utf8` is not modelled byte by byte. Output is either text or not UTF-8, and not-UTF-8 becomes the empty string, as `unwrap_or_default` does.
- The `WalkDir` traversal and its error skipping (src/lib.rs:93-96) read the filesystem. The readable entries in visiting order are an input. The depth limit of three is applied to them. Whether an entry is a file or a directory is not distinguished, because the code does not look at it.
- Paths are absolute, as sequences of components below `/`. Component names (`OsStr` in the code) are modelled as Dafny strings.
- SemVer.Parse: this is a small parser for `MAJOR.MINOR.PATCH[-PRE][+BUILD]` that rejects leading zeros and numbers of 2^64 or more. It is proved well-formed and inverse to printing, but it is not claimed to agree with the `semver` crate's parser on every malformed input. The crate is not part of this model.
- Behaviour the code does not have, although a reader might expect it, is modelled as the code has it:
  - there is no "no version" key;
  - output with only a version (`rustc 1.35.0-dev`) loses its version;
  - an unreadable compiler gets 0.0.0, which ranks *above* 0.0.0 pre-releases (`RustcProbe.UnknownKeyRank`);
  - no `.exe` suffix is added to the component name or to `rustc` on Windows.
- Concurrency, timing and the `Debug` derivations are not modelled.
