# junit-differ, modelled in Dafny

junit-differ compares two JUnit XML reports ("before" and "after") and writes
a third report holding only the test cases of the first report that are new
or whose skip status changed. This project models the differ at the heart of
the tool (`diffJUnitFiles`) and the choice of output destination
(`prepareOutput`), and proves what they compute.

- `junit.dfy`, module `JUnit`: the decoded report. A `TestCase` has a name,
  an optional `SkipMarker` (the `<skipped>` element; a case is skipped when
  the marker is present, whatever its message) and an opaque `CaseDetails`
  payload that is copied through unchanged. A `TestSuite` has a name, its
  counters and an ordered sequence of cases.
- `differ.dfy`, module `Differ`: the specification of the diff as functions
  (`SkipIndex`, the name to "is skipped" lookup in which a later case of the
  same name wins; `Kept`, the order-preserving filter; `SumFailures`,
  `SumErrors`); a reference definition of the diff that uses no map
  (`LastSkip`, a scan back from the end of the second suite; `DiffersFrom`;
  `Differing`; `DifferingPositions`), the declarative `IsLastOfName` and
  `NameConsistent`; the lemmas connecting them; and the imperative `DiffJUnitFiles`. That
  method fills a freshly allocated `DeprecatedJUnitTestSuite` object in
  place with the source's three loops. It builds the lookup map, appends kept
  cases while counting them, then accumulates failures and errors. Its
  contract ties every field to the specification functions.
- `output.dfy`, module `Output`: standard output for `-` or the empty
  argument, otherwise a file at the given path; failure to create that file
  is the only error.

Two consequences of the code are worth stating:

- `main` insists on exactly two arguments (junit-differ.go:28-29), but each
  argument is a glob that `loadJUnitFiles` expands (junit-differ.go:55), so
  the differ can receive more than two suites, or fewer. Extra suites are
  ignored by the case diff but still added into the failure and error totals
  (`DiffJUnitFiles`, `SumsAppend`). With fewer than two, a glob matching no
  file makes the indexing of the first two suites (junit-differ.go:88-89)
  panic, and `main` does not prevent it; the model excludes that case with
  `requires |suites| >= 2` on `DiffJUnitFiles`.
- Because the lookup keeps the last case of each name, two suites with the
  same name and skip pairs need not give an empty diff: a suite that lists a
  name both skipped and not skipped, diffed against itself, reports the
  occurrences whose status differs from the last one's
  (`SelfDiffOfConflictingNames`). `SelfDiffEmptyIff` proves that a suite
  diffed against itself is empty exactly when no name has both statuses, and
  `SamePairsGiveEmptyDiff` gives the condition under which equal pairs do
  yield an empty diff.

## Model

| member | source | states |
|---|---|---|
| `Differ.SkipIndex` | junit-differ.go:90-93 | a name is a key of the lookup exactly when some case of the second suite bears it |
| `Differ.SkipIndexLast` | junit-differ.go:90-93 | for every name, the lookup holds the skip status of the last case of the second suite with that name |
| `Differ.Kept` | junit-differ.go:94-100 | the filter keeps no more cases than it is given, and every kept case comes from the first suite and passes the keep test |
| `Differ.LastSkipIsLast` | junit-differ.go:90-93 | the backward scan finds the skip status of the last case bearing the name |
| `Differ.LastSkipNone` | junit-differ.go:90-93 | the backward scan finds nothing exactly when no case bears the name |
| `Differ.SkipIndexIsLastSkip` | junit-differ.go:90-93 | the map filled front to back with overwriting and the backward scan agree on every name: both absent, or both the same skip status |
| `Differ.ChangedIffDiffersFrom` | junit-differ.go:94-96 | the keep test on the lookup (name missing, or stored flag different) holds exactly when the second suite has no case of that name or its last such case has the other skip status |
| `Differ.DiffCasesIsDiffering` | junit-differ.go:88-100 | the diff computed through the lookup map equals the filter of the first suite's cases by the map-free test |
| `Differ.DifferingSelects` | junit-differ.go:94-100 | the map-free diff (equal to the diff by `DiffCasesIsDiffering`) is the first suite's cases, copied unchanged, at increasing positions, and a position is selected exactly when its case differs from the second suite; duplicates in the first suite are judged one by one |
| `Differ.KeptEmptyIff` | junit-differ.go:94-100 | the filter keeps nothing exactly when no case passes the keep test |
| `Differ.DiffEmptyIff` | junit-differ.go:88-100 | the diff is empty exactly when no case of the first suite differs from the second suite |
| `Differ.SamePairsGiveEmptyDiff` | junit-differ.go:90-99 | if the second suite never gives one name two skip statuses and holds every name and skip status pair of the first, the diff is empty |
| `Differ.SelfDiffEmptyIff` | junit-differ.go:90-99 | a suite's cases diffed against themselves give nothing exactly when no name is both skipped and not skipped |
| `Differ.SelfDiffOfConflictingNames` | junit-differ.go:90-99 | diffing the cases [t1 run, t1 skipped] against themselves reports the run t1, because the later skipped t1 wins the lookup |
| `Differ.SumsAppend` | junit-differ.go:103-107 | the failure and error totals over a list of suites split anywhere are the totals of the two parts added, so suites after the second still count |
| `Differ.TwoSuiteSums` | junit-differ.go:103-107 | with exactly two suites, the totals are the first suite's plus the second's |
| `Differ.DeprecatedJUnitTestSuite.constructor` | junit-differ.go:86 | a new result suite has no cases, an empty name and zero counters |
| `Differ.DiffJUnitFiles` | junit-differ.go:85-110 | given at least two suites, the result's cases are the diff of the first two suites' cases, `tests` equals the number of those cases, the name is "Diffed Test Suite", and failures and errors are summed over every suite passed in |
| `Output.Destination` | junit-differ.go:112-115 | standard output is chosen exactly for "-" or the empty string; any other argument selects a file at that very path |
| `Output.PrepareOutput` | junit-differ.go:112-121 | preparation fails exactly when a file destination is chosen and cannot be created; otherwise it yields the chosen destination |

## Left out

- `main` (junit-differ.go:15-51): the working-directory change taken from the environment, flag parsing, the two-argument check and the aborts on error are process plumbing.
- `loadJUnitFiles` (junit-differ.go:53-73): glob expansion, file opening and XML decoding are file I/O and a library codec; the loaded suites are a given sequence.
- `writeJunitFile` (junit-differ.go:123-131): XML encoding with two-space indentation through a library encoder.
- `Output.PrepareOutput`: the creation of the file is I/O; whether it succeeds is the parameter `canCreate`, and the opened handle is not modelled.
- `DiffJUnitFiles`: the `Time` total (junit-differ.go:104) is float64 arithmetic and is not modelled; the result has no `time` field.
- `DiffJUnitFiles`: does not model 64-bit wrap-around of `Tests`, `Failures` and `Errors`, because the counters are unbounded integers here.
- `DiffJUnitFiles`: the error result is always nil in the source, so the method has no error output.
- The other fields of a suite (package, disabled and skipped counts, timestamp, properties) are not read by the differ and are dropped.
- A test case's class name, status, owner, failure and error elements and captured output are kept in the opaque `CaseDetails` and copied unchanged; its `Time` (float64) is not modelled.
