/**
 * The test-case diff of two JUnit suites: keep each case of the first suite
 * whose name does not occur in the second suite, or whose skip status differs
 * from the one the second suite records for that name (the last case of that
 * name wins). The counters of the result are the number of kept cases and the
 * failures and errors summed over every loaded suite.
 */
module Differ {
  import opened JUnit

  const DiffedSuiteName: string := "Diffed Test Suite"

  // ---------------------------------------------------------------------------
  // Specification functions
  // ---------------------------------------------------------------------------

  /** The name -> "is skipped" lookup built from `cases` front to back, so a later case overwrites an earlier one of the same name. */
  function SkipIndex(cases: seq<TestCase>): (index: map<string, bool>)
    ensures forall name :: name in index <==> exists i :: 0 <= i < |cases| && cases[i].name == name
  {
    if cases == [] then map[]
    else
      var n := |cases| - 1;
      assert forall i :: 0 <= i < n ==> cases[..n][i] == cases[i];
      SkipIndex(cases[..n])[cases[n].name := cases[n].IsSkipped()]
  }

  /** Whether a case of the first suite belongs in the diff, judged against the lookup of the second suite. */
  predicate Changed(tc: TestCase, index: map<string, bool>) {
    tc.name !in index || index[tc.name] != tc.IsSkipped()
  }

  /** The cases of `cases` that `Changed` keeps, in their original order. */
  function Kept(cases: seq<TestCase>, index: map<string, bool>): (kept: seq<TestCase>)
    ensures |kept| <= |cases|
    ensures forall k :: 0 <= k < |kept| ==> kept[k] in cases && Changed(kept[k], index)
  {
    if cases == [] then []
    else
      var n := |cases| - 1;
      Kept(cases[..n], index) + (if Changed(cases[n], index) then [cases[n]] else [])
  }

  /** The test cases of the diffed suite for first suite `a` and second suite `b`. */
  function DiffCases(a: seq<TestCase>, b: seq<TestCase>): seq<TestCase> {
    Kept(a, SkipIndex(b))
  }

  /** Failures summed over the suites in order. */
  function SumFailures(suites: seq<TestSuite>): int {
    if suites == [] then 0 else SumFailures(suites[..|suites| - 1]) + suites[|suites| - 1].failures
  }

  /** Errors summed over the suites in order. */
  function SumErrors(suites: seq<TestSuite>): int {
    if suites == [] then 0 else SumErrors(suites[..|suites| - 1]) + suites[|suites| - 1].errors
  }

  // ---------------------------------------------------------------------------
  // Reference definitions, stated on the second suite's cases directly
  // ---------------------------------------------------------------------------

  /** `j` is the position of the last case of `cases` that bears the name of `cases[j]`. */
  ghost predicate IsLastOfName(cases: seq<TestCase>, j: int) {
    0 <= j < |cases| && forall k :: j < k < |cases| ==> cases[k].name != cases[j].name
  }

  /** The skip status of the last case of `cases` named `name`, found by scanning back from the end; None when no case bears the name. */
  function LastSkip(cases: seq<TestCase>, name: string): Option<bool> {
    if cases == [] then None
    else if cases[|cases| - 1].name == name then Some(cases[|cases| - 1].IsSkipped())
    else LastSkip(cases[..|cases| - 1], name)
  }

  /** `tc` is new with respect to `b`, or its skip status differs from that of the last case of `b` with its name. */
  predicate DiffersFrom(tc: TestCase, b: seq<TestCase>) {
    LastSkip(b, tc.name) != Some(tc.IsSkipped())
  }

  /** The cases of `a` that differ from `b`, in their original order: the diff stated without the lookup map. */
  function Differing(a: seq<TestCase>, b: seq<TestCase>): seq<TestCase> {
    if a == [] then []
    else
      var n := |a| - 1;
      Differing(a[..n], b) + (if DiffersFrom(a[n], b) then [a[n]] else [])
  }

  /** No two cases of `cases` share a name but disagree on being skipped. */
  ghost predicate NameConsistent(cases: seq<TestCase>) {
    forall i, j :: 0 <= i < |cases| && 0 <= j < |cases| && cases[i].name == cases[j].name ==>
      cases[i].IsSkipped() == cases[j].IsSkipped()
  }

  /** The positions of `a` whose cases differ from `b`: increasing, and exactly those positions. */
  ghost function DifferingPositions(a: seq<TestCase>, b: seq<TestCase>): (ps: seq<int>)
    ensures forall k :: 0 <= k < |ps| ==> 0 <= ps[k] < |a| && DiffersFrom(a[ps[k]], b)
    ensures forall k, l :: 0 <= k < l < |ps| ==> ps[k] < ps[l]
    ensures forall i {:trigger i in ps} :: 0 <= i < |a| && DiffersFrom(a[i], b) ==> i in ps
  {
    if a == [] then []
    else
      var n := |a| - 1;
      var prefix := DifferingPositions(a[..n], b);
      assert forall i :: 0 <= i < n ==> a[..n][i] == a[i];
      prefix + (if DiffersFrom(a[n], b) then [n] else [])
  }

  // ---------------------------------------------------------------------------
  // The lookup agrees with the last case of each name
  // ---------------------------------------------------------------------------

  lemma {:induction false} SkipIndexLast(cases: seq<TestCase>, j: int)
    requires IsLastOfName(cases, j)
    ensures cases[j].name in SkipIndex(cases)
    ensures SkipIndex(cases)[cases[j].name] == cases[j].IsSkipped()
  {
    var n := |cases| - 1;
    if j < n {
      assert cases[n].name != cases[j].name;
      assert IsLastOfName(cases[..n], j) by {
        forall k | j < k < n ensures cases[..n][k].name != cases[..n][j].name {
          assert cases[..n][k] == cases[k];
        }
      }
      SkipIndexLast(cases[..n], j);
      assert cases[..n][j] == cases[j];
    }
  }

  lemma {:induction false} LastOccurrence(cases: seq<TestCase>, name: string) returns (j: int)
    requires exists i :: 0 <= i < |cases| && cases[i].name == name
    ensures IsLastOfName(cases, j) && cases[j].name == name
  {
    var n := |cases| - 1;
    if cases[n].name == name {
      j := n;
    } else {
      var i :| 0 <= i < |cases| && cases[i].name == name;
      assert cases[..n][i] == cases[i];
      j := LastOccurrence(cases[..n], name);
      assert cases[j] == cases[..n][j];
      forall k | j < k < |cases| ensures cases[k].name != cases[j].name {
        if k < n { assert cases[k] == cases[..n][k]; }
      }
    }
  }

  lemma {:induction false} LastSkipIsLast(cases: seq<TestCase>, j: int)
    requires IsLastOfName(cases, j)
    ensures LastSkip(cases, cases[j].name) == Some(cases[j].IsSkipped())
  {
    var n := |cases| - 1;
    if j < n {
      assert cases[n].name != cases[j].name;
      assert IsLastOfName(cases[..n], j) by {
        forall k | j < k < n ensures cases[..n][k].name != cases[..n][j].name {
          assert cases[..n][k] == cases[k];
        }
      }
      LastSkipIsLast(cases[..n], j);
      assert cases[..n][j] == cases[j];
    }
  }

  lemma {:induction false} LastSkipNone(cases: seq<TestCase>, name: string)
    ensures LastSkip(cases, name) == None <==> forall k :: 0 <= k < |cases| ==> cases[k].name != name
  {
    if cases != [] {
      var n := |cases| - 1;
      LastSkipNone(cases[..n], name);
      assert forall k :: 0 <= k < n ==> cases[..n][k] == cases[k];
    }
  }

  /** Filling the map front to back and scanning the cases back to front find the same skip status for every name. */
  lemma {:induction false} SkipIndexIsLastSkip(cases: seq<TestCase>, name: string)
    ensures name in SkipIndex(cases) ==> LastSkip(cases, name) == Some(SkipIndex(cases)[name])
    ensures name !in SkipIndex(cases) ==> LastSkip(cases, name) == None
  {
    if cases != [] {
      SkipIndexIsLastSkip(cases[..|cases| - 1], name);
    }
  }

  /** The keep test on the lookup is the one stated on the second suite's cases. */
  lemma {:induction false} ChangedIffDiffersFrom(tc: TestCase, b: seq<TestCase>)
    ensures Changed(tc, SkipIndex(b)) <==> DiffersFrom(tc, b)
  {
    SkipIndexIsLastSkip(b, tc.name);
  }

  /** The diff computed through the lookup map is the diff stated on the second suite's cases. */
  lemma {:induction false} DiffCasesIsDiffering(a: seq<TestCase>, b: seq<TestCase>)
    ensures DiffCases(a, b) == Differing(a, b)
  {
    if a != [] {
      var n := |a| - 1;
      DiffCasesIsDiffering(a[..n], b);
      ChangedIffDiffersFrom(a[n], b);
    }
  }

  // ---------------------------------------------------------------------------
  // The kept cases are the changed ones, in order and unchanged
  // ---------------------------------------------------------------------------

  /**
   * The diff is a selection of the cases of `a`, copied unchanged, at
   * increasing positions, where position `i` is selected exactly when `a[i]`
   * differs from `b`. Duplicates in `a` are judged one position at a time.
   */
  lemma {:induction false} DifferingSelects(a: seq<TestCase>, b: seq<TestCase>)
    ensures |Differing(a, b)| == |DifferingPositions(a, b)|
    ensures forall k :: 0 <= k < |DifferingPositions(a, b)| ==>
      Differing(a, b)[k] == a[DifferingPositions(a, b)[k]]
  {
    if a != [] {
      var n := |a| - 1;
      var kept, ps := Differing(a[..n], b), DifferingPositions(a[..n], b);
      DifferingSelects(a[..n], b);
      var tail: seq<TestCase> := if DiffersFrom(a[n], b) then [a[n]] else [];
      var tailPs: seq<int> := if DiffersFrom(a[n], b) then [n] else [];
      assert Differing(a, b) == kept + tail;
      assert DifferingPositions(a, b) == ps + tailPs;
      forall k | 0 <= k < |ps| ensures (kept + tail)[k] == a[(ps + tailPs)[k]] {
        assert a[..n][ps[k]] == a[ps[k]];
      }
    }
  }

  lemma {:induction false} KeptEmptyIff(cases: seq<TestCase>, index: map<string, bool>)
    ensures Kept(cases, index) == [] <==> forall i :: 0 <= i < |cases| ==> !Changed(cases[i], index)
  {
    if cases != [] {
      var n := |cases| - 1;
      KeptEmptyIff(cases[..n], index);
      assert forall i :: 0 <= i < n ==> cases[..n][i] == cases[i];
    }
  }

  /** The diff is empty exactly when no case of `a` differs from `b`. */
  lemma DiffEmptyIff(a: seq<TestCase>, b: seq<TestCase>)
    ensures DiffCases(a, b) == [] <==> forall i :: 0 <= i < |a| ==> !DiffersFrom(a[i], b)
  {
    KeptEmptyIff(a, SkipIndex(b));
    forall i | 0 <= i < |a| ensures Changed(a[i], SkipIndex(b)) <==> DiffersFrom(a[i], b) {
      ChangedIffDiffersFrom(a[i], b);
    }
  }

  /**
   * When the second suite never records one name as both skipped and not
   * skipped, and every case of the first suite appears in it with the same
   * name and skip status, the diff is empty.
   */
  lemma SamePairsGiveEmptyDiff(a: seq<TestCase>, b: seq<TestCase>)
    requires NameConsistent(b)
    requires forall i :: 0 <= i < |a| ==>
      exists j :: 0 <= j < |b| && b[j].name == a[i].name && b[j].IsSkipped() == a[i].IsSkipped()
    ensures DiffCases(a, b) == []
  {
    var index := SkipIndex(b);
    forall i | 0 <= i < |a| ensures !Changed(a[i], index) {
      var j :| 0 <= j < |b| && b[j].name == a[i].name && b[j].IsSkipped() == a[i].IsSkipped();
      var last := LastOccurrence(b, a[i].name);
      SkipIndexLast(b, last);
    }
    KeptEmptyIff(a, index);
  }

  /**
   * Diffing a suite against itself yields nothing exactly when the suite
   * never has one name both skipped and not skipped: with such a name, the
   * occurrences whose status differs from the last one's are reported.
   */
  lemma SelfDiffEmptyIff(a: seq<TestCase>)
    ensures DiffCases(a, a) == [] <==> NameConsistent(a)
  {
    var index := SkipIndex(a);
    if NameConsistent(a) {
      SamePairsGiveEmptyDiff(a, a);
    } else {
      var i, j :| 0 <= i < |a| && 0 <= j < |a| && a[i].name == a[j].name && a[i].IsSkipped() != a[j].IsSkipped();
      var last := LastOccurrence(a, a[i].name);
      SkipIndexLast(a, last);
      KeptEmptyIff(a, index);
      assert Changed(a[i], index) || Changed(a[j], index);
    }
  }

  /** A suite with one name both unskipped and then skipped, diffed against itself, reports the unskipped case. */
  lemma SelfDiffOfConflictingNames(details: CaseDetails)
    ensures var run := TestCase("t1", None, details);
      var skip := TestCase("t1", Some(SkipMarker("")), details);
      DiffCases([run, skip], [run, skip]) == [run]
  {
    var run := TestCase("t1", None, details);
    var skip := TestCase("t1", Some(SkipMarker("")), details);
    assert [run, skip][..1] == [run];
    assert [run][..0] == [];
    assert SkipIndex([run]) == map["t1" := false];
    assert SkipIndex([run, skip]) == map["t1" := true];
    assert Kept([run], map["t1" := true]) == [run];
  }

  // ---------------------------------------------------------------------------
  // Totals
  // ---------------------------------------------------------------------------

  /** Totals over a list of suites split anywhere are the sum of the totals of the parts, so suites after the second still count. */
  lemma {:induction false} SumsAppend(s: seq<TestSuite>, t: seq<TestSuite>)
    ensures SumFailures(s + t) == SumFailures(s) + SumFailures(t)
    ensures SumErrors(s + t) == SumErrors(s) + SumErrors(t)
  {
    if t != [] {
      var n := |t| - 1;
      assert (s + t)[..|s + t| - 1] == s + t[..n];
      assert (s + t)[|s + t| - 1] == t[n];
      SumsAppend(s, t[..n]);
    } else {
      assert s + t == s;
    }
  }

  /** With exactly two suites the totals are those of the two added up. */
  lemma TwoSuiteSums(first: TestSuite, second: TestSuite)
    ensures SumFailures([first, second]) == first.failures + second.failures
    ensures SumErrors([first, second]) == first.errors + second.errors
  {
    assert [first, second][..1] == [first];
    assert [first][..0] == [];
    assert SumFailures([first]) == first.failures && SumErrors([first]) == first.errors;
  }

  // ---------------------------------------------------------------------------
  // The diffed suite, updated in place as the source does
  // ---------------------------------------------------------------------------

  /** The result suite; every field starts at its zero value and is filled in by DiffJUnitFiles. */
  class DeprecatedJUnitTestSuite {
    var testCases: seq<TestCase>
    var name: string
    var tests: int
    var failures: int
    var errors: int

    constructor ()
      ensures testCases == [] && name == "" && tests == 0 && failures == 0 && errors == 0
    {
      testCases := [];
      name := "";
      tests := 0;
      failures := 0;
      errors := 0;
    }
  }

  /**
   * Diffs the first two loaded suites and totals all of them. The source
   * indexes the first two suites without checking how many there are, so at
   * least two are required; its error result is always nil and is not modelled.
   */
  method DiffJUnitFiles(suites: seq<TestSuite>) returns (result: DeprecatedJUnitTestSuite)
    requires |suites| >= 2
    ensures fresh(result)
    ensures result.testCases == DiffCases(suites[0].testCases, suites[1].testCases)
    ensures result.tests == |result.testCases|
    ensures result.name == DiffedSuiteName
    ensures result.failures == SumFailures(suites) && result.errors == SumErrors(suites)
  {
    result := new DeprecatedJUnitTestSuite();

    var a := suites[0].testCases;
    var b := suites[1].testCases;
    var m: map<string, bool> := map[];
    for i := 0 to |b|
      invariant m == SkipIndex(b[..i])
    {
      assert b[..i + 1][..i] == b[..i];
      m := m[b[i].name := b[i].IsSkipped()];
    }
    assert b[..|b|] == b;

    for i := 0 to |a|
      invariant result.testCases == Kept(a[..i], m)
      invariant result.tests == |result.testCases|
      invariant result.failures == 0 && result.errors == 0
    {
      assert a[..i + 1][..i] == a[..i];
      var tc := a[i];
      var skipped := tc.IsSkipped();
      if tc.name !in m || skipped != m[tc.name] {
        result.testCases := result.testCases + [tc];
        result.tests := result.tests + 1;
      }
    }
    assert a[..|a|] == a;

    result.name := DiffedSuiteName;
    for i := 0 to |suites|
      invariant result.failures == SumFailures(suites[..i])
      invariant result.errors == SumErrors(suites[..i])
      invariant result.testCases == DiffCases(a, b)
      invariant result.tests == |result.testCases|
      invariant result.name == DiffedSuiteName
    {
      assert suites[..i + 1][..i] == suites[..i];
      result.failures := result.failures + suites[i].failures;
      result.errors := result.errors + suites[i].errors;
    }
    assert suites[..|suites|] == suites;
  }
}
