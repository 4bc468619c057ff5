/**
 * The decoded JUnit report: one suite per input file, each holding an ordered
 * sequence of test cases. Only the parts the differ looks at are given
 * structure; everything else about a case is an opaque payload that is copied
 * through unchanged.
 */
module JUnit {

  datatype Option<+T> = None | Some(value: T)

  /** The `<skipped>` child element of a test case; its presence marks the case skipped. */
  datatype SkipMarker = SkipMarker(message: string)

  /** A `<failure>` or `<error>` child element of a test case. */
  datatype Problem = Problem(message: string, kind: string, description: string)

  /** The fields of a test case that the differ never inspects; its time is not modelled. */
  datatype CaseDetails = CaseDetails(
    classname: string, status: string, owner: string,
    failure: Option<Problem>, error: Option<Problem>,
    systemOut: string, systemErr: string)

  datatype TestCase = TestCase(name: string, skipped: Option<SkipMarker>, details: CaseDetails)
  {
    /** A case is skipped when it carries a skip marker, whatever the marker says. */
    predicate IsSkipped() {
      skipped.Some?
    }
  }

  /** One decoded input file. */
  datatype TestSuite = TestSuite(name: string, tests: int, failures: int, errors: int, testCases: seq<TestCase>)
}
