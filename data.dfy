/** The part of the database context (Data/ApplicationDbContext.cs) that the
    submit endpoint touches: the Tests set, read, and the TestResults set,
    appended to. */
module Data {
  import opened Models

  class ApplicationDbContext {
    /** The stored tests, with their questions and options loaded. */
    var tests: seq<Test>
    /** The stored results, oldest first; rows are never updated or removed here. */
    var testResults: seq<TestResult>

    constructor (tests: seq<Test>, testResults: seq<TestResult>)
      ensures this.tests == tests && this.testResults == testResults
    {
      this.tests := tests;
      this.testResults := testResults;
    }

    /** `TestResults.Add(result)` followed by `SaveChangesAsync()`: the new row
        goes after every existing one, which all stay as they were. */
    method AddTestResult(result: TestResult)
      modifies this
      ensures testResults == old(testResults) + [result]
      ensures tests == old(tests)
    {
      testResults := testResults + [result];
    }
  }
}
