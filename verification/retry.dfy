/** The retry analyser: a counter that lets a failed test be re-run at most
    `MaxRetryCount` times, and the names of the test-result status codes. */
module Retry {
  import opened Wrappers

  const MaxRetryCount: nat := 2

  /** The analyser's state: how many retries it has granted. */
  datatype Analyzer = Analyzer(retryCount: int)

  /** A freshly constructed analyser. */
  const Fresh: Analyzer := Analyzer(0)

  /** The invariant the analyser keeps. */
  predicate Valid(a: Analyzer) {
    0 <= a.retryCount <= MaxRetryCount
  }

  /** What `retry` reads of the test result it is given, for its log line: whether
      `getName()` and `getStatus()` answer. A null result, or one whose accessors
      throw, is `accessible == false`. */
  datatype TestResult = TestResult(accessible: bool)

  /** `retry`: grant another run, counting it, while fewer than `MaxRetryCount`
      runs were granted; afterwards refuse and leave the count alone. When the log
      line cannot be built, the exception is caught before the count is raised and
      the call refuses. */
  function Retry(a: Analyzer, test: TestResult): (r: (Analyzer, bool))
    ensures r.1 <==> a.retryCount < MaxRetryCount && test.accessible
    ensures r.0.retryCount >= a.retryCount
    ensures r.1 ==> r.0.retryCount == a.retryCount + 1
    ensures !r.1 ==> r.0 == a
    ensures Valid(a) ==> Valid(r.0)
  {
    if a.retryCount < MaxRetryCount then
      if test.accessible then (Analyzer(a.retryCount + 1), true) else (a, false)
    else (a, false)
  }

  /** The answers of successive calls on `tests`, starting from `a`. */
  function Run(a: Analyzer, tests: seq<TestResult>): (r: seq<bool>)
    ensures |r| == |tests|
    decreases |tests|
  {
    if |tests| == 0 then []
    else
      var (next, granted) := Retry(a, tests[0]);
      [granted] + Run(next, tests[1..])
  }

  /** The state after successive calls on `tests`. */
  function After(a: Analyzer, tests: seq<TestResult>): Analyzer
    decreases |tests|
  {
    if |tests| == 0 then a else After(Retry(a, tests[0]).0, tests[1..])
  }

  /** The count never decreases and the invariant holds after any number of calls. */
  lemma {:induction false} AfterKeepsInvariant(a: Analyzer, tests: seq<TestResult>)
    requires Valid(a)
    ensures Valid(After(a, tests))
    ensures After(a, tests).retryCount >= a.retryCount
    decreases |tests|
  {
    if |tests| > 0 {
      AfterKeepsInvariant(Retry(a, tests[0]).0, tests[1..]);
    }
  }

  predicate AllAccessible(tests: seq<TestResult>) {
    forall i | 0 <= i < |tests| :: tests[i].accessible
  }

  /** From a valid state with count `c`, on results that can be read, call i is
      granted exactly when i < MaxRetryCount - c. */
  lemma {:induction false} RunFrom(a: Analyzer, tests: seq<TestResult>)
    requires Valid(a) && AllAccessible(tests)
    ensures forall i | 0 <= i < |tests| :: Run(a, tests)[i] <==> i < MaxRetryCount - a.retryCount
    decreases |tests|
  {
    if |tests| > 0 {
      var next := Retry(a, tests[0]).0;
      assert AllAccessible(tests[1..]) by {
        forall i | 0 <= i < |tests| - 1
          ensures tests[1..][i].accessible
        {
          assert tests[1..][i] == tests[i + 1];
        }
      }
      RunFrom(next, tests[1..]);
      forall i | 1 <= i < |tests|
        ensures Run(a, tests)[i] == Run(next, tests[1..])[i - 1]
      {
      }
    }
  }

  /** A fresh analyser grants the first two calls and refuses every later one. */
  lemma FreshRun(tests: seq<TestResult>)
    requires AllAccessible(tests)
    ensures forall i | 0 <= i < |tests| :: Run(Fresh, tests)[i] <==> i < MaxRetryCount
  {
    RunFrom(Fresh, tests);
  }

  function CountGranted(s: seq<bool>): nat
    decreases |s|
  {
    if |s| == 0 then 0 else (if s[0] then 1 else 0) + CountGranted(s[1..])
  }

  function CountAccessible(tests: seq<TestResult>): nat
    decreases |tests|
  {
    if |tests| == 0 then 0 else (if tests[0].accessible then 1 else 0) + CountAccessible(tests[1..])
  }

  /** Of the calls on a fresh analyser, min(k, MaxRetryCount) are granted, where k is
      the number of results that can be read: never more than two in all. */
  lemma FreshGrantedCount(tests: seq<TestResult>)
    ensures CountGranted(Run(Fresh, tests))
            == if CountAccessible(tests) < MaxRetryCount then CountAccessible(tests) else MaxRetryCount
  {
    GrantedCountFrom(Fresh, tests);
  }

  lemma {:induction false} GrantedCountFrom(a: Analyzer, tests: seq<TestResult>)
    requires Valid(a)
    ensures var left := MaxRetryCount - a.retryCount;
            CountGranted(Run(a, tests)) == if CountAccessible(tests) < left then CountAccessible(tests) else left
    decreases |tests|
  {
    if |tests| > 0 {
      var (next, granted) := Retry(a, tests[0]);
      GrantedCountFrom(next, tests[1..]);
      assert Run(a, tests)[1..] == Run(next, tests[1..]);
    }
  }

  /** `getResultStatusName`: the TestNG status codes 1, 2 and 3 by name; any other
      code has no name (`null`). */
  function ResultStatusName(status: int): (r: Option<string>)
    ensures r.Some? <==> 1 <= status <= 3
    ensures r.Some? ==> StatusCode(r.value) == Some(status)
  {
    if status == 1 then Some("SUCCESS")
    else if status == 2 then Some("FAILURE")
    else if status == 3 then Some("SKIP")
    else None
  }

  /** The TestNG status code a status name stands for. */
  function StatusCode(name: string): Option<int> {
    if name == "SUCCESS" then Some(1)
    else if name == "FAILURE" then Some(2)
    else if name == "SKIP" then Some(3)
    else None
  }

  /** The status naming is a bijection between {1, 2, 3} and the three names. */
  lemma StatusNameRoundTrip(name: string)
    ensures StatusCode(name).Some? ==> ResultStatusName(StatusCode(name).value) == Some(name)
  {
  }
}
