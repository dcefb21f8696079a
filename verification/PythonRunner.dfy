/** The Python runner: bounded capture of a test's output, and the loop that runs all tests under one
    deadline. Time passes only while a test runs; the clock is a real number of seconds. */
module PythonRunner {
  import opened Wrappers

  const MAX_STREAM := 65536

  /** The first characters of a text. */
  function Bounded(text: string, limit: nat): string {
    if |text| <= limit then text else text[..limit]
  }

  // ----- Captured output -----

  class BoundedText {
    const limit: nat
    var contents: string
    var written: nat
    var truncated: bool
    /** Everything ever written. */
    ghost var everything: string

    ghost predicate Valid()
      reads this
    {
      && contents == Bounded(everything, limit) && written == |contents|
      && (truncated <==> |everything| > limit)
    }

    constructor (limit: nat)
      ensures Valid() && everything == "" && this.limit == limit
    {
      this.limit, contents, written, truncated, everything := limit, "", 0, false, "";
    }

    method Write(value: string) returns (count: nat)
      requires Valid()
      modifies this
      ensures Valid() && everything == old(everything) + value && count == |value|
    {
      var remaining := if limit > written then limit - written else 0;
      if remaining > 0 {
        contents := contents + Bounded(value, remaining);
        written := written + if |value| < remaining then |value| else remaining;
      }
      if |value| > remaining {
        truncated := true;
      }
      everything := everything + value;
      return |value|;
    }
  }

  function Join(parts: seq<string>): string {
    if parts == [] then "" else Join(parts[..|parts| - 1]) + parts[|parts| - 1]
  }

  function TotalLength(parts: seq<string>): (n: nat)
    ensures n == |Join(parts)|
  {
    if parts == [] then 0 else TotalLength(parts[..|parts| - 1]) + |parts[|parts| - 1]|
  }

  lemma JoinAppend(parts: seq<string>, part: string)
    ensures Join(parts + [part]) == Join(parts) + part
  {
    assert (parts + [part])[..|parts|] == parts;
  }

  /** However output is cut into writes, what is captured is the beginning of all of it, marked exactly
      when there was more. */
  method Capture(limit: nat, writes: seq<string>) returns (contents: string, truncated: bool)
    ensures contents == Bounded(Join(writes), limit)
    ensures truncated <==> |Join(writes)| > limit
  {
    var captured := new BoundedText(limit);
    for i := 0 to |writes|
      invariant fresh(captured) && captured.Valid() && captured.limit == limit
      invariant captured.everything == Join(writes[..i])
    {
      assert writes[..i + 1] == writes[..i] + [writes[i]];
      JoinAppend(writes[..i], writes[i]);
      var _ := captured.Write(writes[i]);
    }
    assert writes[..|writes|] == writes;
    return captured.contents, captured.truncated;
  }

  // ----- The tests -----

  datatype Visibility = Public | Hidden

  datatype Test = Test(id: string, visibility: Visibility)

  /** What running one test gives: the child's report, its raw error stream, its exit code and how long
      it took. */
  datatype Execution = Execution(ok: bool, errorCategory: Option<string>, stdout: string, stderr: string,
                                 rawStderr: string, exitCode: int, seconds: real)

  datatype TestResult = TestResult(id: string, visibility: Visibility, ok: bool, errorCategory: Option<string>)

  datatype Status = Completed | TimedOut

  datatype Response = Response(status: Status, exitCode: int, tests: seq<TestResult>, stdout: string, stderr: string,
                               stdoutTruncated: bool, stderrTruncated: bool)

  function ReportsTimeout(e: Execution): bool {
    e.errorCategory == Some("timeout")
  }

  function ResultOf(test: Test, e: Execution): TestResult {
    TestResult(test.id, test.visibility, e.ok, if e.errorCategory == Some("") then None else e.errorCategory)
  }

  /** `math.ceil`. */
  function Ceiling(x: real): (n: int)
    ensures n as real - 1.0 < x <= n as real
  {
    -((-x).Floor)
  }

  /** A test given `budget` seconds uses no more, unless it is killed for it, which may take `grace`
      seconds on top. */
  ghost predicate RespectsBudget(e: Execution, budget: int, grace: real) {
    0.0 <= e.seconds <= budget as real + if ReportsTimeout(e) then grace else 0.0
  }

  /** One request: its tests, what running the test of a given number under a given budget gives, and
      the times it started at and has. */
  datatype Job = Job(tests: seq<Test>, execute: (nat, int) -> Execution, started: real, timeoutSeconds: int) {
    function Deadline(): real {
      started + timeoutSeconds as real
    }
  }

  // ----- Specification -----

  /** What is left until the deadline, rounded up to whole seconds and at least one. */
  function Budget(job: Job, now: real): (budget: int)
    ensures budget >= 1
    ensures now < job.Deadline() ==> now + budget as real < job.Deadline() + 1.0
    ensures job.timeoutSeconds >= 1 ==> budget <= job.timeoutSeconds
    ensures job.timeoutSeconds >= 1 && now < job.Deadline() ==>
      now + budget as real >= job.Deadline() || budget == job.timeoutSeconds
  {
    var remaining := job.Deadline() - now;
    var least := if Ceiling(remaining) < job.timeoutSeconds then Ceiling(remaining) else job.timeoutSeconds;
    if least < 1 then 1 else least
  }

  /** When test `n` would start, if all before it ran. */
  ghost function StartOf(job: Job, n: nat): real
    decreases n, 0
  {
    if n == 0 then job.started else StartOf(job, n - 1) + Ran(job, n - 1).seconds
  }

  ghost function Ran(job: Job, i: nat): Execution
    decreases i, 1
  {
    job.execute(i, Budget(job, StartOf(job, i)))
  }

  /** The first `n` tests ran and no others: each started before the deadline and after one that did not
      time out, and the run stopped early for one of these reasons only. */
  ghost predicate RanExactly(job: Job, n: nat, stopped: bool) {
    && n <= |job.tests|
    && (forall i :: 0 <= i < n ==> StartOf(job, i) < job.Deadline())
    && (forall i :: 0 <= i < n - 1 ==> !ReportsTimeout(Ran(job, i)))
    && (stopped <==> LastTimedOut(job, n) || (n < |job.tests| && StartOf(job, n) >= job.Deadline()))
    && (!stopped ==> n == |job.tests|)
  }

  ghost predicate LastTimedOut(job: Job, n: nat) {
    n > 0 && ReportsTimeout(Ran(job, n - 1))
  }

  ghost predicate RespectsBudgets(job: Job, grace: real) {
    grace >= 0.0 && forall i, budget :: budget >= 1 ==> RespectsBudget(job.execute(i, budget), budget, grace)
  }

  /** What the first `n` tests, as far as they are public, put on the output stream. */
  ghost function PublicOutput(job: Job, n: nat): string
    requires n <= |job.tests|
  {
    if n == 0 then ""
    else PublicOutput(job, n - 1) + if job.tests[n - 1].visibility == Public then Ran(job, n - 1).stdout else ""
  }

  ghost function PublicErrors(job: Job, n: nat): string
    requires n <= |job.tests|
  {
    if n == 0 then ""
    else PublicErrors(job, n - 1) +
         if job.tests[n - 1].visibility == Public then Ran(job, n - 1).stderr + Ran(job, n - 1).rawStderr else ""
  }

  ghost predicate IsResponse(job: Job, n: nat, response: Response)
    requires n <= |job.tests|
  {
    && |response.tests| == n
    && (forall i :: 0 <= i < n ==> response.tests[i] == ResultOf(job.tests[i], Ran(job, i)))
    && response.exitCode == (if n == 0 then 0 else Ran(job, n - 1).exitCode)
    && response.stdout == Bounded(PublicOutput(job, n), MAX_STREAM)
    && response.stderr == Bounded(PublicErrors(job, n), MAX_STREAM)
    && (response.stdoutTruncated <==> |PublicOutput(job, n)| > MAX_STREAM)
    && (response.stderrTruncated <==> |PublicErrors(job, n)| > MAX_STREAM)
  }

  /** The run ended after `n` tests, less than a second after the deadline and, if the last test was killed,
      one grace. */
  ghost predicate HasEnded(job: Job, n: nat, stopped: bool, ended: real, grace: real) {
    && RanExactly(job, n, stopped) && ended == StartOf(job, n)
    && (job.timeoutSeconds >= 0 ==> ended < job.Deadline() + 1.0 + if LastTimedOut(job, n) then grace else 0.0)
  }

  // ----- Program -----

  /** `run_request`, and when it ends. */
  method RunRequest(job: Job, ghost grace: real) returns (response: Response, ended: real)
    requires RespectsBudgets(job, grace)
    ensures
      var n := |response.tests|;
      HasEnded(job, n, response.status == TimedOut, ended, grace) && IsResponse(job, n, response)
    ensures job.timeoutSeconds >= 0 ==> ended < job.started + job.timeoutSeconds as real + 1.0 + grace
    ensures job.timeoutSeconds >= 0 && (response.tests == [] || !LastTimedOut(job, |response.tests|)) ==>
      ended < job.started + job.timeoutSeconds as real + 1.0
  {
    var status, lastExitCode, results, stdoutParts, stderrParts;
    status, lastExitCode, results, stdoutParts, stderrParts, ended := RunTests(job, grace);
    response := Response(status, lastExitCode, results, Bounded(Join(stdoutParts), MAX_STREAM),
                         Bounded(Join(stderrParts), MAX_STREAM),
                         TotalLength(stdoutParts) > MAX_STREAM, TotalLength(stderrParts) > MAX_STREAM);
  }

  /** The loop over the tests. */
  method RunTests(job: Job, ghost grace: real)
    returns (status: Status, lastExitCode: int, results: seq<TestResult>, stdoutParts: seq<string>,
             stderrParts: seq<string>, ended: real)
    requires RespectsBudgets(job, grace)
    ensures
      var n := |results|;
      && HasEnded(job, n, status == TimedOut, ended, grace)
      && Gathered(job, n, results, lastExitCode, stdoutParts, stderrParts)
  {
    status, lastExitCode, results, stdoutParts, stderrParts := Completed, 0, [], [], [];
    var now := job.started;
    for i := 0 to |job.tests|
      invariant status == Completed && InTime(job, i, now)
      invariant Gathered(job, i, results, lastExitCode, stdoutParts, stderrParts)
    {
      var item := job.tests[i];
      EndsHere(job, i, now, grace);
      if job.Deadline() - now <= 0.0 {
        return TimedOut, lastExitCode, results, stdoutParts, stderrParts, now;
      }
      var e := job.execute(i, Budget(job, now));
      OneMoreInTime(job, i, now, grace);
      Gathers(job, i, results, lastExitCode, stdoutParts, stderrParts);
      now, lastExitCode, results := now + e.seconds, e.exitCode, results + [ResultOf(item, e)];
      stdoutParts, stderrParts := Collect(item, e, stdoutParts, stderrParts);
      if ReportsTimeout(e) {
        return TimedOut, lastExitCode, results, stdoutParts, stderrParts, now;
      }
    }
    EndsHere(job, |job.tests|, now, grace);
    return status, lastExitCode, results, stdoutParts, stderrParts, now;
  }

  /** The streams of a public test join the parts. */
  method Collect(item: Test, e: Execution, stdoutParts0: seq<string>, stderrParts0: seq<string>)
    returns (stdoutParts: seq<string>, stderrParts: seq<string>)
    ensures stdoutParts == WithOutput(item, e, stdoutParts0) && stderrParts == WithErrors(item, e, stderrParts0)
  {
    stdoutParts, stderrParts := stdoutParts0, stderrParts0;
    if item.visibility == Public {
      stdoutParts, stderrParts := stdoutParts + [e.stdout], stderrParts + [e.stderr];
      if e.rawStderr != "" {
        stderrParts := stderrParts + [e.rawStderr];
      }
    }
  }

  function WithOutput(item: Test, e: Execution, parts: seq<string>): seq<string> {
    if item.visibility == Public then parts + [e.stdout] else parts
  }

  function WithErrors(item: Test, e: Execution, parts: seq<string>): seq<string> {
    if item.visibility == Hidden then parts
    else if e.rawStderr == "" then parts + [e.stderr]
    else parts + [e.stderr] + [e.rawStderr]
  }

  /** The first `n` tests ran, none timed out, and the last was started before the deadline. */
  ghost predicate InTime(job: Job, n: nat, now: real) {
    && now == StartOf(job, n)
    && (forall i :: 0 <= i < n ==> StartOf(job, i) < job.Deadline() && !ReportsTimeout(Ran(job, i)))
    && (job.timeoutSeconds >= 0 ==> now < job.Deadline() + 1.0)
  }

  lemma EndsHere(job: Job, n: nat, now: real, grace: real)
    requires n <= |job.tests| && grace >= 0.0 && InTime(job, n, now)
    ensures n == |job.tests| ==> HasEnded(job, n, false, now, grace)
    ensures n < |job.tests| && now >= job.Deadline() ==> HasEnded(job, n, true, now, grace)
  {
  }

  lemma OneMoreInTime(job: Job, n: nat, now: real, grace: real)
    requires n < |job.tests| && RespectsBudgets(job, grace) && InTime(job, n, now) && now < job.Deadline()
    ensures
      var e := Ran(job, n);
      if ReportsTimeout(e) then HasEnded(job, n + 1, true, now + e.seconds, grace)
      else InTime(job, n + 1, now + e.seconds)
  {
    var e, budget := Ran(job, n), Budget(job, now);
    assert RespectsBudget(job.execute(n, budget), budget, grace);
  }

  /** What the loop has collected from the first `n` tests. */
  ghost predicate Gathered(job: Job, n: nat, results: seq<TestResult>, lastExitCode: int, stdoutParts: seq<string>,
                           stderrParts: seq<string>)
  {
    && n <= |job.tests| && |results| == n
    && (forall i :: 0 <= i < n ==> results[i] == ResultOf(job.tests[i], Ran(job, i)))
    && lastExitCode == (if n == 0 then 0 else Ran(job, n - 1).exitCode)
    && Join(stdoutParts) == PublicOutput(job, n) && Join(stderrParts) == PublicErrors(job, n)
  }

  lemma Gathers(job: Job, n: nat, results: seq<TestResult>, lastExitCode: int, stdoutParts: seq<string>,
                stderrParts: seq<string>)
    requires n < |job.tests| && Gathered(job, n, results, lastExitCode, stdoutParts, stderrParts)
    ensures
      var item, e := job.tests[n], Ran(job, n);
      Gathered(job, n + 1, results + [ResultOf(item, e)], e.exitCode, WithOutput(item, e, stdoutParts),
               WithErrors(item, e, stderrParts))
  {
    var e := Ran(job, n);
    if job.tests[n].visibility == Public {
      JoinAppend(stdoutParts, e.stdout);
      JoinTwo(stderrParts, e.stderr, e.rawStderr);
    }
  }

  lemma JoinTwo(parts: seq<string>, part: string, next: string)
    ensures Join(if next == "" then parts + [part] else parts + [part] + [next]) == Join(parts) + (part + next)
  {
    JoinAppend(parts, part);
    if next == "" {
      assert part + next == part;
    } else {
      var longer := parts + [part];
      JoinAppend(longer, next);
      assert Join(parts) + part + next == Join(parts) + (part + next);
    }
  }

  // ----- How far a run goes -----

  /** Which tests run, and whether the run is stopped, is settled by the request alone. */
  lemma CourseIsUnique(job: Job, m: nat, n: nat, stoppedAtM: bool, stoppedAtN: bool)
    requires RanExactly(job, m, stoppedAtM) && RanExactly(job, n, stoppedAtN)
    ensures m == n && stoppedAtM == stoppedAtN
  {
    StillGoing(job, m, n, stoppedAtN);
    StillGoing(job, n, m, stoppedAtM);
  }

  lemma StillGoing(job: Job, m: nat, n: nat, stopped: bool)
    requires RanExactly(job, n, stopped)
    ensures m < n ==> StartOf(job, m) < job.Deadline() && !LastTimedOut(job, m)
  {
  }

  // ----- What a test is given -----

  /** Given the time it takes or more, the test executes like this. */
  ghost predicate Takes(job: Job, i: nat, e: Execution) {
    forall budget: int :: e.seconds <= budget as real ==> job.execute(i, budget) == e
  }

  /** Seconds taken by the first `n` executions. */
  ghost function Seconds(executions: seq<Execution>, n: nat): real
    requires n <= |executions|
  {
    if n == 0 then 0.0 else Seconds(executions, n - 1) + executions[n - 1].seconds
  }

  /** No test is cut short before the deadline: one that would end by then, and within the time of the whole
      request, is executed and reported as if there were no limit. */
  lemma TestInTimeIsReported(job: Job, response: Response, i: nat, e: Execution)
    requires Answers(job, response) && i < |response.tests| && Takes(job, i, e)
    requires StartOf(job, i) + e.seconds <= job.started + job.timeoutSeconds as real
    requires e.seconds <= job.timeoutSeconds as real && 1 <= job.timeoutSeconds
    ensures Ran(job, i) == e
    ensures response.tests[i].id == job.tests[i].id && response.tests[i].visibility == job.tests[i].visibility
    ensures response.tests[i].ok == e.ok
    ensures response.tests[i].errorCategory == if e.errorCategory == Some("") then None else e.errorCategory
    ensures i == |response.tests| - 1 ==> response.exitCode == e.exitCode
  {
    assert StartOf(job, i) < job.Deadline();
    var budget := Budget(job, StartOf(job, i));
    assert job.execute(i, budget) == e;
  }

  /** If all tests together fit into the time of the request and none reports a timeout of its own, all are
      reported and the run completes. */
  lemma RunInTimeCompletes(job: Job, executions: seq<Execution>, response: Response)
    requires Answers(job, response) && |executions| == |job.tests|
    requires forall i :: 0 <= i < |executions| ==> InTimeAt(job, executions, i)
    ensures response.status == Completed && |response.tests| == |job.tests|
    ensures forall i :: 0 <= i < |job.tests| ==> Ran(job, i) == executions[i]
  {
    forall i | 0 <= i < |job.tests|
      ensures Ran(job, i) == executions[i] && StartOf(job, i) < job.Deadline() && !ReportsTimeout(Ran(job, i))
    {
      StartInTime(job, executions, i);
      assert InTimeAt(job, executions, i);
    }
  }

  /** Test `i` takes the time of its execution, with those before it starts before the deadline, ends by it,
      and reports no timeout. */
  ghost predicate InTimeAt(job: Job, executions: seq<Execution>, i: nat)
    requires i < |executions|
  {
    && Takes(job, i, executions[i]) && executions[i].errorCategory != Some("timeout") && 0.0 <= executions[i].seconds
    && Seconds(executions, i) < job.timeoutSeconds as real && Seconds(executions, i + 1) <= job.timeoutSeconds as real
  }

  lemma {:induction false} StartInTime(job: Job, executions: seq<Execution>, n: nat)
    requires n < |executions| && forall i :: 0 <= i <= n ==> InTimeAt(job, executions, i)
    ensures StartOf(job, n) == job.started + Seconds(executions, n) && 0.0 <= Seconds(executions, n)
    ensures Ran(job, n) == executions[n] && StartOf(job, n) < job.Deadline()
  {
    if n > 0 {
      StartInTime(job, executions, n - 1);
      assert InTimeAt(job, executions, n - 1);
    }
    assert InTimeAt(job, executions, n);
    assert Seconds(executions, n + 1) == Seconds(executions, n) + executions[n].seconds;
    var budget := Budget(job, StartOf(job, n));
    assert job.execute(n, budget) == executions[n];
  }

  /** The streams are the first 65536 characters of what the public tests that ran printed, in their order, each
      test's own errors before those of its process. */
  lemma StreamsTell(job: Job, response: Response)
    requires Answers(job, response)
    ensures
      var n := |response.tests|;
      var output := Join(seq(n, i requires 0 <= i < n =>
        if job.tests[i].visibility == Public then Ran(job, i).stdout else ""));
      && response.stdout == (if |output| <= 65536 then output else output[..65536])
      && (response.stdoutTruncated <==> |output| > 65536)
    ensures
      var n := |response.tests|;
      var errors := Join(seq(n, i requires 0 <= i < n =>
        if job.tests[i].visibility == Public then Ran(job, i).stderr + Ran(job, i).rawStderr else ""));
      && response.stderr == (if |errors| <= 65536 then errors else errors[..65536])
      && (response.stderrTruncated <==> |errors| > 65536)
  {
    OutputIsJoined(job, |response.tests|);
    ErrorsAreJoined(job, |response.tests|);
  }

  lemma {:induction false} OutputIsJoined(job: Job, n: nat)
    requires n <= |job.tests|
    ensures PublicOutput(job, n) == Join(seq(n, i requires 0 <= i < n =>
      if job.tests[i].visibility == Public then Ran(job, i).stdout else ""))
  {
    if n > 0 {
      OutputIsJoined(job, n - 1);
      var part := if job.tests[n - 1].visibility == Public then Ran(job, n - 1).stdout else "";
      var before := seq(n - 1, i requires 0 <= i < n - 1 =>
        if job.tests[i].visibility == Public then Ran(job, i).stdout else "");
      JoinAppend(before, part);
      assert before + [part] == seq(n, i requires 0 <= i < n =>
        if job.tests[i].visibility == Public then Ran(job, i).stdout else "");
    }
  }

  lemma {:induction false} ErrorsAreJoined(job: Job, n: nat)
    requires n <= |job.tests|
    ensures PublicErrors(job, n) == Join(seq(n, i requires 0 <= i < n =>
      if job.tests[i].visibility == Public then Ran(job, i).stderr + Ran(job, i).rawStderr else ""))
  {
    if n > 0 {
      ErrorsAreJoined(job, n - 1);
      var e := Ran(job, n - 1);
      var part := if job.tests[n - 1].visibility == Public then e.stderr + e.rawStderr else "";
      var before := seq(n - 1, i requires 0 <= i < n - 1 =>
        if job.tests[i].visibility == Public then Ran(job, i).stderr + Ran(job, i).rawStderr else "");
      JoinAppend(before, part);
      assert before + [part] == seq(n, i requires 0 <= i < n =>
        if job.tests[i].visibility == Public then Ran(job, i).stderr + Ran(job, i).rawStderr else "");
    }
  }

  // ----- What hidden tests show -----

  /** No hidden test comes before a public one. */
  ghost predicate PublicFirst(tests: seq<Test>) {
    forall i, j :: 0 <= i < j < |tests| && tests[j].visibility == Public ==> tests[i].visibility == Public
  }

  /** Two requests with the same tests and times whose public tests execute alike, whatever the budget. */
  ghost predicate AgreeOnPublic(a: Job, b: Job) {
    && a.tests == b.tests && a.started == b.started && a.timeoutSeconds == b.timeoutSeconds
    && forall i, budget :: 0 <= i < |a.tests| && a.tests[i].visibility == Public ==> SameExecution(a, b, i, budget)
  }

  ghost predicate SameExecution(a: Job, b: Job, i: nat, budget: int) {
    a.execute(i, budget) == b.execute(i, budget)
  }

  /** The response is what a run of the request gives. */
  ghost predicate Answers(job: Job, response: Response) {
    RanExactly(job, |response.tests|, response.status == TimedOut) && IsResponse(job, |response.tests|, response)
  }

  ghost predicate SameStreams(r: Response, q: Response) {
    && r.stdout == q.stdout && (r.stdoutTruncated <==> q.stdoutTruncated)
    && r.stderr == q.stderr && (r.stderrTruncated <==> q.stderrTruncated)
  }

  /** The first `p` tests are public. */
  ghost predicate ArePublic(tests: seq<Test>, p: nat) {
    p <= |tests| && forall i :: 0 <= i < p ==> tests[i].visibility == Public
  }

  /** Up to its first hidden test a run does not depend on the hidden ones. */
  lemma {:induction false} SameStart(a: Job, b: Job, p: nat, n: nat)
    requires AgreeOnPublic(a, b) && ArePublic(a.tests, p) && n <= p
    ensures StartOf(a, n) == StartOf(b, n)
    ensures n < p ==> Ran(a, n) == Ran(b, n)
  {
    if n > 0 {
      SameStart(a, b, p, n - 1);
    }
    assert n < p ==> SameExecution(a, b, n, Budget(a, StartOf(a, n)));
  }

  lemma {:induction false} SamePublicOutput(a: Job, b: Job, p: nat, n: nat)
    requires AgreeOnPublic(a, b) && ArePublic(a.tests, p) && n <= p
    ensures PublicOutput(a, n) == PublicOutput(b, n) && PublicErrors(a, n) == PublicErrors(b, n)
  {
    if n > 0 {
      SamePublicOutput(a, b, p, n - 1);
      SameStart(a, b, p, n - 1);
    }
  }

  /** Hidden tests behind the public ones add nothing. */
  lemma {:induction false} HiddenAddNothing(job: Job, p: nat, n: nat)
    requires p <= n <= |job.tests| && forall i :: p <= i < n ==> job.tests[i].visibility == Hidden
    ensures PublicOutput(job, n) == PublicOutput(job, p) && PublicErrors(job, n) == PublicErrors(job, p)
  {
    if n > p {
      HiddenAddNothing(job, p, n - 1);
    }
  }

  /** A run that ends within the public prefix ends there whatever the hidden tests do. */
  lemma EndsAlike(a: Job, b: Job, p: nat, n: nat, stopped: bool)
    requires AgreeOnPublic(a, b) && ArePublic(a.tests, p) && n < p && RanExactly(a, n, stopped)
    ensures RanExactly(b, n, stopped)
  {
    forall i | 0 <= i <= n
      ensures StartOf(a, i) == StartOf(b, i) && Ran(a, i) == Ran(b, i)
    {
      SameStart(a, b, p, i);
    }
  }

  /** How many tests are public before the first hidden one. */
  lemma {:induction false} PublicPrefix(tests: seq<Test>, n: nat) returns (p: nat)
    requires PublicFirst(tests) && n <= |tests|
    ensures p <= n && ArePublic(tests, p) && forall i :: p <= i < n ==> tests[i].visibility == Hidden
  {
    if n == 0 {
      p := 0;
    } else if tests[n - 1].visibility == Public {
      p := n;
    } else {
      p := PublicPrefix(tests, n - 1);
    }
  }

  /** If one of two runs ends within the public prefix, both end at the same test. */
  lemma EndTogether(a: Job, b: Job, p: nat, r: Response, q: Response)
    requires AgreeOnPublic(a, b) && ArePublic(a.tests, p) && Answers(a, r) && Answers(b, q)
    ensures |r.tests| < p ==> |q.tests| == |r.tests|
  {
    if |r.tests| < p {
      EndsAlike(a, b, p, |r.tests|, r.status == TimedOut);
      CourseIsUnique(b, |r.tests|, |q.tests|, r.status == TimedOut, q.status == TimedOut);
    }
  }

  /** With no hidden test before a public one, the public tests alone decide the streams and flags. */
  lemma PublicFirstGivesSameStreams(a: Job, b: Job, r: Response, q: Response)
    requires PublicFirst(a.tests) && AgreeOnPublic(a, b) && Answers(a, r) && Answers(b, q)
    ensures SameStreams(r, q)
  {
    var m, n := |r.tests|, |q.tests|;
    var p := PublicPrefix(a.tests, |a.tests|);
    assert AgreeOnPublic(b, a) by {
      forall i, budget | 0 <= i < |a.tests| && a.tests[i].visibility == Public
        ensures SameExecution(b, a, i, budget)
      {
        assert SameExecution(a, b, i, budget);
      }
    }
    EndTogether(a, b, p, r, q);
    EndTogether(b, a, p, q, r);
    if m < p {
      SamePublicOutput(a, b, p, m);
    } else {
      HiddenAddNothing(a, p, m);
      HiddenAddNothing(b, p, n);
      SamePublicOutput(a, b, p, p);
    }
  }

  lemma {:induction false} NoTimePasses(job: Job, n: nat)
    requires forall i, budget :: 0 <= i < n ==> job.execute(i, budget).seconds == 0.0
    ensures StartOf(job, n) == job.started
  {
    if n > 0 {
      NoTimePasses(job, n - 1);
    }
  }

  /** A job in which test `k` prints an x, test `h` times out and nothing else happens. */
  function Staged(tests: seq<Test>, started: real, timeoutSeconds: int, k: int, h: int): Job {
    var nothing := Execution(true, None, "", "", "", 0, 0.0);
    Job(tests,
        (i, budget) => if i == h then nothing.(errorCategory := Some("timeout"), seconds := 1.0)
                       else if i == k then nothing.(stdout := "x") else nothing,
        started, timeoutSeconds)
  }

  ghost predicate Prints(e: Execution, text: string) {
    e.stdout == text && e.stderr == "" && e.rawStderr == ""
  }

  lemma {:induction false} OnlyOnePrints(job: Job, k: nat, n: nat)
    requires n <= |job.tests| && k < |job.tests| && job.tests[k].visibility == Public
    requires forall i :: 0 <= i < n ==> Prints(Ran(job, i), if i == k then "x" else "")
    ensures PublicOutput(job, n) == (if k < n then "x" else "") && PublicErrors(job, n) == ""
  {
    if n > 0 {
      OnlyOnePrints(job, k, n - 1);
      assert Prints(Ran(job, n - 1), if n - 1 == k then "x" else "");
    }
  }

  lemma StagedOutput(job: Job, tests: seq<Test>, k: nat, h: int, n: nat)
    requires job == Staged(tests, job.started, job.timeoutSeconds, k, h) && h != k
    requires n <= |tests| && k < |tests| && tests[k].visibility == Public
    ensures PublicOutput(job, n) == (if k < n then "x" else "") && PublicErrors(job, n) == ""
  {
    forall i | 0 <= i < n
      ensures Prints(Ran(job, i), if i == k then "x" else "")
    {
    }
    OnlyOnePrints(job, k, n);
  }

  /** The response of a run of the first `n` tests. */
  ghost function ResponseOf(job: Job, n: nat, stopped: bool): (response: Response)
    requires n <= |job.tests|
    ensures IsResponse(job, n, response) && |response.tests| == n && (response.status == TimedOut <==> stopped)
  {
    Response(if stopped then TimedOut else Completed, if n == 0 then 0 else Ran(job, n - 1).exitCode,
             seq(n, i requires 0 <= i < n => ResultOf(job.tests[i], Ran(job, i))),
             Bounded(PublicOutput(job, n), MAX_STREAM), Bounded(PublicErrors(job, n), MAX_STREAM),
             |PublicOutput(job, n)| > MAX_STREAM, |PublicErrors(job, n)| > MAX_STREAM)
  }

  /** A hidden test before a public one shows whether it timed out: what the public one prints is then
      missing. */
  lemma HiddenTimeoutShows(tests: seq<Test>, started: real, timeoutSeconds: int)
    returns (a: Job, b: Job, r: Response, q: Response)
    requires !PublicFirst(tests) && timeoutSeconds > 0
    ensures a.tests == tests && a.started == started && a.timeoutSeconds == timeoutSeconds
    ensures RespectsBudgets(a, 0.0) && RespectsBudgets(b, 0.0) && AgreeOnPublic(a, b)
    ensures Answers(a, r) && Answers(b, q) && r.stdout == "" && q.stdout == "x"
  {
    var h, k := HiddenBeforePublic(tests);
    a, b := Staged(tests, started, timeoutSeconds, k, h), Staged(tests, started, timeoutSeconds, k, -1);
    StagedCourse(a, tests, k, h, h + 1);
    StagedCourse(b, tests, k, -1, |tests|);
    StagedOutput(a, tests, k, h, h + 1);
    StagedOutput(b, tests, k, -1, |tests|);
    StagedAgree(tests, started, timeoutSeconds, k, h);
    r, q := ResponseOf(a, h + 1, true), ResponseOf(b, |tests|, false);
  }

  lemma HiddenBeforePublic(tests: seq<Test>) returns (h: nat, k: nat)
    requires !PublicFirst(tests)
    ensures h < k < |tests| && tests[h].visibility == Hidden && tests[k].visibility == Public
  {
    h, k :| 0 <= h < k < |tests| && tests[h].visibility == Hidden && tests[k].visibility == Public;
  }

  /** The staged run goes as far as the test that times out, or else through all. */
  lemma StagedCourse(job: Job, tests: seq<Test>, k: nat, h: int, n: nat)
    requires job == Staged(tests, job.started, job.timeoutSeconds, k, h) && job.timeoutSeconds > 0
    requires n == if h < 0 then |tests| else h + 1
    requires h < |tests|
    ensures RanExactly(job, n, h >= 0)
  {
    forall i | 0 <= i <= n && (h < 0 || i <= h)
      ensures StartOf(job, i) == job.started
    {
      NoTimePasses(job, i);
    }
    forall i | 0 <= i < n
      ensures ReportsTimeout(Ran(job, i)) <==> i == h
    {
    }
  }

  lemma StagedAgree(tests: seq<Test>, started: real, timeoutSeconds: int, k: nat, h: nat)
    requires h < |tests| && tests[h].visibility == Hidden
    ensures
      var a, b := Staged(tests, started, timeoutSeconds, k, h), Staged(tests, started, timeoutSeconds, k, -1);
      AgreeOnPublic(a, b) && RespectsBudgets(a, 0.0) && RespectsBudgets(b, 0.0)
  {
  }

  /** Whatever public tests do, hidden ones cannot be told from the streams. */
  ghost predicate StreamsAreOwn(tests: seq<Test>, timeoutSeconds: int) {
    forall a: Job, b: Job, r: Response, q: Response ::
      (&& a.tests == tests && a.timeoutSeconds == timeoutSeconds
       && AgreeOnPublic(a, b) && Answers(a, r) && Answers(b, q)) ==>
      SameStreams(r, q)
  }

  lemma NothingRuns(job: Job, response: Response)
    requires job.timeoutSeconds <= 0 && Answers(job, response)
    ensures |response.tests| == 0
  {
    assert StartOf(job, 0) >= job.Deadline();
  }

  /** That is so exactly for tests none of which is hidden before a public one, unless there is no time to
      run any. */
  lemma StreamsAreOwnExactly(tests: seq<Test>, timeoutSeconds: int)
    ensures StreamsAreOwn(tests, timeoutSeconds) <==> PublicFirst(tests) || timeoutSeconds <= 0
  {
    if PublicFirst(tests) {
      forall a: Job, b: Job, r: Response, q: Response |
        a.tests == tests && AgreeOnPublic(a, b) && Answers(a, r) && Answers(b, q)
        ensures SameStreams(r, q)
      {
        PublicFirstGivesSameStreams(a, b, r, q);
      }
    } else if timeoutSeconds > 0 {
      var a, b, r, q := HiddenTimeoutShows(tests, 0.0, timeoutSeconds);
      assert !SameStreams(r, q);
    } else {
      forall a: Job, b: Job, r: Response, q: Response |
        a.timeoutSeconds == timeoutSeconds && AgreeOnPublic(a, b) && Answers(a, r) && Answers(b, q)
        ensures SameStreams(r, q)
      {
        NothingRuns(a, r);
        NothingRuns(b, q);
      }
    }
  }
}
