/** One request on the disposable database: every test on a schema built anew from its own scripts. */
module SqlRunner {
  import opened Wrappers
  import opened Text
  import opened SqlRequests

  datatype Category = Timeout | OtherCategory

  datatype Outcome = Success(actual: Json) | Failure(category: Category)

  /** `ranOn` records, for the specification, what the public schema was built from when the query ran. */
  datatype TestResult = TestResult(id: string, visibility: Visibility, outcome: Outcome, ranOn: seq<string>)

  datatype Status = Completed | TimedOut

  datatype Answer = Answer(status: Status, results: seq<TestResult>)

  // ----- Specification -----

  function NonBlank(script: string): seq<string> {
    if Strip(script) != "" then [script] else []
  }

  /** A test's own schema counts unless it is blank, its own seed even if it is blank, and its setup
      comes on top. */
  function SchemaOf(request: Request, test: Test): string {
    var own := test.fixture.schemaSql;
    if own.Some? && Strip(own.value) != "" then own.value else request.schemaSql
  }

  function SeedOf(request: Request, test: Test): string {
    if test.fixture.seedSql.Some? then test.fixture.seedSql.value else request.seedSql
  }

  /** What the public schema is built from for a test. */
  function Scripts(request: Request, test: Test): seq<string> {
    [SchemaOf(request, test)] + NonBlank(SeedOf(request, test)) + NonBlank(test.fixture.setupSql)
  }

  /** What the keys of a test's input do: a seed that is present replaces the request's even when it is
      null or blank; a schema does so only when it is not blank, and a null `schema_sql` hides a `ddl`. */
  lemma InputDecides(request: Request, test: Test, fields: map<string, Json>)
    requires TestFixture(Object(fields)) == Ok(test.fixture)
    ensures "seed_sql" !in fields && "seed" !in fields ==> SeedOf(request, test) == request.seedSql
    ensures "seed_sql" in fields ==> SeedOf(request, test) == TextOf(fields["seed_sql"])
    ensures "seed_sql" !in fields && "seed" in fields ==> SeedOf(request, test) == TextOf(fields["seed"])
    ensures
      var own := Field(fields, "schema_sql", Field(fields, "ddl", Null));
      SchemaOf(request, test) == if own.Text? && Strip(own.text) != "" then own.text else request.schemaSql
    ensures test.fixture.setupSql == TextOf(Field(fields, "setup_sql", Null))
  {
  }

  ghost predicate IsOwnResult(request: Request, test: Test, result: TestResult) {
    result.id == test.id && result.visibility == test.visibility && result.ranOn == Scripts(request, test)
  }

  /** The results of the first tests, in order, each on its own scripts and none timed out but, perhaps,
      the last. */
  ghost predicate AreResults(request: Request, results: seq<TestResult>) {
    && |results| <= |request.tests|
    && (forall i :: 0 <= i < |results| ==> IsOwnResult(request, request.tests[i], results[i]))
    && (forall i :: 0 <= i < |results| - 1 ==> results[i].outcome != Failure(Timeout))
  }

  ghost predicate LastTimedOut(results: seq<TestResult>) {
    results != [] && results[|results| - 1].outcome == Failure(Timeout)
  }

  ghost predicate IsAnswer(request: Request, answer: Answer) {
    && AreResults(request, answer.results)
    && (answer.status == TimedOut <==> LastTimedOut(answer.results))
    && (answer.status == Completed ==> |answer.results| == |request.tests|)
  }

  /** Each result is that of the test at its place; a timeout is the last of them and makes the status, and without
      one there is a result for every test. */
  lemma AnswerTells(request: Request, answer: Answer, i: nat)
    requires IsAnswer(request, answer) && i < |answer.results|
    ensures i < |request.tests| && answer.results[i].id == request.tests[i].id
    ensures answer.results[i].visibility == request.tests[i].visibility
    ensures answer.results[i].outcome == Failure(Timeout) <==> answer.status == TimedOut && i == |answer.results| - 1
    ensures answer.status == Completed ==> |answer.results| == |request.tests|
  {
    assert IsOwnResult(request, request.tests[i], answer.results[i]);
  }

  /** Every query of an answer ran on the schema, then the seed unless blank, then the setup unless blank,
      and nothing else; and what these are for each form of the raw test's input. */
  lemma QueryRanOn(request: Request, answer: Answer, raw: Json, i: nat)
    returns (schema: string, seed: string, setup: string)
    requires IsAnswer(request, answer) && i < |answer.results| && IsNormalised(raw, request.tests[i])
    ensures answer.results[i].ranOn ==
      [schema] + (if Strip(seed) != "" then [seed] else []) + (if Strip(setup) != "" then [setup] else [])
    ensures raw.Object?
    ensures "input" !in raw.fields || raw.fields["input"] == Null ==>
      schema == request.schemaSql && seed == request.seedSql && setup == ""
    ensures "input" in raw.fields && raw.fields["input"].Text? ==>
      schema == request.schemaSql && seed == request.seedSql && setup == raw.fields["input"].text
    ensures "input" in raw.fields ==>
      raw.fields["input"].Null? || raw.fields["input"].Text? || raw.fields["input"].Object?
    ensures "input" in raw.fields && raw.fields["input"].Object? ==>
      var fields := raw.fields["input"].fields;
      && schema == (
           if "schema_sql" in fields && fields["schema_sql"].Text? && Strip(fields["schema_sql"].text) != ""
           then fields["schema_sql"].text
           else if "schema_sql" !in fields && "ddl" in fields && fields["ddl"].Text? && Strip(fields["ddl"].text) != ""
           then fields["ddl"].text
           else request.schemaSql)
      && seed == (
           if "seed_sql" in fields then (if fields["seed_sql"].Text? then fields["seed_sql"].text else "")
           else if "seed" in fields then (if fields["seed"].Text? then fields["seed"].text else "")
           else request.seedSql)
      && setup == (if "setup_sql" in fields && fields["setup_sql"].Text? then fields["setup_sql"].text else "")
  {
    var test := request.tests[i];
    schema, seed, setup := SchemaOf(request, test), SeedOf(request, test), test.fixture.setupSql;
    assert IsOwnResult(request, test, answer.results[i]);
    if "input" in raw.fields && raw.fields["input"].Object? {
      InputDecides(request, test, raw.fields["input"].fields);
    }
  }

  lemma ResultsGrow(request: Request, results: seq<TestResult>, result: TestResult)
    requires AreResults(request, results) && !LastTimedOut(results) && |results| < |request.tests|
    requires IsOwnResult(request, request.tests[|results|], result)
    ensures AreResults(request, results + [result])
    ensures LastTimedOut(results + [result]) <==> result.outcome == Failure(Timeout)
  {
    var more := results + [result];
    forall i | 0 <= i < |more|
      ensures IsOwnResult(request, request.tests[i], more[i])
    {
      assert i < |results| ==> more[i] == results[i];
    }
  }

  // ----- Program -----

  /** The public schema, as the scripts run on it since it was last dropped. Any statement may fail, and
      a script that fails may leave anything behind. */
  class Database {
    var public: seq<string>

    method Execute(script: string) returns (ok: bool)
      modifies this
      ensures ok ==> public == old(public) + [script]
    {
      if * {
        public := *;
        return false;
      }
      public := public + [script];
      return true;
    }

    method DropSchema() returns (ok: bool)
      modifies this
      ensures ok ==> public == []
    {
      if * {
        public := *;
        return false;
      }
      public := [];
      return true;
    }

    /** Roles and grants, which leave the schema's contents alone. */
    method Administer() returns (ok: bool)
    {
      ok := *;
    }

    /** `reset_fixture`. */
    method ResetFixture(schemaSql: string, seedSql: string, setupSql: string) returns (ok: bool)
      modifies this
      ensures ok ==> public == [schemaSql] + NonBlank(seedSql) + NonBlank(setupSql)
    {
      ok := DropSchema();
      if !ok { return; }
      ok := Administer();
      if !ok { return; }
      ok := Execute(schemaSql);
      if !ok { return; }
      if Strip(seedSql) != "" {
        ok := Execute(seedSql);
        if !ok { return; }
      }
      if Strip(setupSql) != "" {
        ok := Execute(setupSql);
        if !ok { return; }
      }
      ok := Administer();
    }

    /** `execute_candidate_query`: the candidate may only read, so what it gives depends on its text and on what the
        schema was built from; an error that is not the database's escapes. */
    method ExecuteCandidateQuery(source: string, query: (string, seq<string>) -> Option<Outcome>)
      returns (outcome: Option<Outcome>)
      ensures outcome == query(source, public)
    {
      outcome := query(source, public);
    }

    /** `run_request`; no answer stands for an exception. */
    method RunRequest(request: Request, query: (string, seq<string>) -> Option<Outcome>)
      returns (answer: Option<Answer>)
      modifies this
      ensures answer.Some? ==> IsAnswer(request, answer.value)
      ensures answer.Some? ==> forall i :: 0 <= i < |answer.value.results| ==>
        query(request.source, Scripts(request, request.tests[i])) == Some(answer.value.results[i].outcome)
    {
      var ok := Administer();
      if !ok {
        return None;
      }
      var results: seq<TestResult>, status := [], Completed;
      for i := 0 to |request.tests|
        invariant |results| == i && AreResults(request, results)
        invariant status == Completed && !LastTimedOut(results)
        invariant forall j :: 0 <= j < i ==>
          query(request.source, Scripts(request, request.tests[j])) == Some(results[j].outcome)
      {
        var test := request.tests[i];
        ok := ResetFixture(SchemaOf(request, test), SeedOf(request, test), test.fixture.setupSql);
        if !ok {
          return None;
        }
        var outcome := ExecuteCandidateQuery(request.source, query);
        if outcome == None {
          return None;
        }
        if outcome.value == Failure(Timeout) {
          status := TimedOut;
        }
        var result := TestResult(test.id, test.visibility, outcome.value, public);
        ResultsGrow(request, results, result);
        results := results + [result];
        if status == TimedOut {
          break;
        }
      }
      return Some(Answer(status, results));
    }
  }
}
