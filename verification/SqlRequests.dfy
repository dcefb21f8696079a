/** How the SQL runner reads a request: which texts it accepts, how it normalises the tests, and which
    scripts each test's database is built from. */
module SqlRequests {
  import opened Wrappers
  import opened Collections
  import opened Text

  /** A decoded value; a number that is no integer may be infinite or none at all. */
  datatype Json =
    | Null | Bool(value: bool) | Int(number: int) | Float(quantity: real) | NotFinite
    | Text(text: string) | List(items: seq<Json>) | Object(fields: map<string, Json>)

  datatype Fixture = Fixture(schemaSql: Option<string>, seedSql: Option<string>, setupSql: string)

  datatype Visibility = Public | Hidden

  datatype Test = Test(id: string, visibility: Visibility, fixture: Fixture)

  datatype Request = Request(attempt: int, source: string, schemaSql: string, seedSql: string, statementTimeoutMs: int,
                             lockTimeoutMs: int, idleTimeoutMs: int, tests: seq<Test>)

  /** The fields of a request that are looked at; one that is missing is null. */
  datatype Payload = Payload(schemaVersion: Json, executionId: Json, attempt: Json, source: Json, schemaSql: Json,
                             seedSql: Json, statementTimeoutMs: Json, tests: Json)

  /** The second is the `TypeError` of looking an unhashable value up in a set. */
  datatype InputError = RunnerInputError | UnhashableVisibility

  const MAX_SOURCE_BYTES := 100000
  const MAX_SETUP_BYTES := 1048576
  const MAX_TESTS := 100
  const MAX_ATTEMPTS := 100
  const MIN_STATEMENT_TIMEOUT_MS := 100
  const MAX_STATEMENT_TIMEOUT_MS := 30000
  const DEFAULT_LOCK_TIMEOUT_MS := 1000
  const DEFAULT_IDLE_TIMEOUT_MS := 2000

  // ----- Values -----

  function CharSize(c: char): nat {
    if c < '\U{80}' then 1 else if c < '\U{800}' then 2 else if c < '\U{10000}' then 3 else 4
  }

  /** Bytes of the first `n` characters in UTF-8. */
  function Utf8Size(s: string, n: nat): nat
    requires n <= |s|
  {
    if n == 0 then 0 else Utf8Size(s, n - 1) + CharSize(s[n - 1])
  }

  /** One byte up to code point 127, two up to 2047, three up to 65535 and four beyond. */
  lemma Utf8Grows(s: string, c: char)
    ensures Utf8Size("", 0) == 0
    ensures Utf8Size(s + [c], |s| + 1) == Utf8Size(s, |s|) +
      if c as int <= 127 then 1 else if c as int <= 2047 then 2 else if c as int <= 65535 then 3 else 4
  {
    Utf8Prefix(s + [c], s, |s|);
  }

  lemma {:induction false} Utf8Prefix(a: string, b: string, n: nat)
    requires n <= |a| && n <= |b| && a[..n] == b[..n]
    ensures Utf8Size(a, n) == Utf8Size(b, n)
  {
    if n > 0 {
      assert a[..n - 1] == a[..n][..n - 1] && b[..n - 1] == b[..n][..n - 1];
      assert a[n - 1] == a[..n][n - 1] && b[n - 1] == b[..n][n - 1];
      Utf8Prefix(a, b, n - 1);
    }
  }

  predicate Fits(s: string, maxBytes: nat) {
    Utf8Size(s, |s|) <= maxBytes
  }

  /** `value == 1`, which also holds of `True` and of `1.0`. */
  predicate EqualsOne(value: Json) {
    value == Int(1) || value == Bool(true) || value == Float(1.0)
  }

  predicate IsPositiveInt(value: Json, maximum: int) {
    value.Int? && 1 <= value.number <= maximum
  }

  predicate IsRequiredText(value: Json, maxBytes: nat) {
    value.Text? && Strip(value.text) != "" && Fits(value.text, maxBytes)
  }

  predicate IsOptionalText(value: Json, maxBytes: nat) {
    value == Null || (value.Text? && Fits(value.text, maxBytes))
  }

  function Min(a: int, b: int): int {
    if b < a then b else a
  }

  function Max(a: int, b: int): int {
    if b > a then b else a
  }

  function TextOf(value: Json): string {
    if value.Text? then value.text else ""
  }

  function Field(fields: map<string, Json>, name: string, absent: Json): Json {
    if name in fields then fields[name] else absent
  }

  // ----- Program -----

  /** `_test_fixture`. A key that is present counts even when its value is null. */
  function TestFixture(value: Json): Result<Fixture, InputError> {
    match value
    case Null => Ok(Fixture(None, None, ""))
    case Text(text) => if Fits(text, MAX_SETUP_BYTES) then Ok(Fixture(None, None, text)) else Err(RunnerInputError)
    case Object(fields) =>
      var schema := Field(fields, "schema_sql", Field(fields, "ddl", Null));
      var seedPresent := "seed_sql" in fields || "seed" in fields;
      var seed := Field(fields, "seed_sql", Field(fields, "seed", Null));
      var setup := Field(fields, "setup_sql", Text(""));
      if !IsOptionalText(schema, MAX_SETUP_BYTES) || !IsOptionalText(seed, MAX_SETUP_BYTES) ||
         !IsOptionalText(setup, MAX_SETUP_BYTES)
      then Err(RunnerInputError)
      else Ok(Fixture(if schema == Null then None else Some(TextOf(schema)),
                      if seedPresent then Some(TextOf(seed)) else None,
                      TextOf(setup)))
    case _ => Err(RunnerInputError)
  }

  /** One turn of the loop over the raw tests. */
  function NormaliseTest(raw: Json, seen: set<string>): Result<Test, InputError> {
    if !raw.Object? then Err(RunnerInputError) else
    var id := Field(raw.fields, "id", Null);
    var visibility := Field(raw.fields, "visibility", Text("hidden"));
    if !id.Text? || id.text == "" || id.text in seen then Err(RunnerInputError)
    else if visibility.List? || visibility.Object? then Err(UnhashableVisibility)
    else if visibility != Text("public") && visibility != Text("hidden") then Err(RunnerInputError)
    else if "expected_output" in raw.fields || "expected" in raw.fields then Err(RunnerInputError)
    else
      match TestFixture(Field(raw.fields, "input", Null))
      case Err(e) => Err(e)
      case Ok(fixture) => Ok(Test(id.text, if visibility == Text("public") then Public else Hidden, fixture))
  }

  /** `parse_request`, after the text has been decoded to an object. */
  method ParseRequest(payload: Payload, expectedId: string) returns (r: Result<Request, InputError>)
    ensures r.Ok? <==> IsAcceptable(payload, expectedId)
    ensures r.Ok? ==> IsRequestOf(payload, r.value)
    ensures r == Err(UnhashableVisibility) <==>
      && HasGoodFields(payload, expectedId)
      && exists i :: 0 <= i < |payload.tests.items| && IsFirstUnhashable(payload.tests.items, i)
    ensures r == Parsed(payload, expectedId)
  {
    ParsedExactly(payload, expectedId);
    if HasGoodFields(payload, expectedId) {
      UnhashableExactly(payload.tests.items, |payload.tests.items|);
    }
    if !EqualsOne(payload.schemaVersion) || payload.executionId != Text(expectedId) {
      return Err(RunnerInputError);
    }
    if !IsPositiveInt(payload.attempt, MAX_ATTEMPTS) || !IsRequiredText(payload.source, MAX_SOURCE_BYTES) {
      return Err(RunnerInputError);
    }
    if !IsRequiredText(payload.schemaSql, MAX_SETUP_BYTES) || !IsOptionalText(payload.seedSql, MAX_SETUP_BYTES) {
      return Err(RunnerInputError);
    }
    if !IsPositiveInt(payload.statementTimeoutMs, MAX_STATEMENT_TIMEOUT_MS) {
      return Err(RunnerInputError);
    }
    var timeout := payload.statementTimeoutMs.number;
    if timeout < MIN_STATEMENT_TIMEOUT_MS {
      return Err(RunnerInputError);
    }
    if !payload.tests.List? || payload.tests.items == [] || |payload.tests.items| > MAX_TESTS {
      return Err(RunnerInputError);
    }
    var tests := NormaliseTests(payload.tests.items);
    if tests.Err? {
      return Err(tests.error);
    }
    return Ok(Request(payload.attempt.number, payload.source.text, payload.schemaSql.text, TextOf(payload.seedSql),
                      timeout, Min(DEFAULT_LOCK_TIMEOUT_MS, timeout), Max(DEFAULT_IDLE_TIMEOUT_MS, timeout),
                      tests.value));
  }

  /** The loop over the raw tests. */
  method NormaliseTests(raw: seq<Json>) returns (r: Result<seq<Test>, InputError>)
    ensures r == Normalised(raw, |raw|)
  {
    var tests: seq<Test>, seen: set<string> := [], {};
    for i := 0 to |raw|
      invariant Normalised(raw, i) == Ok(tests) && seen == Ids(tests)
    {
      var test := NormaliseTest(raw[i], seen);
      if test.Err? {
        FailureStays(raw, i + 1, |raw|, test.error);
        return Err(test.error);
      }
      IdsAppend(tests, test.value);
      seen := seen + {test.value.id};
      tests := tests + [test.value];
    }
    return Ok(tests);
  }

  // ----- Specification -----

  function Ids(tests: seq<Test>): set<string> {
    set i | 0 <= i < |tests| :: tests[i].id
  }

  /** The first `n` raw tests normalised, or the error of the first that cannot be. */
  function Normalised(raw: seq<Json>, n: nat): Result<seq<Test>, InputError>
    requires n <= |raw|
  {
    if n == 0 then Ok([]) else
    match Normalised(raw, n - 1)
    case Err(e) => Err(e)
    case Ok(tests) =>
      match NormaliseTest(raw[n - 1], Ids(tests))
      case Err(e) => Err(e)
      case Ok(test) => Ok(tests + [test])
  }

  /** Everything but the single tests is as it should be. */
  predicate HasGoodFields(payload: Payload, expectedId: string) {
    && EqualsOne(payload.schemaVersion) && payload.executionId == Text(expectedId)
    && IsPositiveInt(payload.attempt, MAX_ATTEMPTS) && IsRequiredText(payload.source, MAX_SOURCE_BYTES)
    && IsRequiredText(payload.schemaSql, MAX_SETUP_BYTES) && IsOptionalText(payload.seedSql, MAX_SETUP_BYTES)
    && IsPositiveInt(payload.statementTimeoutMs, MAX_STATEMENT_TIMEOUT_MS)
    && payload.statementTimeoutMs.number >= MIN_STATEMENT_TIMEOUT_MS
    && payload.tests.List? && 1 <= |payload.tests.items| <= MAX_TESTS
  }

  /** The request a payload stands for, as a function, or the error of its first fault. */
  function Parsed(payload: Payload, expectedId: string): Result<Request, InputError> {
    if !HasGoodFields(payload, expectedId) then Err(RunnerInputError)
    else
      match Normalised(payload.tests.items, |payload.tests.items|)
      case Err(e) => Err(e)
      case Ok(tests) =>
        var timeout := payload.statementTimeoutMs.number;
        Ok(Request(payload.attempt.number, payload.source.text, payload.schemaSql.text, TextOf(payload.seedSql),
                   timeout, Min(DEFAULT_LOCK_TIMEOUT_MS, timeout), Max(DEFAULT_IDLE_TIMEOUT_MS, timeout), tests))
  }

  lemma IdsAppend(tests: seq<Test>, test: Test)
    ensures Ids(tests + [test]) == Ids(tests) + {test.id}
  {
    var more := tests + [test];
    forall id | id in Ids(tests) + {test.id}
      ensures id in Ids(more)
    {
      if id in Ids(tests) {
        var i :| 0 <= i < |tests| && tests[i].id == id;
        assert more[i].id == id;
      } else {
        assert more[|tests|].id == id;
      }
    }
  }

  lemma {:induction false} FailureStays(raw: seq<Json>, m: nat, n: nat, error: InputError)
    requires m <= n <= |raw| && Normalised(raw, m) == Err(error)
    ensures Normalised(raw, n) == Err(error)
  {
    if m < n {
      FailureStays(raw, m, n - 1, error);
    }
  }

  // ----- What is accepted -----

  function IdOf(raw: Json): Json {
    if raw.Object? then Field(raw.fields, "id", Null) else Null
  }

  /** A raw test that nothing but its id's repetition could rule out. */
  predicate IsWellFormed(raw: Json) {
    && raw.Object?
    && IdOf(raw).Text? && IdOf(raw).text != ""
    && Field(raw.fields, "visibility", Text("hidden")) in [Text("public"), Text("hidden")]
    && "expected_output" !in raw.fields && "expected" !in raw.fields
    && TestFixture(Field(raw.fields, "input", Null)).Ok?
  }

  predicate IsNormalised(raw: Json, test: Test) {
    && raw.Object? && IdOf(raw) == Text(test.id)
    && (test.visibility == Public <==> Field(raw.fields, "visibility", Text("hidden")) == Text("public"))
    && TestFixture(Field(raw.fields, "input", Null)) == Ok(test.fixture)
  }

  /** A raw test that is well formed, field by field: expected outputs never get in, and a test without a visibility
      is hidden. */
  lemma WellFormedExactly(raw: Json, test: Test)
    ensures IsWellFormed(raw) <==>
      && raw.Object? && "id" in raw.fields && raw.fields["id"].Text? && raw.fields["id"].text != ""
      && ("visibility" in raw.fields ==> raw.fields["visibility"] in [Text("public"), Text("hidden")])
      && "expected_output" !in raw.fields && "expected" !in raw.fields
      && ("input" in raw.fields ==> TestFixture(raw.fields["input"]).Ok?)
    ensures IsNormalised(raw, test) <==>
      && raw.Object? && "id" in raw.fields && raw.fields["id"] == Text(test.id)
      && (test.visibility == Public <==> "visibility" in raw.fields && raw.fields["visibility"] == Text("public"))
      && (if "input" in raw.fields then TestFixture(raw.fields["input"]) == Ok(test.fixture)
          else test.fixture == Fixture(None, None, ""))
  {
  }

  ghost predicate AreTests(raw: seq<Json>, n: nat)
    requires n <= |raw|
  {
    && (forall i :: 0 <= i < n ==> IsWellFormed(raw[i]))
    && (forall i, j :: 0 <= i < j < n ==> IdOf(raw[i]) != IdOf(raw[j]))
  }

  /** A list of raw tests is accepted exactly when each is well formed and no id comes twice, and then
      every test is kept, in order. */
  lemma {:induction false} AcceptedExactly(raw: seq<Json>, n: nat)
    requires n <= |raw|
    ensures Normalised(raw, n).Ok? <==> AreTests(raw, n)
    ensures Normalised(raw, n).Ok? ==>
      var tests := Normalised(raw, n).value;
      |tests| == n && forall i :: 0 <= i < n ==> IsNormalised(raw[i], tests[i])
  {
    if n > 0 {
      AcceptedExactly(raw, n - 1);
      if Normalised(raw, n - 1).Ok? {
        OneAccepted(raw, n - 1, Normalised(raw, n - 1).value);
      }
    }
  }

  lemma OneAccepted(raw: seq<Json>, n: nat, tests: seq<Test>)
    requires n < |raw| && |tests| == n && AreTests(raw, n)
    requires forall i :: 0 <= i < n ==> IsNormalised(raw[i], tests[i])
    ensures NormaliseTest(raw[n], Ids(tests)).Ok? <==> AreTests(raw, n + 1)
    ensures NormaliseTest(raw[n], Ids(tests)).Ok? ==> IsNormalised(raw[n], NormaliseTest(raw[n], Ids(tests)).value)
  {
    if IdOf(raw[n]).Text? {
      var id := IdOf(raw[n]).text;
      if id in Ids(tests) {
        var i :| 0 <= i < n && tests[i].id == id;
        assert IsNormalised(raw[i], tests[i]) && IdOf(raw[i]) == IdOf(raw[n]);
      } else {
        forall i | 0 <= i < n
          ensures IdOf(raw[i]) != IdOf(raw[n])
        {
          assert IsNormalised(raw[i], tests[i]) && tests[i].id in Ids(tests);
        }
      }
    }
  }

  /** An unhashable visibility is reported exactly if the first test that is not well formed, or repeats an
      id, has a new id and a list or an object for its visibility. */
  lemma {:induction false} UnhashableExactly(raw: seq<Json>, n: nat)
    requires n <= |raw|
    ensures Normalised(raw, n) == Err(UnhashableVisibility) <==> exists i :: 0 <= i < n && IsFirstUnhashable(raw, i)
  {
    if n > 0 {
      UnhashableExactly(raw, n - 1);
      UnhashableStep(raw, n - 1);
    }
  }

  ghost predicate IsFirstUnhashable(raw: seq<Json>, i: nat)
    requires i < |raw|
  {
    AreTests(raw, i) && HasUnhashable(raw[i]) && forall j :: 0 <= j < i ==> IdOf(raw[j]) != IdOf(raw[i])
  }

  lemma UnhashableStep(raw: seq<Json>, n: nat)
    requires n < |raw|
    ensures Normalised(raw, n + 1) == Err(UnhashableVisibility) <==>
      Normalised(raw, n) == Err(UnhashableVisibility) || IsFirstUnhashable(raw, n)
  {
    AcceptedExactly(raw, n);
    if Normalised(raw, n).Ok? {
      OneUnhashable(raw, n, Normalised(raw, n).value);
    }
  }

  /** A test with an id whose visibility cannot be looked up. */
  predicate HasUnhashable(raw: Json) {
    && raw.Object? && IdOf(raw).Text? && IdOf(raw).text != ""
    && "visibility" in raw.fields && (raw.fields["visibility"].List? || raw.fields["visibility"].Object?)
  }

  lemma OneUnhashable(raw: seq<Json>, n: nat, tests: seq<Test>)
    requires n < |raw| && |tests| == n && AreTests(raw, n)
    requires forall i :: 0 <= i < n ==> IsNormalised(raw[i], tests[i])
    ensures NormaliseTest(raw[n], Ids(tests)) == Err(UnhashableVisibility) <==>
      HasUnhashable(raw[n]) && forall j :: 0 <= j < n ==> IdOf(raw[j]) != IdOf(raw[n])
  {
    NewIdExactly(raw, n, tests);
    FixtureExactly(if raw[n].Object? then Field(raw[n].fields, "input", Null) else Null);
  }

  lemma NewIdExactly(raw: seq<Json>, n: nat, tests: seq<Test>)
    requires n < |raw| && |tests| == n && forall i :: 0 <= i < n ==> IsNormalised(raw[i], tests[i])
    ensures IdOf(raw[n]).Text? ==>
      (IdOf(raw[n]).text !in Ids(tests) <==> forall j :: 0 <= j < n ==> IdOf(raw[j]) != IdOf(raw[n]))
  {
    forall i | 0 <= i < n
      ensures IdOf(raw[i]) == Text(tests[i].id) && tests[i].id in Ids(tests)
    {
      assert IsNormalised(raw[i], tests[i]);
    }
  }

  /** Which inputs a test may have: none, a text that is not too long, or an object of such texts. */
  lemma FixtureExactly(value: Json)
    ensures TestFixture(value).Ok? <==>
      || value.Null?
      || (value.Text? && Utf8Size(value.text, |value.text|) <= 1048576)
      || (value.Object? &&
          (forall name :: name in {"schema_sql", "seed_sql", "setup_sql"} && name in value.fields ==>
            IsNullOrShort(value.fields[name])) &&
          ("schema_sql" !in value.fields && "ddl" in value.fields ==> IsNullOrShort(value.fields["ddl"])) &&
          ("seed_sql" !in value.fields && "seed" in value.fields ==> IsNullOrShort(value.fields["seed"])))
    ensures TestFixture(value).Err? ==> TestFixture(value).error == RunnerInputError
  {
  }

  predicate IsNullOrShort(value: Json) {
    value.Null? || (value.Text? && Utf8Size(value.text, |value.text|) <= 1048576)
  }

  /** The fields of a payload that is accepted, in plain values. */
  lemma FieldsExactly(payload: Payload, expectedId: string)
    ensures HasGoodFields(payload, expectedId) <==>
      && (payload.schemaVersion == Int(1) || payload.schemaVersion == Bool(true) || payload.schemaVersion == Float(1.0))
      && payload.executionId == Text(expectedId)
      && payload.attempt.Int? && 1 <= payload.attempt.number <= 100
      && payload.source.Text? && !AllSpace(payload.source.text)
      && Utf8Size(payload.source.text, |payload.source.text|) <= 100000
      && payload.schemaSql.Text? && !AllSpace(payload.schemaSql.text) && IsNullOrShort(payload.schemaSql)
      && IsNullOrShort(payload.seedSql)
      && payload.statementTimeoutMs.Int? && 100 <= payload.statementTimeoutMs.number <= 30000
      && payload.tests.List? && 1 <= |payload.tests.items| <= 100
  {
    if payload.source.Text? {
      StripsToNothingExactly(payload.source.text);
    }
    if payload.schemaSql.Text? {
      StripsToNothingExactly(payload.schemaSql.text);
    }
  }

  /** A payload that is accepted: good fields, and well-formed tests none of whose ids comes twice. */
  ghost predicate IsAcceptable(payload: Payload, expectedId: string) {
    HasGoodFields(payload, expectedId) && AreTests(payload.tests.items, |payload.tests.items|)
  }

  /** The request holds what the payload says and every test in order. A lock times out no later than the
      statement, and that no later than an idle transaction. */
  ghost predicate IsRequestOf(payload: Payload, request: Request) {
    && payload.attempt == Int(request.attempt) && payload.source == Text(request.source)
    && payload.schemaSql == Text(request.schemaSql) && payload.seedSql in [Null, Text(request.seedSql)]
    && (payload.seedSql == Null ==> request.seedSql == "")
    && payload.statementTimeoutMs == Int(request.statementTimeoutMs)
    && 100 <= request.lockTimeoutMs <= request.statementTimeoutMs <= request.idleTimeoutMs <= 30000
    && request.lockTimeoutMs <= 1000 && 2000 <= request.idleTimeoutMs
    && (request.lockTimeoutMs == request.statementTimeoutMs || request.lockTimeoutMs == 1000)
    && (request.idleTimeoutMs == request.statementTimeoutMs || request.idleTimeoutMs == 2000)
    && payload.tests.List? && |request.tests| == |payload.tests.items|
    && forall i :: 0 <= i < |request.tests| ==> IsNormalised(payload.tests.items[i], request.tests[i])
  }

  lemma {:induction false} ParsedExactly(payload: Payload, expectedId: string)
    ensures Parsed(payload, expectedId).Ok? <==> IsAcceptable(payload, expectedId)
    ensures Parsed(payload, expectedId).Ok? ==> IsRequestOf(payload, Parsed(payload, expectedId).value)
  {
    if HasGoodFields(payload, expectedId) {
      AcceptedExactly(payload.tests.items, |payload.tests.items|);
    }
  }
}
