/** Concurrent `/run` requests on one SQL runner: a permit taken without waiting, work on the one shared
    database, the permit given back. Handlers interleave step by step, in any order. */
module SqlServer {
  import opened Wrappers
  import opened Collections
  import opened SqlRequests
  import opened SqlRunner

  type HandlerId = nat

  const CAPACITY := 1

  datatype Reply = Answered(status: Status) | InputFailure | InfrastructureFailure

  datatype Phase =
    | Arrived
    | Refused
    | Parsing
    | Preparing(request: Request)
    | Dropping(request: Request)
    | Loading(request: Request, loaded: nat)
    | Releasing(reply: Reply)
    | Done(reply: Reply)

  /** `executionId` is the canonical form of the id, which the payload has to repeat. */
  datatype Handler = Handler(executionId: string, payload: Payload, results: seq<TestResult>, phase: Phase) {
    function Parse(): Result<Request, InputError> {
      Parsed(payload, executionId)
    }
  }

  /** What the handlers share: the free permits, and the scripts behind the public schema. */
  datatype Shared = Shared(permits: int, public: seq<string>)

  datatype State = State(shared: Shared, handlers: map<HandlerId, Handler>)

  // ----- Steps -----

  /** The permit is held from its acquisition until its release, on every path. */
  predicate Holds(phase: Phase) {
    !phase.Arrived? && !phase.Refused? && !phase.Done?
  }

  /** An exception: what failed may have left anything in the database. */
  ghost predicate Fails(a: Shared, x: Handler, b: Shared, y: Handler) {
    b.permits == a.permits && y == x.(phase := Releasing(InfrastructureFailure))
  }

  function AfterParsing(parsed: Result<Request, InputError>): Phase {
    match parsed
    case Ok(request) => Preparing(request)
    case Err(RunnerInputError) => Releasing(InputFailure)
    case Err(UnhashableVisibility) => Releasing(InfrastructureFailure)
  }

  function AfterResults(request: Request, results: seq<TestResult>, timedOut: bool): Phase {
    if timedOut then Releasing(Answered(TimedOut))
    else if |results| >= |request.tests| then Releasing(Answered(Completed))
    else Dropping(request)
  }

  /** A query ends with an outcome. */
  function Queried(x: Handler, request: Request, test: Test, outcome: Outcome, public: seq<string>): Handler {
    var results := x.results + [TestResult(test.id, test.visibility, outcome, public)];
    Handler(x.executionId, x.payload, results, AfterResults(request, results, outcome == Failure(Timeout)))
  }

  ghost predicate LoadStep(a: Shared, x: Handler, b: Shared, y: Handler, request: Request, loaded: nat) {
    && |x.results| < |request.tests|
    && var test := request.tests[|x.results|];
       var scripts := Scripts(request, test);
       if loaded < |scripts| then
         || (b == a.(public := a.public + [scripts[loaded]]) && y == x.(phase := Loading(request, loaded + 1)))
         || Fails(a, x, b, y)
       else
         || (b == a && exists outcome :: y == Queried(x, request, test, outcome, a.public))
         || (b == a && Fails(a, x, b, y))
  }

  /** What one handler does next. */
  ghost predicate HandlerStep(a: Shared, x: Handler, b: Shared, y: Handler) {
    match x.phase
    case Arrived =>
      if a.permits > 0 then b == a.(permits := a.permits - 1) && y == x.(phase := Parsing)
      else b == a && y == x.(phase := Refused)
    case Parsing => b == a && y == x.(phase := AfterParsing(x.Parse()))
    case Preparing(request) =>
      b == a && (y == x.(phase := AfterResults(request, x.results, false)) || Fails(a, x, b, y))
    case Dropping(request) => (b == a.(public := []) && y == x.(phase := Loading(request, 0))) || Fails(a, x, b, y)
    case Loading(request, loaded) => LoadStep(a, x, b, y, request, loaded)
    case Releasing(reply) => b == a.(permits := a.permits + 1) && y == x.(phase := Done(reply))
    case _ => false
  }

  ghost predicate Next(s: State, t: State, h: HandlerId) {
    && h in s.handlers && t.handlers.Keys == s.handlers.Keys
    && t.handlers == s.handlers[h := t.handlers[h]]
    && HandlerStep(s.shared, s.handlers[h], t.shared, t.handlers[h])
  }

  ghost predicate Init(s: State, capacity: nat) {
    && s.shared.permits == capacity
    && forall h :: h in s.handlers ==> s.handlers[h].phase == Arrived && s.handlers[h].results == []
  }

  /** Any interleaving: the handler `actors[i]` takes the state `run[i]` to the next. */
  ghost predicate IsRun(run: seq<State>, actors: seq<HandlerId>, capacity: nat) {
    && |run| == |actors| + 1 && Init(run[0], capacity)
    && forall i :: 0 <= i < |actors| ==> IsStep(run, actors, i)
  }

  ghost predicate IsStep(run: seq<State>, actors: seq<HandlerId>, i: nat)
    requires i < |actors| && |run| == |actors| + 1
  {
    Next(run[i], run[i + 1], actors[i])
  }

  // ----- Permits -----

  function Holders(handlers: map<HandlerId, Handler>): set<HandlerId> {
    set h | h in handlers && Holds(handlers[h].phase)
  }

  ghost predicate Balanced(s: State, capacity: nat) {
    s.shared.permits >= 0 && s.shared.permits + |Holders(s.handlers)| == capacity
  }

  lemma HoldersWithout(handlers: map<HandlerId, Handler>, h: HandlerId)
    requires h in handlers
    ensures |Holders(handlers)| == |Holders(handlers) - {h}| + if Holds(handlers[h].phase) then 1 else 0
  {
    InsertSize(Holders(handlers) - {h}, h);
    if Holds(handlers[h].phase) {
      assert Holders(handlers) == Holders(handlers) - {h} + {h};
    } else {
      assert Holders(handlers) == Holders(handlers) - {h};
    }
  }

  lemma HoldersStep(handlers: map<HandlerId, Handler>, h: HandlerId, y: Handler)
    requires h in handlers
    ensures |Holders(handlers[h := y])| + (if Holds(handlers[h].phase) then 1 else 0) ==
      |Holders(handlers)| + if Holds(y.phase) then 1 else 0
  {
    HoldersWithout(handlers, h);
    HoldersWithout(handlers[h := y], h);
    assert Holders(handlers[h := y]) - {h} == Holders(handlers) - {h};
  }

  /** A step moves a permit between the free ones and the handler, or neither. */
  lemma PermitMoves(a: Shared, x: Handler, b: Shared, y: Handler)
    requires HandlerStep(a, x, b, y) && a.permits >= 0
    ensures b.permits >= 0
    ensures b.permits + (if Holds(y.phase) then 1 else 0) == a.permits + if Holds(x.phase) then 1 else 0
  {
  }

  lemma BalanceStep(s: State, t: State, h: HandlerId, capacity: nat)
    requires Next(s, t, h) && Balanced(s, capacity)
    ensures Balanced(t, capacity)
  {
    HoldersStep(s.handlers, h, t.handlers[h]);
    PermitMoves(s.shared, s.handlers[h], t.shared, t.handlers[h]);
  }

  /** However many permits there are, those free and those held always make up the capacity. */
  lemma {:induction false} PermitsBalance(run: seq<State>, actors: seq<HandlerId>, capacity: nat, i: nat)
    requires IsRun(run, actors, capacity) && i < |run|
    ensures Balanced(run[i], capacity)
  {
    if i == 0 {
      assert Holders(run[0].handlers) == {};
    } else {
      PermitsBalance(run, actors, capacity, i - 1);
      assert IsStep(run, actors, i - 1);
      BalanceStep(run[i - 1], run[i], actors[i - 1], capacity);
    }
  }

  lemma OnlyHolder(s: State, g: HandlerId, h: HandlerId)
    requires Balanced(s, 1) && g in Holders(s.handlers) && h in Holders(s.handlers)
    ensures g == h
  {
    SubsetSize({g, h}, Holders(s.handlers));
  }

  // ----- Isolation -----

  /** The results so far are the handler's own, and there are tests left. */
  ghost predicate InProgress(x: Handler, request: Request) {
    && x.Parse() == Ok(request)
    && AreResults(request, x.results) && !LastTimedOut(x.results) && |x.results| < |request.tests|
  }

  ghost predicate Replied(x: Handler, reply: Reply) {
    match reply
    case Answered(status) => x.Parse().Ok? && IsAnswer(x.Parse().value, Answer(status, x.results))
    case InputFailure => x.Parse() == Err(RunnerInputError) && x.results == []
    case InfrastructureFailure =>
      if x.Parse().Ok? then AreResults(x.Parse().value, x.results) else x.Parse() == Err(UnhashableVisibility)
  }

  ghost predicate IsIsolated(x: Handler, public: seq<string>) {
    match x.phase
    case Preparing(request) => x.results == [] && x.Parse() == Ok(request)
    case Dropping(request) => InProgress(x, request)
    case Loading(request, loaded) =>
      && InProgress(x, request)
      && var scripts := Scripts(request, request.tests[|x.results|]);
         loaded <= |scripts| && public == scripts[..loaded]
    case Releasing(reply) => Replied(x, reply)
    case Done(reply) => Replied(x, reply)
    case _ => x.results == []
  }

  ghost predicate AllIsolated(s: State) {
    forall h :: h in s.handlers ==> IsIsolated(s.handlers[h], s.shared.public)
  }

  lemma OwnStep(a: Shared, x: Handler, b: Shared, y: Handler)
    requires HandlerStep(a, x, b, y) && IsIsolated(x, a.public)
    ensures IsIsolated(y, b.public)
  {
    match x.phase
    case Preparing(request) => OwnPreparation(a, x, b, y, request);
    case Loading(request, loaded) => OwnLoad(a, x, b, y, request, loaded);
    case _ =>
  }

  lemma OwnPreparation(a: Shared, x: Handler, b: Shared, y: Handler, request: Request)
    requires x.phase == Preparing(request) && HandlerStep(a, x, b, y) && IsIsolated(x, a.public)
    ensures IsIsolated(y, b.public)
  {
  }

  lemma OwnLoad(a: Shared, x: Handler, b: Shared, y: Handler, request: Request, loaded: nat)
    requires x.phase == Loading(request, loaded) && LoadStep(a, x, b, y, request, loaded) && IsIsolated(x, a.public)
    ensures IsIsolated(y, b.public)
  {
    var test := request.tests[|x.results|];
    var scripts := Scripts(request, test);
    if Fails(a, x, b, y) {
    } else if loaded < |scripts| {
      OwnScript(scripts, loaded);
    } else {
      assert scripts[..loaded] == scripts;
      var outcome :| y == Queried(x, request, test, outcome, a.public);
      OwnQuery(x, request, test, outcome, a.public);
    }
  }

  lemma OwnScript(scripts: seq<string>, loaded: nat)
    requires loaded < |scripts|
    ensures scripts[..loaded + 1] == scripts[..loaded] + [scripts[loaded]]
  {
  }

  lemma OwnQuery(x: Handler, request: Request, test: Test, outcome: Outcome, public: seq<string>)
    requires InProgress(x, request) && test == request.tests[|x.results|] && public == Scripts(request, test)
    ensures
      var y := Queried(x, request, test, outcome, public);
      if y.phase.Dropping? then y.phase.request == request && InProgress(y, request)
      else y.phase.Releasing? && Replied(y, y.phase.reply)
  {
    ResultsGrow(request, x.results, TestResult(test.id, test.visibility, outcome, public));
  }

  /** A step by one handler is no business of another, whether it succeeds or fails. */
  lemma OthersStep(s: State, t: State, h: HandlerId, g: HandlerId)
    requires Next(s, t, h) && Balanced(s, CAPACITY) && g in s.handlers && g != h
    requires IsIsolated(s.handlers[g], s.shared.public)
    ensures t.handlers[g] == s.handlers[g] && IsIsolated(t.handlers[g], t.shared.public)
  {
    if s.handlers[g].phase.Loading? && Holds(s.handlers[h].phase) {
      OnlyHolder(s, g, h);
    }
  }

  lemma IsolationStep(s: State, t: State, h: HandlerId)
    requires Next(s, t, h) && Balanced(s, CAPACITY) && AllIsolated(s)
    ensures AllIsolated(t)
  {
    OwnStep(s.shared, s.handlers[h], t.shared, t.handlers[h]);
    forall g | g in t.handlers
      ensures IsIsolated(t.handlers[g], t.shared.public)
    {
      if g != h {
        OthersStep(s, t, h, g);
      }
    }
  }

  /** In every interleaving each query has run on exactly what its own test resolves to, and each
      answer is one the runner could have given alone. */
  lemma {:induction false} EveryRunIsIsolated(run: seq<State>, actors: seq<HandlerId>, i: nat)
    requires IsRun(run, actors, CAPACITY) && i < |run|
    ensures AllIsolated(run[i])
  {
    if i > 0 {
      EveryRunIsIsolated(run, actors, i - 1);
      PermitsBalance(run, actors, CAPACITY, i - 1);
      assert IsStep(run, actors, i - 1);
      IsolationStep(run[i - 1], run[i], actors[i - 1]);
    }
  }

  /** The answer a handler gives, whatever went on beside it. */
  lemma AnswersAreOwn(run: seq<State>, actors: seq<HandlerId>, i: nat, h: HandlerId, status: Status)
    requires IsRun(run, actors, CAPACITY) && i < |run|
    requires h in run[i].handlers && run[i].handlers[h].phase == Done(Answered(status))
    ensures
      var x := run[i].handlers[h];
      x.Parse().Ok? && IsAnswer(x.Parse().value, Answer(status, x.results))
  {
    EveryRunIsIsolated(run, actors, i);
    assert IsIsolated(run[i].handlers[h], run[i].shared.public);
  }

  /** A handler that is done reports a faulty input exactly when its payload is one; it answers only if the
      payload is acceptable, and otherwise something went wrong that is not the payload's fault. */
  lemma RepliesTellInput(run: seq<State>, actors: seq<HandlerId>, i: nat, h: HandlerId, reply: Reply)
    requires IsRun(run, actors, CAPACITY) && i < |run|
    requires h in run[i].handlers && run[i].handlers[h].phase == Done(reply)
    ensures
      var x := run[i].handlers[h];
      && (reply == InputFailure <==> x.Parse() == Err(RunnerInputError))
      && (reply.Answered? ==> IsAcceptable(x.payload, x.executionId))
  {
    var x := run[i].handlers[h];
    EveryRunIsIsolated(run, actors, i);
    assert IsIsolated(x, run[i].shared.public);
    ParsedExactly(x.payload, x.executionId);
  }

  // ----- A refused handler -----

  /** A handler that arrives gets to work if fewer than the capacity are at work, and is refused otherwise. */
  lemma RefusedExactly(run: seq<State>, actors: seq<HandlerId>, capacity: nat, i: nat)
    requires IsRun(run, actors, capacity) && i < |actors|
    requires actors[i] in run[i].handlers && run[i].handlers[actors[i]].phase == Arrived
    ensures actors[i] in run[i + 1].handlers
    ensures run[i + 1].handlers[actors[i]].phase == if |Holders(run[i].handlers)| < capacity then Parsing else Refused
  {
    PermitsBalance(run, actors, capacity, i);
    assert IsStep(run, actors, i);
  }

  lemma {:induction false} HandlersStay(run: seq<State>, actors: seq<HandlerId>, capacity: nat, i: nat)
    requires IsRun(run, actors, capacity) && i < |run|
    ensures run[i].handlers.Keys == run[0].handlers.Keys
  {
    if i > 0 {
      HandlersStay(run, actors, capacity, i - 1);
      assert IsStep(run, actors, i - 1);
    }
  }

  /** No permit held, not now and not before. */
  predicate NeverHeld(phase: Phase) {
    phase.Arrived? || phase.Refused?
  }

  lemma NeverHeldBefore(a: Shared, x: Handler, b: Shared, y: Handler)
    requires HandlerStep(a, x, b, y) && NeverHeld(y.phase)
    ensures NeverHeld(x.phase) && a.public == b.public
  {
  }

  lemma NeverHeldStep(s: State, t: State, actor: HandlerId, h: HandlerId)
    requires Next(s, t, actor) && h in s.handlers && NeverHeld(t.handlers[h].phase)
    ensures NeverHeld(s.handlers[h].phase)
  {
    if h == actor {
      NeverHeldBefore(s.shared, s.handlers[h], t.shared, t.handlers[h]);
    }
  }

  lemma {:induction false} RefusedFromTheStart(run: seq<State>, actors: seq<HandlerId>, capacity: nat, i: nat, j: nat,
                                               h: HandlerId)
    requires IsRun(run, actors, capacity) && i <= j < |run|
    requires h in run[j].handlers && run[j].handlers[h].phase == Refused
    ensures h in run[i].handlers && NeverHeld(run[i].handlers[h].phase)
    decreases j - i
  {
    HandlersStay(run, actors, capacity, i);
    HandlersStay(run, actors, capacity, j);
    if i < j {
      RefusedFromTheStart(run, actors, capacity, i + 1, j, h);
      assert IsStep(run, actors, i);
      NeverHeldStep(run[i], run[i + 1], actors[i], h);
    }
  }

  /** Nothing a handler that is refused ever does changes the database. */
  lemma RefusedNeverTouches(run: seq<State>, actors: seq<HandlerId>, capacity: nat, i: nat, h: HandlerId)
    requires IsRun(run, actors, capacity) && i < |actors| && actors[i] == h
    requires h in run[|actors|].handlers && run[|actors|].handlers[h].phase == Refused
    ensures run[i + 1].shared.public == run[i].shared.public
  {
    RefusedFromTheStart(run, actors, capacity, i, |actors|, h);
    assert IsStep(run, actors, i);
  }

  // ----- No handler is stuck -----

  /** A bound on the steps a handler still takes: six for each test left, and those around them. */
  function StepsLeft(x: Handler): int {
    match x.phase
    case Arrived => 6 * MAX_TESTS + 4
    case Parsing => 6 * MAX_TESTS + 3
    case Preparing(request) => 6 * |request.tests| + 2
    case Dropping(request) => 6 * (|request.tests| - |x.results|) + 1
    case Loading(request, loaded) => 6 * (|request.tests| - |x.results|) - loaded
    case Releasing(_) => 1
    case _ => 0
  }

  lemma ParsedIsBounded(x: Handler)
    requires x.Parse().Ok?
    ensures 1 <= |x.Parse().value.tests| <= MAX_TESTS
  {
    ParsedExactly(x.payload, x.executionId);
  }

  /** Every step brings a handler closer to its end... */
  lemma StepsRunOut(a: Shared, x: Handler, b: Shared, y: Handler)
    requires HandlerStep(a, x, b, y) && IsIsolated(x, a.public)
    ensures 0 <= StepsLeft(y) < StepsLeft(x)
  {
    if x.Parse().Ok? {
      ParsedIsBounded(x);
    }
    OwnStep(a, x, b, y);
    match x.phase
    case Loading(request, loaded) => LoadRunsOut(a, x, b, y, request, loaded);
    case _ =>
  }

  lemma LoadRunsOut(a: Shared, x: Handler, b: Shared, y: Handler, request: Request, loaded: nat)
    requires x.phase == Loading(request, loaded) && LoadStep(a, x, b, y, request, loaded)
    requires loaded <= |Scripts(request, request.tests[|x.results|])|
    ensures 0 <= StepsLeft(y) < StepsLeft(x)
  {
    assert |Scripts(request, request.tests[|x.results|])| <= 3;
  }

  /** ... and until then there is always a step to take, and one that does not fail. */
  lemma NeverStuck(a: Shared, x: Handler) returns (b: Shared, y: Handler)
    requires IsIsolated(x, a.public) && !x.phase.Refused? && !x.phase.Done?
    ensures HandlerStep(a, x, b, y)
    ensures y.phase == Releasing(InfrastructureFailure) ==> x.Parse() == Err(UnhashableVisibility)
  {
    match x.phase
    case Arrived =>
      if a.permits > 0 {
        b, y := a.(permits := a.permits - 1), x.(phase := Parsing);
      } else {
        b, y := a, x.(phase := Refused);
      }
    case Parsing => b, y := a, x.(phase := AfterParsing(x.Parse()));
    case Preparing(request) => b, y := a, x.(phase := AfterResults(request, x.results, false));
    case Dropping(request) => b, y := a.(public := []), x.(phase := Loading(request, 0));
    case Loading(request, loaded) => b, y := LoadGoesOn(a, x, request, loaded);
    case Releasing(reply) => b, y := a.(permits := a.permits + 1), x.(phase := Done(reply));
  }

  lemma LoadGoesOn(a: Shared, x: Handler, request: Request, loaded: nat) returns (b: Shared, y: Handler)
    requires x.phase == Loading(request, loaded) && IsIsolated(x, a.public)
    ensures LoadStep(a, x, b, y, request, loaded) && y.phase != Releasing(InfrastructureFailure)
  {
    var test := request.tests[|x.results|];
    var scripts := Scripts(request, test);
    if loaded < |scripts| {
      b, y := a.(public := a.public + [scripts[loaded]]), x.(phase := Loading(request, loaded + 1));
    } else {
      b, y := a, Queried(x, request, test, Success(Null), a.public);
      QueryIsNoFailure(x, request, test, a.public);
    }
  }

  lemma QueryIsNoFailure(x: Handler, request: Request, test: Test, public: seq<string>)
    ensures Queried(x, request, test, Success(Null), public).phase != Releasing(InfrastructureFailure)
  {
  }

  ghost predicate IsOver(phase: Phase) {
    phase.Refused? || phase.Done?
  }

  ghost predicate CanStep(s: State, h: HandlerId) {
    exists t :: Next(s, t, h)
  }

  lemma UnfinishedCanStep(s: State, h: HandlerId)
    requires AllIsolated(s) && h in s.handlers
    ensures !IsOver(s.handlers[h].phase) ==> CanStep(s, h)
  {
    assert IsIsolated(s.handlers[h], s.shared.public);
    if !IsOver(s.handlers[h].phase) {
      var b, y := NeverStuck(s.shared, s.handlers[h]);
      assert Next(s, State(b, s.handlers[h := y]), h);
    }
  }

  /** When no handler can go on, each has been refused or answered and every permit is back. */
  lemma PermitsComeBack(run: seq<State>, actors: seq<HandlerId>)
    requires IsRun(run, actors, CAPACITY) && forall h :: !CanStep(run[|actors|], h)
    ensures forall h :: h in run[|actors|].handlers ==> IsOver(run[|actors|].handlers[h].phase)
    ensures run[|actors|].shared.permits == CAPACITY
  {
    var end := run[|actors|];
    EveryRunIsIsolated(run, actors, |actors|);
    forall h | h in end.handlers
      ensures IsOver(end.handlers[h].phase)
    {
      UnfinishedCanStep(end, h);
    }
    PermitsBalance(run, actors, CAPACITY, |actors|);
    assert Holders(end.handlers) == {};
  }

  /** The steps left to the handlers with the first `n` ids. */
  ghost function TotalSteps(handlers: map<HandlerId, Handler>, n: nat): int {
    if n == 0 then 0
    else TotalSteps(handlers, n - 1) + if n - 1 in handlers then StepsLeft(handlers[n - 1]) else 0
  }

  lemma {:induction false} TotalMoves(handlers: map<HandlerId, Handler>, h: HandlerId, y: Handler, n: nat)
    requires h in handlers
    ensures TotalSteps(handlers[h := y], n) ==
      TotalSteps(handlers, n) + if h < n then StepsLeft(y) - StepsLeft(handlers[h]) else 0
  {
    if n > 0 {
      TotalMoves(handlers, h, y, n - 1);
    }
  }

  lemma {:induction false} TotalIsNatural(s: State, n: nat)
    requires AllIsolated(s)
    ensures 0 <= TotalSteps(s.handlers, n)
  {
    if n > 0 {
      TotalIsNatural(s, n - 1);
      if n - 1 in s.handlers {
        assert IsIsolated(s.handlers[n - 1], s.shared.public);
        StepsAreNatural(s.handlers[n - 1], s.shared.public);
      }
    }
  }

  lemma StepsAreNatural(x: Handler, public: seq<string>)
    requires IsIsolated(x, public)
    ensures 0 <= StepsLeft(x)
  {
    if x.phase.Loading? {
      assert |Scripts(x.phase.request, x.phase.request.tests[|x.results|])| <= 3;
    }
  }

  lemma {:induction false} TotalRunsOut(s: State, t: State, h: HandlerId, n: nat)
    requires Next(s, t, h) && AllIsolated(s) && h < n
    ensures TotalSteps(t.handlers, n) < TotalSteps(s.handlers, n)
  {
    assert IsIsolated(s.handlers[h], s.shared.public);
    StepsRunOut(s.shared, s.handlers[h], t.shared, t.handlers[h]);
    TotalMoves(s.handlers, h, t.handlers[h], n);
  }

  /** No interleaving goes on for longer than the steps its handlers have left at first, so each comes to
      a point where none can go on. */
  lemma {:induction false} RunsAreBounded(run: seq<State>, actors: seq<HandlerId>, n: nat, i: nat)
    requires IsRun(run, actors, CAPACITY) && i <= |actors| && forall h :: h in run[0].handlers ==> h < n
    ensures i + TotalSteps(run[i].handlers, n) <= TotalSteps(run[0].handlers, n)
    ensures i <= TotalSteps(run[0].handlers, n)
  {
    EveryRunIsIsolated(run, actors, i);
    TotalIsNatural(run[i], n);
    if i > 0 {
      RunsAreBounded(run, actors, n, i - 1);
      OneStepLess(run, actors, n, i - 1);
    }
  }

  lemma OneStepLess(run: seq<State>, actors: seq<HandlerId>, n: nat, i: nat)
    requires IsRun(run, actors, CAPACITY) && i < |actors| && forall h :: h in run[0].handlers ==> h < n
    ensures TotalSteps(run[i + 1].handlers, n) < TotalSteps(run[i].handlers, n)
  {
    EveryRunIsIsolated(run, actors, i);
    HandlersStay(run, actors, CAPACITY, i);
    assert IsStep(run, actors, i);
    TotalRunsOut(run[i], run[i + 1], actors[i], n);
  }

  // ----- Why one permit -----

  function Pair(shared: Shared, x: Handler, y: Handler): State {
    State(shared, map[0 := x, 1 := y])
  }

  lemma OneMoreStep(run: seq<State>, actors: seq<HandlerId>, capacity: nat, t: State, h: HandlerId)
    requires IsRun(run, actors, capacity) && Next(run[|run| - 1], t, h)
    ensures IsRun(run + [t], actors + [h], capacity)
  {
    forall i | 0 <= i < |actors + [h]|
      ensures IsStep(run + [t], actors + [h], i)
    {
      assert i < |actors| ==> IsStep(run, actors, i);
    }
  }

  lemma FirstMoves(run: seq<State>, actors: seq<HandlerId>, capacity: nat, a: Shared, x: Handler, y: Handler,
                   b: Shared, moved: Handler)
    returns (longer: seq<State>, more: seq<HandlerId>)
    requires IsRun(run, actors, capacity) && run[|run| - 1] == Pair(a, x, y) && HandlerStep(a, x, b, moved)
    ensures IsRun(longer, more, capacity) && longer[|longer| - 1] == Pair(b, moved, y)
  {
    longer, more := run + [Pair(b, moved, y)], actors + [0];
    OneMoreStep(run, actors, capacity, Pair(b, moved, y), 0);
  }

  lemma SecondMoves(run: seq<State>, actors: seq<HandlerId>, capacity: nat, a: Shared, x: Handler, y: Handler,
                    b: Shared, moved: Handler)
    returns (longer: seq<State>, more: seq<HandlerId>)
    requires IsRun(run, actors, capacity) && run[|run| - 1] == Pair(a, x, y) && HandlerStep(a, y, b, moved)
    ensures IsRun(longer, more, capacity) && longer[|longer| - 1] == Pair(b, x, moved)
  {
    longer, more := run + [Pair(b, x, moved)], actors + [1];
    OneMoreStep(run, actors, capacity, Pair(b, x, moved), 1);
  }

  /** A request with one test that only uses the request's schema. */
  const SMALL := Payload(Int(1), Text("x"), Int(1), Text("x"), Text("x"), Null, Int(100),
                         List([Object(map["id" := Text("x")])]))
  const SMALL_REQUEST := Request(1, "x", "x", "", 100, 100, 2000, [SMALL_TEST])
  const SMALL_TEST := Test("x", Hidden, Fixture(None, None, ""))

  lemma SmallParses()
    ensures Parsed(SMALL, "x") == Ok(SMALL_REQUEST) && Scripts(SMALL_REQUEST, SMALL_TEST) == ["x"]
  {
    var raw := SMALL.tests.items;
    assert Utf8Size("x", 0) == 0 && Utf8Size("x", 1) == 1;
    var none: seq<Test> := [];
    assert Normalised(raw, 0) == Ok(none) && Ids(none) == {};
    assert NormaliseTest(raw[0], Ids(none)) == Ok(SMALL_TEST);
    assert none + [SMALL_TEST] == [SMALL_TEST];
    assert Normalised(raw, 1) == Ok([SMALL_TEST]);
  }

  /** With two permits a handler can drop the schema another has just built, whose query then runs on
      nothing, while the request completes. */
  lemma TwoPermitsInterfere() returns (run: seq<State>, actors: seq<HandlerId>)
    ensures IsRun(run, actors, 2)
    ensures var handlers := run[|run| - 1].handlers;
      && 0 in handlers && handlers[0].phase == Releasing(Answered(Completed)) && |handlers[0].results| == 1
      && handlers[0].results[0].ranOn == [] != Scripts(SMALL_REQUEST, SMALL_TEST)
  {
    SmallParses();
    var x := Handler("x", SMALL, [], Arrived);
    var loaded, dropped := x.(phase := Loading(SMALL_REQUEST, 1)), x.(phase := Loading(SMALL_REQUEST, 0));
    run, actors := FirstLoads();
    run, actors := OtherDrops(run, actors, loaded, ["x"]);
    var queried := Queried(loaded, SMALL_REQUEST, SMALL_TEST, Success(Null), []);
    run, actors := FirstMoves(run, actors, 2, Shared(0, []), loaded, dropped, Shared(0, []), queried);
  }

  lemma FirstLoads() returns (run: seq<State>, actors: seq<HandlerId>)
    ensures IsRun(run, actors, 2)
    ensures run[|run| - 1] == Pair(Shared(1, ["x"]), Handler("x", SMALL, [], Loading(SMALL_REQUEST, 1)),
                                   Handler("x", SMALL, [], Arrived))
  {
    SmallParses();
    var x, request := Handler("x", SMALL, [], Arrived), SMALL_REQUEST;
    run, actors := [Pair(Shared(2, []), x, x)], [];
    run, actors := FirstMoves(run, actors, 2, Shared(2, []), x, x, Shared(1, []), x.(phase := Parsing));
    run, actors := FirstMoves(run, actors, 2, Shared(1, []), x.(phase := Parsing), x,
                              Shared(1, []), x.(phase := Preparing(request)));
    run, actors := FirstMoves(run, actors, 2, Shared(1, []), x.(phase := Preparing(request)), x,
                              Shared(1, []), x.(phase := Dropping(request)));
    run, actors := FirstMoves(run, actors, 2, Shared(1, []), x.(phase := Dropping(request)), x,
                              Shared(1, []), x.(phase := Loading(request, 0)));
    run, actors := FirstMoves(run, actors, 2, Shared(1, []), x.(phase := Loading(request, 0)), x,
                              Shared(1, ["x"]), x.(phase := Loading(request, 1)));
  }

  lemma OtherDrops(run: seq<State>, actors: seq<HandlerId>, x: Handler, built: seq<string>)
    returns (longer: seq<State>, more: seq<HandlerId>)
    requires IsRun(run, actors, 2) && run[|run| - 1] == Pair(Shared(1, built), x, Handler("x", SMALL, [], Arrived))
    ensures IsRun(longer, more, 2)
    ensures longer[|longer| - 1] == Pair(Shared(0, []), x, Handler("x", SMALL, [], Loading(SMALL_REQUEST, 0)))
  {
    SmallParses();
    var y := Handler("x", SMALL, [], Arrived);
    longer, more := SecondMoves(run, actors, 2, Shared(1, built), x, y, Shared(0, built), y.(phase := Parsing));
    longer, more := SecondMoves(longer, more, 2, Shared(0, built), x, y.(phase := Parsing),
                                Shared(0, built), y.(phase := Preparing(SMALL_REQUEST)));
    longer, more := SecondMoves(longer, more, 2, Shared(0, built), x, y.(phase := Preparing(SMALL_REQUEST)),
                                Shared(0, built), y.(phase := Dropping(SMALL_REQUEST)));
    longer, more := SecondMoves(longer, more, 2, Shared(0, built), x, y.(phase := Dropping(SMALL_REQUEST)),
                                Shared(0, []), y.(phase := Loading(SMALL_REQUEST, 0)));
  }
}
