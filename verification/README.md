# Verified models of the question platform's algorithms and protocols

This project models the parts of the repository where a mistake would be hard to see, and proves what
they are for.

- **Reference programs** (`scripts/content_release_seed.py`): plugin load order, shortest dependency
  path, rate limiting, resource allocation, chunked parsing, batch merging, the crawl frontier and
  breach intervals. Each is a method with the program's loops, heap, queue and buffer, proved against
  a specification that does not mention them: least orders and walks, optimal admission, load at every
  real instant, the concatenated text, the union, maximal runs.
- **Corpus import** (`scripts/import_large_question_corpus.py`): row preparation, keyed upserts that
  keep some columns from the first and take others from the latest writer, and the run that flushes
  chunks and moves a checkpoint. The main theorem is about any sequence of runs broken off anywhere.
- **Promotion** (`scripts/promote_large_question_corpus.py`): one greedy pass under two family caps,
  with its approximation bound and a case where the bound is reached.
- **Runners** (`services/sql-runner`, `services/python-runner`): the SQL server as a state machine over
  the steps of concurrent handlers; the Python runner's deadline loop and bounded buffers.
- **Version publication** (`scripts/sync_attachment_question_bank.py`,
  `scripts/publish_production_launch_catalog.py`): the two writers of version states and published
  pointers, alone, mixed, interrupted and repeated.
- **`split_top`** (`scripts/build_attachment_execution_bank.py`): the quote and bracket scanner and its
  round trips.

## Layout

`Common.dfy` and `Text.dfy` hold shared vocabulary, including contracts for `heapq`, `sorted(set(...))`
and `str.strip`. `BreadthFirst.dfy` is the theory behind `DependencyPath.dfy` and `CrawlFrontier.dfy`.
The importer is `CorpusPreparation.dfy`, `KeyedUpserts.dfy`, `CorpusImport.dfy` and `CorpusRuns.dfy`;
the SQL runner `SqlRequests.dfy`, `SqlRunner.dfy` and `SqlServer.dfy`; version publication
`Versions.dfy`, `Reimport.dfy` and `QuestionBank.dfy`. Every other file is one program.
`dafny verify dfyconfig.toml` checks everything.

## Reading notes

- Strings that matter only through equality and order (plugin names, tenants, ids, hashes, column
  values) are their ranks, integers with the empty string at 0. Texts that are scanned are `string`.
- `heapq` and `sorted` are used through their contracts. Plugins and graphs are maps.
- An exception is an error result; an exception inside a transaction is no change to the tables.
- In the importer the JSONL reader numbers rows by physical line, blank lines included, while the row
  count skips them. The model asks only that row numbers start at one and grow, so both readings are
  covered.
- The update statement of the importer would let a restarted run move the stored checkpoint back; the
  trigger in migration `20260824_0016` does not. Both databases are modelled (`trigger`), and the
  restart theorem holds for both. With the trigger and row numbers that count blank lines, a finished batch
  may keep a checkpoint past the row count, and the next run then imports the file again, to the same tables
  (`CorpusRuns.FinishedIsComplete`).
- The SQL runner documents that a test's own DDL or seed replaces the request's. In the code a blank
  own schema does not, a blank or null own seed does, and a null `schema_sql` hides a `ddl`; the model
  follows the code (`SqlRunner.InputDecides`).
- A visibility that is a list or an object makes the SQL request parser raise `TypeError`, which the
  server reports as an infrastructure error; the model keeps that branch.
- The Python runner's public streams are not a function of the public tests alone: a hidden test that
  times out ends the run. They are exactly for test lists that put no hidden test before a public one
  (`PythonRunner.StreamsAreOwnExactly`), which a caller can see to.
- Republishing unchanged content does not deprecate the version that was current.
  `Versions.PublishedStaysUniqueExactly` says exactly when two versions end up published.
- Idempotence of a run with one version label is proved without assuming distinct question ids; equal
  content hashes are taken to mean equal rows. Whether importing into given tables changes anything, be
  they written under other labels, is decided row by row (`Reimport.ChangesNothingExactly`).

## Model

| member | source | states |
|---|---|---|
| `PluginLoadOrder.PluginLoadOrder` | scripts/content_release_seed.py:444-468 | a result lists every plugin once, each after all it depends on, and is lexicographically least among all such orders; failure is exactly an unknown or self dependency, or else a dependency cycle |
| `PluginLoadOrder.CountDependencies` | scripts/content_release_seed.py:447-454 | the counting pass fails exactly on an unusable dependency; otherwise the tables count, for every plugin, its distinct unmet dependencies and list its dependents |
| `PluginLoadOrder.Release` | scripts/content_release_seed.py:461-464 | loading a plugin lowers the count of exactly its dependents and puts on the heap exactly those whose last dependency it was |
| `PluginLoadOrder.LeastReadyFirst` | scripts/content_release_seed.py:455-460 | exchange argument: the least name on the heap is the only first difference a smaller order could have, so popping it keeps the output at most every load order |
| `PluginLoadOrder.LeastOrderIsUnique` | scripts/content_release_seed.py:446-467 | there is only one least load order |
| `PluginLoadOrder.StalledHasCycle` | scripts/content_release_seed.py:465-466 | when the heap is empty and plugins are left, following unmet dependencies yields an actual cycle |
| `PluginLoadOrder.OrderRulesOutFailure` | scripts/content_release_seed.py:449-468 | if any load order exists, every dependency is valid and there is no cycle |
| `PluginLoadOrder.ValidExactly` | scripts/content_release_seed.py:449-453 | a dependency is unusable exactly if it is unknown or the plugin itself |
| `PluginLoadOrder.OrderExactly` | scripts/content_release_seed.py:444-468 | a load order holds exactly the plugins, no two alike, and before each one every name it depends on |
| `PluginLoadOrder.LexExactly` | scripts/content_release_seed.py:455-460 | two orders compare by the first place where they differ |
| `DependencyPath.ShortestDependencyPath` | scripts/content_release_seed.py:318-338 | a non-empty path ends at the target and is the least walk to it, shortest first and then lexicographically; empty exactly when no walk reaches the target; the two errors exactly when an endpoint or a named node is missing |
| `DependencyPath.LeastWalkIsUnique` | scripts/content_release_seed.py:328-337 | there is only one least walk to a node |
| `DependencyPath.CompleteExactly` | scripts/content_release_seed.py:321-324 | the graph is refused exactly if some neighbour of some node is not a node |
| `BreadthFirst.EarlierWalkIsCovered` | scripts/content_release_seed.py:325-337 | level invariant of the search: every walk earlier than the front of the queue ends at a node already found by a walk at most as late |
| `BreadthFirst.FrontIsLeast` | scripts/content_release_seed.py:325-337 | the walk at the front of the queue is the least walk to its node |
| `BreadthFirst.ExhaustedFindsAll` | scripts/content_release_seed.py:325-338 | once the queue is empty, every node some walk within the depth reaches has been found by a least walk |
| `BreadthFirst.OneMoreEnd` | scripts/content_release_seed.py:409-419 | each pop expands a node not expanded before, so the search ends on cyclic graphs |
| `BreadthFirst.WalksExactly` | scripts/content_release_seed.py:325-337 | a walk starts at the start and goes from neighbour to neighbour; shorter walks come first, and equally long ones compare by the first place where they differ |
| `RateLimit.RateLimitDecisions` | scripts/content_release_seed.py:485-505 | each event is admitted exactly when its tenant has fewer than `limit` admitted events in the half-open window ending at it; the two errors exactly on bad limits and on decreasing timestamps |
| `RateLimit.Decide` | scripts/content_release_seed.py:497-503 | the pruned deque is exactly the unexpired part of the full history of admitted events of the tenant |
| `RateLimit.PrunedIsUnexpired` | scripts/content_release_seed.py:498-499 | dropping expired entries from the front of a pruned history leaves the unexpired part of the whole one |
| `RateLimit.GreedyFitsWindow` | scripts/content_release_seed.py:485-505 | no tenant has more than `limit` admitted events in any half-open window, wherever it ends |
| `RateLimit.GreedyIsOptimal` | scripts/content_release_seed.py:485-505 | any other admission that keeps every window within the limit admits no more events of any tenant, at every prefix of the stream |
| `RateLimit.RejectionIsRepaid` | scripts/content_release_seed.py:500-504 | where greedy rejects and another feasible schedule admits, greedy has already admitted as many |
| `RateLimit.GreedyIsUnique` | scripts/content_release_seed.py:485-505 | events and limits determine the decisions |
| `RateLimit.DecisionsCount` | scripts/content_release_seed.py:497-504 | an event is admitted exactly when fewer than `limit` events of its tenant were admitted before it less than a window ago |
| `ResourceWindows.AllocateResourceWindows` | scripts/content_release_seed.py:125-148 | the accepted ids are those of the requests that, in sorted order, fit with all accepted before them; an error is the first one of the sorted requests |
| `ResourceWindows.IsSafe` | scripts/content_release_seed.py:138-147 | looking at boundary points only decides whether a request fits at every real instant |
| `ResourceWindows.LoadIsConstant` | scripts/content_release_seed.py:138-147 | between two neighbouring boundaries the units in use do not change |
| `ResourceWindows.NeverOverCapacity` | scripts/content_release_seed.py:125-148 | at every instant the accepted intervals use at most the capacity |
| `ResourceWindows.RejectedIffOverload` | scripts/content_release_seed.py:125-148 | a well-formed request is left out exactly when with those accepted before it the capacity would be exceeded at some instant |
| `ResourceWindows.SortedIsSorted` | scripts/content_release_seed.py:130-130 | the requests are taken in order of start, then end, then id, none lost and none added |
| `ResourceWindows.SortedIsUnique` | scripts/content_release_seed.py:130-130 | with distinct ids the order in which requests are given does not matter |
| `ResourceWindows.ProblemExactly` | scripts/content_release_seed.py:131-137 | in sorted order, an id that is empty or was there before is reported before an interval that is empty or asks for no units |
| `ResourceWindows.LoadAdds` | scripts/content_release_seed.py:141-146 | an interval adds its units from its start up to but not including its end |
| `ChunkedRecords.ParseChunkedRecords` | scripts/content_release_seed.py:362-381 | records and failure are those of the concatenation of the chunks |
| `ChunkedRecords.TakeLines` | scripts/content_release_seed.py:369-378 | consuming the complete lines of the buffer changes neither the outcome nor the error, whatever comes later |
| `ChunkedRecords.RoundTrip` | scripts/content_release_seed.py:362-381 | printing records as `key=value` lines, cutting the text anywhere and parsing gives the records back |
| `ChunkedRecords.ParsedTextSpells` | scripts/content_release_seed.py:362-381 | a text that parses consists of whole lines that spell the records it yields, in order, and blank lines |
| `ChunkedRecords.SpelledTextParses` | scripts/content_release_seed.py:362-381 | conversely every such text parses to the records it spells |
| `ChunkedRecords.UnterminatedFails` | scripts/content_release_seed.py:379-380 | a last line without newline is an error unless an earlier line is one already |
| `ChunkedRecords.FirstBadLineFails` | scripts/content_release_seed.py:370-378 | the first line that is not a record decides the error, whatever follows: malformed if it has other than one equals sign, an empty key otherwise |
| `ChunkedRecords.LineExactly` | scripts/content_release_seed.py:373-378 | a line is malformed if it has other than one equals sign, has an empty key if it starts with the only one, and is otherwise the text before it and the text after it |
| `ChunkedRecords.BlankLineIsSkipped` | scripts/content_release_seed.py:370-372 | a blank line means nothing |
| `MergeBatches.MergePipelineBatches` | scripts/content_release_seed.py:528-547 | on sorted batches the result is strictly ascending and holds exactly the union of the batches; the error exactly when some batch holds a greater element before a smaller one |
| `MergeBatches.PopFront` | scripts/content_release_seed.py:540-545 | the heap holds exactly the next unread element of each unfinished batch, and the popped one is no greater than anything unread |
| `MergeBatches.AscendingIsUnique` | scripts/content_release_seed.py:536-547 | only one strictly ascending list has given elements, so the order of batches does not matter |
| `CrawlFrontier.CrawlFrontier` | scripts/content_release_seed.py:402-420 | the output lists once each exactly the pages within the depth, each with its least walk, in shortlex order of these walks |
| `CrawlFrontier.FrontierIsReach` | scripts/content_release_seed.py:402-420 | a page is output exactly when some walk of at most the maximum depth reaches it, and pages come in nondecreasing distance |
| `CrawlFrontier.FrontierIsUnique` | scripts/content_release_seed.py:402-420 | graph, start and depth determine the output |
| `HealthBreaches.HealthBreachIntervals` | scripts/content_release_seed.py:611-631 | the intervals are the first and last timestamps of exactly the maximal runs at or above the threshold that are long enough, in order; the error exactly on timestamps that do not increase |
| `HealthBreaches.ClosingRun` | scripts/content_release_seed.py:618-630 | a sample below the threshold, or the sentinel, closes the open run and no other |
| `CorpusPreparation.DuplicateTracker.AddConcept` | scripts/import_large_question_corpus.py:124-139 | an insertion says whether the value is new and adds it |
| `CorpusPreparation.PreparedStream.Next` | scripts/import_large_question_corpus.py:424-459 | a row is yielded exactly when valid, with an id new among earlier valid rows and a fingerprint new among earlier rows with fresh ids; canonical exactly when first of its family; counters and failures follow |
| `CorpusPreparation.PrepareAll` | scripts/import_large_question_corpus.py:414-459 | the rows yielded, the counters as they stood when each was, the final counters and the recorded failures of a whole file |
| `CorpusPreparation.CountersBalance` | scripts/import_large_question_corpus.py:414-459 | parsed rows are validated rows plus those rejected before classification, for every disposition; a quarantined file counts all as rejected |
| `CorpusPreparation.CanonicalCountsFamilies` | scripts/import_large_question_corpus.py:238-248 | the canonical rows are as many as the distinct concept keys of accepted rows |
| `CorpusPreparation.FateExactly` | scripts/import_large_question_corpus.py:424-444 | a row is invalid, repeats the id of an earlier valid row, or repeats the fingerprint of an earlier row with a fresh id, in this order; otherwise it is canonical unless an earlier accepted row has its concept |
| `CorpusPreparation.ClassifiesExactly` | scripts/import_large_question_corpus.py:238-248 | rejected and reference-only files classify all rows alike, the others by whether the concept is new |
| `CorpusPreparation.CountersTell` | scripts/import_large_question_corpus.py:414-459 | what each of the nine counters counts among the rows and the classifications yielded |
| `CorpusPreparation.TallyCounts` | scripts/import_large_question_corpus.py:414-459 | the duplicate counters count the rows that met that fate |
| `CorpusPreparation.FailuresTell` | scripts/import_large_question_corpus.py:443-447 | the failures kept are the numbers of the first hundred invalid rows, in order |
| `CorpusPreparation.AcceptedArePrepared` | scripts/import_large_question_corpus.py:428-459 | every accepted row is yielded, as canonical exactly if it is the earliest of its family |
| `CorpusPreparation.PreparedAreUnique` | scripts/import_large_question_corpus.py:94-145 | no two yielded rows share an id or a fingerprint |
| `CorpusPreparation.PreparedAreAccepted` | scripts/import_large_question_corpus.py:414-459 | only accepted rows are yielded, in file order |
| `KeyedUpserts.GetApply` | scripts/import_large_question_corpus.py:632-700 | after any sequence of upserts a cell has its first-writer columns from before or the first write, and the others from the last write |
| `KeyedUpserts.ReplayEarlier` | scripts/import_large_question_corpus.py:962-1010 | if going on from here and from further back lead to the same tables, so does going back after any progress |
| `KeyedUpserts.ProgressConverges` | scripts/import_large_question_corpus.py:962-1010 | replay equation: flushing rows keeps convergence from every earlier position and extends it to the position reached |
| `CorpusImport.Database.ImportRow` | scripts/import_large_question_corpus.py:615-848 | what one row makes of every cell of the tables: topics keep the first category and take the last name, a quarantined row changes nothing, and no approach or solution is written where the body may not be stored |
| `CorpusImport.RowWritesExactly` | scripts/import_large_question_corpus.py:615-848 | the tables after the writes of a row are the only ones that hold, cell by cell, what is kept from before, what the row overwrites and nothing else |
| `CorpusImport.TopicKeepsFirst` | scripts/import_large_question_corpus.py:761-773 | after any number of rows a topic has the category it had before them, or that of the first row that mentions it, where the topic column counts before the subtopic column |
| `CorpusImport.TopicTakesLast` | scripts/import_large_question_corpus.py:761-773 | and the name the last such row gives it |
| `CorpusImport.Database.ImportTopics` | scripts/import_large_question_corpus.py:600-612 | one upsert and one link for each distinct topic slug |
| `CorpusImport.Database.EnsureBatch` | scripts/import_large_question_corpus.py:533-588 | a batch record is opened once and otherwise returned as stored |
| `CorpusImport.Database.Flush` | scripts/import_large_question_corpus.py:972-994 | one transaction: the writes of the pending rows after the checkpoint, the checkpoint and the counters |
| `CorpusImport.Database.UpdateBatch` | database/migrations/versions/20260824_0016_large_corpus_serving.py:66-97 | the stored checkpoint is the old or the new one; the trigger never lets it move back, the bare update would |
| `CorpusRuns.ProcessSource` | scripts/import_large_question_corpus.py:917-1028 | one run, broken off after any transaction, keeps the tables such that going on from the stored checkpoint or any earlier one ends in the same final tables; how many rows each outcome has flushed and which checkpoint and counters it leaves; a batch found complete is left alone |
| `CorpusRuns.FinishedIsComplete` | scripts/import_large_question_corpus.py:996-1018 | a finished batch is recognised by the next run exactly if no checkpoint had got past the row count, or checkpoints may move back |
| `CorpusRuns.StillConverges` | scripts/import_large_question_corpus.py:996-1010 | stopping after any flush leaves tables to go on from, even when the stored checkpoint has moved backwards |
| `CorpusRuns.PendingWrites` | scripts/import_large_question_corpus.py:996-1010 | the pending rows write exactly what the file's rows since the last flush write past the run's own checkpoint |
| `CorpusRuns.ImportWithRestarts` | scripts/import_large_question_corpus.py:917-1028 | after any sequence of broken-off runs, chunk sizes included, a run that succeeds leaves the tables of one uninterrupted import; with enough transactions a run does succeed |
| `Promotion.Promote` | scripts/promote_large_question_corpus.py:43-77 | each scanned row is promoted exactly when it passes the gates given the rows promoted before it; output, family counts and reasons follow; it stops early only at the row limit, right after the promotion that reached it |
| `Promotion.RefusalExactly` | scripts/promote_large_question_corpus.py:46-68 | a row is refused at the first of five gates it fails, the last two by counting the rows promoted before it with its solution or its concept |
| `Promotion.ReportTells` | scripts/promote_large_question_corpus.py:69-90 | families reported are the distinct keys of promoted rows; the scan stops early only with the promotion that reaches the row limit, and then says so |
| `Promotion.SelectedAt` | scripts/promote_large_question_corpus.py:69-74 | every promoted row is written, behind those promoted before it |
| `Promotion.PromotedIsGreedy` | scripts/promote_large_question_corpus.py:43-77 | the rows promoted are the only selection in which each row is taken exactly when nothing before it speaks against it |
| `Promotion.EveryRowIsAccountedFor` | scripts/promote_large_question_corpus.py:44-72 | scanned rows are promoted rows plus those counted under one of five reasons |
| `Promotion.LeftOutMeetsFullFamily` | scripts/promote_large_question_corpus.py:63-68 | an eligible row left out has a solution or concept family exactly at its cap at the end |
| `Promotion.CapsHold` | scripts/promote_large_question_corpus.py:63-70 | no family ever exceeds its cap |
| `Promotion.GreedyIsHalfOptimal` | scripts/promote_large_question_corpus.py:43-77 | when all rows were scanned, no selection of eligible rows within both caps has more than twice as many |
| `Promotion.GreedyIsFeasible` | scripts/promote_large_question_corpus.py:43-77 | the promoted rows are such a selection |
| `Promotion.HalfIsAttained` | scripts/promote_large_question_corpus.py:63-70 | the factor two is reached by three rows |
| `SqlRequests.ParseRequest` | services/sql-runner/runner.py:122-200 | a payload is accepted exactly when version, id, attempt, texts and timeout are as they should be and its tests are well formed with distinct ids; the request then holds what the payload says, every test in order, and lock and idle timeouts on either side of the statement timeout; otherwise the error of its first fault |
| `SqlRequests.AcceptedExactly` | services/sql-runner/runner.py:157-189 | a test list is accepted exactly when each test is well formed and no id repeats, and then every test is kept in order with its own visibility and fixture |
| `SqlRequests.FieldsExactly` | services/sql-runner/runner.py:131-161 | the fields of an accepted payload in plain values, limits included |
| `SqlRequests.WellFormedExactly` | services/sql-runner/runner.py:164-181 | a test is well formed exactly with a non-empty text id, visibility absent, public or hidden, no expected output and an acceptable input; without visibility it is hidden |
| `SqlRequests.FixtureExactly` | services/sql-runner/runner.py:63-119 | an input is acceptable exactly if it is null, a short enough text, or an object whose scripts that count are null or short enough texts |
| `SqlRequests.UnhashableExactly` | services/sql-runner/runner.py:164-173 | the type error is raised exactly if the first test that is not acceptable has a new id and a list or object for its visibility |
| `SqlRequests.Utf8Grows` | services/sql-runner/runner.py:39-54 | text limits count the bytes of UTF-8 |
| `SqlRunner.InputDecides` | services/sql-runner/runner.py:63-119 | which of a test's own and the request's schema, seed and setup count, explicit nulls and blank texts included |
| `SqlRunner.Database.ResetFixture` | services/sql-runner/runner.py:292-320 | a reset that succeeds leaves a public schema built from exactly the given scripts, blank seed and setup omitted |
| `SqlRunner.Database.RunRequest` | services/sql-runner/runner.py:385-439 | results are the first tests in order, each with the outcome of the query on its own scripts in order; timed out exactly when the last result did, completed only with all tests |
| `SqlRunner.QueryRanOn` | services/sql-runner/runner.py:385-412 | each query ran on the schema, then the seed unless blank, then the setup unless blank, and nothing else; which texts these are, for a raw test whose input is missing, null, a text or an object |
| `SqlRunner.AnswerTells` | services/sql-runner/runner.py:413-439 | each result is that of the test at its place; a timeout is the last result and makes the status |
| `SqlServer.PermitsBalance` | services/sql-runner/server.py:21-21 | in every interleaving free permits plus running handlers equal the capacity, whatever it is |
| `SqlServer.EveryRunIsIsolated` | services/sql-runner/server.py:122-178 | in every interleaving, failures in the middle of a reset included, each query ran on exactly the scripts of its own test |
| `SqlServer.AnswersAreOwn` | services/sql-runner/server.py:135-151 | each answer satisfies what the runner guarantees for a request run alone |
| `SqlServer.RepliesTellInput` | services/sql-runner/server.py:143-175 | in every interleaving a request is answered as faulty exactly when its payload is, and with results only if the payload is acceptable |
| `SqlServer.RefusedExactly` | services/sql-runner/server.py:122-132 | a request is refused exactly when as many handlers as the capacity hold a permit |
| `SqlServer.OthersStep` | services/sql-runner/server.py:122-178 | a step of one handler leaves the state every other handler relies on |
| `SqlServer.RefusedNeverTouches` | services/sql-runner/server.py:122-132 | no step of a handler that ends up refused changes the database |
| `SqlServer.StepsRunOut` | services/sql-runner/server.py:133-178 | every step of a handler lowers a bound on the steps it has left |
| `SqlServer.NeverStuck` | services/sql-runner/server.py:133-178 | a handler that is not done can always take a step that does not fail |
| `SqlServer.PermitsComeBack` | services/sql-runner/server.py:176-178 | where no handler can go on, each has been refused or answered and every permit is free |
| `SqlServer.RunsAreBounded` | services/sql-runner/server.py:122-178 | no interleaving is longer than the sum of the steps its handlers have left at first |
| `SqlServer.TwoPermitsInterfere` | services/sql-runner/server.py:18-21 | with two permits some interleaving completes a request whose query ran on an empty schema |
| `PythonRunner.BoundedText.Write` | services/python-runner/runner.py:72-80 | the buffer holds the first `limit` characters of everything written and is marked truncated exactly when more was written |
| `PythonRunner.Capture` | services/python-runner/runner.py:65-80 | the same for any sequence of writes to a new buffer |
| `PythonRunner.RunRequest` | services/python-runner/runner.py:363-433 | results are an in-order prefix; completed exactly when all tests ran and none reported a timeout; streams and flags are those of the public tests; ends before start plus timeout plus one second, plus one kill grace only if a test timed out |
| `PythonRunner.Budget` | services/python-runner/runner.py:382-386 | a test started before the deadline has its rounded budget end at the deadline or less than a second after it, unless the time of the whole request is less |
| `PythonRunner.TestInTimeIsReported` | services/python-runner/runner.py:382-411 | no test is cut short before the deadline: one that would end by then is reported as it executes without a limit |
| `PythonRunner.RunInTimeCompletes` | services/python-runner/runner.py:379-418 | if all tests together fit into the time and none reports a timeout of its own, all are reported and the run completes |
| `PythonRunner.StreamsTell` | services/python-runner/runner.py:412-432 | the streams are the first 65536 characters of what the public tests printed, in order, each with its own errors before those of its process |
| `PythonRunner.CourseIsUnique` | services/python-runner/runner.py:379-418 | which tests run and whether the run is stopped is determined |
| `PythonRunner.StreamsAreOwnExactly` | services/python-runner/runner.py:381-432 | for a test list and a timeout: all pairs of requests whose public tests execute alike have the same streams and flags exactly if no hidden test comes before a public one, or there is no time to run any |
| `PythonRunner.PublicFirstGivesSameStreams` | services/python-runner/runner.py:381-432 | with no hidden test before a public one, requests whose public tests execute alike have the same streams and flags |
| `PythonRunner.HiddenTimeoutShows` | services/python-runner/runner.py:394-418 | for every test list with a hidden test before a public one, two requests whose public tests execute alike print differently, because the hidden test times out in one |
| `Versions.EveryRunIsSound` | scripts/sync_attachment_question_bank.py:243-538 | over any mixture of imports under any version labels and launches, every pointer names a published version of its own question, and each step keeps the content of versions approved or published before it |
| `Versions.OwnVersionAfter` | scripts/sync_attachment_question_bank.py:292-400 | what a row makes of its own version: inserted, republished, left alone if frozen, or rewritten |
| `Versions.RestAfter` | scripts/sync_attachment_question_bank.py:292-400 | when the pointer moves to it, and that of all other versions only the superseded one changes, and only when the row writes |
| `Versions.ReportedExactly` | scripts/sync_attachment_question_bank.py:243-538 | the action reported, told from the tables before and after, and whether the version is published afterwards |
| `Versions.ResolveFindsFirst` | scripts/sync_attachment_question_bank.py:153-185 | the track is the first candidate that exists |
| `Versions.ProblemExactly` | scripts/publish_production_launch_catalog.py:156-205 | which of the five checks stops a target, in their order; none does exactly if its version is there with its content, validated, and live already or waiting with no other version current |
| `Versions.LaunchableExactly` | scripts/publish_production_launch_catalog.py:156-205 | a set can be launched exactly if each target can |
| `Versions.VersionAfterLaunch` | scripts/publish_production_launch_catalog.py:239-252 | a launch publishes exactly the targets' versions and changes nothing else of any version |
| `Versions.PointerAfterLaunch` | scripts/publish_production_launch_catalog.py:239-252 | and moves exactly their questions' pointers |
| `Versions.UpsertKeepsSound` | scripts/sync_attachment_question_bank.py:292-309 | one import keeps every pointer on a published version of its own question |
| `Versions.LaunchKeepsSound` | scripts/publish_production_launch_catalog.py:239-252 | so does launching any number of targets |
| `Versions.UpsertKeepsFrozen` | scripts/sync_attachment_question_bank.py:332-336 | an import changes neither hash, track nor validation of an approved or published version |
| `Versions.PublishedStaysUniqueExactly` | scripts/sync_attachment_question_bank.py:292-308 | an import keeps published versions unique to their question exactly unless it republishes unchanged content while another version is current |
| `QuestionBank.Tables.UpsertOne` | scripts/sync_attachment_question_bank.py:243-538 | the tables and the reported action after one row, in every branch |
| `QuestionBank.Batches` | scripts/sync_attachment_question_bank.py:100-108 | all rows in order, in full batches but for a last one that is not empty |
| `QuestionBank.Tables.Run` | scripts/sync_attachment_question_bank.py:545-625 | valid rows are imported in order batch by batch and counted by action; discovered is valid plus invalid |
| `QuestionBank.UpsertsComeFromLines` | scripts/sync_attachment_question_bank.py:560-607 | each row imported is that of a valid line at its place, published if all are to be or its tier is |
| `QuestionBank.LinesAreImported` | scripts/sync_attachment_question_bank.py:560-607 | and every valid line is imported |
| `QuestionBank.CountsTell` | scripts/sync_attachment_question_bank.py:608-623 | each counter counts the imports reported by its action, immutable ones with the unchanged |
| `QuestionBank.Tables.RunUntilDone` | scripts/sync_attachment_question_bank.py:600-625 | after any number of runs broken off between batches, a whole run leaves the tables of one undisturbed run |
| `QuestionBank.EveryImportIsCounted` | scripts/sync_attachment_question_bank.py:604-623 | each import is counted under exactly one action |
| `QuestionBank.Tables.PublishLaunchSet` | scripts/publish_production_launch_catalog.py:156-301 | succeeds exactly when each target's version is there with the package's content, validated, and live already or waiting with no other version current; then publishes all, counting those live before; otherwise names the first problem and changes nothing; the final count cannot fail |
| `QuestionBank.AllLive` | scripts/publish_production_launch_catalog.py:285-301 | after a launch each target is published and current |
| `Reimport.RerunChangesNothing` | scripts/sync_attachment_question_bank.py:243-538 | importing the same rows with the same flags again changes no version and no pointer, even where rows share a question |
| `Reimport.BrokenOffRunIsMadeGood` | scripts/sync_attachment_question_bank.py:600-625 | a whole run after a run broken off anywhere ends where one undisturbed run does |
| `Reimport.EveryVersionIsReached` | scripts/sync_attachment_question_bank.py:243-538 | after a run each version is either beyond change by its rows or what the last of them writes, with none of them publishing |
| `Reimport.ChangesNothingExactly` | scripts/sync_attachment_question_bank.py:292-336 | importing rows of distinct questions into any sound tables, by whatever version labels these were written, changes nothing exactly when each row, looked up in the tables beforehand, has no track, or finds its content there and published if it is to be, or finds other content that is frozen |
| `Reimport.SettledExactly` | scripts/sync_attachment_question_bank.py:292-336 | the same for one row, in any tables |
| `Reimport.DistinctRerunChangesNothing` | scripts/sync_attachment_question_bank.py:243-538 | after a run over distinct questions every row is such, so a second run changes nothing even with several version labels |
| `Reimport.OlderLabelTakesOver` | scripts/sync_execution_ready_attachment_question_bank.py:20-20 | a row of an older version label that is not such: importing it again after a newer one takes the pointer back and leaves both versions published |
| `SplitTop.SplitTop` | scripts/build_attachment_execution_bank.py:30-56 | the trimmed, non-empty slices between the separators outside quotes and brackets; one slice if the separator is itself a quote or a bracket |
| `SplitTop.ItemsAreSplit` | scripts/build_attachment_execution_bank.py:30-56 | items made of plain characters, quoted texts with escapes, and bracketed parts that hold anything, joined by a separator, are split where they were joined, each trimmed, the blank ones left out |
| `SplitTop.SlicesRejoin` | scripts/build_attachment_execution_bank.py:37-55 | the untrimmed slices joined with the separator give back any text |
| `SplitTop.JoinIsCut` | scripts/build_attachment_execution_bank.py:37-55 | cutting a join of closed pieces without top-level separators gives exactly the pieces |
| `SplitTop.SlicesAreUnique` | scripts/build_attachment_execution_bank.py:37-55 | the slices are the only such pieces whose join is the text |
| `SplitTop.SplitInvertsJoin` | scripts/build_attachment_execution_bank.py:30-56 | splitting inverts joining for trimmed, non-empty, closed pieces without top-level separators |
| `Text.StripTakesSpaceOnly` | scripts/build_attachment_execution_bank.py:53-55 | stripping removes whitespace only, and only at the two ends |
| `Text.StripsToNothingExactly` | services/sql-runner/runner.py:39-41 | a text is blank exactly if it is nothing but whitespace |
| `Text.SpacesAre` | scripts/build_attachment_execution_bank.py:53-55 | the code points that count as whitespace |

## Left out

- SQL text, connections and schema details: tables are maps, `ON CONFLICT` is a keyed merge, and a unique
  constraint hit by other data is a run that stops.
- Hashing, JSON and Parquet decoding, row validation, slugs and concept keys: given values. A line that
  cannot be decoded is a run that never completes.
- Two importers at work on one batch at a time, and a file that changes between runs.
- PreparedStream.Next: the generator is consumed ahead of the flushes, with the counters recorded at each row it yields.
- Database.ImportRow: columns are grouped by how a conflict treats them; their individual names are not kept.
- Promote: the texts written out, the counts by subject and the report file are not modelled; stripped texts and digests are given.
- RunRequest (SQL): objects outside the public schema, roles and grants; the candidate is taken to be able to read only, so its outcome is a given function of its text and of the scripts behind the schema.
- RunRequest (Python): the child process itself; what a test prints, reports and takes is given, within its budget, and no time passes between tests.
- ParseRequest: reading and decoding the file, and its size limit; the payload is what has been decoded.
- The run-time type checks of the reference programs: arguments have the types the programs ask for.
- HTTP parsing, response size limits and health checks of the two servers.
- UpsertOne: question slugs and tracks, skills, provenance, audit events and validation history beyond the latest outcome.
- PublishLaunchSet: package and rights validation before the loop, and publication events, whose idempotency key names the version it must match.
- The dry-run and validate modes of the sync script, which write nothing.
- The other reference programs (`select_worker_batch`, `deduplicate_tasks`, `compensation_plan`,
  `diff_snapshots`, `growth_windows`, `retry_schedule`): they would add only easy members.
- Web and mobile clients, infrastructure, manifests, seed data, collectors and the review workflow.
