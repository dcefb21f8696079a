/** The two scripts at work on the tables: `upsert_one` row by row in batches, one transaction each, and
    `publish_launch_set` in a single one. */
module QuestionBank {
  import opened Wrappers
  import opened Names
  import opened Versions
  import Reimport

  const EXPECTED_LAUNCH_PACKAGES := 50

  /** A line of the source file, with what `validate_row` says of it. */
  datatype Line = Line(row: Row, valid: bool)

  datatype Settings = Settings(version: Name, seeded: set<Track>, publishAll: bool, publishTiers: set<Name>,
                               batchSize: int)

  /** What `run` reports of the imports; `kept` are those reported as unchanged, immutable ones included. */
  datatype Counts = Counts(inserted: nat, updated: nat, kept: nat, skipped: nat, published: nat)

  datatype LaunchReport = LaunchReport(publishedNow: nat, alreadyPublished: nat, publishedTotal: nat)

  // ----- Specification -----

  function ToUpsert(row: Row, settings: Settings): Upsert {
    Upsert(row, settings.version, settings.seeded, settings.publishAll || row.tier in settings.publishTiers)
  }

  /** The valid lines, as rows to import. */
  ghost function Upserts(lines: seq<Line>, settings: Settings, n: nat): seq<Upsert>
    requires n <= |lines|
  {
    if n == 0 then []
    else Upserts(lines, settings, n - 1) + if lines[n - 1].valid then [ToUpsert(lines[n - 1].row, settings)] else []
  }

  function Tallied(counts: Counts, reported: (Action, bool)): Counts {
    var (action, published) := reported;
    Counts(counts.inserted + if action == Inserted then 1 else 0,
           counts.updated + if action == Updated then 1 else 0,
           counts.kept + if action == Unchanged || action == ImmutableExisting then 1 else 0,
           counts.skipped + if action == UnseededTrack then 1 else 0,
           counts.published + if published then 1 else 0)
  }

  /** The counts of the first `n` imports. */
  ghost function Counted(bank: Bank, upserts: seq<Upsert>, n: nat): Counts
    requires n <= |upserts|
  {
    if n == 0 then Counts(0, 0, 0, 0, 0)
    else Tallied(Counted(bank, upserts, n - 1), Reported(Imported(bank, upserts, n - 1), upserts[n - 1]))
  }

  /** The first `n` imports are done and counted. */
  ghost predicate HaveImported(bank: Bank, counts: Counts, start: Bank, upserts: seq<Upsert>, n: nat) {
    n <= |upserts| && bank == Imported(start, upserts, n) && counts == Counted(start, upserts, n)
  }

  lemma OneImport(bank: Bank, counts: Counts, start: Bank, upserts: seq<Upsert>, n: nat)
    requires n < |upserts| && HaveImported(bank, counts, start, upserts, n)
    ensures HaveImported(Upserted(bank, upserts[n]), Tallied(counts, Reported(bank, upserts[n])), start, upserts, n + 1)
  {
  }

  function LimitOf(batchSize: int): nat {
    if batchSize < 1 then 1 else batchSize
  }

  /** How many rows come before batch `b`. */
  ghost function Start<T>(batches: seq<seq<T>>, b: nat): nat
    requires b <= |batches|
  {
    if b == 0 then 0 else Start(batches, b - 1) + |batches[b - 1]|
  }

  ghost predicate IsSlice<T>(rows: seq<T>, at: nat, batch: seq<T>) {
    at + |batch| <= |rows| && batch == rows[at..at + |batch|]
  }

  ghost predicate IsPiece<T>(rows: seq<T>, batches: seq<seq<T>>, b: nat)
    requires b < |batches|
  {
    IsSlice(rows, Start(batches, b), batches[b])
  }

  /** The batches cut up the first rows, one after another. */
  ghost predicate ArePieces<T>(rows: seq<T>, batches: seq<seq<T>>) {
    forall b :: 0 <= b < |batches| ==> IsPiece(rows, batches, b)
  }

  ghost predicate Extends<T>(batches: seq<seq<T>>, more: seq<seq<T>>) {
    |batches| <= |more| && forall b :: 0 <= b < |batches| ==> more[b] == batches[b]
  }

  lemma {:induction false} StartStays<T>(batches: seq<seq<T>>, more: seq<seq<T>>, b: nat)
    requires Extends(batches, more) && b <= |batches|
    ensures Start(more, b) == Start(batches, b)
  {
    if b > 0 {
      StartStays(batches, more, b - 1);
    }
  }

  lemma SliceGrows<T>(rows: seq<T>, at: nat, batch: seq<T>, i: nat)
    requires IsSlice(rows, at, batch) && i == at + |batch| < |rows|
    ensures IsSlice(rows, at, batch + [rows[i]])
  {
    assert rows[at..i + 1] == rows[at..i] + [rows[i]];
  }

  lemma PieceStays<T>(rows: seq<T>, batches: seq<seq<T>>, more: seq<seq<T>>, b: nat)
    requires ArePieces(rows, batches) && Extends(batches, more) && b < |batches|
    ensures IsPiece(rows, more, b)
  {
    StartStays(batches, more, b);
    assert IsPiece(rows, batches, b);
  }

  lemma OneMorePiece<T>(rows: seq<T>, batches: seq<seq<T>>, more: seq<seq<T>>, at: nat)
    requires ArePieces(rows, batches) && Extends(batches, more) && |more| == |batches| + 1
    requires at == Start(batches, |batches|) && IsSlice(rows, at, more[|batches|])
    ensures ArePieces(rows, more)
    ensures Start(more, |more|) == at + |more[|batches|]|
  {
    StartStays(batches, more, |batches|);
    forall b | 0 <= b < |more|
      ensures IsPiece(rows, more, b)
    {
      if b < |batches| {
        PieceStays(rows, batches, more, b);
      }
    }
  }

  /** `batches`: all rows in order, in batches that are full but for the last, which is not empty. */
  method Batches<T>(rows: seq<T>, size: int) returns (batches: seq<seq<T>>)
    ensures ArePieces(rows, batches) && Start(batches, |batches|) == |rows|
    ensures forall b :: 0 <= b < |batches| ==> 0 < |batches[b]| <= LimitOf(size)
    ensures forall b :: 0 <= b < |batches| - 1 ==> |batches[b]| == LimitOf(size)
  {
    batches := [];
    var batch: seq<T> := [];
    ghost var at := 0;
    for i := 0 to |rows|
      invariant IsSlice(rows, at, batch) && at + |batch| == i && |batch| < LimitOf(size)
      invariant ArePieces(rows, batches) && Start(batches, |batches|) == at
      invariant forall b :: 0 <= b < |batches| ==> |batches[b]| == LimitOf(size)
    {
      SliceGrows(rows, at, batch, i);
      batch := batch + [rows[i]];
      if |batch| >= size {
        OneMorePiece(rows, batches, batches + [batch], at);
        batches, batch, at := batches + [batch], [], i + 1;
      }
    }
    if batch != [] {
      OneMorePiece(rows, batches, batches + [batch], at);
      batches := batches + [batch];
    }
  }

  /** The first target that cannot be launched, and why. */
  ghost predicate IsFirstProblem(bank: Bank, targets: seq<Target>, i: nat, error: LaunchError) {
    && i < |targets| && Problem(bank, targets[i]) == Some(error)
    && forall j :: 0 <= j < i ==> Problem(bank, targets[j]) == None
  }

  /** The question's pointer names a published version. */
  predicate HasPublished(bank: Bank, question: Name) {
    && question in bank.current && bank.current[question] in bank.versions
    && bank.versions[bank.current[question]].state == Published
  }

  // ----- Program -----

  class Tables {
    var versions: map<VersionId, Version>
    var current: map<Name, VersionId>

    ghost function State(): Bank
      reads this
    {
      Bank(versions, current)
    }

    /** `upsert_one`. */
    method UpsertOne(u: Upsert) returns (action: Action, published: bool)
      modifies this
      ensures State() == Upserted(old(State()), u)
      ensures (action, published) == Reported(old(State()), u)
    {
      var track := Resolve(u.row.candidates, u.seeded);
      if track == None {
        return UnseededTrack, false;
      }
      var id := u.Id();
      var existing := id in versions;
      if existing && versions[id].hash == u.row.hash {
        if u.publish && versions[id].state != Published {
          versions := versions[id := versions[id].(state := Published)];
          current := current[u.row.canonicalId := id];
          return Unchanged, true;
        }
        return Unchanged, versions[id].state == Published;
      }
      if existing && (versions[id].state == Approved || versions[id].state == Published) {
        return ImmutableExisting, versions[id].state == Published;
      }
      var state := if u.publish then Published else AwaitingTechnicalReview;
      versions := versions[id := Version(u.row.hash, track.value, state, true)];
      if u.publish {
        if u.row.canonicalId in current && current[u.row.canonicalId] != id && current[u.row.canonicalId] in versions {
          var superseded := current[u.row.canonicalId];
          versions := versions[superseded := versions[superseded].(state := Deprecated)];
        }
        current := current[u.row.canonicalId := id];
      }
      return if existing then Updated else Inserted, u.publish;
    }

    /** The transactions of `run`: each batch is imported as a whole, until as many are committed as the
        run lives to see. */
    method ImportBatches(upserts: seq<Upsert>, batchSize: int, commits: nat)
      returns (counts: Counts, finished: bool, ghost imported: nat)
      modifies this
      ensures HaveImported(State(), counts, old(State()), upserts, imported)
      ensures finished ==> imported == |upserts|
      ensures |upserts| <= commits ==> finished
    {
      ghost var start := State();
      var batches := Batches(upserts, batchSize);
      counts, imported := Counts(0, 0, 0, 0, 0), 0;
      for b := 0 to |batches|
        invariant imported == Start(batches, b) && b <= imported <= |upserts|
        invariant HaveImported(State(), counts, start, upserts, imported)
      {
        assert IsPiece(upserts, batches, b);
        if b >= commits {
          return counts, false, imported;
        }
        counts, imported := ImportBatch(batches[b], counts, start, upserts, imported);
      }
      return counts, true, imported;
    }

    static method Tally(counts0: Counts, action: Action, published: bool) returns (counts: Counts)
      ensures counts == Tallied(counts0, (action, published))
    {
      counts := counts0;
      match action {
        case Inserted => counts := counts.(inserted := counts.inserted + 1);
        case Updated => counts := counts.(updated := counts.updated + 1);
        case Unchanged => counts := counts.(kept := counts.kept + 1);
        case UnseededTrack => counts := counts.(skipped := counts.skipped + 1);
        case ImmutableExisting => counts := counts.(kept := counts.kept + 1);
      }
      if published {
        counts := counts.(published := counts.published + 1);
      }
    }

    /** One batch. */
    method ImportBatch(batch: seq<Upsert>, counts0: Counts, ghost start: Bank, ghost upserts: seq<Upsert>,
                       ghost at: nat)
      returns (counts: Counts, ghost next: nat)
      requires at + |batch| <= |upserts| && upserts[at..at + |batch|] == batch
      requires HaveImported(State(), counts0, start, upserts, at)
      modifies this
      ensures next == at + |batch| && HaveImported(State(), counts, start, upserts, next)
    {
      counts := counts0;
      next := at;
      for j := 0 to |batch|
        invariant next == at + j && HaveImported(State(), counts, start, upserts, next)
      {
        assert batch[j] == upserts[next];
        OneImport(State(), counts, start, upserts, next);
        var action, published := UpsertOne(batch[j]);
        counts := Tally(counts, action, published);
        next := next + 1;
      }
    }

    /** `run` in sync mode: the invalid lines are left out, and the rest is imported. */
    method Run(lines: seq<Line>, settings: Settings, commits: nat)
      returns (valid: nat, invalid: nat, counts: Counts, finished: bool, ghost imported: nat)
      modifies this
      ensures valid + invalid == |lines| && valid == |Upserts(lines, settings, |lines|)|
      ensures HaveImported(State(), counts, old(State()), Upserts(lines, settings, |lines|), imported)
      ensures finished ==> imported == valid
      ensures |lines| <= commits ==> finished
    {
      var upserts: seq<Upsert> := [];
      valid, invalid := 0, 0;
      for i := 0 to |lines|
        invariant upserts == Upserts(lines, settings, i) && valid == |upserts| && valid + invalid == i
        invariant State() == old(State())
      {
        if !lines[i].valid {
          invalid := invalid + 1;
          continue;
        }
        valid := valid + 1;
        upserts := upserts + [ToUpsert(lines[i].row, settings)];
      }
      counts, finished, imported := ImportBatches(upserts, settings.batchSize, commits);
    }

    /** Runs on one file, each broken off after as many batches as it may commit. Once one gets through
        them all, the tables are those of a single undisturbed run. */
    method RunUntilDone(lines: seq<Line>, settings: Settings, attempts: seq<nat>)
      requires IsSound(State()) && HashesTell(lines)
      requires attempts != [] && |lines| <= attempts[|attempts| - 1]
      modifies this
      ensures
        var upserts := Upserts(lines, settings, |lines|);
        State() == Imported(old(State()), upserts, |upserts|)
    {
      ghost var upserts, start := Upserts(lines, settings, |lines|), State();
      UpsertsAreOneRun(lines, settings, |lines|);
      for a := 0 to |attempts|
        invariant IsSound(State()) && Imported(State(), upserts, |upserts|) == Imported(start, upserts, |upserts|)
        invariant a == |attempts| ==> State() == Imported(start, upserts, |upserts|)
      {
        ghost var before := State();
        var _, _, _, finished, imported := Run(lines, settings, attempts[a]);
        ImportsKeepSound(before, upserts, imported);
        Reimport.BrokenOffRunIsMadeGood(before, upserts, imported);
      }
    }

    /** The checks a target has to pass. */
    method Judge(t: Target) returns (problem: Option<LaunchError>)
      ensures problem == Problem(State(), t)
    {
      var id := t.Id();
      if id !in versions {
        return Some(NotSynchronized);
      }
      if versions[id].hash != t.hash {
        return Some(HashMismatch);
      }
      if !versions[id].validated {
        return Some(NotValidated);
      }
      if t.identifier in current && current[t.identifier] == id && versions[id].state == Published {
        return None;
      }
      if t.identifier in current && current[t.identifier] != id {
        return Some(OtherVersionPublished);
      }
      if versions[id].state != AwaitingTechnicalReview {
        return Some(NotAwaitingReview);
      }
      return None;
    }

    /** How many targets have a published version. */
    method CountPublished(targets: seq<Target>) returns (n: nat)
      ensures n <= |targets|
      ensures n == |targets| <==> forall i :: 0 <= i < |targets| ==> HasPublished(State(), targets[i].identifier)
    {
      n := 0;
      for i := 0 to |targets|
        invariant n <= i
        invariant n == i <==> forall j :: 0 <= j < i ==> HasPublished(State(), targets[j].identifier)
      {
        var q := targets[i].identifier;
        if q in current && current[q] in versions && versions[current[q]].state == Published {
          n := n + 1;
        }
      }
    }

    /** `publish_launch_set`, on one target a question. */
    method PublishLaunchSet(targets: seq<Target>) returns (r: Result<LaunchReport, LaunchError>)
      requires HaveDistinctQuestions(targets) && |targets| == EXPECTED_LAUNCH_PACKAGES
      modifies this
      ensures r.Ok? <==> CanLaunch(old(State()), targets)
      ensures r.Ok? <==> forall t :: t in targets ==> IsLaunchable(old(State()), t)
      ensures r.Ok? ==> State() == Launched(old(State()), targets, |targets|)
      ensures r.Ok? ==> r.value.publishedNow + r.value.alreadyPublished == r.value.publishedTotal == |targets|
      ensures r.Ok? ==> r.value.alreadyPublished == |LiveAmong(old(State()), targets, |targets|)|
      ensures r.Err? ==> State() == old(State()) && exists i :: IsFirstProblem(old(State()), targets, i, r.error)
    {
      var versions0, current0 := versions, current;
      ghost var start := State();
      var published, kept := 0, 0;
      for i := 0 to |targets|
        invariant State() == Launched(start, targets, i)
        invariant published + kept == i && kept == |LiveAmong(start, targets, i)|
        invariant forall j :: 0 <= j < i ==> Problem(start, targets[j]) == None
      {
        StillToLaunch(start, targets, i, i);
        LiveGrow(start, targets, i);
        var problem := Judge(targets[i]);
        if problem.Some? {
          versions, current := versions0, current0;
          assert IsFirstProblem(start, targets, i, problem.value);
          LaunchableExactly(start, targets);
          return Err(problem.value);
        }
        var id := targets[i].Id();
        if id.question in current && current[id.question] == id && versions[id].state == Published {
          kept := kept + 1;
          continue;
        }
        versions := versions[id := versions[id].(state := Published)];
        current := current[id.question := id];
        published := published + 1;
      }
      AllLive(start, targets, |targets|);
      assert CanLaunch(start, targets);
      LaunchableExactly(start, targets);
      var actual := CountPublished(targets);
      if actual != EXPECTED_LAUNCH_PACKAGES {
        // The last check of the launch: it cannot fail any more.
        assert false;
      }
      return Ok(LaunchReport(published, kept, actual));
    }
  }

  // ----- What the reports and the launch rely on -----

  /** Which of the first `n` targets were published and current before. */
  ghost function LiveAmong(bank: Bank, targets: seq<Target>, n: nat): set<nat>
    requires n <= |targets|
  {
    set i: nat | i < n && IsLive(bank, targets[i].Id())
  }

  lemma LiveGrow(bank: Bank, targets: seq<Target>, n: nat)
    requires HaveDistinctQuestions(targets) && n < |targets|
    ensures |LiveAmong(bank, targets, n + 1)| ==
      |LiveAmong(bank, targets, n)| + if IsLive(Launched(bank, targets, n), targets[n].Id()) then 1 else 0
  {
    OthersAreUntouched(bank, targets, n, targets[n].identifier);
    var now, before := LiveAmong(bank, targets, n + 1), LiveAmong(bank, targets, n);
    assert now == if IsLive(bank, targets[n].Id()) then before + {n} else before;
  }

  /** Equal hashes mean equal rows. */
  ghost predicate HashesTell(lines: seq<Line>) {
    forall i, j :: 0 <= i < |lines| && 0 <= j < |lines| ==> SameIfSameHash(lines[i].row, lines[j].row)
  }

  ghost predicate SameIfSameHash(a: Row, b: Row) {
    a.hash == b.hash ==> a == b
  }

  /** Each row imported is a valid line's, at its place among the valid lines and with the run's settings. */
  lemma {:induction false} UpsertsComeFromLines(lines: seq<Line>, settings: Settings, n: nat, k: nat) returns (i: nat)
    requires n <= |lines| && k < |Upserts(lines, settings, n)|
    ensures i < n && lines[i].valid && k == |Upserts(lines, settings, i)|
    ensures
      var u, row := Upserts(lines, settings, n)[k], lines[i].row;
      u == Upsert(row, settings.version, settings.seeded, settings.publishAll || row.tier in settings.publishTiers)
  {
    if k < |Upserts(lines, settings, n - 1)| {
      i := UpsertsComeFromLines(lines, settings, n - 1, k);
    } else {
      i := n - 1;
    }
  }

  /** And every valid line is imported. */
  lemma {:induction false} LinesAreImported(lines: seq<Line>, settings: Settings, n: nat, i: nat)
    requires i < n <= |lines| && lines[i].valid
    ensures |Upserts(lines, settings, i)| < |Upserts(lines, settings, n)|
  {
    if i < n - 1 {
      LinesAreImported(lines, settings, n - 1, i);
    }
  }

  lemma UpsertsAreOneRun(lines: seq<Line>, settings: Settings, n: nat)
    requires n <= |lines| && HashesTell(lines)
    ensures Reimport.IsOneRun(Upserts(lines, settings, n))
  {
    var upserts := Upserts(lines, settings, n);
    forall k, l | 0 <= k < |upserts| && 0 <= l < |upserts|
      ensures Reimport.FitTogether(upserts[k], upserts[l])
    {
      var i := UpsertsComeFromLines(lines, settings, n, k);
      var j := UpsertsComeFromLines(lines, settings, n, l);
      assert SameIfSameHash(lines[i].row, lines[j].row);
    }
  }

  /** What is reported of the first `n` imports, one after another. */
  ghost function Reports(bank: Bank, upserts: seq<Upsert>, n: nat): seq<(Action, bool)>
    requires n <= |upserts|
  {
    if n == 0 then []
    else Reports(bank, upserts, n - 1) + [Reported(Imported(bank, upserts, n - 1), upserts[n - 1])]
  }

  /** How often an action is reported. */
  function Times(reports: seq<(Action, bool)>, action: Action): nat {
    if reports == [] then 0
    else Times(reports[..|reports| - 1], action) + if reports[|reports| - 1].0 == action then 1 else 0
  }

  /** How many of the versions reported on are published. */
  function Publications(reports: seq<(Action, bool)>): nat {
    if reports == [] then 0
    else Publications(reports[..|reports| - 1]) + if reports[|reports| - 1].1 then 1 else 0
  }

  /** Each counter counts the imports reported by its action, immutable versions with the unchanged ones. */
  ghost predicate Tell(counts: Counts, reports: seq<(Action, bool)>) {
    && counts.inserted == Times(reports, Inserted) && counts.updated == Times(reports, Updated)
    && counts.kept == Times(reports, Unchanged) + Times(reports, ImmutableExisting)
    && counts.skipped == Times(reports, UnseededTrack) && counts.published == Publications(reports)
  }

  lemma TalliedTells(counts: Counts, reports: seq<(Action, bool)>, report: (Action, bool))
    requires Tell(counts, reports)
    ensures Tell(Tallied(counts, report), reports + [report])
  {
    assert (reports + [report])[..|reports|] == reports;
  }

  lemma {:induction false} CountsTell(bank: Bank, upserts: seq<Upsert>, n: nat)
    requires n <= |upserts|
    ensures
      var reports := Reports(bank, upserts, n);
      |reports| == n && Tell(Counted(bank, upserts, n), reports)
  {
    if n > 0 {
      CountsTell(bank, upserts, n - 1);
      TalliedTells(Counted(bank, upserts, n - 1), Reports(bank, upserts, n - 1),
                   Reported(Imported(bank, upserts, n - 1), upserts[n - 1]));
    }
  }

  /** Every import is reported in exactly one way. */
  lemma {:induction false} EveryImportIsCounted(bank: Bank, upserts: seq<Upsert>, n: nat)
    requires n <= |upserts|
    ensures
      var counts := Counted(bank, upserts, n);
      counts.inserted + counts.updated + counts.kept + counts.skipped == n && counts.published <= n
  {
    if n > 0 {
      EveryImportIsCounted(bank, upserts, n - 1);
    }
  }

  /** What is known of a question before and after: its pointer, and each of its versions. */
  ghost predicate SameQuestion(a: Bank, b: Bank, q: Name) {
    && (q in a.current <==> q in b.current) && (q in a.current ==> a.current[q] == b.current[q])
    && forall id: VersionId :: id.question == q ==>
      (id in a.versions <==> id in b.versions) && (id in a.versions ==> a.versions[id] == b.versions[id])
  }

  lemma {:induction false} OthersAreUntouched(bank: Bank, targets: seq<Target>, n: nat, q: Name)
    requires n <= |targets| && forall j :: 0 <= j < n ==> targets[j].identifier != q
    ensures SameQuestion(bank, Launched(bank, targets, n), q)
  {
    if n > 0 {
      OthersAreUntouched(bank, targets, n - 1, q);
    }
  }

  lemma StillToLaunch(bank: Bank, targets: seq<Target>, n: nat, i: nat)
    requires HaveDistinctQuestions(targets) && n <= i < |targets|
    ensures Problem(Launched(bank, targets, n), targets[i]) == Problem(bank, targets[i])
  {
    OthersAreUntouched(bank, targets, n, targets[i].identifier);
  }

  lemma {:induction false} AllLive(bank: Bank, targets: seq<Target>, n: nat)
    requires HaveDistinctQuestions(targets) && n <= |targets|
    requires forall i :: 0 <= i < n ==> Problem(bank, targets[i]) == None
    ensures forall i :: 0 <= i < n ==> IsLive(Launched(bank, targets, n), targets[i].Id())
  {
    if n > 0 {
      AllLive(bank, targets, n - 1);
      OthersAreUntouched(bank, targets, n - 1, targets[n - 1].identifier);
      forall i | 0 <= i < n
        ensures IsLive(Launched(bank, targets, n), targets[i].Id())
      {
        assert i < n - 1 ==> IsLive(Launched(bank, targets, n - 1), targets[i].Id());
      }
    }
  }
}
