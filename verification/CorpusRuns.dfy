/** `process_source` run again and again: whatever transactions earlier runs got through before they
    stopped, a run that completes leaves the tables of one uninterrupted import. */
module CorpusRuns {
  import opened Wrappers
  import opened Names
  import opened CorpusPreparation
  import opened KeyedUpserts
  import opened CorpusImport

  /** The rows of a verified file, and the row count its metadata reports. */
  datatype Source = Source(rows: seq<SourceRow>, physicalRows: nat)

  datatype Outcome = Crashed | RowCountMismatch | AlreadyImported | Finished

  // ----- Specification -----

  /** Row numbers start at one and grow, though they may skip blank lines. */
  ghost predicate IsFile(source: Source) {
    Numbered(source.rows) && forall i :: 0 <= i < |source.rows| ==> 0 < source.rows[i].number
  }

  ghost function Rows(source: Source, disposition: Disposition): seq<PreparedRow> {
    Prepared(source.rows, disposition, |source.rows|)
  }

  /** The tables one uninterrupted import leaves. */
  ghost function Imported(tables: Tables, source: Source, disposition: Disposition,
                          writes: PreparedRow -> seq<Write>): Tables {
    Apply(tables, Flatten(Rows(source, disposition), writes))
  }

  /** Going on from the stored checkpoint, or from any earlier one, still ends in `final`; and the
      batch is marked completed only if it is there already. */
  ghost predicate Consistent(tables: Tables, batch: Option<Batch>, source: Source, disposition: Disposition,
                             writes: PreparedRow -> seq<Write>, final: Tables) {
    var rows := Rows(source, disposition);
    var checkpoint := if batch.Some? then batch.value.checkpoint else 0;
    && Converges(tables, rows, writes, Skip(rows, checkpoint), final)
    && (batch.Some? && batch.value.status == Completed ==> tables == final)
  }

  ghost predicate IsComplete(batch: Option<Batch>, source: Source) {
    batch.Some? && batch.value.status == Completed && batch.value.checkpoint == source.physicalRows
  }

  function Max(a: nat, b: nat): nat {
    if a < b then b else a
  }

  /** The tables once the accepted rows up to position `d` have been flushed by a run that started
      from position `k`. */
  ghost function Flushed(tables: Tables, rows: seq<PreparedRow>, writes: PreparedRow -> seq<Write>, k: nat,
                         d: nat): Tables
    requires k <= |rows| && d <= |rows|
  {
    Apply(tables, WritesBetween(rows, writes, k, Max(k, d)))
  }

  /** What the rows from position `a` up to position `b` write. */
  ghost function WritesBetween(rows: seq<PreparedRow>, writes: PreparedRow -> seq<Write>, a: nat, b: nat): seq<Write>
    requires a <= b <= |rows|
  {
    if a == b then [] else WritesBetween(rows, writes, a, b - 1) + writes(rows[b - 1])
  }

  /** How many rows that many full chunks hold. */
  ghost function Chunks(flushes: nat, chunkSize: nat): nat {
    if flushes == 0 then 0 else Chunks(flushes - 1, chunkSize) + chunkSize
  }

  /** The checkpoint stored by then. */
  ghost function CheckpointAfter(trigger: bool, rows: seq<PreparedRow>, checkpoint: nat, d: nat): nat
    requires d <= |rows|
  {
    if d == 0 then checkpoint else Stored(trigger, checkpoint, rows[d - 1].row.number)
  }

  /** The checkpoint a run leaves behind: that of its last full chunk, or the row count if it got to the end. */
  ghost function EndsAt(outcome: Outcome, trigger: bool, rows: seq<PreparedRow>, checkpoint: nat, d: nat,
                        source: Source): nat
    requires d <= |rows|
  {
    var chunk := CheckpointAfter(trigger, rows, checkpoint, d);
    if outcome == Finished then Stored(trigger, chunk, source.physicalRows) else chunk
  }

  /** A finished batch is found complete by the next run exactly if its checkpoint had not got past the row count,
      or can move back. Where row numbers count blank lines it may have. */
  lemma FinishedIsComplete(batch: Batch, trigger: bool, rows: seq<PreparedRow>, checkpoint: nat, d: nat, source: Source)
    requires d <= |rows| && Ascending(rows) && batch.status == Completed
    requires batch.checkpoint == EndsAt(Finished, trigger, rows, checkpoint, d, source)
    ensures IsComplete(Some(batch), source) <==>
      !trigger || (checkpoint <= source.physicalRows && (d > 0 ==> rows[d - 1].row.number <= source.physicalRows))
  {
  }

  // ----- Program -----

  /** One run. It stops after `commits` transactions if it needs more; `flushes` of them were chunks. */
  method ProcessSource(db: Database, source: Source, disposition: Disposition, chunkSize: nat, commits: nat,
                       ghost writes: PreparedRow -> seq<Write>, ghost final: Tables)
    returns (outcome: Outcome, ghost flushes: nat)
    requires 0 < chunkSize && IsFile(source) && WritesRows(writes, disposition)
    requires Consistent(db.tables, db.batch, source, disposition, writes, final)
    modifies db
    ensures Consistent(db.tables, db.batch, source, disposition, writes, final)
    ensures outcome == Finished || outcome == AlreadyImported ==> db.tables == final
    ensures commits == 0 ==> outcome == Crashed && db.tables == old(db.tables) && db.batch == old(db.batch)
    ensures outcome == AlreadyImported <==> commits > 0 && IsComplete(old(db.batch), source)
    ensures outcome == AlreadyImported ==> db.tables == old(db.tables) && db.batch == old(db.batch)
    ensures Chunks(flushes, chunkSize) <= |Rows(source, disposition)|
    ensures commits > 0 && outcome != AlreadyImported ==>
      var rows := Rows(source, disposition);
      var checkpoint := if old(db.batch).Some? then old(db.batch).value.checkpoint else 0;
      var d := if outcome == Finished then |rows| else Chunks(flushes, chunkSize);
      && db.tables == Flushed(old(db.tables), rows, writes, Skip(rows, checkpoint), d)
      && (outcome == Crashed ==> commits == flushes + 1)
      && (outcome != Crashed ==> |rows| < Chunks(flushes + 1, chunkSize) && flushes < commits)
      && (outcome == RowCountMismatch ==> |source.rows| != source.physicalRows)
      && db.batch.Some?
      && db.batch.value.checkpoint == EndsAt(outcome, db.trigger, rows, checkpoint, Chunks(flushes, chunkSize), source)
      && (outcome != Finished && flushes > 0 ==>
            db.batch.value.counters.Some? &&
            IsSnapshot(source.rows, disposition, Chunks(flushes, chunkSize) - 1, db.batch.value.counters.value))
    ensures outcome == Finished ==>
      && |source.rows| == source.physicalRows
      && db.batch.Some? && db.batch.value.status == Completed
      && db.batch.value.counters == Some(Counted(source.rows, disposition, |source.rows|))
  {
    flushes := 0;
    if commits == 0 {
      return Crashed, flushes;
    }
    var checkpoint, status := db.EnsureBatch();
    if status == Completed && checkpoint == source.physicalRows {
      return AlreadyImported, flushes;
    }
    outcome, flushes := ImportRemaining(db, source, disposition, chunkSize, commits - 1, checkpoint, writes, final);
  }

  /** The rest of a run, after the transaction that opens it. */
  method ImportRemaining(db: Database, source: Source, disposition: Disposition, chunkSize: nat, commits: nat,
                         checkpoint: nat, ghost writes: PreparedRow -> seq<Write>, ghost final: Tables)
    returns (outcome: Outcome, ghost flushes: nat)
    requires 0 < chunkSize && IsFile(source) && WritesRows(writes, disposition)
    requires db.batch.Some? && db.batch.value.checkpoint == checkpoint
    requires Consistent(db.tables, db.batch, source, disposition, writes, final)
    modifies db
    ensures Consistent(db.tables, db.batch, source, disposition, writes, final)
    ensures outcome != AlreadyImported
    ensures outcome == Finished ==> db.tables == final
    ensures Chunks(flushes, chunkSize) <= |Rows(source, disposition)|
    ensures
      var rows := Rows(source, disposition);
      var d := if outcome == Finished then |rows| else Chunks(flushes, chunkSize);
      && db.tables == Flushed(old(db.tables), rows, writes, Skip(rows, checkpoint), d)
      && (outcome == Crashed ==> commits == flushes)
      && (outcome != Crashed ==> |rows| < Chunks(flushes + 1, chunkSize) && flushes <= commits)
      && (outcome == RowCountMismatch ==> |source.rows| != source.physicalRows)
      && db.batch.Some?
      && db.batch.value.checkpoint == EndsAt(outcome, db.trigger, rows, checkpoint, Chunks(flushes, chunkSize), source)
      && (outcome != Finished && flushes > 0 ==>
            db.batch.value.counters.Some? &&
            IsSnapshot(source.rows, disposition, Chunks(flushes, chunkSize) - 1, db.batch.value.counters.value))
    ensures outcome == Finished ==>
      && |source.rows| == source.physicalRows
      && db.batch.Some? && db.batch.value.status == Completed
      && db.batch.value.counters == Some(Counted(source.rows, disposition, |source.rows|))
  {
    var rows, snapshots, counters, _ := PrepareAll(source.rows, disposition);
    RowsAscend(source, disposition);
    ghost var tables0, d := db.tables, 0;
    var crashed, pending, mayCommit;
    ghost var c;
    crashed, pending, mayCommit, flushes, d, c :=
      ImportChunks(db, rows, snapshots, disposition, chunkSize, commits, checkpoint, writes, final);
    FlushesAreFew(flushes, chunkSize);
    if crashed {
      StopHere(db.tables, db.batch, db.trigger, pending, tables0, rows, writes, checkpoint, d, c, final);
      return Crashed, flushes;
    }
    outcome := CompleteRun(db, source, pending, counters, mayCommit, tables0, disposition, writes, checkpoint, d,
                           final);
  }

  /** Once rows up to position `d` are flushed, the counters stored are those of the last of them. */
  ghost predicate Recorded(batch: Option<Batch>, snapshots: seq<Counters>, d: nat) {
    d > 0 ==> d <= |snapshots| && batch.Some? && batch.value.counters == Some(snapshots[d - 1])
  }

  /** The loop over the stream: rows past the checkpoint are kept pending, and every full chunk of rows
      is flushed, while transactions are left. */
  method ImportChunks(db: Database, rows: seq<PreparedRow>, snapshots: seq<Counters>, disposition: Disposition,
                      chunkSize: nat, commits: nat, checkpoint: nat, ghost writes: PreparedRow -> seq<Write>,
                      ghost final: Tables)
    returns (crashed: bool, pending: seq<PreparedRow>, mayCommit: bool, ghost flushes: nat, ghost d: nat, ghost c: nat)
    requires 0 < chunkSize && WritesRows(writes, disposition) && Ascending(rows) && |snapshots| == |rows|
    requires db.batch.Some? && db.batch.value.checkpoint == checkpoint
    requires db.batch.value.status == Completed ==> db.tables == final
    modifies db
    ensures d == Chunks(flushes, chunkSize) <= c <= |rows|
    ensures crashed ==> flushes == commits
    ensures !crashed ==> c == |rows| < d + chunkSize && flushes <= commits && (mayCommit <==> flushes < commits)
    ensures InFlight(db.tables, db.batch, db.trigger, pending, old(db.tables), rows, writes, checkpoint, d, c, final)
    ensures Recorded(db.batch, snapshots, d)
  {
    ghost var tables0 := db.tables;
    RunStarts(db.tables, db.batch, db.trigger, rows, writes, checkpoint, final);
    flushes, d := 0, 0;
    var left := commits;
    pending := [];
    var rowsSinceCheckpoint := 0;
    for i := 0 to |rows|
      invariant d == Chunks(flushes, chunkSize) <= i && rowsSinceCheckpoint == i - d < chunkSize
      invariant flushes + left == commits
      invariant InFlight(db.tables, db.batch, db.trigger, pending, tables0, rows, writes, checkpoint, d, i, final)
      invariant Recorded(db.batch, snapshots, d)
    {
      c := i + 1;
      RowTaken(db.tables, db.batch, db.trigger, pending, tables0, rows, writes, checkpoint, d, i, final);
      pending := WithRow(pending, rows[i], checkpoint);
      rowsSinceCheckpoint := rowsSinceCheckpoint + 1;
      if rowsSinceCheckpoint >= chunkSize {
        if left == 0 {
          return true, pending, false, flushes, d, c;
        }
        FlushChunk(db, pending, rows[i].row.number, snapshots[i], tables0, rows, snapshots, disposition, writes,
                   checkpoint, d, c, final);
        pending, rowsSinceCheckpoint, left := [], 0, left - 1;
        flushes, d := flushes + 1, c;
      }
    }
    return false, pending, left > 0, flushes, d, |rows|;
  }

  /** A row joins the pending ones unless the run started after it or it is quarantined. */
  function WithRow(pending: seq<PreparedRow>, p: PreparedRow, checkpoint: nat): seq<PreparedRow> {
    if p.row.number > checkpoint && p.classification != RejectedQuarantined then pending + [p] else pending
  }

  method FlushChunk(db: Database, pending: seq<PreparedRow>, number: nat, counters: Counters,
                    ghost tables0: Tables, ghost rows: seq<PreparedRow>, ghost snapshots: seq<Counters>,
                    disposition: Disposition, ghost writes: PreparedRow -> seq<Write>, checkpoint: nat, ghost d: nat,
                    ghost c: nat, ghost final: Tables)
    requires WritesRows(writes, disposition) && 0 < c <= |snapshots| && counters == snapshots[c - 1]
    requires d < c <= |rows| && rows[c - 1].row.number == number && Ascending(rows)
    requires InFlight(db.tables, db.batch, db.trigger, pending, tables0, rows, writes, checkpoint, d, c, final)
    modifies db
    ensures InFlight(db.tables, db.batch, db.trigger, [], tables0, rows, writes, checkpoint, c, c, final)
    ensures Recorded(db.batch, snapshots, c)
  {
    QuarantineIsQuiet(writes, disposition);
    FlushMoves(tables0, rows, writes, checkpoint, d, c);
    CheckpointMoves(db.trigger, rows, checkpoint, d, c);
    db.Flush(pending, checkpoint, number, false, counters, disposition, writes);
  }

  /** What follows the loop: the row count is checked and the last flush completes the batch. */
  method CompleteRun(db: Database, source: Source, pending: seq<PreparedRow>, counters: Counters, mayCommit: bool,
                     ghost tables0: Tables, disposition: Disposition, ghost writes: PreparedRow -> seq<Write>,
                     checkpoint: nat, ghost d: nat, ghost final: Tables)
    returns (outcome: Outcome)
    requires WritesRows(writes, disposition)
    requires d <= |Rows(source, disposition)| && Ascending(Rows(source, disposition))
    requires counters == Counted(source.rows, disposition, |source.rows|)
    requires var rows := Rows(source, disposition);
      && InFlight(db.tables, db.batch, db.trigger, pending, tables0, rows, writes, checkpoint, d, |rows|, final)
      && Converges(tables0, rows, writes, Skip(rows, checkpoint), final)
    modifies db
    ensures Consistent(db.tables, db.batch, source, disposition, writes, final)
    ensures outcome == RowCountMismatch <==> |source.rows| != source.physicalRows
    ensures outcome == Crashed <==> |source.rows| == source.physicalRows && !mayCommit
    ensures outcome == RowCountMismatch || outcome == Crashed || outcome == Finished
    ensures outcome != Finished ==> db.batch == old(db.batch)
    ensures var rows := Rows(source, disposition);
      db.tables == Flushed(tables0, rows, writes, Skip(rows, checkpoint), if outcome == Finished then |rows| else d)
    ensures db.batch.Some? && db.batch.value.checkpoint ==
      EndsAt(outcome, db.trigger, Rows(source, disposition), checkpoint, d, source)
    ensures outcome == Finished ==>
      && db.tables == final
      && db.batch.Some? && db.batch.value.status == Completed && db.batch.value.counters == Some(counters)
  {
    ghost var rows := Rows(source, disposition);
    StopHere(db.tables, db.batch, db.trigger, pending, tables0, rows, writes, checkpoint, d, |rows|, final);
    if counters.parsed != source.physicalRows {
      return RowCountMismatch;
    }
    if !mayCommit {
      return Crashed;
    }
    QuarantineIsQuiet(writes, disposition);
    FlushMoves(tables0, rows, writes, checkpoint, d, |rows|);
    RunEnds(tables0, rows, writes, Skip(rows, checkpoint), final);
    db.Flush(pending, checkpoint, source.physicalRows, true, counters, disposition, writes);
    return Finished;
  }

  // ----- What the loop keeps -----

  /** The rows pending when rows up to position `c` have been taken and those up to `d` flushed. */
  ghost function Pending(rows: seq<PreparedRow>, checkpoint: nat, d: nat, c: nat): (pending: seq<PreparedRow>)
    requires d <= c <= |rows|
    ensures forall j :: 0 <= j < |pending| ==> checkpoint < pending[j].row.number
  {
    if c == d then [] else WithRow(Pending(rows, checkpoint, d, c - 1), rows[c - 1], checkpoint)
  }

  /** The state while rows up to position `c` have been taken and those up to `d` flushed. */
  ghost predicate InFlight(tables: Tables, batch: Option<Batch>, trigger: bool, pending: seq<PreparedRow>,
                           tables0: Tables, rows: seq<PreparedRow>, writes: PreparedRow -> seq<Write>,
                           checkpoint: nat, d: nat, c: nat, final: Tables)
    requires d <= c <= |rows|
  {
    && pending == Pending(rows, checkpoint, d, c)
    && tables == Flushed(tables0, rows, writes, Skip(rows, checkpoint), d)
    && batch.Some? && batch.value.checkpoint == CheckpointAfter(trigger, rows, checkpoint, d)
    && (batch.value.status == Completed ==> tables == final)
  }

  lemma RowTaken(tables: Tables, batch: Option<Batch>, trigger: bool, pending: seq<PreparedRow>, tables0: Tables,
                 rows: seq<PreparedRow>, writes: PreparedRow -> seq<Write>, checkpoint: nat, d: nat, c: nat,
                 final: Tables)
    requires d <= c < |rows|
    requires InFlight(tables, batch, trigger, pending, tables0, rows, writes, checkpoint, d, c, final)
    ensures InFlight(tables, batch, trigger, WithRow(pending, rows[c], checkpoint), tables0, rows, writes, checkpoint,
                     d, c + 1, final)
  {
  }

  lemma RowsAscend(source: Source, disposition: Disposition)
    requires IsFile(source)
    ensures Ascending(Rows(source, disposition))
  {
    PreparedAreAccepted(source.rows, disposition, |source.rows|);
  }

  lemma RunStarts(tables: Tables, batch: Option<Batch>, trigger: bool, rows: seq<PreparedRow>,
                  writes: PreparedRow -> seq<Write>, checkpoint: nat, final: Tables)
    requires batch.Some? && batch.value.checkpoint == checkpoint
    requires batch.value.status == Completed ==> tables == final
    ensures InFlight(tables, batch, trigger, [], tables, rows, writes, checkpoint, 0, 0, final)
  {
  }

  /** The rows after the checkpoint are those from position `k` on. */
  ghost predicate StartsAt(rows: seq<PreparedRow>, checkpoint: nat, k: nat) {
    && k <= |rows|
    && forall j :: 0 <= j < |rows| ==> (checkpoint < rows[j].row.number <==> k <= j)
  }

  lemma SkipStarts(rows: seq<PreparedRow>, checkpoint: nat)
    requires Ascending(rows)
    ensures StartsAt(rows, checkpoint, Skip(rows, checkpoint))
  {
    var k := Skip(rows, checkpoint);
    forall j | 0 <= j < k
      ensures rows[j].row.number <= checkpoint
    {
      assert rows[j].row.number <= rows[k - 1].row.number;
    }
  }

  /** The pending rows write what the rows since the last flush write, past the position the run
      started from. */
  lemma {:induction false} PendingWrites(rows: seq<PreparedRow>, writes: PreparedRow -> seq<Write>, checkpoint: nat,
                                         k: nat, d: nat, c: nat)
    requires d <= c <= |rows| && Quiet(writes) && StartsAt(rows, checkpoint, k)
    ensures Flatten(Pending(rows, checkpoint, d, c), writes) == WritesBetween(rows, writes, Max(k, d), Max(k, c))
  {
    if c > d {
      var before := Pending(rows, checkpoint, d, c - 1);
      PendingWrites(rows, writes, checkpoint, k, d, c - 1);
      OneMorePending(before, rows, writes, checkpoint, k, Max(k, d), c - 1);
      assert Pending(rows, checkpoint, d, c) == WithRow(before, rows[c - 1], checkpoint);
    } else {
      assert Pending(rows, checkpoint, d, c) == [] && WritesBetween(rows, writes, Max(k, d), Max(k, c)) == [];
    }
  }

  lemma OneMorePending(pending: seq<PreparedRow>, rows: seq<PreparedRow>, writes: PreparedRow -> seq<Write>,
                       checkpoint: nat, k: nat, from: nat, c: nat)
    requires c < |rows| && Quiet(writes) && StartsAt(rows, checkpoint, k) && from <= Max(k, c)
    requires Flatten(pending, writes) == WritesBetween(rows, writes, from, Max(k, c))
    ensures Flatten(WithRow(pending, rows[c], checkpoint), writes) == WritesBetween(rows, writes, from, Max(k, c + 1))
  {
    PendingStep(pending, rows[c], writes, checkpoint);
  }

  lemma PendingStep(pending: seq<PreparedRow>, p: PreparedRow, writes: PreparedRow -> seq<Write>, checkpoint: nat)
    requires Quiet(writes)
    ensures Flatten(WithRow(pending, p, checkpoint), writes) ==
      if p.row.number > checkpoint then Flatten(pending, writes) + writes(p) else Flatten(pending, writes)
  {
    FlattenAppend(pending, p, writes);
  }

  lemma FlushMoves(tables: Tables, rows: seq<PreparedRow>, writes: PreparedRow -> seq<Write>, checkpoint: nat, d: nat,
                   c: nat)
    requires d <= c <= |rows| && Ascending(rows) && Quiet(writes)
    ensures var k := Skip(rows, checkpoint);
      Apply(Flushed(tables, rows, writes, k, d), Flatten(Pending(rows, checkpoint, d, c), writes)) ==
      Flushed(tables, rows, writes, k, c)
  {
    SkipStarts(rows, checkpoint);
    PendingWrites(rows, writes, checkpoint, Skip(rows, checkpoint), d, c);
    FlushedGrows(tables, rows, writes, Skip(rows, checkpoint), d, c);
  }

  lemma {:induction false} FlushedGrows(tables: Tables, rows: seq<PreparedRow>, writes: PreparedRow -> seq<Write>,
                                        k: nat, d: nat, c: nat)
    requires k <= |rows| && d <= c <= |rows|
    ensures Apply(Flushed(tables, rows, writes, k, d), WritesBetween(rows, writes, Max(k, d), Max(k, c))) ==
      Flushed(tables, rows, writes, k, c)
  {
    BetweenConcat(rows, writes, k, Max(k, d), Max(k, c));
    ApplyConcat(tables, WritesBetween(rows, writes, k, Max(k, d)), WritesBetween(rows, writes, Max(k, d), Max(k, c)));
  }

  lemma {:induction false} BetweenConcat(rows: seq<PreparedRow>, writes: PreparedRow -> seq<Write>, a: nat, b: nat,
                                         c: nat)
    requires a <= b <= c <= |rows|
    ensures WritesBetween(rows, writes, a, c) == WritesBetween(rows, writes, a, b) + WritesBetween(rows, writes, b, c)
  {
    if b < c {
      BetweenConcat(rows, writes, a, b, c - 1);
    }
  }

  lemma {:induction false} BetweenFlattens(rows: seq<PreparedRow>, writes: PreparedRow -> seq<Write>, a: nat, b: nat)
    requires a <= b <= |rows|
    ensures WritesBetween(rows, writes, a, b) == Flatten(rows[a..b], writes)
  {
    if a < b {
      BetweenFlattens(rows, writes, a, b - 1);
      assert rows[a..b] == rows[a..b - 1] + [rows[b - 1]];
      FlattenAppend(rows[a..b - 1], rows[b - 1], writes);
    }
  }

  lemma CheckpointMoves(trigger: bool, rows: seq<PreparedRow>, checkpoint: nat, d: nat, c: nat)
    requires d < c <= |rows| && Ascending(rows)
    ensures Stored(trigger, CheckpointAfter(trigger, rows, checkpoint, d), rows[c - 1].row.number) ==
      CheckpointAfter(trigger, rows, checkpoint, c)
  {
  }

  lemma SkipIsExact(rows: seq<PreparedRow>, checkpoint: nat, d: nat)
    requires d <= |rows| && Ascending(rows)
    requires d < |rows| ==> checkpoint < rows[d].row.number
    ensures Skip(rows, checkpoint) <= d
  {
    var n := Skip(rows, checkpoint);
    assert n > 0 ==> forall j :: 0 <= j < n ==> rows[j].row.number <= rows[n - 1].row.number;
  }

  /** Stopping after any flush leaves tables to go on from, whether or not the stored checkpoint has
      moved back behind the rows already imported. */
  lemma StillConverges(trigger: bool, tables: Tables, rows: seq<PreparedRow>, writes: PreparedRow -> seq<Write>,
                       checkpoint: nat, d: nat, final: Tables)
    requires d <= |rows| && Ascending(rows)
    requires Converges(tables, rows, writes, Skip(rows, checkpoint), final)
    ensures Converges(Flushed(tables, rows, writes, Skip(rows, checkpoint), d), rows, writes,
                      Skip(rows, CheckpointAfter(trigger, rows, checkpoint, d)), final)
  {
    var k := Skip(rows, checkpoint);
    ProgressConverges(tables, rows, writes, k, Max(k, d), final);
    BetweenFlattens(rows, writes, k, Max(k, d));
    if d > 0 {
      SkipIsExact(rows, CheckpointAfter(trigger, rows, checkpoint, d), Max(k, d));
    }
  }

  lemma {:induction false} StopHere(tables: Tables, batch: Option<Batch>, trigger: bool, pending: seq<PreparedRow>,
                                    tables0: Tables, rows: seq<PreparedRow>, writes: PreparedRow -> seq<Write>,
                                    checkpoint: nat, d: nat, c: nat, final: Tables)
    requires d <= c <= |rows| && Ascending(rows)
    requires Converges(tables0, rows, writes, Skip(rows, checkpoint), final)
    requires InFlight(tables, batch, trigger, pending, tables0, rows, writes, checkpoint, d, c, final)
    ensures Converges(tables, rows, writes, Skip(rows, batch.value.checkpoint), final)
  {
    StillConverges(trigger, tables0, rows, writes, checkpoint, d, final);
  }

  lemma RunEnds(tables: Tables, rows: seq<PreparedRow>, writes: PreparedRow -> seq<Write>, k: nat, final: Tables)
    requires k <= |rows| && Converges(tables, rows, writes, k, final)
    ensures Flushed(tables, rows, writes, k, |rows|) == final
    ensures Converges(final, rows, writes, |rows|, final)
  {
    assert Max(k, |rows|) == |rows|;
    ProgressConverges(tables, rows, writes, k, |rows|, final);
    BetweenFlattens(rows, writes, k, |rows|);
    assert rows[k..|rows|] == rows[k..];
    assert Replay(tables, rows, writes, k) == final;
  }

  // ----- Any sequence of runs -----

  /** How a run is started, and how many transactions it gets through at most. */
  datatype Run = Run(chunkSize: nat, commits: nat)

  ghost predicate Succeeded(outcome: Outcome) {
    outcome == Finished || outcome == AlreadyImported
  }

  /** Runs one after another on one file, each with its own chunk size and each stopped at will. When
      the latest one has succeeded, the tables are those of one uninterrupted import onto what was
      there at first; and a run allowed enough transactions does succeed. */
  method ImportWithRestarts(db: Database, source: Source, disposition: Disposition, runs: seq<Run>)
    returns (outcomes: seq<Outcome>)
    requires IsFile(source) && db.batch == None
    requires forall i :: 0 <= i < |runs| ==> 0 < runs[i].chunkSize
    modifies db
    ensures |outcomes| == |runs|
    ensures runs != [] && Succeeded(outcomes[|runs| - 1]) ==>
      db.tables == Imported(old(db.tables), source, disposition, Writer(disposition))
    ensures |source.rows| == source.physicalRows ==> forall i :: 0 <= i < |runs| ==>
      (runs[i].commits >= |Rows(source, disposition)| + 2 ==> Succeeded(outcomes[i]))
  {
    outcomes := RunInTurn(db, source, disposition, runs, Writer(disposition));
  }

  /** One of the runs; with enough transactions it succeeds. */
  method RunOnce(db: Database, source: Source, disposition: Disposition, run: Run,
                 ghost writes: PreparedRow -> seq<Write>, ghost final: Tables)
    returns (outcome: Outcome)
    requires 0 < run.chunkSize && IsFile(source) && WritesRows(writes, disposition)
    requires Consistent(db.tables, db.batch, source, disposition, writes, final)
    modifies db
    ensures Consistent(db.tables, db.batch, source, disposition, writes, final)
    ensures Succeeded(outcome) ==> db.tables == final
    ensures |source.rows| == source.physicalRows && run.commits >= |Rows(source, disposition)| + 2 ==>
      Succeeded(outcome)
  {
    ghost var flushes;
    outcome, flushes := ProcessSource(db, source, disposition, run.chunkSize, run.commits, writes, final);
    FlushesAreFew(flushes, run.chunkSize);
  }

  method RunInTurn(db: Database, source: Source, disposition: Disposition, runs: seq<Run>,
                   ghost writes: PreparedRow -> seq<Write>)
    returns (outcomes: seq<Outcome>)
    requires IsFile(source) && db.batch == None && WritesRows(writes, disposition)
    requires forall i :: 0 <= i < |runs| ==> 0 < runs[i].chunkSize
    modifies db
    ensures |outcomes| == |runs|
    ensures runs != [] && Succeeded(outcomes[|runs| - 1]) ==>
      db.tables == Imported(old(db.tables), source, disposition, writes)
    ensures |source.rows| == source.physicalRows ==> forall i :: 0 <= i < |runs| ==>
      (runs[i].commits >= |Rows(source, disposition)| + 2 ==> Succeeded(outcomes[i]))
  {
    ghost var final := Imported(db.tables, source, disposition, writes);
    ghost var rows := Rows(source, disposition);
    FreshIsConsistent(db.tables, source, disposition, writes);
    outcomes := [];
    for i := 0 to |runs|
      invariant |outcomes| == i
      invariant Consistent(db.tables, db.batch, source, disposition, writes, final)
      invariant i > 0 && Succeeded(outcomes[i - 1]) ==> db.tables == final
      invariant |source.rows| == source.physicalRows ==> forall j :: 0 <= j < i ==>
        (runs[j].commits >= |rows| + 2 ==> Succeeded(outcomes[j]))
    {
      var outcome := RunOnce(db, source, disposition, runs[i], writes, final);
      outcomes := outcomes + [outcome];
    }
  }

  lemma {:induction false} FlushesAreFew(flushes: nat, chunkSize: nat)
    requires 0 < chunkSize
    ensures flushes <= Chunks(flushes, chunkSize)
  {
    if flushes > 0 {
      FlushesAreFew(flushes - 1, chunkSize);
    }
  }

  lemma FreshIsConsistent(tables: Tables, source: Source, disposition: Disposition, writes: PreparedRow -> seq<Write>)
    requires IsFile(source)
    ensures Consistent(tables, None, source, disposition, writes, Imported(tables, source, disposition, writes))
  {
    var rows := Rows(source, disposition);
    PreparedAreAccepted(source.rows, disposition, |source.rows|);
    forall j | 0 <= j < |rows|
      ensures 0 < rows[j].row.number
    {
      assert rows[j] in rows;
    }
    assert Skip(rows, 0) == 0;
    assert rows[0..] == rows;
  }
}
