/** `import_row`, `update_batch` and `process_source`: an import that can be stopped after any
    transaction and started again, and why that makes no difference to the tables. */
module CorpusImport {
  import opened Wrappers
  import opened Names
  import opened CorpusPreparation
  import opened KeyedUpserts

  // ----- What one row writes -----

  /** The rank of the empty slug. */
  const EMPTY: Name := 0

  /** A row's distinct topics with a slug, and whether each came from the subtopic column. */
  function TopicPairs(c: Content): seq<(Topic, bool)> {
    (if c.topic.slug != EMPTY then [(c.topic, false)] else []) +
    (if c.subtopic.slug != EMPTY && c.subtopic.slug != c.topic.slug then [(c.subtopic, true)] else [])
  }

  function TopicWrites(id: Name, pair: (Topic, bool)): seq<Write> {
    [Write(TopicKey(pair.0.slug), Category(pair.1), Columns(pair.0.name)),
     Write(TopicLinkKey(id, pair.0.slug), Absent, Absent)]
  }

  function TopicWriter(id: Name): ((Topic, bool)) -> seq<Write> {
    pair => TopicWrites(id, pair)
  }

  /** The problem, its provenance and its serving metadata. The provenance is the same for all rows of a
      file: besides the disposition it names the file, of which there is one. */
  function ColumnWrites(p: PreparedRow, disposition: Disposition): seq<Write> {
    var row, c := p.row, p.row.content;
    [Write(ProblemKey(row.id), Columns(c.identity), Columns(c.body)),
     Write(ProvenanceKey(row.id), Absent, DispositionColumn(disposition)),
     Write(ServingKey(row.id), Columns(row.id),
           ServingColumns(row.number, p.classification, c.serving))]
  }

  function SolutionWrites(p: PreparedRow): seq<Write> {
    var row, c := p.row, p.row.content;
    [Write(ApproachKey(row.id), Absent, Columns(c.explanation)),
     Write(SolutionKey(row.id, c.language, c.solution), Absent, Columns(c.explanation))]
  }

  /** The upserts of a row: nothing if it is quarantined, and no solution where the body may not be stored. */
  ghost function RowWrites(p: PreparedRow, disposition: Disposition): seq<Write> {
    if p.classification == RejectedQuarantined then []
    else
      ColumnWrites(p, disposition) + Flatten(TopicPairs(p.row.content), TopicWriter(p.row.id)) +
      if disposition == ExternalReferenceOnly then [] else SolutionWrites(p)
  }

  lemma RowWritesAre(p: PreparedRow, disposition: Disposition, done: seq<Write>)
    requires p.classification != RejectedQuarantined
    requires done == ColumnWrites(p, disposition) + Flatten(TopicPairs(p.row.content), TopicWriter(p.row.id))
    ensures RowWrites(p, disposition) == if disposition == ExternalReferenceOnly then done else done + SolutionWrites(p)
  {
  }

  /** `writes` says what the upserts of each row are. */
  ghost predicate WritesRows(writes: PreparedRow -> seq<Write>, disposition: Disposition) {
    forall p {:trigger RowWrites(p, disposition)} :: writes(p) == RowWrites(p, disposition)
  }

  ghost function Writer(disposition: Disposition): (writes: PreparedRow -> seq<Write>)
    ensures WritesRows(writes, disposition)
  {
    p => RowWrites(p, disposition)
  }

  /** A quarantined row writes nothing. */
  ghost predicate Quiet(writes: PreparedRow -> seq<Write>) {
    forall p: PreparedRow :: p.classification == RejectedQuarantined ==> writes(p) == []
  }

  lemma QuarantineIsQuiet(writes: PreparedRow -> seq<Write>, disposition: Disposition)
    requires WritesRows(writes, disposition)
    ensures Quiet(writes)
  {
    forall p: PreparedRow | p.classification == RejectedQuarantined
      ensures writes(p) == []
    {
      assert RowWrites(p, disposition) == [];
    }
  }

  lemma OneMoreTopic(done: seq<Write>, pairs: seq<(Topic, bool)>, id: Name, j: nat)
    requires j < |pairs|
    ensures done + Flatten(pairs[..j + 1], TopicWriter(id)) ==
      done + Flatten(pairs[..j], TopicWriter(id)) + TopicWrites(id, pairs[j])
  {
    assert pairs[..j + 1] == pairs[..j] + [pairs[j]];
    FlattenAppend(pairs[..j], pairs[j], TopicWriter(id));
  }

  // ----- What a row makes of each cell -----

  ghost predicate IsKept(before: Tables, after: Tables, k: Key) {
    Get(after, k) == Get(before, k)
  }

  /** The columns of the first writer stay what they were, the others become `latest`. */
  ghost predicate IsUpserted(before: Tables, after: Tables, k: Key, first: Value, latest: Value) {
    Get(after, k) == Some(Cell(if k in before then before[k].first else first, latest))
  }

  /** What the topics of a row make of a cell: a slug that is not empty has the category of the column it comes
      from, the topic column first, and is linked to the row. */
  ghost predicate HasTopicCell(before: Tables, after: Tables, id: Name, c: Content, k: Key) {
    match k
    case TopicKey(slug) =>
      if slug != 0 && slug == c.topic.slug then IsUpserted(before, after, k, Category(false), Columns(c.topic.name))
      else if slug != 0 && slug == c.subtopic.slug then
        IsUpserted(before, after, k, Category(true), Columns(c.subtopic.name))
      else IsKept(before, after, k)
    case TopicLinkKey(owner, slug) =>
      if owner == id && slug != 0 && (slug == c.topic.slug || slug == c.subtopic.slug) then
        IsUpserted(before, after, k, Absent, Absent)
      else IsKept(before, after, k)
    case _ => IsKept(before, after, k)
  }

  /** The cell of `k` is what importing the row makes of it. */
  ghost predicate HasCell(before: Tables, after: Tables, p: PreparedRow, disposition: Disposition, k: Key) {
    var row, c := p.row, p.row.content;
    var mayStoreBody := disposition != ExternalReferenceOnly;
    if p.classification == RejectedQuarantined then IsKept(before, after, k)
    else
      match k
      case ProblemKey(id) =>
        if id == row.id then IsUpserted(before, after, k, Columns(c.identity), Columns(c.body))
        else IsKept(before, after, k)
      case ProvenanceKey(id) =>
        if id == row.id then IsUpserted(before, after, k, Absent, DispositionColumn(disposition))
        else IsKept(before, after, k)
      case ServingKey(id) =>
        if id == row.id then
          IsUpserted(before, after, k, Columns(id), ServingColumns(row.number, p.classification, c.serving))
        else IsKept(before, after, k)
      case TopicKey(_) => HasTopicCell(before, after, row.id, c, k)
      case TopicLinkKey(_, _) => HasTopicCell(before, after, row.id, c, k)
      case ApproachKey(id) =>
        if id == row.id && mayStoreBody then IsUpserted(before, after, k, Absent, Columns(c.explanation))
        else IsKept(before, after, k)
      case SolutionKey(id, language, solution) =>
        if id == row.id && language == c.language && solution == c.solution && mayStoreBody then
          IsUpserted(before, after, k, Absent, Columns(c.explanation))
        else IsKept(before, after, k)
  }

  /** Importing a row, cell by cell. */
  ghost predicate HoldsRow(before: Tables, after: Tables, p: PreparedRow, disposition: Disposition) {
    forall k :: HasCell(before, after, p, disposition, k)
  }

  lemma ApplyTwo(tables: Tables, a: Write, b: Write)
    ensures Apply(tables, [a, b]) == Upsert(Upsert(tables, a), b)
  {
    assert [a, b][..1] == [a];
    assert Apply(tables, [a]) == Upsert(Apply(tables, [a][..0]), a);
  }

  lemma ApplyThree(tables: Tables, a: Write, b: Write, c: Write)
    ensures Apply(tables, [a, b, c]) == Upsert(Upsert(Upsert(tables, a), b), c)
  {
    assert [a, b, c][..2] == [a, b];
    ApplyTwo(tables, a, b);
  }

  lemma OnePair(id: Name, pair: (Topic, bool))
    ensures Flatten([pair], TopicWriter(id)) == TopicWrites(id, pair)
  {
    FlattenAppend([], pair, TopicWriter(id));
    assert [] + [pair] == [pair];
  }

  lemma TopicsApplied(tables: Tables, id: Name, c: Content)
    ensures
      var topic, subtopic := TopicWrites(id, (c.topic, false)), TopicWrites(id, (c.subtopic, true));
      var first := if c.topic.slug != EMPTY then Apply(tables, topic) else tables;
      Apply(tables, Flatten(TopicPairs(c), TopicWriter(id))) ==
        if c.subtopic.slug != EMPTY && c.subtopic.slug != c.topic.slug then Apply(first, subtopic) else first
  {
    var a := if c.topic.slug != EMPTY then [(c.topic, false)] else [];
    var b := if c.subtopic.slug != EMPTY && c.subtopic.slug != c.topic.slug then [(c.subtopic, true)] else [];
    OnePair(id, (c.topic, false));
    OnePair(id, (c.subtopic, true));
    FlattenConcat(a, b, TopicWriter(id));
    ApplyConcat(tables, Flatten(a, TopicWriter(id)), Flatten(b, TopicWriter(id)));
  }

  lemma OneTopicCells(tables: Tables, id: Name, pair: (Topic, bool), k: Key)
    ensures
      var after := Apply(tables, TopicWrites(id, pair));
      if k == TopicKey(pair.0.slug) then IsUpserted(tables, after, k, Category(pair.1), Columns(pair.0.name))
      else if k == TopicLinkKey(id, pair.0.slug) then IsUpserted(tables, after, k, Absent, Absent)
      else IsKept(tables, after, k)
  {
    ApplyTwo(tables, Write(TopicKey(pair.0.slug), Category(pair.1), Columns(pair.0.name)),
             Write(TopicLinkKey(id, pair.0.slug), Absent, Absent));
  }

  lemma TopicCells(tables: Tables, id: Name, c: Content, k: Key)
    ensures HasTopicCell(tables, Apply(tables, Flatten(TopicPairs(c), TopicWriter(id))), id, c, k)
  {
    TopicsApplied(tables, id, c);
    var first := if c.topic.slug != EMPTY then Apply(tables, TopicWrites(id, (c.topic, false))) else tables;
    var second := if c.subtopic.slug != EMPTY && c.subtopic.slug != c.topic.slug
                  then Apply(first, TopicWrites(id, (c.subtopic, true))) else first;
    OneTopicCells(tables, id, (c.topic, false), k);
    OneTopicCells(first, id, (c.subtopic, true), k);
    BothTopics(tables, first, second, id, c, k);
  }

  lemma BothTopics(tables: Tables, first: Tables, second: Tables, id: Name, c: Content, k: Key)
    requires c.topic.slug == EMPTY ==> first == tables
    requires c.topic.slug != EMPTY ==>
      if k == TopicKey(c.topic.slug) then IsUpserted(tables, first, k, Category(false), Columns(c.topic.name))
      else if k == TopicLinkKey(id, c.topic.slug) then IsUpserted(tables, first, k, Absent, Absent)
      else IsKept(tables, first, k)
    requires c.subtopic.slug == EMPTY || c.subtopic.slug == c.topic.slug ==> second == first
    requires c.subtopic.slug != EMPTY && c.subtopic.slug != c.topic.slug ==>
      if k == TopicKey(c.subtopic.slug) then IsUpserted(first, second, k, Category(true), Columns(c.subtopic.name))
      else if k == TopicLinkKey(id, c.subtopic.slug) then IsUpserted(first, second, k, Absent, Absent)
      else IsKept(first, second, k)
    ensures HasTopicCell(tables, second, id, c, k)
  {
  }

  lemma ColumnCells(tables: Tables, p: PreparedRow, disposition: Disposition, k: Key)
    requires p.classification != RejectedQuarantined
    ensures
      var after := Apply(tables, ColumnWrites(p, disposition));
      if k.ProblemKey? || k.ProvenanceKey? || k.ServingKey?
      then HasCell(tables, after, p, disposition, k)
      else IsKept(tables, after, k)
  {
    var writes := ColumnWrites(p, disposition);
    ApplyThree(tables, writes[0], writes[1], writes[2]);
  }

  lemma SolutionCells(tables: Tables, p: PreparedRow, disposition: Disposition, k: Key)
    requires p.classification != RejectedQuarantined && disposition != ExternalReferenceOnly
    ensures
      var after := Apply(tables, SolutionWrites(p));
      if k.ApproachKey? || k.SolutionKey?
      then HasCell(tables, after, p, disposition, k)
      else IsKept(tables, after, k)
  {
    var writes := SolutionWrites(p);
    ApplyTwo(tables, writes[0], writes[1]);
  }

  lemma RowCell(tables: Tables, p: PreparedRow, disposition: Disposition, k: Key)
    ensures HasCell(tables, Apply(tables, RowWrites(p, disposition)), p, disposition, k)
  {
    if p.classification != RejectedQuarantined {
      var columns, topics := ColumnWrites(p, disposition), Flatten(TopicPairs(p.row.content), TopicWriter(p.row.id));
      var first := Apply(tables, columns);
      var second := Apply(first, topics);
      ColumnCells(tables, p, disposition, k);
      TopicCells(first, p.row.id, p.row.content, k);
      ApplyConcat(tables, columns, topics);
      if disposition == ExternalReferenceOnly {
        assert RowWrites(p, disposition) == columns + topics;
      } else {
        SolutionCells(second, p, disposition, k);
        ApplyConcat(tables, columns + topics, SolutionWrites(p));
      }
    }
  }

  /** The writes of a row do to the tables exactly what is said of each cell. */
  lemma RowWritesExactly(before: Tables, after: Tables, p: PreparedRow, disposition: Disposition)
    ensures after == Apply(before, RowWrites(p, disposition)) <==> HoldsRow(before, after, p, disposition)
  {
    var applied := Apply(before, RowWrites(p, disposition));
    forall k
      ensures HasCell(before, applied, p, disposition, k)
    {
      RowCell(before, p, disposition, k);
    }
    if HoldsRow(before, after, p, disposition) {
      forall k
        ensures Get(after, k) == Get(applied, k)
      {
        assert HasCell(before, after, p, disposition, k) && HasCell(before, applied, p, disposition, k);
      }
      SameCells(after, applied);
    }
  }

  // ----- A topic over many rows -----

  /** The row writes the topic. */
  ghost predicate Mentions(p: PreparedRow, slug: Name) {
    && p.classification != RejectedQuarantined && slug != 0
    && (slug == p.row.content.topic.slug || slug == p.row.content.subtopic.slug)
  }

  ghost function AfterRows(tables: Tables, rows: seq<PreparedRow>, writes: PreparedRow -> seq<Write>, n: nat): Tables
    requires n <= |rows|
  {
    Apply(tables, Flatten(rows[..n], writes))
  }

  lemma OneMoreRow(tables: Tables, rows: seq<PreparedRow>, writes: PreparedRow -> seq<Write>,
                   disposition: Disposition, n: nat, k: Key)
    requires n < |rows| && WritesRows(writes, disposition)
    ensures HasCell(AfterRows(tables, rows, writes, n), AfterRows(tables, rows, writes, n + 1), rows[n], disposition, k)
  {
    assert rows[..n + 1] == rows[..n] + [rows[n]];
    FlattenAppend(rows[..n], rows[n], writes);
    ApplyConcat(tables, Flatten(rows[..n], writes), writes(rows[n]));
    assert writes(rows[n]) == RowWrites(rows[n], disposition);
    RowCell(AfterRows(tables, rows, writes, n), rows[n], disposition, k);
  }

  lemma {:induction false} UnmentionedStays(tables: Tables, rows: seq<PreparedRow>, writes: PreparedRow -> seq<Write>,
                                            disposition: Disposition, n: nat, slug: Name)
    requires n <= |rows| && WritesRows(writes, disposition)
    requires forall j :: 0 <= j < n ==> !Mentions(rows[j], slug)
    ensures IsKept(tables, AfterRows(tables, rows, writes, n), TopicKey(slug))
  {
    if n == 0 {
      assert rows[..0] == [];
    } else {
      UnmentionedStays(tables, rows, writes, disposition, n - 1, slug);
      OneMoreRow(tables, rows, writes, disposition, n - 1, TopicKey(slug));
    }
  }

  /** After any number of rows a topic has the category it had before, or else that of the first row that
      mentions it... */
  lemma {:induction false} TopicKeepsFirst(tables: Tables, rows: seq<PreparedRow>, writes: PreparedRow -> seq<Write>,
                                           disposition: Disposition, n: nat, slug: Name, i: nat)
    requires i < n <= |rows| && WritesRows(writes, disposition)
    requires Mentions(rows[i], slug) && forall j :: 0 <= j < i ==> !Mentions(rows[j], slug)
    ensures
      var k, after := TopicKey(slug), AfterRows(tables, rows, writes, n);
      k in after && after[k].first ==
        if k in tables then tables[k].first else Category(rows[i].row.content.topic.slug != slug)
  {
    if i < n - 1 {
      TopicKeepsFirst(tables, rows, writes, disposition, n - 1, slug, i);
    } else {
      UnmentionedStays(tables, rows, writes, disposition, i, slug);
    }
    OneMoreRow(tables, rows, writes, disposition, n - 1, TopicKey(slug));
  }

  /** ... and the name the last one gives it. */
  lemma {:induction false} TopicTakesLast(tables: Tables, rows: seq<PreparedRow>, writes: PreparedRow -> seq<Write>,
                                          disposition: Disposition, n: nat, slug: Name, i: nat)
    requires i < n <= |rows| && WritesRows(writes, disposition)
    requires Mentions(rows[i], slug) && forall j :: i < j < n ==> !Mentions(rows[j], slug)
    ensures
      var k, after, c := TopicKey(slug), AfterRows(tables, rows, writes, n), rows[i].row.content;
      k in after && after[k].latest == Columns(if c.topic.slug == slug then c.topic.name else c.subtopic.name)
  {
    if i < n - 1 {
      TopicTakesLast(tables, rows, writes, disposition, n - 1, slug, i);
    }
    OneMoreRow(tables, rows, writes, disposition, n - 1, TopicKey(slug));
  }

  // ----- The database -----

  datatype Status = Running | Completed

  datatype Batch = Batch(checkpoint: nat, status: Status, counters: Option<Counters>)

  /** What is stored when a checkpoint is written over another: the trigger on the batch table never
      lets it move back; the update statement alone would. */
  function Stored(trigger: bool, before: nat, proposed: nat): nat {
    if trigger && proposed < before then before else proposed
  }

  class Database {
    const trigger: bool
    var tables: Tables
    var batch: Option<Batch>

    constructor (trigger: bool, tables: Tables)
      ensures this.trigger == trigger && this.tables == tables && batch == None
    {
      this.trigger, this.tables, this.batch := trigger, tables, None;
    }

    /** The transaction that opens a run. */
    method EnsureBatch() returns (checkpoint: nat, status: Status)
      modifies this`batch
      ensures batch == Some(if old(batch).Some? then old(batch).value else Batch(0, Running, None))
      ensures checkpoint == batch.value.checkpoint && status == batch.value.status
    {
      if batch.None? {
        batch := Some(Batch(0, Running, None));
      }
      return batch.value.checkpoint, batch.value.status;
    }

    method ImportRow(p: PreparedRow, disposition: Disposition)
      modifies this`tables
      ensures tables == Apply(old(tables), RowWrites(p, disposition))
      ensures HoldsRow(old(tables), tables, p, disposition)
    {
      RowWritesExactly(tables, Apply(tables, RowWrites(p, disposition)), p, disposition);
      if p.classification == RejectedQuarantined {
        return;
      }
      ghost var done := ImportColumns(p, disposition);
      done := ImportTopics(p.row.id, TopicPairs(p.row.content), old(tables), done);
      RowWritesAre(p, disposition, done);
      if disposition == ExternalReferenceOnly {
        return;
      }
      done := ImportSolution(p, old(tables), done);
    }

    method ImportColumns(p: PreparedRow, disposition: Disposition) returns (ghost more: seq<Write>)
      modifies this`tables
      ensures more == ColumnWrites(p, disposition) && tables == Apply(old(tables), more)
    {
      ghost var start := tables;
      var row, c := p.row, p.row.content;
      more := WriteOne(Write(ProblemKey(row.id), Columns(c.identity), Columns(c.body)), start, []);
      more := WriteOne(Write(ProvenanceKey(row.id), Absent, DispositionColumn(disposition)), start, more);
      more := WriteOne(Write(ServingKey(row.id), Columns(row.id),
                             ServingColumns(row.number, p.classification, c.serving)), start, more);
    }

    method ImportTopics(id: Name, pairs: seq<(Topic, bool)>, ghost start: Tables, ghost done: seq<Write>)
      returns (ghost more: seq<Write>)
      requires tables == Apply(start, done)
      modifies this`tables
      ensures more == done + Flatten(pairs, TopicWriter(id)) && tables == Apply(start, more)
    {
      more := done;
      for j := 0 to |pairs|
        invariant more == done + Flatten(pairs[..j], TopicWriter(id))
        invariant tables == Apply(start, more)
      {
        OneMoreTopic(done, pairs, id, j);
        more := ImportTopic(id, pairs[j], start, more);
      }
      assert pairs[..|pairs|] == pairs;
    }

    method ImportTopic(id: Name, pair: (Topic, bool), ghost start: Tables, ghost done: seq<Write>)
      returns (ghost more: seq<Write>)
      requires tables == Apply(start, done)
      modifies this`tables
      ensures more == done + TopicWrites(id, pair) && tables == Apply(start, more)
    {
      var (topic, isSubtopic) := pair;
      more := WriteOne(Write(TopicKey(topic.slug), Category(isSubtopic), Columns(topic.name)), start, done);
      more := WriteOne(Write(TopicLinkKey(id, topic.slug), Absent, Absent), start, more);
    }

    method ImportSolution(p: PreparedRow, ghost start: Tables, ghost done: seq<Write>) returns (ghost more: seq<Write>)
      requires tables == Apply(start, done)
      modifies this`tables
      ensures more == done + SolutionWrites(p) && tables == Apply(start, more)
    {
      var row, c := p.row, p.row.content;
      more := WriteOne(Write(ApproachKey(row.id), Absent, Columns(c.explanation)), start, done);
      more := WriteOne(Write(SolutionKey(row.id, c.language, c.solution), Absent, Columns(c.explanation)), start, more);
    }

    method WriteOne(w: Write, ghost start: Tables, ghost done: seq<Write>) returns (ghost more: seq<Write>)
      requires tables == Apply(start, done)
      modifies this`tables
      ensures more == done + [w] && tables == Apply(start, more)
    {
      more := done + [w];
      tables := Upsert(tables, w);
    }

    method UpdateBatch(checkpoint: nat, status: Status, counters: Counters)
      requires batch.Some?
      modifies this`batch
      ensures batch == Some(Batch(Stored(trigger, old(batch).value.checkpoint, checkpoint), status, Some(counters)))
      ensures batch.value.checkpoint in [old(batch).value.checkpoint, checkpoint]
      ensures trigger ==> old(batch).value.checkpoint <= batch.value.checkpoint && checkpoint <= batch.value.checkpoint
      ensures !trigger ==> batch.value.checkpoint == checkpoint
    {
      batch := Some(Batch(Stored(trigger, batch.value.checkpoint, checkpoint), status, Some(counters)));
    }

    /** One transaction: the pending rows after the checkpoint this run started from, and the batch. */
    method Flush(rows: seq<PreparedRow>, start: nat, checkpoint: nat, final: bool, counters: Counters,
                 disposition: Disposition, ghost writes: PreparedRow -> seq<Write>)
      requires batch.Some? && WritesRows(writes, disposition)
      requires forall j :: 0 <= j < |rows| ==> start < rows[j].row.number
      modifies this
      ensures tables == Apply(old(tables), Flatten(rows, writes))
      ensures batch == Some(Batch(Stored(trigger, old(batch).value.checkpoint, checkpoint),
                                  if final then Completed else Running, Some(counters)))
    {
      for j := 0 to |rows|
        invariant tables == Apply(old(tables), Flatten(rows[..j], writes))
        invariant batch == old(batch)
      {
        if rows[j].row.number <= start {
          continue;
        }
        FlattenAppend(rows[..j], rows[j], writes);
        assert rows[..j + 1] == rows[..j] + [rows[j]];
        ApplyConcat(old(tables), Flatten(rows[..j], writes), writes(rows[j]));
        ImportRow(rows[j], disposition);
      }
      assert rows[..|rows|] == rows;
      UpdateBatch(checkpoint, if final then Completed else Running, counters);
    }
  }

  /** How many rows are at or before a checkpoint. */
  ghost function Skip(rows: seq<PreparedRow>, checkpoint: nat): (n: nat)
    ensures n <= |rows|
    ensures forall j :: n <= j < |rows| ==> checkpoint < rows[j].row.number
    ensures n > 0 ==> rows[n - 1].row.number <= checkpoint
  {
    if rows == [] then 0
    else if rows[|rows| - 1].row.number <= checkpoint then |rows|
    else Skip(rows[..|rows| - 1], checkpoint)
  }
}
