/** Tables written by upserts that keep some columns from the first write to a key and take the others
    from the latest one, and what replaying a part of the writes does to them. */
module KeyedUpserts {
  import opened Wrappers
  import opened Names
  import opened CorpusPreparation

  datatype Key =
    | ProblemKey(id: Name)
    | ProvenanceKey(id: Name)
    | ServingKey(id: Name)
    | TopicKey(slug: Name)
    | TopicLinkKey(id: Name, slug: Name)
    | ApproachKey(id: Name)
    | SolutionKey(id: Name, language: Name, solution: Name)

  /** Column values; only their identity matters. */
  datatype Value =
    | Absent
    | Columns(text: Name)
    | DispositionColumn(disposition: Disposition)
    | ServingColumns(number: nat, classification: Classification, text: Name)
    | Category(isSubtopic: bool)

  /** Columns an update leaves alone, and columns it overwrites. */
  datatype Cell = Cell(first: Value, latest: Value)

  datatype Write = Write(key: Key, first: Value, latest: Value)

  type Tables = map<Key, Cell>

  /** `INSERT ... ON CONFLICT (key) DO UPDATE SET latest`. */
  function Upsert(tables: Tables, w: Write): Tables {
    tables[w.key := Cell(if w.key in tables then tables[w.key].first else w.first, w.latest)]
  }

  ghost function Apply(tables: Tables, writes: seq<Write>): Tables {
    if writes == [] then tables
    else Upsert(Apply(tables, writes[..|writes| - 1]), writes[|writes| - 1])
  }

  // ----- Key by key -----

  ghost function Get(tables: Tables, k: Key): Option<Cell> {
    if k in tables then Some(tables[k]) else None
  }

  ghost function FirstTo(writes: seq<Write>, k: Key): Option<Value> {
    if writes == [] then None
    else
      var before := FirstTo(writes[..|writes| - 1], k);
      if before.Some? then before
      else if writes[|writes| - 1].key == k then Some(writes[|writes| - 1].first) else None
  }

  ghost function LastTo(writes: seq<Write>, k: Key): Option<Value> {
    if writes == [] then None
    else if writes[|writes| - 1].key == k then Some(writes[|writes| - 1].latest)
    else LastTo(writes[..|writes| - 1], k)
  }

  /** What some writes make of one cell. */
  ghost function Written(old0: Option<Cell>, writes: seq<Write>, k: Key): Option<Cell> {
    match (old0, FirstTo(writes, k), LastTo(writes, k))
    case (Some(c), _, Some(latest)) => Some(Cell(c.first, latest))
    case (None, Some(first), Some(latest)) => Some(Cell(first, latest))
    case _ => old0
  }

  lemma {:induction false} GetApply(tables: Tables, writes: seq<Write>, k: Key)
    ensures Get(Apply(tables, writes), k) == Written(Get(tables, k), writes, k)
    ensures FirstTo(writes, k).Some? <==> LastTo(writes, k).Some?
  {
    if writes != [] {
      GetApply(tables, writes[..|writes| - 1], k);
    }
  }

  lemma {:induction false} ToConcat(a: seq<Write>, b: seq<Write>, k: Key)
    ensures FirstTo(a + b, k) == if FirstTo(a, k).Some? then FirstTo(a, k) else FirstTo(b, k)
    ensures LastTo(a + b, k) == if LastTo(b, k).Some? then LastTo(b, k) else LastTo(a, k)
  {
    if b == [] {
      assert a + b == a;
    } else {
      assert (a + b)[..|a + b| - 1] == a + b[..|b| - 1];
      ToConcat(a, b[..|b| - 1], k);
    }
  }

  lemma {:induction false} ApplyConcat(tables: Tables, a: seq<Write>, b: seq<Write>)
    ensures Apply(tables, a + b) == Apply(Apply(tables, a), b)
  {
    if b == [] {
      assert a + b == a;
    } else {
      assert (a + b)[..|a + b| - 1] == a + b[..|b| - 1];
      ApplyConcat(tables, a, b[..|b| - 1]);
    }
  }

  lemma SameCells(a: Tables, b: Tables)
    requires forall k :: Get(a, k) == Get(b, k)
    ensures a == b
  {
    assert forall k :: k in a <==> Get(a, k).Some?;
    assert forall k :: k in b <==> Get(b, k).Some?;
  }

  // ----- Replay -----

  /** Replaying the latest writes once more, and then going on, changes nothing. */
  lemma ReplayLatest(tables: Tables, before: seq<Write>, again: seq<Write>, rest: seq<Write>)
    ensures Apply(Apply(tables, before + again), again + rest) == Apply(tables, before + again + rest)
  {
    var done := Apply(tables, before + again);
    forall k
      ensures Get(Apply(done, again), k) == Get(done, k)
    {
      GetApply(tables, before + again, k);
      GetApply(done, again, k);
      GetApply(tables, again, k);
      ToConcat(before, again, k);
    }
    SameCells(Apply(done, again), done);
    ApplyConcat(done, again, rest);
    ApplyConcat(tables, before + again, rest);
  }

  /** If going on from here, or from further back, both lead to the same tables, then going back and
      on after having made some progress leads there as well. */
  lemma ReplayEarlier(tables: Tables, earlier: seq<Write>, progress: seq<Write>, rest: seq<Write>)
    requires Apply(tables, earlier + progress + rest) == Apply(tables, progress + rest)
    ensures Apply(Apply(tables, progress), earlier + progress + rest) == Apply(tables, progress + rest)
  {
    var advanced, whole, onward := Apply(tables, progress), earlier + progress + rest, progress + rest;
    forall k
      ensures Get(Apply(advanced, whole), k) == Get(Apply(tables, onward), k)
    {
      GetApply(tables, progress, k);
      GetApply(tables, onward, k);
      GetApply(tables, whole, k);
      GetApply(advanced, whole, k);
      ToConcat(progress, rest, k);
      ToConcat(earlier, progress, k);
      ToConcat(earlier + progress, rest, k);
    }
    SameCells(Apply(advanced, whole), Apply(tables, onward));
  }

  // ----- Rows, each with its writes -----

  ghost function Flatten<R>(rows: seq<R>, writes: R -> seq<Write>): seq<Write> {
    if rows == [] then [] else Flatten(rows[..|rows| - 1], writes) + writes(rows[|rows| - 1])
  }

  lemma FlattenAppend<R>(rows: seq<R>, row: R, writes: R -> seq<Write>)
    ensures Flatten(rows + [row], writes) == Flatten(rows, writes) + writes(row)
  {
    assert (rows + [row])[..|rows|] == rows;
  }

  lemma {:induction false} FlattenConcat<R>(a: seq<R>, b: seq<R>, writes: R -> seq<Write>)
    ensures Flatten(a + b, writes) == Flatten(a, writes) + Flatten(b, writes)
  {
    if b == [] {
      assert a + b == a;
    } else {
      assert (a + b)[..|a + b| - 1] == a + b[..|b| - 1];
      FlattenConcat(a, b[..|b| - 1], writes);
    }
  }

  /** The tables after importing the rows from position `q` on. */
  ghost function Replay<R>(tables: Tables, rows: seq<R>, writes: R -> seq<Write>, q: nat): Tables
    requires q <= |rows|
  {
    Apply(tables, Flatten(rows[q..], writes))
  }

  /** Importing onto these tables from position `j`, or from anywhere before it, ends in `final`. */
  ghost predicate Converges<R>(tables: Tables, rows: seq<R>, writes: R -> seq<Write>, j: nat, final: Tables)
    requires j <= |rows|
  {
    forall q :: 0 <= q <= j ==> Replay(tables, rows, writes, q) == final
  }

  /** Progress keeps convergence, and extends it to where the progress has got. */
  lemma ProgressConverges<R>(tables: Tables, rows: seq<R>, writes: R -> seq<Write>, i: nat, j: nat, final: Tables)
    requires i <= j <= |rows| && Converges(tables, rows, writes, i, final)
    ensures Converges(Apply(tables, Flatten(rows[i..j], writes)), rows, writes, j, final)
  {
    forall q | 0 <= q <= j
      ensures Replay(Apply(tables, Flatten(rows[i..j], writes)), rows, writes, q) == final
    {
      assert Replay(tables, rows, writes, i) == final;
      if q < i {
        assert Replay(tables, rows, writes, q) == final;
        ReplayFromEarlier(tables, rows, writes, q, i, j);
      } else {
        ReplayFromWithin(tables, rows, writes, i, q, j);
      }
    }
  }

  lemma ReplayFromEarlier<R>(tables: Tables, rows: seq<R>, writes: R -> seq<Write>, q: nat, i: nat, j: nat)
    requires q <= i <= j <= |rows|
    requires Replay(tables, rows, writes, q) == Replay(tables, rows, writes, i)
    ensures Replay(Apply(tables, Flatten(rows[i..j], writes)), rows, writes, q) == Replay(tables, rows, writes, i)
  {
    assert rows[q..] == rows[q..i] + rows[i..j] + rows[j..] && rows[i..] == rows[i..j] + rows[j..];
    FlattenConcat(rows[q..i] + rows[i..j], rows[j..], writes);
    FlattenConcat(rows[q..i], rows[i..j], writes);
    FlattenConcat(rows[i..j], rows[j..], writes);
    ReplayEarlier(tables, Flatten(rows[q..i], writes), Flatten(rows[i..j], writes), Flatten(rows[j..], writes));
  }

  lemma ReplayFromWithin<R>(tables: Tables, rows: seq<R>, writes: R -> seq<Write>, i: nat, q: nat, j: nat)
    requires i <= q <= j <= |rows|
    ensures Replay(Apply(tables, Flatten(rows[i..j], writes)), rows, writes, q) == Replay(tables, rows, writes, i)
  {
    assert rows[i..] == rows[i..q] + rows[q..j] + rows[j..] && rows[i..j] == rows[i..q] + rows[q..j];
    assert rows[q..] == rows[q..j] + rows[j..];
    FlattenConcat(rows[i..q] + rows[q..j], rows[j..], writes);
    FlattenConcat(rows[i..q], rows[q..j], writes);
    FlattenConcat(rows[q..j], rows[j..], writes);
    ReplayLatest(tables, Flatten(rows[i..q], writes), Flatten(rows[q..j], writes), Flatten(rows[j..], writes));
  }
}
