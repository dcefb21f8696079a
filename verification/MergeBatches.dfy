/** `merge_pipeline_batches`: a heap-driven merge of sorted batches that drops repeated values. */
module MergeBatches {
  import opened Wrappers
  import opened Collections
  import Heap

  datatype MergeError = UnsortedBatch

  /** A value read from a batch, with where it stands. */
  datatype Entry = Entry(value: int, batch: nat, position: nat)

  // ----- Specification -----

  ghost predicate BatchSorted(batch: seq<int>) {
    forall i, j :: 0 <= i < j < |batch| ==> batch[i] <= batch[j]
  }

  ghost predicate AllSorted(batches: seq<seq<int>>) {
    forall b :: 0 <= b < |batches| ==> BatchSorted(batches[b])
  }

  ghost predicate InSome(batches: seq<seq<int>>, v: int) {
    exists b :: 0 <= b < |batches| && v in batches[b]
  }

  /** Entries compare as tuples do. */
  predicate EntryAtMost(a: Entry, b: Entry) {
    || a.value < b.value
    || (a.value == b.value && a.batch < b.batch)
    || (a.value == b.value && a.batch == b.batch && a.position <= b.position)
  }

  // ----- Invariants -----

  /** How far each batch has been read. */
  ghost predicate AreCursors(batches: seq<seq<int>>, cursors: seq<nat>) {
    |cursors| == |batches| && forall b :: 0 <= b < |batches| ==> cursors[b] <= |batches[b]|
  }

  /** The entry is the next unread element of its batch. */
  ghost predicate IsNext(batches: seq<seq<int>>, cursors: seq<nat>, e: Entry)
    requires AreCursors(batches, cursors)
  {
    e.batch < |batches| && e.position == cursors[e.batch] < |batches[e.batch]| &&
    e.value == batches[e.batch][e.position]
  }

  ghost predicate IsFirst(batches: seq<seq<int>>, n: nat, e: Entry)
    requires n <= |batches|
  {
    e.batch < n && e.position == 0 < |batches[e.batch]| && e.value == batches[e.batch][0]
  }

  /** The heap holds, once each, exactly the next unread element of every unfinished batch. */
  ghost predicate HeapIsFront(batches: seq<seq<int>>, cursors: seq<nat>, heap: multiset<Entry>)
    requires AreCursors(batches, cursors)
  {
    forall e :: heap[e] == if IsNext(batches, cursors, e) then 1 else 0
  }

  ghost predicate ReadInto(batch: seq<int>, cursor: nat, read: set<int>) {
    cursor <= |batch| && Elements(batch[..cursor]) <= read
  }

  ghost predicate NoneBelow(batch: seq<int>, cursor: nat, floor: int) {
    cursor <= |batch| && forall i :: cursor <= i < |batch| ==> floor <= batch[i]
  }

  ghost predicate AllReadInto(batches: seq<seq<int>>, cursors: seq<nat>, read: set<int>)
    requires AreCursors(batches, cursors)
  {
    forall b :: 0 <= b < |batches| ==> ReadInto(batches[b], cursors[b], read)
  }

  ghost predicate AllAtLeast(batches: seq<seq<int>>, cursors: seq<nat>, floor: int)
    requires AreCursors(batches, cursors)
  {
    forall b :: 0 <= b < |batches| ==> NoneBelow(batches[b], cursors[b], floor)
  }

  /** What has been read is in the output, what is in the output comes from the batches, and nothing
      unread is smaller than the last value output. */
  ghost predicate OutputIsRead(batches: seq<seq<int>>, cursors: seq<nat>, output: seq<int>)
    requires AreCursors(batches, cursors)
  {
    && StrictlyAscending(output)
    && AllReadInto(batches, cursors, Elements(output))
    && (forall v :: v in Elements(output) ==> InSome(batches, v))
    && (output != [] ==> AllAtLeast(batches, cursors, output[|output| - 1]))
  }

  ghost function Moved(cursors: seq<nat>, entry: Entry): seq<nat>
    requires entry.batch < |cursors|
  {
    cursors[entry.batch := entry.position + 1]
  }

  ghost function Unread(batches: seq<seq<int>>, cursors: seq<nat>, n: nat): nat
    requires AreCursors(batches, cursors) && n <= |batches|
  {
    if n == 0 then 0 else Unread(batches, cursors, n - 1) + |batches[n - 1]| - cursors[n - 1]
  }

  // ----- Program -----

  /** The union of the batches, each value once, in ascending order. */
  method MergePipelineBatches(batches: seq<seq<int>>) returns (r: Result<seq<int>, MergeError>)
    ensures r.Err? <==>
      exists b, i, j :: 0 <= b < |batches| && 0 <= i < j < |batches[b]| && batches[b][i] > batches[b][j]
    ensures r.Ok? ==> StrictlyAscending(r.value)
    ensures r.Ok? ==> forall v :: v in r.value <==> InSome(batches, v)
  {
    var sorted := CheckSorted(batches);
    if !sorted {
      ghost var b :| 0 <= b < |batches| && !BatchSorted(batches[b]);
      return Err(UnsortedBatch);
    }
    var heap := FirstEntries(batches);
    var output := [];
    ghost var cursors: seq<nat> := seq(|batches|, _ => 0);
    while heap != multiset{}
      invariant AreCursors(batches, cursors)
      invariant HeapIsFront(batches, cursors, heap)
      invariant OutputIsRead(batches, cursors, output)
      decreases Unread(batches, cursors, |batches|)
    {
      var entry;
      entry, heap := PopFront(batches, cursors, heap);
      output := Emit(batches, cursors, entry, output);
      heap := Refill(batches, cursors, entry, heap);
      Advance(batches, cursors, entry, |batches|);
      cursors := Moved(cursors, entry);
    }
    AllRead(batches, cursors, heap, output);
    return Ok(output);
  }

  /** Output a value unless it repeats the last one. */
  method Emit(batches: seq<seq<int>>, ghost cursors: seq<nat>, entry: Entry, output: seq<int>) returns (next: seq<int>)
    requires AreCursors(batches, cursors) && IsNext(batches, cursors, entry)
    requires AllAtLeast(batches, cursors, entry.value) && OutputIsRead(batches, cursors, output)
    ensures AreCursors(batches, Moved(cursors, entry))
    ensures OutputIsRead(batches, Moved(cursors, entry), next)
  {
    assert output != [] ==> NoneBelow(batches[entry.batch], entry.position, output[|output| - 1]);
    ElementsAppend(output, entry.value);
    next := output;
    if output == [] || entry.value != output[|output| - 1] {
      next := next + [entry.value];
    }
    assert Elements(next) == Elements(output) + {entry.value};
    assert InSome(batches, entry.value);
    ReadOne(batches, cursors, entry, Elements(output));
  }

  /** Push the element after the one just read, if its batch has one. */
  method Refill(batches: seq<seq<int>>, ghost cursors: seq<nat>, entry: Entry, heap: multiset<Entry>)
    returns (refilled: multiset<Entry>)
    requires AreCursors(batches, cursors) && IsNext(batches, cursors, entry)
    requires forall e :: heap[e] == if IsNext(batches, cursors, e) && e != entry then 1 else 0
    ensures AreCursors(batches, Moved(cursors, entry))
    ensures HeapIsFront(batches, Moved(cursors, entry), refilled)
  {
    refilled := heap;
    var next := entry.position + 1;
    if next < |batches[entry.batch]| {
      refilled := refilled + multiset{Entry(batches[entry.batch][next], entry.batch, next)};
    }
  }

  method FirstEntries(batches: seq<seq<int>>) returns (heap: multiset<Entry>)
    ensures forall e :: heap[e] == if IsFirst(batches, |batches|, e) then 1 else 0
  {
    heap := multiset{};
    for b := 0 to |batches|
      invariant forall e :: heap[e] == if IsFirst(batches, b, e) then 1 else 0
    {
      if batches[b] != [] {
        heap := heap + multiset{Entry(batches[b][0], b, 0)};
      }
    }
  }

  method CheckSorted(batches: seq<seq<int>>) returns (sorted: bool)
    ensures sorted <==> AllSorted(batches)
  {
    for b := 0 to |batches|
      invariant forall k :: 0 <= k < b ==> BatchSorted(batches[k])
    {
      var batch := batches[b];
      for i := 0 to if batch == [] then 0 else |batch| - 1
        invariant batch == [] || forall j, k :: 0 <= j < k <= i ==> batch[j] <= batch[k]
      {
        if batch[i] > batch[i + 1] {
          assert !BatchSorted(batches[b]);
          return false;
        }
      }
    }
    return true;
  }

  method PopFront(batches: seq<seq<int>>, ghost cursors: seq<nat>, heap: multiset<Entry>)
    returns (entry: Entry, rest: multiset<Entry>)
    requires AllSorted(batches) && AreCursors(batches, cursors)
    requires HeapIsFront(batches, cursors, heap) && heap != multiset{}
    ensures IsNext(batches, cursors, entry)
    ensures AllAtLeast(batches, cursors, entry.value)
    ensures forall e :: rest[e] == if IsNext(batches, cursors, e) && e != entry then 1 else 0
  {
    entry, rest := Heap.Pop(heap, EntryAtMost);
    assert heap[entry] == 1;
    forall e | IsNext(batches, cursors, e)
      ensures entry.value <= e.value
    {
      assert heap[e] == 1;
      assert e in heap;
    }
    FrontIsLeast(batches, cursors, entry);
  }

  // ----- Proofs -----

  /** The entry popped is no greater than anything unread. */
  lemma FrontIsLeast(batches: seq<seq<int>>, cursors: seq<nat>, entry: Entry)
    requires AllSorted(batches) && AreCursors(batches, cursors)
    requires forall e :: IsNext(batches, cursors, e) ==> entry.value <= e.value
    ensures AllAtLeast(batches, cursors, entry.value)
  {
    forall b, i | 0 <= b < |batches| && cursors[b] <= i < |batches[b]|
      ensures entry.value <= batches[b][i]
    {
      assert BatchSorted(batches[b]);
      assert IsNext(batches, cursors, Entry(batches[b][cursors[b]], b, cursors[b]));
    }
  }

  lemma ReadOne(batches: seq<seq<int>>, cursors: seq<nat>, entry: Entry, read: set<int>)
    requires AreCursors(batches, cursors) && IsNext(batches, cursors, entry)
    requires AllReadInto(batches, cursors, read) && AllAtLeast(batches, cursors, entry.value)
    ensures AreCursors(batches, Moved(cursors, entry))
    ensures AllReadInto(batches, Moved(cursors, entry), read + {entry.value})
    ensures AllAtLeast(batches, Moved(cursors, entry), entry.value)
  {
    var batch, moved := batches[entry.batch], Moved(cursors, entry);
    ElementsAppend(batch[..entry.position], entry.value);
    assert batch[..entry.position + 1] == batch[..entry.position] + [entry.value];
    forall b | 0 <= b < |batches|
      ensures ReadInto(batches[b], moved[b], read + {entry.value}) && NoneBelow(batches[b], moved[b], entry.value)
    {
      assert ReadInto(batches[b], cursors[b], read) && NoneBelow(batches[b], cursors[b], entry.value);
    }
  }

  lemma {:induction false} Advance(batches: seq<seq<int>>, cursors: seq<nat>, entry: Entry, n: nat)
    requires AreCursors(batches, cursors) && IsNext(batches, cursors, entry) && n <= |batches|
    ensures AreCursors(batches, Moved(cursors, entry))
    ensures Unread(batches, Moved(cursors, entry), n) ==
      Unread(batches, cursors, n) - (if entry.batch < n then 1 else 0)
  {
    if n > 0 {
      Advance(batches, cursors, entry, n - 1);
    }
  }

  lemma AllRead(batches: seq<seq<int>>, cursors: seq<nat>, heap: multiset<Entry>, output: seq<int>)
    requires AreCursors(batches, cursors) && HeapIsFront(batches, cursors, heap) && heap == multiset{}
    requires OutputIsRead(batches, cursors, output)
    ensures forall v :: v in output <==> InSome(batches, v)
  {
    assert forall v :: v in output ==> v in Elements(output);
    forall v | InSome(batches, v)
      ensures v in output
    {
      var b :| 0 <= b < |batches| && v in batches[b];
      assert heap[Entry(batches[b][if cursors[b] < |batches[b]| then cursors[b] else 0], b, cursors[b])] == 0;
      assert cursors[b] == |batches[b]| && batches[b][..cursors[b]] == batches[b];
      assert ReadInto(batches[b], cursors[b], Elements(output));
      assert v in Elements(batches[b]);
    }
  }

  /** Only one list is strictly ascending with given elements, so the order of the batches does not
      matter. */
  lemma {:induction false} AscendingIsUnique(a: seq<int>, b: seq<int>)
    requires StrictlyAscending(a) && StrictlyAscending(b)
    requires Elements(a) == Elements(b)
    ensures a == b
  {
    DistinctSize(a);
    DistinctSize(b);
    if a != [] {
      assert a[0] in Elements(a);
      var i := IndexOf(b, a[0]);
      assert b[0] in Elements(b);
      var j := IndexOf(a, b[0]);
      assert a == [a[0]] + a[1..] && b == [b[0]] + b[1..];
      TailElements(a);
      TailElements(b);
      AscendingIsUnique(a[1..], b[1..]);
    }
  }

  lemma TailElements(s: seq<int>)
    requires s != [] && StrictlyAscending(s)
    ensures Elements(s[1..]) == Elements(s) - {s[0]}
  {
    assert s == [s[0]] + s[1..];
    assert forall x :: x in s <==> x == s[0] || x in s[1..];
  }
}
