/** `crawl_frontier`. */
module CrawlFrontier {
  import opened Wrappers
  import opened Names
  import opened Collections
  import opened BreadthFirst

  datatype CrawlError = InvalidConfiguration

  /** The queue of the program holds the end and the number of edges of each walk. */
  ghost predicate Mirrors(entries: seq<(Name, nat)>, walks: seq<Walk>) {
    && |entries| == |walks|
    && forall i :: 0 <= i < |entries| ==> entries[i] == (Last(walks[i]), |walks[i]| - 1)
  }

  ghost predicate PagesOf(output: seq<Name>, walks: seq<Walk>) {
    && |output| == |walks|
    && forall i :: 0 <= i < |output| ==> output[i] == Last(walks[i])
  }

  /** `output` lists once each the pages a walk within the depth reaches, the nearer first and then
      by least walk; `walks` are those least walks. */
  ghost predicate IsFrontier(graph: Graph, start: Name, maximumDepth: nat, output: seq<Name>, walks: seq<Walk>) {
    && PagesOf(output, walks)
    && Distinct(output)
    && (forall i :: 0 <= i < |walks| ==> |walks[i]| - 1 <= maximumDepth && IsLeastWalk(graph, start, walks[i]))
    && (forall i, j :: 0 <= i < j < |walks| ==> Before(walks[i], walks[j]))
    && (forall w: Walk :: IsWalk(graph, start, w) && |w| - 1 <= maximumDepth ==> Last(w) in output)
  }

  method CrawlFrontier(graph: Graph, start: Name, maximumDepth: int)
    returns (r: Result<seq<Name>, CrawlError>, ghost walks: seq<Walk>)
    ensures r.Err? <==> start !in graph || maximumDepth < 0
    ensures r.Ok? ==> IsFrontier(graph, start, maximumDepth, r.value, walks)
  {
    walks := [];
    if start !in graph || maximumDepth < 0 {
      return Err(InvalidConfiguration), walks;
    }
    ghost var depth := Some(maximumDepth);
    var queue: seq<(Name, nat)> := [(start, 0)];
    ghost var pending: seq<Walk> := [[start]];
    var seen := {start};
    var output := [];
    StartSearch(graph, start, depth);
    while queue != []
      invariant Searching(graph, start, depth, walks, pending, seen)
      invariant Mirrors(queue, pending) && PagesOf(output, walks)
      invariant forall i :: 0 <= i < |walks| ==> IsLeastWalk(graph, start, walks[i])
      decreases graph.Keys - Ends(walks)
    {
      var (page, distance) := queue[0];
      ghost var walk := pending[0];
      Expanding(graph, start, depth, walks, pending, seen);
      OneMoreEnd(graph, start, depth, walks, pending);
      FrontIsLeast(graph, start, depth, walks, pending);
      queue := queue[1..];
      output := output + [page];
      if distance == maximumDepth {
        SkipTelling(graph, start, depth, walks, pending, seen);
        walks, pending := walks + [walk], pending[1..];
        continue;
      }
      var neighbors := SortedElements(Elements(graph[page]));
      StartTelling(graph, start, depth, walks, pending, seen, neighbors);
      walks, pending := walks + [walk], pending[1..];
      queue, seen, pending := QueueNew(graph, start, depth, neighbors, distance, queue, seen, walks, pending);
    }
    SearchedAll(graph, start, maximumDepth, output, walks, seen);
    return Ok(output), walks;
  }

  /** The inner loop: the neighbours that were not seen yet join the queue. */
  method QueueNew(graph: Graph, ghost start: Name, ghost depth: Depth, neighbors: seq<Name>, distance: nat,
                  queue0: seq<(Name, nat)>, seen0: set<Name>, ghost walks: seq<Walk>, ghost pending0: seq<Walk>)
    returns (queue: seq<(Name, nat)>, seen: set<Name>, ghost pending: seq<Walk>)
    requires Telling(graph, start, depth, walks, pending0, seen0, neighbors, 0)
    requires Mirrors(queue0, pending0) && |walks[|walks| - 1]| == distance + 1
    ensures Searching(graph, start, depth, walks, pending, seen) && Mirrors(queue, pending)
  {
    queue, seen, pending := queue0, seen0, pending0;
    for j := 0 to |neighbors|
      invariant Telling(graph, start, depth, walks, pending, seen, neighbors, j)
      invariant Mirrors(queue, pending)
    {
      var neighbor := neighbors[j];
      if neighbor in graph && neighbor !in seen {
        TellNew(graph, start, depth, walks, pending, seen, neighbors, j);
        ghost var found: Walk := walks[|walks| - 1] + [neighbor];
        MirrorsAppend(queue, pending, (neighbor, distance + 1), found);
        queue, seen, pending := queue + [(neighbor, distance + 1)], seen + {neighbor}, pending + [found];
      } else {
        TellOld(graph, start, depth, walks, pending, seen, neighbors, j);
      }
    }
    StopTelling(graph, start, depth, walks, pending, seen, neighbors);
  }

  lemma MirrorsAppend(entries: seq<(Name, nat)>, walks: seq<Walk>, entry: (Name, nat), walk: Walk)
    requires Mirrors(entries, walks) && entry == (Last(walk), |walk| - 1)
    ensures Mirrors(entries + [entry], walks + [walk])
  {
  }

  lemma SearchedAll(graph: Graph, start: Name, maximumDepth: nat, output: seq<Name>, walks: seq<Walk>, seen: set<Name>)
    requires Searching(graph, start, Some(maximumDepth), walks, [], seen)
    requires PagesOf(output, walks)
    requires forall i :: 0 <= i < |walks| ==> IsLeastWalk(graph, start, walks[i])
    ensures IsFrontier(graph, start, maximumDepth, output, walks)
  {
    assert walks + [] == walks;
    forall w: Walk | IsWalk(graph, start, w) && |w| - 1 <= maximumDepth
      ensures Last(w) in output
    {
      ExhaustedFindsAll(graph, start, Some(maximumDepth), walks, w);
      var v :| v in walks && Last(v) == Last(w);
      var i :| 0 <= i < |walks| && walks[i] == v;
      assert output[i] == Last(w);
    }
  }

  /** A page is output exactly when some walk within the depth reaches it, and pages come in order
      of their distance. */
  lemma FrontierIsReach(graph: Graph, start: Name, maximumDepth: nat, output: seq<Name>, walks: seq<Walk>)
    requires IsFrontier(graph, start, maximumDepth, output, walks)
    ensures forall n :: n in output <==>
      exists w: Walk :: IsWalk(graph, start, w) && |w| - 1 <= maximumDepth && Last(w) == n
    ensures forall i, j, v: Walk :: 0 <= i < j < |output| && IsWalk(graph, start, v) && Last(v) == output[j] ==>
      |walks[i]| <= |v|
  {
    forall n | n in output
      ensures exists w: Walk :: IsWalk(graph, start, w) && |w| - 1 <= maximumDepth && Last(w) == n
    {
      var i := IndexOf(output, n);
      assert IsWalk(graph, start, walks[i]);
    }
    forall i, j, v: Walk | 0 <= i < j < |output| && IsWalk(graph, start, v) && Last(v) == output[j]
      ensures |walks[i]| <= |v|
    {
      assert Before(walks[i], walks[j]) && AtMost(walks[j], v);
    }
  }

  /** The frontier is determined by the graph, the start and the depth. */
  lemma FrontierIsUnique(graph: Graph, start: Name, maximumDepth: nat,
                         a: seq<Name>, walksA: seq<Walk>, b: seq<Name>, walksB: seq<Walk>)
    requires IsFrontier(graph, start, maximumDepth, a, walksA)
    requires IsFrontier(graph, start, maximumDepth, b, walksB)
    ensures a == b && walksA == walksB
  {
    NoMorePages(graph, start, maximumDepth, a, walksA, b, walksB);
    NoMorePages(graph, start, maximumDepth, b, walksB, a, walksA);
    forall k | 0 <= k < |a|
      ensures walksA[k] == walksB[k]
    {
      SameWalk(graph, start, maximumDepth, a, walksA, b, walksB, k);
    }
    forall k | 0 <= k < |a|
      ensures a[k] == b[k]
    {
      assert Last(walksA[k]) == a[k] && Last(walksB[k]) == b[k];
    }
  }

  lemma NoMorePages(graph: Graph, start: Name, maximumDepth: nat,
                    a: seq<Name>, walksA: seq<Walk>, b: seq<Name>, walksB: seq<Walk>)
    requires IsFrontier(graph, start, maximumDepth, a, walksA)
    requires IsFrontier(graph, start, maximumDepth, b, walksB)
    ensures |a| <= |b|
  {
    forall n | n in Elements(a)
      ensures n in Elements(b)
    {
      var i := IndexOf(a, n);
      assert IsWalk(graph, start, walksA[i]);
    }
    DistinctFits(a, Elements(b));
    DistinctSize(b);
  }

  lemma {:induction false} SameWalk(graph: Graph, start: Name, maximumDepth: nat,
                                    a: seq<Name>, walksA: seq<Walk>, b: seq<Name>, walksB: seq<Walk>, k: nat)
    requires IsFrontier(graph, start, maximumDepth, a, walksA)
    requires IsFrontier(graph, start, maximumDepth, b, walksB)
    requires k < |a| && k < |b|
    ensures walksA[k] == walksB[k]
  {
    forall j | 0 <= j < k
      ensures walksA[j] == walksB[j]
    {
      SameWalk(graph, start, maximumDepth, a, walksA, b, walksB, j);
    }
    NextIsSame(graph, start, maximumDepth, a, walksA, b, walksB, k);
    NextIsSame(graph, start, maximumDepth, b, walksB, a, walksA, k);
    SameIfBothAtMost(walksA[k], walksB[k]);
  }

  lemma SameIfBothAtMost(a: seq<Name>, b: seq<Name>)
    requires AtMost(a, b) && AtMost(b, a)
    ensures a == b
  {
    if Before(a, b) {
      BeforeIsStrict(a, b);
    }
  }

  lemma NextIsSame(graph: Graph, start: Name, maximumDepth: nat, a: seq<Name>, walksA: seq<Walk>,
                   b: seq<Name>, walksB: seq<Walk>, k: nat)
    requires IsFrontier(graph, start, maximumDepth, a, walksA)
    requires IsFrontier(graph, start, maximumDepth, b, walksB)
    requires k < |a| && k < |b| && forall j :: 0 <= j < k ==> walksA[j] == walksB[j]
    ensures AtMost(walksA[k], walksB[k])
  {
    var i := ReachedAt(graph, start, maximumDepth, a, walksA, walksB[k]);
    EndsDiffer(graph, start, maximumDepth, b, walksB, k);
    AscendingNextIsLeast(walksA, walksB, i, k);
  }

  lemma EndsDiffer(graph: Graph, start: Name, maximumDepth: nat, output: seq<Name>, walks: seq<Walk>, k: nat)
    requires IsFrontier(graph, start, maximumDepth, output, walks) && k < |walks|
    ensures forall j :: 0 <= j < k ==> Last(walks[j]) != Last(walks[k])
  {
    forall j | 0 <= j < k
      ensures Last(walks[j]) != Last(walks[k])
    {
      assert output[j] != output[k];
    }
  }

  lemma AscendingNextIsLeast(a: seq<Walk>, b: seq<Walk>, i: nat, k: nat)
    requires i < |a| && k < |a| && k < |b| && Last(a[i]) == Last(b[k]) && AtMost(a[i], b[k])
    requires forall m, n :: 0 <= m < n < |a| ==> Before(a[m], a[n])
    requires forall j :: 0 <= j < k ==> a[j] == b[j] && Last(b[j]) != Last(b[k])
    ensures AtMost(a[k], b[k])
  {
    if i > k {
      BeforeTransitiveTo(a[k], a[i], b[k]);
    }
  }

  /** Where the end of a walk within the depth is output, by a walk no later. */
  lemma ReachedAt(graph: Graph, start: Name, maximumDepth: nat, a: seq<Name>, walks: seq<Walk>, w: Walk)
    returns (i: nat)
    requires IsFrontier(graph, start, maximumDepth, a, walks)
    requires IsWalk(graph, start, w) && |w| - 1 <= maximumDepth
    ensures i < |walks| && Last(walks[i]) == Last(w) && AtMost(walks[i], w)
  {
    assert Last(w) in a;
    i := IndexOf(a, Last(w));
  }

  lemma BeforeTransitiveTo(a: seq<Name>, b: seq<Name>, c: seq<Name>)
    requires Before(a, b) && AtMost(b, c)
    ensures Before(a, c)
  {
    if b != c {
      BeforeTransitive(a, b, c);
    }
  }
}
