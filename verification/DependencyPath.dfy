/** `shortest_dependency_path`. */
module DependencyPath {
  import opened Wrappers
  import opened Names
  import opened Collections
  import opened BreadthFirst

  datatype PathError = MissingEndpoint | UnknownNode

  /** Every node that is referred to exists. */
  ghost predicate Complete(graph: Graph) {
    forall n :: n in graph ==> Elements(graph[n]) <= graph.Keys
  }

  lemma CompleteExactly(graph: Graph)
    ensures Complete(graph) <==>
      forall n :: n in graph ==> forall i :: 0 <= i < |graph[n]| ==> graph[n][i] in graph
  {
    forall n | n in graph
      ensures Elements(graph[n]) <= graph.Keys <==> forall i :: 0 <= i < |graph[n]| ==> graph[n][i] in graph
    {
      ElementsWithin(graph[n], graph.Keys);
    }
  }

  method ShortestDependencyPath(graph: Graph, start: Name, target: Name) returns (r: Result<seq<Name>, PathError>)
    ensures r == Err(MissingEndpoint) <==> start !in graph || target !in graph
    ensures r == Err(UnknownNode) <==> start in graph && target in graph && !Complete(graph)
    ensures r.Ok? && r.value != [] ==> Last(r.value) == target && IsLeastWalk(graph, start, r.value)
    ensures r == Ok([]) ==> forall w: Walk :: IsWalk(graph, start, w) ==> Last(w) != target
  {
    if start !in graph || target !in graph {
      return Err(MissingEndpoint);
    }
    var complete := IsComplete(graph);
    if !complete {
      return Err(UnknownNode);
    }
    var queue: seq<Walk> := [[start]];
    var visited := {start};
    ghost var done: seq<Walk> := [];
    StartSearch(graph, start, None);
    while queue != []
      invariant Searching(graph, start, None, done, queue, visited)
      invariant target !in Ends(done)
      decreases graph.Keys - Ends(done)
    {
      var path := queue[0];
      Expanding(graph, start, None, done, queue, visited);
      OneMoreEnd(graph, start, None, done, queue);
      var node := Last(path);
      if node == target {
        FrontIsLeast(graph, start, None, done, queue);
        return Ok(path);
      }
      var neighbors := SortedElements(Elements(graph[node]));
      StartTelling(graph, start, None, done, queue, visited, neighbors);
      queue := queue[1..];
      done := done + [path];
      queue, visited := QueueNew(graph, start, path, neighbors, queue, visited, done);
    }
    assert done + [] == done;
    forall w: Walk | IsWalk(graph, start, w)
      ensures Last(w) != target
    {
      ExhaustedFindsAll(graph, start, None, done, w);
    }
    return Ok([]);
  }

  /** The inner loop: the neighbours that were not visited yet join the queue. */
  method QueueNew(graph: Graph, ghost start: Name, path: Walk, neighbors: seq<Name>, queue0: seq<Walk>,
                  visited0: set<Name>, ghost done: seq<Walk>)
    returns (queue: seq<Walk>, visited: set<Name>)
    requires Complete(graph) && Telling(graph, start, None, done, queue0, visited0, neighbors, 0)
    requires path == done[|done| - 1]
    ensures Searching(graph, start, None, done, queue, visited)
  {
    queue, visited := queue0, visited0;
    for j := 0 to |neighbors|
      invariant Telling(graph, start, None, done, queue, visited, neighbors, j)
    {
      var neighbor := neighbors[j];
      if neighbor !in visited {
        assert neighbor in Elements(neighbors);
        TellNew(graph, start, None, done, queue, visited, neighbors, j);
        visited := visited + {neighbor};
        queue := queue + [path + [neighbor]];
      } else {
        TellOld(graph, start, None, done, queue, visited, neighbors, j);
      }
    }
    StopTelling(graph, start, None, done, queue, visited, neighbors);
  }

  method IsComplete(graph: Graph) returns (complete: bool)
    ensures complete <==> Complete(graph)
  {
    var rest := graph.Keys;
    while rest != {}
      invariant rest <= graph.Keys
      invariant forall n :: n in graph && n !in rest ==> Elements(graph[n]) <= graph.Keys
      decreases |rest|
    {
      ghost var witnessed := SomeMember(rest);
      var n :| n in rest;
      if !(Elements(graph[n]) <= graph.Keys) {
        return false;
      }
      rest := rest - {n};
    }
    return true;
  }

  /** Whatever its length, the least walk is the only one: the path does not depend on how the
      graph is stored. */
  lemma LeastWalkIsUnique(graph: Graph, start: Name, a: Walk, b: Walk)
    requires IsLeastWalk(graph, start, a) && IsLeastWalk(graph, start, b)
    requires Last(a) == Last(b)
    ensures a == b
  {
    if Before(a, b) {
      BeforeIsStrict(a, b);
    }
  }
}
