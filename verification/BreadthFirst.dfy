/** Breadth-first search with sorted neighbours: the order it imposes on walks, and what its
    queue means. `shortest_dependency_path` and `crawl_frontier` both run on it. */
module BreadthFirst {
  import opened Wrappers
  import opened Names
  import opened Collections

  type Graph = map<Name, seq<Name>>

  type Walk = w: seq<Name> | w != [] witness [0]

  function Last(w: Walk): Name {
    w[|w| - 1]
  }

  /** The distinct neighbours of a node that are nodes themselves. */
  function Neighbors(graph: Graph, n: Name): set<Name>
    requires n in graph
  {
    set x | x in graph[n] && x in graph
  }

  ghost predicate IsWalk(graph: Graph, start: Name, w: seq<Name>) {
    && w != [] && w[0] == start
    && (forall i :: 0 <= i < |w| ==> w[i] in graph)
    && forall i :: 0 <= i < |w| - 1 ==> w[i + 1] in Neighbors(graph, w[i])
  }

  // ----- Shorter first, then lexicographic -----

  ghost predicate Before(a: seq<Name>, b: seq<Name>) {
    |a| < |b| || (|a| == |b| && exists k: nat :: FirstDifferenceBelow(a, b, k))
  }

  ghost predicate AtMost(a: seq<Name>, b: seq<Name>) {
    a == b || Before(a, b)
  }

  /** `w` is the shortest walk from `start` to where it ends, and the least of those. */
  ghost predicate IsLeastWalk(graph: Graph, start: Name, w: seq<Name>) {
    && IsWalk(graph, start, w)
    && forall v: Walk :: IsWalk(graph, start, v) && Last(v) == Last(w) ==> AtMost(w, v)
  }

  /** Walks and their order, in plain terms. */
  lemma WalksExactly(graph: Graph, start: Name, a: seq<Name>, b: seq<Name>)
    ensures IsWalk(graph, start, a) <==>
      && a != [] && a[0] == start && (forall i :: 0 <= i < |a| ==> a[i] in graph)
      && forall i :: 0 <= i < |a| - 1 ==> a[i + 1] in graph[a[i]]
    ensures Before(a, b) <==>
      || |a| < |b|
      || (|a| == |b| && exists k :: 0 <= k < |a| && a[..k] == b[..k] && a[k] < b[k])
  {
    FirstDifferenceExactly(a, b);
  }

  lemma BeforeIsStrict(a: seq<Name>, b: seq<Name>)
    requires Before(a, b)
    ensures !Before(b, a) && a != b
  {
    if |a| == |b| {
      var i: nat :| FirstDifferenceBelow(a, b, i);
      assert forall j: nat :: !FirstDifferenceBelow(b, a, j);
    }
  }

  lemma BeforeTransitive(a: seq<Name>, b: seq<Name>, c: seq<Name>)
    requires Before(a, b) && Before(b, c)
    ensures Before(a, c)
  {
    if |a| == |b| == |c| {
      var i: nat :| FirstDifferenceBelow(a, b, i);
      var j: nat :| FirstDifferenceBelow(b, c, j);
      var k := if i < j then i else j;
      assert FirstDifferenceBelow(a, c, k);
    }
  }

  lemma AtMostBefore(a: seq<Name>, b: seq<Name>, c: seq<Name>)
    requires AtMost(a, b) && Before(b, c)
    ensures Before(a, c)
  {
    if a != b {
      BeforeTransitive(a, b, c);
    }
  }

  lemma AtMostTransitive(a: seq<Name>, b: seq<Name>, c: seq<Name>)
    requires AtMost(a, b) && AtMost(b, c)
    ensures AtMost(a, c)
  {
    if b != c {
      AtMostBefore(a, b, c);
    }
  }

  lemma NotBackBefore(a: seq<Name>, b: seq<Name>, c: seq<Name>)
    requires Before(a, b) && AtMost(b, c)
    ensures !AtMost(c, a)
  {
    if b != c {
      BeforeTransitive(a, b, c);
    }
    BeforeIsStrict(a, c);
  }

  lemma FirstDifference(a: seq<Name>, b: seq<Name>) returns (k: nat)
    requires |a| == |b| && a != b
    ensures k < |a| && (forall i :: 0 <= i < k ==> a[i] == b[i]) && a[k] != b[k]
  {
    k := 0;
    while k < |a| && a[k] == b[k]
      invariant k <= |a| && forall i :: 0 <= i < k ==> a[i] == b[i]
    {
      k := k + 1;
    }
  }

  lemma BeforeTotal(a: seq<Name>, b: seq<Name>)
    ensures AtMost(a, b) || Before(b, a)
  {
    if |a| == |b| && a != b {
      var k := FirstDifference(a, b);
      assert FirstDifferenceBelow(a, b, k) || FirstDifferenceBelow(b, a, k);
    }
  }

  /** Extending the earlier walk keeps it earlier, whatever the extensions are. */
  lemma ExtendBefore(a: seq<Name>, b: seq<Name>, x: Name, y: Name)
    requires Before(a, b)
    ensures Before(a + [x], b + [y])
  {
    if |a| == |b| {
      var k: nat :| FirstDifferenceBelow(a, b, k);
      assert FirstDifferenceBelow(a + [x], b + [y], k);
    }
  }

  lemma ExtendAtMost(a: seq<Name>, b: seq<Name>, x: Name)
    requires AtMost(a, b)
    ensures AtMost(a + [x], b + [x])
  {
    if a != b {
      ExtendBefore(a, b, x, x);
    }
  }

  lemma ExtendSame(a: seq<Name>, x: Name, y: Name)
    requires x < y
    ensures Before(a + [x], a + [y])
  {
    assert FirstDifferenceBelow(a + [x], a + [y], |a|);
  }

  // ----- The state of a search -----

  /** Edges a walk may have; `None` sets no bound. */
  type Depth = Option<nat>

  ghost predicate Within(depth: Depth, w: Walk) {
    depth.Some? ==> |w| - 1 <= depth.value
  }

  ghost predicate Expandable(depth: Depth, w: Walk) {
    depth.Some? ==> |w| - 1 < depth.value
  }

  ghost function Ends(walks: seq<Walk>): set<Name> {
    set w | w in walks :: Last(w)
  }

  /** Some found walk reaches the end of `w` and is no later than `w`. */
  ghost predicate Covered(found: seq<Walk>, w: Walk) {
    exists i :: 0 <= i < |found| && Last(found[i]) == Last(w) && AtMost(found[i], w)
  }

  /** Walks found so far, expanded ones first, then the queue: one for each visited node, strictly
      ascending, each a one-step extension of an expanded one. */
  ghost predicate Ordered(graph: Graph, start: Name, depth: Depth, done: seq<Walk>, queue: seq<Walk>) {
    var found := done + queue;
    && found != [] && found[0] == [start]
    && (forall i :: 0 <= i < |found| ==> IsWalk(graph, start, found[i]) && Within(depth, found[i]))
    && (forall i, j :: 0 <= i < j < |found| ==> Before(found[i], found[j]))
    && (forall i, j :: 0 <= i < j < |found| ==> Last(found[i]) != Last(found[j]))
    && (forall i :: 1 <= i < |found| ==> ParentIn(done, found[i]))
  }

  ghost predicate ParentIn(done: seq<Walk>, w: Walk) {
    |w| > 1 && w[..|w| - 1] in done
  }

  /** Every extension of an expanded walk is covered. */
  ghost predicate Covers(graph: Graph, depth: Depth, expanded: seq<Walk>, found: seq<Walk>) {
    forall i, x :: 0 <= i < |expanded| && Last(expanded[i]) in graph && Expandable(depth, expanded[i]) &&
                   x in Neighbors(graph, Last(expanded[i])) ==>
      Covered(found, expanded[i] + [x])
  }

  lemma CoveredGrows(found: seq<Walk>, more: seq<Walk>, w: Walk)
    requires Covered(found, w)
    ensures Covered(found + more, w)
  {
    var i :| 0 <= i < |found| && Last(found[i]) == Last(w) && AtMost(found[i], w);
    assert (found + more)[i] == found[i];
  }

  lemma CoversGrows(graph: Graph, depth: Depth, expanded: seq<Walk>, found: seq<Walk>, more: seq<Walk>)
    requires Covers(graph, depth, expanded, found)
    ensures Covers(graph, depth, expanded, found + more)
  {
    forall i, x | 0 <= i < |expanded| && Last(expanded[i]) in graph && Expandable(depth, expanded[i]) &&
                  x in Neighbors(graph, Last(expanded[i]))
      ensures Covered(found + more, expanded[i] + [x])
    {
      CoveredGrows(found, more, expanded[i] + [x]);
    }
  }

  /** Before the front of the queue, what covers a walk has been expanded. */
  lemma CoveredWalkIsExpanded(graph: Graph, start: Name, depth: Depth, done: seq<Walk>, queue: seq<Walk>, u: Walk)
    returns (i: nat)
    requires Ordered(graph, start, depth, done, queue) && Covered(done + queue, u)
    requires queue == [] || Before(u, queue[0])
    ensures i < |done| && Last(done[i]) == Last(u) && AtMost(done[i], u)
  {
    var found := done + queue;
    forall k | |done| <= k < |found|
      ensures !AtMost(found[k], u)
    {
      assert found[|done|] == queue[0];
      NotBackBefore(u, queue[0], found[k]);
    }
    i :| 0 <= i < |found| && Last(found[i]) == Last(u) && AtMost(found[i], u);
    assert found[i] == done[i];
  }

  /** Every walk earlier than the front of the queue is covered by a walk already found. */
  lemma {:induction false} EarlierWalkIsCovered(graph: Graph, start: Name, depth: Depth,
                                                done: seq<Walk>, queue: seq<Walk>, w: Walk)
    requires Ordered(graph, start, depth, done, queue) && Covers(graph, depth, done, done + queue)
    requires IsWalk(graph, start, w) && Within(depth, w)
    requires queue == [] || Before(w, queue[0])
    ensures Covered(done + queue, w)
    decreases |w|
  {
    var found := done + queue;
    if |w| == 1 {
      assert w == [start] == found[0];
    } else {
      var u: Walk, x := w[..|w| - 1], Last(w);
      WalkFront(graph, start, w);
      if queue != [] {
        BeforeTransitive(u, w, queue[0]);
      }
      EarlierWalkIsCovered(graph, start, depth, done, queue, u);
      ExtensionIsCovered(graph, start, depth, done, queue, u, x);
    }
  }

  lemma WalkFront(graph: Graph, start: Name, w: Walk)
    requires IsWalk(graph, start, w) && |w| > 1
    ensures
      var u: Walk := w[..|w| - 1];
      && w == u + [Last(w)] && Before(u, w)
      && IsWalk(graph, start, u) && Last(u) in graph && Last(w) in Neighbors(graph, Last(u))
  {
    var u: Walk := w[..|w| - 1];
    assert forall i :: 0 <= i < |u| ==> u[i] == w[i];
  }

  lemma ExtensionIsCovered(graph: Graph, start: Name, depth: Depth, done: seq<Walk>, queue: seq<Walk>, u: Walk, x: Name)
    requires Ordered(graph, start, depth, done, queue) && Covers(graph, depth, done, done + queue)
    requires Last(u) in graph && x in Neighbors(graph, Last(u)) && Within(depth, u + [x])
    requires Covered(done + queue, u) && (queue == [] || Before(u, queue[0]))
    ensures Covered(done + queue, u + [x])
  {
    var found := done + queue;
    var i := CoveredWalkIsExpanded(graph, start, depth, done, queue, u);
    ExpandedIsCovered(graph, depth, done, found, i, u, x);
    LaterIsCovered(found, done[i], u, x);
  }

  lemma ExpandedIsCovered(graph: Graph, depth: Depth, done: seq<Walk>, found: seq<Walk>, i: nat, u: Walk, x: Name)
    requires Covers(graph, depth, done, found) && i < |done| && Last(done[i]) == Last(u) && AtMost(done[i], u)
    requires Last(u) in graph && x in Neighbors(graph, Last(u)) && Within(depth, u + [x])
    ensures Covered(found, done[i] + [x])
  {
    assert |done[i]| <= |u|;
  }

  /** What covers an extension covers the same extension of a later walk. */
  lemma LaterIsCovered(found: seq<Walk>, a: Walk, u: Walk, x: Name)
    requires Covered(found, a + [x]) && AtMost(a, u)
    ensures Covered(found, u + [x])
  {
    var r :| 0 <= r < |found| && Last(found[r]) == x && AtMost(found[r], a + [x]);
    ExtendAtMost(a, u, x);
    AtMostTransitive(found[r], a + [x], u + [x]);
  }

  /** The front of the queue is the least walk to where it ends. */
  lemma FrontIsLeast(graph: Graph, start: Name, depth: Depth, done: seq<Walk>, queue: seq<Walk>)
    requires Ordered(graph, start, depth, done, queue) && Covers(graph, depth, done, done + queue)
    requires queue != []
    ensures IsLeastWalk(graph, start, queue[0])
  {
    var found := done + queue;
    var front := queue[0];
    assert found[|done|] == front;
    forall v: Walk | IsWalk(graph, start, v) && Last(v) == Last(front)
      ensures AtMost(front, v)
    {
      BeforeTotal(front, v);
      if Before(v, front) {
        EarlierWalkIsCovered(graph, start, depth, done, queue, v);
        FrontCovers(graph, start, depth, done, queue, v);
      }
    }
  }

  /** A walk to where the front ends can only be covered by the front. */
  lemma FrontCovers(graph: Graph, start: Name, depth: Depth, done: seq<Walk>, queue: seq<Walk>, v: Walk)
    requires Ordered(graph, start, depth, done, queue) && queue != []
    requires Last(v) == Last(queue[0]) && Covered(done + queue, v)
    ensures AtMost(queue[0], v)
  {
    var found := done + queue;
    assert found[|done|] == queue[0];
    var i :| 0 <= i < |found| && Last(found[i]) == Last(v) && AtMost(found[i], v);
    assert i == |done|;
  }

  /** A search that has emptied its queue has found every node a walk within the depth reaches. */
  lemma ExhaustedFindsAll(graph: Graph, start: Name, depth: Depth, done: seq<Walk>, w: Walk)
    requires Ordered(graph, start, depth, done, []) && Covers(graph, depth, done, done)
    requires IsWalk(graph, start, w) && Within(depth, w)
    ensures Last(w) in Ends(done)
  {
    assert done + [] == done;
    EarlierWalkIsCovered(graph, start, depth, done, [], w);
    var i :| 0 <= i < |done| && Last(done[i]) == Last(w);
    assert done[i] in done;
  }

  /** Moving the front of the queue to the expanded walks leaves the found walks as they are. */
  lemma PopFront(graph: Graph, start: Name, depth: Depth, done: seq<Walk>, queue: seq<Walk>)
    requires Ordered(graph, start, depth, done, queue) && queue != []
    ensures Ordered(graph, start, depth, done + [queue[0]], queue[1..])
    ensures done + queue == (done + [queue[0]]) + queue[1..]
    ensures ChildrenTold(queue[1..], queue[0], {})
    ensures Last(queue[0]) !in Ends(done)
  {
    var found := done + queue;
    var front := queue[0];
    assert found == (done + [front]) + queue[1..];
    forall i | 1 <= i < |found|
      ensures ParentIn(done + [front], found[i])
    {
      assert ParentIn(done, found[i]);
    }
    forall i | 0 <= i < |queue[1..]|
      ensures ChildOf(queue[1..][i], front, {})
    {
      var q := queue[1..][i];
      assert q == found[|done| + 1 + i];
      assert ParentIn(done, found[|done| + 1 + i]);
      var j :| 0 <= j < |done| && done[j] == q[..|q| - 1];
      assert Before(found[j], found[|done|]);
      BeforeIsStrict(found[j], found[|done|]);
    }
    forall w | w in done
      ensures Last(w) != Last(front)
    {
      var i :| 0 <= i < |done| && done[i] == w;
      assert found[i] == w && found[|done|] == front;
    }
  }

  /** If `q` extends `parent`, it does so by one of `told`. */
  ghost predicate ChildOf(q: Walk, parent: Walk, told: set<Name>) {
    q[..|q| - 1] == parent ==> Last(q) in told
  }

  ghost predicate ChildrenTold(queue: seq<Walk>, parent: Walk, told: set<Name>) {
    forall i :: 0 <= i < |queue| ==> ChildOf(queue[i], parent, told)
  }

  /** Appending the next extension of the walk just expanded keeps the found walks ordered. */
  lemma Enqueue(graph: Graph, start: Name, depth: Depth, done: seq<Walk>, queue: seq<Walk>, told: set<Name>, x: Name)
    requires Ordered(graph, start, depth, done, queue) && done != []
    requires Last(done[|done| - 1]) in graph && x in Neighbors(graph, Last(done[|done| - 1]))
    requires Expandable(depth, done[|done| - 1])
    requires x !in Ends(done + queue)
    requires forall y :: y in told ==> y < x
    requires ChildrenTold(queue, done[|done| - 1], told)
    ensures Ordered(graph, start, depth, done, queue + [done[|done| - 1] + [x]])
    ensures Ends(done + (queue + [done[|done| - 1] + [x]])) == Ends(done + queue) + {x}
    ensures ChildrenTold(queue + [done[|done| - 1] + [x]], done[|done| - 1], told + {x})
  {
    var found := done + queue;
    var parent := done[|done| - 1];
    assert found[|done| - 1] == parent;
    var w: Walk := parent + [x];
    assert w[..|w| - 1] == parent;
    forall i | 0 <= i < |found|
      ensures Before(found[i], w) && Last(found[i]) != Last(w)
    {
      assert found[i] in found;
      ComesBefore(done, queue, told, x, i);
    }
    OrderedAppend(graph, start, depth, done, queue, w);
    EndsAppend(found, w);
    assert done + (queue + [w]) == found + [w];
  }

  lemma OrderedAppend(graph: Graph, start: Name, depth: Depth, done: seq<Walk>, queue: seq<Walk>, w: Walk)
    requires Ordered(graph, start, depth, done, queue) && IsWalk(graph, start, w) && Within(depth, w)
    requires ParentIn(done, w)
    requires forall i :: 0 <= i < |done + queue| ==> Before((done + queue)[i], w) && Last((done + queue)[i]) != Last(w)
    ensures Ordered(graph, start, depth, done, queue + [w])
  {
    assert done + (queue + [w]) == (done + queue) + [w];
  }

  lemma ComesBefore(done: seq<Walk>, queue: seq<Walk>, told: set<Name>, x: Name, i: nat)
    requires done != [] && i < |done + queue|
    requires forall i, j :: 0 <= i < j < |done + queue| ==> Before((done + queue)[i], (done + queue)[j])
    requires forall i :: 1 <= i < |done + queue| ==> ParentIn(done, (done + queue)[i])
    requires forall y :: y in told ==> y < x
    requires ChildrenTold(queue, done[|done| - 1], told)
    ensures Before((done + queue)[i], done[|done| - 1] + [x])
  {
    var found := done + queue;
    var parent := done[|done| - 1];
    assert found[|done| - 1] == parent;
    var w := parent + [x];
    if i < |done| {
      assert Before(parent, w);
      if i < |done| - 1 {
        BeforeTransitive(found[i], parent, w);
      }
    } else {
      var q := found[i];
      assert q == queue[i - |done|] && ParentIn(done, q);
      var p := q[..|q| - 1];
      assert q == p + [Last(q)];
      var j :| 0 <= j < |done| && done[j] == p;
      if j == |done| - 1 {
        ExtendSame(parent, Last(q), x);
      } else {
        assert Before(found[j], found[|done| - 1]);
        ExtendBefore(p, parent, Last(q), x);
      }
    }
  }

  lemma EndsAppend(found: seq<Walk>, w: Walk)
    ensures Ends(found + [w]) == Ends(found) + {Last(w)}
  {
    assert forall v :: v in found + [w] <==> v in found || v == w;
  }

  /** A visited neighbour is covered: the walk found to it came no later than this extension. */
  lemma VisitedIsCovered(done: seq<Walk>, queue: seq<Walk>, told: set<Name>, x: Name)
    requires done != []
    requires forall i, j :: 0 <= i < j < |done + queue| ==> Before((done + queue)[i], (done + queue)[j])
    requires forall i :: 1 <= i < |done + queue| ==> ParentIn(done, (done + queue)[i])
    requires forall y :: y in told ==> y < x
    requires ChildrenTold(queue, done[|done| - 1], told)
    requires x in Ends(done + queue)
    ensures Covered(done + queue, done[|done| - 1] + [x])
  {
    var found := done + queue;
    var v :| v in found && Last(v) == x;
    var i :| 0 <= i < |found| && found[i] == v;
    ComesBefore(done, queue, told, x, i);
  }

  // ----- What the two loops of a search keep -----

  /** Between expansions: `visited` are the ends of the walks found, and expanded walks are covered. */
  ghost predicate Searching(graph: Graph, start: Name, depth: Depth,
                            done: seq<Walk>, queue: seq<Walk>, visited: set<Name>) {
    && Ordered(graph, start, depth, done, queue)
    && Covers(graph, depth, done, done + queue)
    && visited == Ends(done + queue)
  }

  /** While the last walk of `done` is expanded: the first `j` of its sorted neighbours are told. */
  ghost predicate Telling(graph: Graph, start: Name, depth: Depth, done: seq<Walk>, queue: seq<Walk>,
                          visited: set<Name>, sorted: seq<Name>, j: nat) {
    && j <= |sorted| && done != [] && Last(done[|done| - 1]) in graph
    && Elements(sorted) == Elements(graph[Last(done[|done| - 1])]) && StrictlyAscending(sorted)
    && Ordered(graph, start, depth, done, queue)
    && Expandable(depth, done[|done| - 1])
    && visited == Ends(done + queue)
    && Covers(graph, depth, done[..|done| - 1], done + queue)
    && ChildrenTold(queue, done[|done| - 1], Elements(sorted[..j]))
    && forall i :: 0 <= i < j && sorted[i] in graph ==> Covered(done + queue, done[|done| - 1] + [sorted[i]])
  }

  lemma StartSearch(graph: Graph, start: Name, depth: Depth)
    requires start in graph
    ensures Searching(graph, start, depth, [], [[start]], {start})
  {
    var queue: seq<Walk> := [[start]];
    assert [] + queue == queue;
    EndsAppend([], [start]);
    assert [] + [[start]] == queue;
  }

  lemma Expanding(graph: Graph, start: Name, depth: Depth, done: seq<Walk>, queue: seq<Walk>, visited: set<Name>)
    requires Searching(graph, start, depth, done, queue, visited) && queue != []
    ensures Last(queue[0]) in graph && Within(depth, queue[0])
  {
    assert (done + queue)[|done|] == queue[0];
  }

  lemma StartTelling(graph: Graph, start: Name, depth: Depth, done: seq<Walk>, queue: seq<Walk>,
                     visited: set<Name>, sorted: seq<Name>)
    requires Searching(graph, start, depth, done, queue, visited) && queue != []
    requires Last(queue[0]) in graph && Expandable(depth, queue[0])
    requires Elements(sorted) == Elements(graph[Last(queue[0])]) && StrictlyAscending(sorted)
    ensures Telling(graph, start, depth, done + [queue[0]], queue[1..], visited, sorted, 0)
  {
    PopFront(graph, start, depth, done, queue);
    assert (done + [queue[0]])[..|done|] == done;
    assert Elements(sorted[..0]) == {};
  }

  lemma {:induction false} TellNew(graph: Graph, start: Name, depth: Depth, done: seq<Walk>, queue: seq<Walk>,
                                   visited: set<Name>, sorted: seq<Name>, j: nat)
    requires Telling(graph, start, depth, done, queue, visited, sorted, j) && j < |sorted|
    requires sorted[j] in graph && sorted[j] !in visited
    ensures Telling(graph, start, depth, done, queue + [done[|done| - 1] + [sorted[j]]], visited + {sorted[j]},
                    sorted, j + 1)
  {
    var x, parent := sorted[j], done[|done| - 1];
    var more: seq<Walk> := [parent + [x]];
    assert sorted[j] in Elements(sorted);
    assert sorted[..j + 1] == sorted[..j] + [x];
    ElementsAppend(sorted[..j], x);
    Enqueue(graph, start, depth, done, queue, Elements(sorted[..j]), x);
    assert done + (queue + more) == (done + queue) + more;
    CoversGrows(graph, depth, done[..|done| - 1], done + queue, more);
    forall i | 0 <= i < j + 1 && sorted[i] in graph
      ensures Covered(done + (queue + more), parent + [sorted[i]])
    {
      if i < j {
        CoveredGrows(done + queue, more, parent + [sorted[i]]);
      } else {
        assert ((done + queue) + more)[|done + queue|] == parent + [x];
      }
    }
  }

  lemma TellOld(graph: Graph, start: Name, depth: Depth, done: seq<Walk>, queue: seq<Walk>,
                visited: set<Name>, sorted: seq<Name>, j: nat)
    requires Telling(graph, start, depth, done, queue, visited, sorted, j) && j < |sorted|
    requires sorted[j] !in graph || sorted[j] in visited
    ensures Telling(graph, start, depth, done, queue, visited, sorted, j + 1)
  {
    assert sorted[..j + 1] == sorted[..j] + [sorted[j]];
    ElementsAppend(sorted[..j], sorted[j]);
    if sorted[j] in visited {
      VisitedIsCovered(done, queue, Elements(sorted[..j]), sorted[j]);
    }
  }

  lemma StopTelling(graph: Graph, start: Name, depth: Depth, done: seq<Walk>, queue: seq<Walk>,
                    visited: set<Name>, sorted: seq<Name>)
    requires Telling(graph, start, depth, done, queue, visited, sorted, |sorted|)
    ensures Searching(graph, start, depth, done, queue, visited)
  {
    var parent := done[|done| - 1];
    forall i, x | 0 <= i < |done| && Last(done[i]) in graph && Expandable(depth, done[i]) &&
                  x in Neighbors(graph, Last(done[i]))
      ensures Covered(done + queue, done[i] + [x])
    {
      if i == |done| - 1 {
        assert x in Elements(sorted);
        var at := IndexOf(sorted, x);
      } else {
        assert done[..|done| - 1][i] == done[i];
      }
    }
  }

  /** A walk as long as the depth allows is not expanded. */
  lemma {:induction false} SkipTelling(graph: Graph, start: Name, depth: Depth, done: seq<Walk>, queue: seq<Walk>,
                                       visited: set<Name>)
    requires Searching(graph, start, depth, done, queue, visited) && queue != []
    requires !Expandable(depth, queue[0])
    ensures Searching(graph, start, depth, done + [queue[0]], queue[1..], visited)
  {
    PopFront(graph, start, depth, done, queue);
  }

  /** A walk popped is one more node expanded, so the search ends even where the graph is cyclic. */
  lemma OneMoreEnd(graph: Graph, start: Name, depth: Depth, done: seq<Walk>, queue: seq<Walk>)
    requires Ordered(graph, start, depth, done, queue) && queue != []
    ensures Ends(done + [queue[0]]) == Ends(done) + {Last(queue[0])}
    ensures Last(queue[0]) in graph.Keys - Ends(done)
  {
    PopFront(graph, start, depth, done, queue);
    EndsAppend(done, queue[0]);
    assert (done + queue)[|done|] == queue[0];
  }
}
