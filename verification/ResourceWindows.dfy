/** `allocate_resource_windows`: why testing capacity at boundary points only is enough, and what
    exactly is accepted. */
module ResourceWindows {
  import opened Wrappers
  import opened Collections

  /** An identifier stands for its rank among strings; the empty string is the least of all. */
  type Id = nat
  const EMPTY: Id := 0

  /** A half-open interval of time and the units it asks for. */
  datatype Request = Request(id: Id, start: int, end: int, units: int) {
    predicate Covers(t: real) {
      start as real <= t < end as real
    }

    predicate WellFormed() {
      start < end && 0 < units
    }
  }

  datatype AllocationError = InvalidCapacity | InvalidId | InvalidInterval

  // ----- The order of processing -----

  predicate KeyAtMost(a: Request, b: Request) {
    || a.start < b.start
    || (a.start == b.start && a.end < b.end)
    || (a.start == b.start && a.end == b.end && a.id <= b.id)
  }

  function Insert(sorted: seq<Request>, r: Request): (s: seq<Request>)
    ensures |s| == |sorted| + 1
  {
    if sorted == [] || KeyAtMost(sorted[|sorted| - 1], r) then sorted + [r]
    else Insert(sorted[..|sorted| - 1], r) + [sorted[|sorted| - 1]]
  }

  ghost predicate IsSorted(s: seq<Request>) {
    forall i, j :: 0 <= i < j < |s| ==> KeyAtMost(s[i], s[j])
  }

  /** `sorted(requests, key=(start, end, id))`. */
  function Sorted(requests: seq<Request>): (s: seq<Request>)
    ensures |s| == |requests|
  {
    if requests == [] then [] else Insert(Sorted(requests[..|requests| - 1]), requests[|requests| - 1])
  }

  lemma {:induction false} InsertPermutes(sorted: seq<Request>, r: Request)
    ensures multiset(Insert(sorted, r)) == multiset(sorted) + multiset{r}
  {
    if sorted != [] && !KeyAtMost(sorted[|sorted| - 1], r) {
      InsertPermutes(sorted[..|sorted| - 1], r);
      assert sorted == sorted[..|sorted| - 1] + [sorted[|sorted| - 1]];
    }
  }

  lemma {:induction false} InsertSorts(sorted: seq<Request>, r: Request, bound: Request)
    requires IsSorted(sorted)
    requires KeyAtMost(r, bound) && forall i :: 0 <= i < |sorted| ==> KeyAtMost(sorted[i], bound)
    ensures IsSorted(Insert(sorted, r))
    ensures forall i :: 0 <= i < |Insert(sorted, r)| ==> KeyAtMost(Insert(sorted, r)[i], bound)
  {
    if sorted != [] && !KeyAtMost(sorted[|sorted| - 1], r) {
      InsertSorts(sorted[..|sorted| - 1], r, sorted[|sorted| - 1]);
    }
  }

  /** Sorting gives a permutation in order of start, then end, then identifier. */
  lemma {:induction false} SortedIsSorted(requests: seq<Request>)
    ensures multiset(Sorted(requests)) == multiset(requests) && IsSorted(Sorted(requests))
    ensures
      var s := Sorted(requests);
      forall i, j :: 0 <= i < j < |s| ==>
        || s[i].start < s[j].start
        || (s[i].start == s[j].start && s[i].end < s[j].end)
        || (s[i].start == s[j].start && s[i].end == s[j].end && s[i].id <= s[j].id)
  {
    if requests != [] {
      var front, last := requests[..|requests| - 1], requests[|requests| - 1];
      SortedIsSorted(front);
      InsertPermutes(Sorted(front), last);
      MultisetFront(requests);
      InsertKeepsSorted(Sorted(front), last);
    }
  }

  lemma InsertKeepsSorted(sorted: seq<Request>, r: Request)
    requires IsSorted(sorted)
    ensures IsSorted(Insert(sorted, r))
  {
    if sorted != [] {
      InsertSorts(sorted, r, if KeyAtMost(sorted[|sorted| - 1], r) then r else sorted[|sorted| - 1]);
    }
  }

  ghost predicate DistinctIds(s: seq<Request>) {
    forall i, j :: 0 <= i < j < |s| ==> s[i].id != s[j].id
  }

  /** Where identifiers differ there is one sorted order, so the answer does not depend on the order
      in which requests are given. */
  lemma {:induction false} SortedIsUnique(a: seq<Request>, b: seq<Request>)
    requires IsSorted(a) && IsSorted(b) && multiset(a) == multiset(b) && DistinctIds(a)
    ensures a == b
  {
    SameSize(a, b);
    if a != [] {
      SameLast(a, b);
      SameFront(a, b);
      SortedIsUnique(a[..|a| - 1], b[..|b| - 1]);
      assert a == a[..|a| - 1] + [a[|a| - 1]] && b == b[..|b| - 1] + [b[|b| - 1]];
    }
  }

  lemma SameFront(a: seq<Request>, b: seq<Request>)
    requires a != [] && b != [] && IsSorted(a) && IsSorted(b) && multiset(a) == multiset(b) && DistinctIds(a)
    requires a[|a| - 1] == b[|b| - 1]
    ensures
      var frontA, frontB := a[..|a| - 1], b[..|b| - 1];
      IsSorted(frontA) && IsSorted(frontB) && multiset(frontA) == multiset(frontB) && DistinctIds(frontA)
  {
    MultisetFront(a);
    MultisetFront(b);
  }

  lemma SameSize(a: seq<Request>, b: seq<Request>)
    requires multiset(a) == multiset(b)
    ensures |a| == |b|
  {
    assert |a| == |multiset(a)| == |multiset(b)| == |b|;
  }

  lemma SameLast(a: seq<Request>, b: seq<Request>)
    requires a != [] && b != [] && IsSorted(a) && IsSorted(b) && multiset(a) == multiset(b)
    requires DistinctIds(a)
    ensures a[|a| - 1] == b[|b| - 1]
  {
    var x, y := a[|a| - 1], b[|b| - 1];
    assert x in multiset(b) && y in multiset(a);
    var i :| 0 <= i < |b| && b[i] == x;
    var j :| 0 <= j < |a| && a[j] == y;
    assert i < |b| - 1 ==> KeyAtMost(b[i], y);
    assert j < |a| - 1 ==> KeyAtMost(a[j], x);
  }

  // ----- Specification -----

  /** Units in use at an instant. */
  function Load(accepted: seq<Request>, t: real): int {
    if accepted == [] then 0
    else
      var last := accepted[|accepted| - 1];
      Load(accepted[..|accepted| - 1], t) + if last.Covers(t) then last.units else 0
  }

  /** Adding `r` stays within capacity at every instant. */
  ghost predicate Fits(accepted: seq<Request>, r: Request, capacity: int) {
    forall t: real :: r.Covers(t) ==> Load(accepted, t) + r.units <= capacity
  }

  /** Of the first `n` requests, in order, those that fit with the ones accepted before them. */
  ghost function Accepted(requests: seq<Request>, capacity: int, n: nat): seq<Request>
    requires n <= |requests|
  {
    if n == 0 then []
    else
      var before := Accepted(requests, capacity, n - 1);
      if Fits(before, requests[n - 1], capacity) then before + [requests[n - 1]] else before
  }

  ghost predicate IdTaken(requests: seq<Request>, i: nat)
    requires i < |requests|
  {
    exists j :: 0 <= j < i && requests[j].id == requests[i].id
  }

  /** What is wrong with a request, given the ones before it. */
  ghost function Problem(requests: seq<Request>, i: nat): Option<AllocationError>
    requires i < |requests|
  {
    if requests[i].id == EMPTY || IdTaken(requests, i) then Some(InvalidId)
    else if !requests[i].WellFormed() then Some(InvalidInterval)
    else None
  }

  /** In the order of processing: an identifier that is empty or was there before comes before an interval that
      is empty or asks for nothing. */
  lemma ProblemExactly(requests: seq<Request>, i: nat)
    requires i < |requests|
    ensures
      var r := requests[i];
      var badId := r.id == 0 || exists j :: 0 <= j < i && requests[j].id == r.id;
      var badInterval := r.end <= r.start || r.units <= 0;
      && (Problem(requests, i) == Some(InvalidId) <==> badId)
      && (Problem(requests, i) == Some(InvalidInterval) <==> !badId && badInterval)
      && (Problem(requests, i) == None <==> !badId && !badInterval)
  {
  }

  /** The load is the sum over the intervals that hold the instant, their start included and their end not. */
  lemma LoadAdds(accepted: seq<Request>, r: Request, t: real)
    ensures Load([], t) == 0
    ensures Load(accepted + [r], t) ==
      Load(accepted, t) + if r.start as real <= t && t < r.end as real then r.units else 0
  {
    assert (accepted + [r])[..|accepted|] == accepted;
  }

  ghost predicate NoProblem(requests: seq<Request>, n: nat)
    requires n <= |requests|
  {
    forall i :: 0 <= i < n ==> Problem(requests, i) == None
  }

  // ----- Program -----

  method AllocateResourceWindows(requests: seq<Request>, capacity: int)
    returns (r: Result<seq<Id>, AllocationError>, ghost accepted: seq<Request>)
    ensures r == Err(InvalidCapacity) <==> capacity <= 0
    ensures r.Ok? ==>
      NoProblem(Sorted(requests), |requests|) && accepted == Accepted(Sorted(requests), capacity, |requests|) &&
      |r.value| == |accepted| && forall i :: 0 <= i < |accepted| ==> r.value[i] == accepted[i].id
    ensures r.Err? && r.error != InvalidCapacity ==>
      exists i :: 0 <= i < |requests| && NoProblem(Sorted(requests), i) && Problem(Sorted(requests), i) == Some(r.error)
  {
    accepted := [];
    if capacity <= 0 {
      return Err(InvalidCapacity), accepted;
    }
    var sorted := Sorted(requests);
    var seen := {};
    var kept := [];
    for i := 0 to |sorted|
      invariant NoProblem(sorted, i)
      invariant forall id :: id in seen <==> exists j :: 0 <= j < i && sorted[j].id == id
      invariant kept == Accepted(sorted, capacity, i)
    {
      var request := sorted[i];
      if request.id in seen || request.id == EMPTY {
        return Err(InvalidId), accepted;
      }
      if !request.WellFormed() {
        return Err(InvalidInterval), accepted;
      }
      seen := seen + {request.id};
      var safe := IsSafe(kept, request, capacity);
      if safe {
        kept := kept + [request];
      }
    }
    accepted := kept;
    return Ok(seq(|kept|, i requires 0 <= i < |kept| => kept[i].id)), accepted;
  }

  /** The inner loop: capacity is tested where some interval starts or ends, and nowhere else. */
  method IsSafe(accepted: seq<Request>, request: Request, capacity: int) returns (safe: bool)
    requires request.WellFormed()
    ensures safe <==> Fits(accepted, request, capacity)
  {
    var points := Boundaries(accepted) + {request.start, request.end};
    var boundaries := SortedElements(points);
    safe := true;
    for k := 0 to |boundaries|
      invariant forall j :: 0 <= j < k && request.Covers(boundaries[j] as real) ==>
        Load(accepted, boundaries[j] as real) + request.units <= capacity
    {
      var point := boundaries[k] as real;
      if request.Covers(point) {
        var used := Load(accepted, point);
        if used + request.units > capacity {
          return false;
        }
      }
    }
    forall b | b in points && request.Covers(b as real)
      ensures Load(accepted, b as real) + request.units <= capacity
    {
      assert b in Elements(boundaries);
      var j := IndexOf(boundaries, b);
    }
    BoundariesSuffice(accepted, request, capacity);
  }

  function Boundaries(accepted: seq<Request>): set<int> {
    (set r | r in accepted :: r.start) + (set r | r in accepted :: r.end)
  }

  // ----- Why boundaries suffice -----

  /** The greatest of some points that is no later than an instant. */
  lemma {:induction false} LatestPoint(points: set<int>, t: real, some: int) returns (b: int)
    requires some in points && some as real <= t
    ensures b in points && b as real <= t
    ensures forall p :: p in points && p as real <= t ==> p <= b
    decreases |points|
  {
    var rest := points - {some};
    if next :| next in rest && next as real <= t {
      var c := LatestPoint(rest, t, next);
      b := if some <= c then c else some;
      assert forall p :: p in points ==> p == some || p in rest;
    } else {
      b := some;
      assert forall p :: p in points ==> p == some || p in rest;
    }
  }

  /** The load is the same at two instants with no start or end between them. */
  lemma {:induction false} LoadIsConstant(accepted: seq<Request>, b: int, t: real)
    requires b as real <= t
    requires forall p :: p in Boundaries(accepted) && p as real <= t ==> p <= b
    ensures Load(accepted, t) == Load(accepted, b as real)
  {
    if accepted != [] {
      var front, last := accepted[..|accepted| - 1], accepted[|accepted| - 1];
      assert last in accepted;
      assert last.start in Boundaries(accepted) && last.end in Boundaries(accepted);
      forall p | p in Boundaries(front)
        ensures p in Boundaries(accepted)
      {
      }
      LoadIsConstant(front, b, t);
    }
  }

  lemma {:induction false} BoundariesSuffice(accepted: seq<Request>, request: Request, capacity: int)
    requires forall b :: b in Boundaries(accepted) + {request.start, request.end} && request.Covers(b as real) ==>
      Load(accepted, b as real) + request.units <= capacity
    ensures Fits(accepted, request, capacity)
  {
    var points := Boundaries(accepted) + {request.start, request.end};
    forall t: real | request.Covers(t)
      ensures Load(accepted, t) + request.units <= capacity
    {
      var b := LatestPoint(points, t, request.start);
      LoadIsConstant(accepted, b, t);
    }
  }

  // ----- What is accepted -----

  /** At no instant do the accepted intervals use more than the capacity. */
  lemma {:induction false} NeverOverCapacity(requests: seq<Request>, capacity: int, n: nat, t: real)
    requires n <= |requests| && 0 <= capacity
    ensures Load(Accepted(requests, capacity, n), t) <= capacity
  {
    if n > 0 {
      NeverOverCapacity(requests, capacity, n - 1, t);
      var before := Accepted(requests, capacity, n - 1);
      assert (before + [requests[n - 1]])[..|before|] == before;
    }
  }

  lemma {:induction false} AcceptedAreEarlier(requests: seq<Request>, capacity: int, n: nat)
    requires n <= |requests|
    ensures forall r :: r in Accepted(requests, capacity, n) ==> exists j :: 0 <= j < n && requests[j] == r
  {
    if n > 0 {
      AcceptedAreEarlier(requests, capacity, n - 1);
    }
  }

  /** A request is turned away exactly when, with those accepted before it, the capacity would be
      exceeded at some instant it covers. */
  lemma {:induction false} RejectedIffOverload(requests: seq<Request>, capacity: int, i: nat, n: nat)
    requires i < n <= |requests| && NoProblem(requests, |requests|)
    ensures requests[i] !in Accepted(requests, capacity, n) <==>
      exists t: real :: requests[i].Covers(t) && Load(Accepted(requests, capacity, i), t) + requests[i].units > capacity
    decreases n
  {
    if i < n - 1 {
      RejectedIffOverload(requests, capacity, i, n - 1);
      assert Problem(requests, n - 1) == None;
      assert requests[n - 1] != requests[i];
    } else {
      AcceptedAreEarlier(requests, capacity, i);
      assert Problem(requests, i) == None;
      assert forall j :: 0 <= j < i ==> requests[j] != requests[i];
      assert requests[i] !in Accepted(requests, capacity, i);
    }
  }
}
