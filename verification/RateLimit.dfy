/** `rate_limit_decisions`: a sliding window per tenant, why no window overflows, and why no
    other admission policy admits more. */
module RateLimit {
  import opened Wrappers
  import opened Names

  type Tenant = Name

  datatype Event = Event(timestamp: int, tenant: Tenant)

  datatype LimitError = InvalidLimits | UnorderedEvents

  // ----- Specification -----

  /** The first `n` events come in order of time. */
  ghost predicate OrderedUpTo(events: seq<Event>, n: nat)
    requires n <= |events|
  {
    forall i, j :: 0 <= i < j < n ==> events[i].timestamp <= events[j].timestamp
  }

  ghost predicate Ordered(events: seq<Event>) {
    OrderedUpTo(events, |events|)
  }

  ghost predicate Counts(events: seq<Event>, admitted: seq<bool>, tenant: Tenant, window: int, until: int, i: nat)
    requires i < |events| && i < |admitted|
  {
    admitted[i] && events[i].tenant == tenant && until - window < events[i].timestamp <= until
  }

  /** Admitted events of `tenant` with `until - window < timestamp <= until` among the first `n`. */
  ghost function Admitted(events: seq<Event>, admitted: seq<bool>, tenant: Tenant, window: int, until: int, n: nat): nat
    requires n <= |events| && n <= |admitted|
  {
    if n == 0 then 0
    else Admitted(events, admitted, tenant, window, until, n - 1) +
         if Counts(events, admitted, tenant, window, until, n - 1) then 1 else 0
  }

  /** All admitted events of `tenant` among the first `n`. */
  ghost function Total(events: seq<Event>, admitted: seq<bool>, tenant: Tenant, n: nat): nat
    requires n <= |events| && n <= |admitted|
  {
    if n == 0 then 0
    else Total(events, admitted, tenant, n - 1) +
         if admitted[n - 1] && events[n - 1].tenant == tenant then 1 else 0
  }

  /** No tenant has more than `limit` admitted events in any half-open window of the given length. */
  ghost predicate Feasible(events: seq<Event>, admitted: seq<bool>, limit: int, window: int) {
    && |admitted| == |events|
    && forall tenant, until ::
      Admitted(events, admitted, tenant, window, until, |events|) <= limit
  }

  /** Each event is admitted exactly when its tenant's window, at that moment, has room. */
  ghost predicate IsGreedy(events: seq<Event>, admitted: seq<bool>, limit: int, window: int) {
    && |admitted| <= |events|
    && forall i {:trigger HasRoom(events, admitted, limit, window, i)} :: 0 <= i < |admitted| ==>
      (admitted[i] <==> HasRoom(events, admitted, limit, window, i))
  }

  ghost predicate HasRoom(events: seq<Event>, admitted: seq<bool>, limit: int, window: int, i: nat)
    requires i < |events| && i <= |admitted|
  {
    var e := events[i];
    Admitted(events, admitted, e.tenant, window, e.timestamp, i) < limit
  }

  /** The timestamps of the admitted events of `tenant` among the first `n`. */
  ghost function History(events: seq<Event>, admitted: seq<bool>, tenant: Tenant, n: nat): seq<int>
    requires n <= |events| && n <= |admitted|
  {
    if n == 0 then []
    else History(events, admitted, tenant, n - 1) +
         if admitted[n - 1] && events[n - 1].tenant == tenant then [events[n - 1].timestamp] else []
  }

  // ----- Program -----

  method RateLimitDecisions(events: seq<Event>, limit: int, windowSeconds: int)
    returns (r: Result<seq<bool>, LimitError>)
    ensures r == Err(InvalidLimits) <==> limit <= 0 || windowSeconds <= 0
    ensures r == Err(UnorderedEvents) <==>
      && 0 < limit && 0 < windowSeconds
      && exists i, j :: 0 <= i < j < |events| && events[i].timestamp > events[j].timestamp
    ensures r.Ok? ==> |r.value| == |events| && IsGreedy(events, r.value, limit, windowSeconds)
  {
    if limit <= 0 || windowSeconds <= 0 {
      return Err(InvalidLimits);
    }
    var queues: map<Tenant, seq<int>> := map[];
    ghost var gone: map<Tenant, nat> := map[];
    var output: seq<bool> := [];
    var previous: Option<int> := None;
    for i := 0 to |events|
      invariant |output| == i && OrderedUpTo(events, i)
      invariant previous == if i == 0 then None else Some(events[i - 1].timestamp)
      invariant IsGreedy(events, output, limit, windowSeconds)
      invariant AllTracked(events, output, windowSeconds, queues, gone)
    {
      var event := events[i];
      if previous.Some? && event.timestamp < previous.value {
        return Err(UnorderedEvents);
      }
      previous := Some(event.timestamp);
      assert OrderedUpTo(events, i + 1);
      OneTracked(events, output, windowSeconds, queues, gone, event.tenant);
      var allowed, queue, dropped := Decide(event, limit, windowSeconds, Queue(queues, event.tenant), events, output,
                                            Gone(gone, event.tenant));
      StillTracked(events, output, windowSeconds, queues, gone, queue, dropped, allowed);
      queues := queues[event.tenant := queue];
      gone := gone[event.tenant := dropped];
      output := output + [allowed];
    }
    return Ok(output);
  }

  /** The queue of a tenant; one that has none yet has an empty one. */
  function Queue(queues: map<Tenant, seq<int>>, tenant: Tenant): seq<int> {
    if tenant in queues then queues[tenant] else []
  }

  ghost function Gone(gone: map<Tenant, nat>, tenant: Tenant): nat {
    if tenant in gone then gone[tenant] else 0
  }

  /** The first `k` times of a history are no later than `cut`, and all the others are. */
  ghost predicate SplitsAt(history: seq<int>, k: nat, cut: int) {
    && k <= |history|
    && (forall i :: 0 <= i < k ==> history[i] <= cut)
    && (forall i :: k <= i < |history| ==> cut < history[i])
  }

  /** A queue is its tenant's whole history of admitted events but for some that had expired. */
  ghost predicate Tracks(queue: seq<int>, history: seq<int>, gone: nat, expired: int) {
    && gone <= |history| && queue == history[gone..]
    && forall i :: 0 <= i < gone ==> history[i] <= expired
  }

  /** What had expired at the latest of the first `n` events. */
  ghost function Horizon(events: seq<Event>, window: int, n: nat): int
    requires n <= |events|
  {
    if n == 0 then 0 else events[n - 1].timestamp - window
  }

  ghost predicate Tracked(events: seq<Event>, admitted: seq<bool>, window: int, queues: map<Tenant, seq<int>>,
                          gone: map<Tenant, nat>, tenant: Tenant, n: nat)
    requires n <= |events| && n <= |admitted|
  {
    Tracks(Queue(queues, tenant), History(events, admitted, tenant, n), Gone(gone, tenant), Horizon(events, window, n))
  }

  ghost predicate AllTracked(events: seq<Event>, admitted: seq<bool>, window: int, queues: map<Tenant, seq<int>>,
                             gone: map<Tenant, nat>)
    requires |admitted| <= |events|
  {
    forall tenant :: Tracked(events, admitted, window, queues, gone, tenant, |admitted|)
  }

  /** The decision on one event, taken on the unexpired part of everything of its tenant's ever
      admitted, which with the event itself, if admitted, is the queue left behind. */
  method Decide(event: Event, limit: int, windowSeconds: int, queue0: seq<int>,
                ghost events: seq<Event>, ghost admitted: seq<bool>, ghost gone: nat)
    returns (allowed: bool, queue: seq<int>, ghost dropped: nat)
    requires |admitted| < |events| && events[|admitted|] == event
    requires OrderedUpTo(events, |admitted| + 1)
    requires IsGreedy(events, admitted, limit, windowSeconds)
    requires Tracks(queue0, History(events, admitted, event.tenant, |admitted|), gone,
                    Horizon(events, windowSeconds, |admitted|))
    ensures IsGreedy(events, admitted + [allowed], limit, windowSeconds)
    ensures
      var history := History(events, admitted, event.tenant, |admitted|);
      && SplitsAt(history, dropped, event.timestamp - windowSeconds)
      && queue == history[dropped..] + if allowed then [event.timestamp] else []
  {
    ghost var n, history := |admitted|, History(events, admitted, event.tenant, |admitted|);
    HistoryAscends(events, admitted, event.tenant, n, event.timestamp);
    var d := Prune(queue0, event.timestamp - windowSeconds);
    dropped := gone + d;
    PrunedIsUnexpired(history, gone, d, Horizon(events, windowSeconds, n), event.timestamp - windowSeconds);
    queue := queue0[d..];
    assert queue == history[dropped..];
    allowed := |queue| < limit;
    WindowCount(events, admitted, event.tenant, windowSeconds, event.timestamp, n, dropped);
    DecisionIsGreedy(events, admitted, limit, windowSeconds, allowed);
    if allowed {
      queue := queue + [event.timestamp];
    }
  }

  /** The inner loop: how many entries at the front have expired. */
  method Prune(queue: seq<int>, expired: int) returns (d: nat)
    ensures d <= |queue|
    ensures forall i :: 0 <= i < d ==> queue[i] <= expired
    ensures d < |queue| ==> expired < queue[d]
  {
    d := 0;
    while d < |queue| && queue[d] <= expired
      invariant d <= |queue|
      invariant forall i :: 0 <= i < d ==> queue[i] <= expired
    {
      d := d + 1;
    }
  }

  ghost predicate Ascending(s: seq<int>) {
    forall i, j :: 0 <= i < j < |s| ==> s[i] <= s[j]
  }

  // ----- Proofs about the program -----

  lemma OneTracked(events: seq<Event>, admitted: seq<bool>, window: int, queues: map<Tenant, seq<int>>,
                   gone: map<Tenant, nat>, tenant: Tenant)
    requires |admitted| <= |events| && AllTracked(events, admitted, window, queues, gone)
    ensures Tracked(events, admitted, window, queues, gone, tenant, |admitted|)
  {
  }

  /** Pruning a queue leaves the unexpired part of the whole history. */
  lemma PrunedIsUnexpired(history: seq<int>, gone: nat, d: nat, horizon: int, expired: int)
    requires Ascending(history) && gone + d <= |history|
    requires gone > 0 ==> horizon <= expired
    requires forall i :: 0 <= i < gone ==> history[i] <= horizon
    requires forall i :: 0 <= i < d ==> history[gone..][i] <= expired
    requires gone + d < |history| ==> expired < history[gone..][d]
    ensures SplitsAt(history, gone + d, expired)
  {
    forall i | gone <= i < gone + d
      ensures history[i] <= expired
    {
      assert history[gone..][i - gone] == history[i];
    }
  }

  /** The unexpired part of a history is as long as the window is full. */
  lemma {:induction false} WindowCount(events: seq<Event>, admitted: seq<bool>, tenant: Tenant, window: int,
                                       until: int, n: nat, k: nat)
    requires n <= |events| && n <= |admitted|
    requires forall i :: 0 <= i < n ==> events[i].timestamp <= until
    requires SplitsAt(History(events, admitted, tenant, n), k, until - window)
    ensures |History(events, admitted, tenant, n)| - k == Admitted(events, admitted, tenant, window, until, n)
  {
    if n > 0 {
      var history, before := History(events, admitted, tenant, n), History(events, admitted, tenant, n - 1);
      assert before == history[..|before|];
      assert forall i :: 0 <= i < |before| ==> before[i] == history[i];
      assert |history| > |before| ==> history[|before|] == events[n - 1].timestamp;
      WindowCount(events, admitted, tenant, window, until, n - 1, if k <= |before| then k else k - 1);
    }
  }

  lemma {:induction false} SameDecisions(events: seq<Event>, a: seq<bool>, b: seq<bool>, tenant: Tenant, window: int,
                                         until: int, n: nat)
    requires n <= |events| && n <= |a| && n <= |b|
    requires forall i :: 0 <= i < n ==> a[i] == b[i]
    ensures Admitted(events, a, tenant, window, until, n) == Admitted(events, b, tenant, window, until, n)
    ensures History(events, a, tenant, n) == History(events, b, tenant, n)
  {
    if n > 0 {
      SameDecisions(events, a, b, tenant, window, until, n - 1);
    }
  }

  lemma DecisionIsGreedy(events: seq<Event>, admitted: seq<bool>, limit: int, window: int, allowed: bool)
    requires |admitted| < |events| && IsGreedy(events, admitted, limit, window)
    requires allowed <==> HasRoom(events, admitted, limit, window, |admitted|)
    ensures IsGreedy(events, admitted + [allowed], limit, window)
  {
    var n, next := |admitted|, admitted + [allowed];
    forall i | 0 <= i < |next|
      ensures next[i] <==> HasRoom(events, next, limit, window, i)
    {
      SameDecisions(events, admitted, next, events[i].tenant, window, events[i].timestamp, i);
      assert i < n ==> (admitted[i] <==> HasRoom(events, admitted, limit, window, i));
    }
  }

  lemma {:induction false} StillTracked(events: seq<Event>, admitted: seq<bool>, window: int,
                                        queues: map<Tenant, seq<int>>, gone: map<Tenant, nat>, queue: seq<int>,
                                        dropped: nat, allowed: bool)
    requires |admitted| < |events| && OrderedUpTo(events, |admitted| + 1)
    requires AllTracked(events, admitted, window, queues, gone)
    requires
      var e := events[|admitted|];
      var history := History(events, admitted, e.tenant, |admitted|);
      && SplitsAt(history, dropped, e.timestamp - window)
      && queue == history[dropped..] + if allowed then [e.timestamp] else []
    ensures
      var e := events[|admitted|];
      AllTracked(events, admitted + [allowed], window, queues[e.tenant := queue], gone[e.tenant := dropped])
  {
    var decided, e := admitted + [allowed], events[|admitted|];
    var next, newGone := queues[e.tenant := queue], gone[e.tenant := dropped];
    forall tenant
      ensures Tracked(events, decided, window, next, newGone, tenant, |decided|)
    {
      OneTracked(events, admitted, window, queues, gone, tenant);
      TenantStillTracked(events, admitted, window, queues, gone, queue, dropped, allowed, tenant);
    }
  }

  lemma {:induction false} TenantStillTracked(events: seq<Event>, admitted: seq<bool>, window: int,
                                              queues: map<Tenant, seq<int>>, gone: map<Tenant, nat>, queue: seq<int>,
                                              dropped: nat, allowed: bool, tenant: Tenant)
    requires |admitted| < |events| && OrderedUpTo(events, |admitted| + 1)
    requires Tracked(events, admitted, window, queues, gone, tenant, |admitted|)
    requires
      var e := events[|admitted|];
      var history := History(events, admitted, e.tenant, |admitted|);
      && SplitsAt(history, dropped, e.timestamp - window)
      && queue == history[dropped..] + if allowed then [e.timestamp] else []
    ensures
      var e := events[|admitted|];
      Tracked(events, admitted + [allowed], window, queues[e.tenant := queue], gone[e.tenant := dropped], tenant,
              |admitted| + 1)
  {
    if tenant == events[|admitted|].tenant {
      OwnStillTracked(events, admitted, window, queue, dropped, allowed);
    } else {
      OtherStillTracked(events, admitted, window, Queue(queues, tenant), Gone(gone, tenant), allowed, tenant);
    }
  }

  lemma {:induction false} OwnStillTracked(events: seq<Event>, admitted: seq<bool>, window: int, queue: seq<int>,
                                           dropped: nat, allowed: bool)
    requires |admitted| < |events|
    requires
      var e := events[|admitted|];
      var history := History(events, admitted, e.tenant, |admitted|);
      && SplitsAt(history, dropped, e.timestamp - window)
      && queue == history[dropped..] + if allowed then [e.timestamp] else []
    ensures
      var e := events[|admitted|];
      Tracks(queue, History(events, admitted + [allowed], e.tenant, |admitted| + 1), dropped, e.timestamp - window)
  {
    var e := events[|admitted|];
    HistoryGrows(events, admitted, admitted + [allowed], e.tenant);
    StillTracks(History(events, admitted, e.tenant, |admitted|), dropped, e.timestamp - window,
                if allowed then [e.timestamp] else []);
  }

  lemma {:induction false} OtherStillTracked(events: seq<Event>, admitted: seq<bool>, window: int, queue: seq<int>,
                                             gone: nat, allowed: bool, tenant: Tenant)
    requires |admitted| < |events| && OrderedUpTo(events, |admitted| + 1)
    requires events[|admitted|].tenant != tenant
    requires Tracks(queue, History(events, admitted, tenant, |admitted|), gone, Horizon(events, window, |admitted|))
    ensures Tracks(queue, History(events, admitted + [allowed], tenant, |admitted| + 1), gone,
                   events[|admitted|].timestamp - window)
  {
    HistoryGrows(events, admitted, admitted + [allowed], tenant);
    OthersStillTrack(queue, History(events, admitted, tenant, |admitted|), gone, Horizon(events, window, |admitted|),
                     events[|admitted|].timestamp - window);
  }

  lemma StillTracks(history: seq<int>, dropped: nat, expired: int, more: seq<int>)
    requires SplitsAt(history, dropped, expired)
    ensures Tracks(history[dropped..] + more, history + more, dropped, expired)
  {
  }

  lemma OthersStillTrack(queue: seq<int>, history: seq<int>, gone: nat, before: int, expired: int)
    requires Tracks(queue, history, gone, before) && (gone > 0 ==> before <= expired)
    ensures Tracks(queue, history + [], gone, expired)
  {
    assert history + [] == history;
  }

  lemma HistoryGrows(events: seq<Event>, admitted: seq<bool>, decided: seq<bool>, tenant: Tenant)
    requires |admitted| < |events| && |decided| == |admitted| + 1
    requires forall i :: 0 <= i < |admitted| ==> decided[i] == admitted[i]
    ensures
      var n := |admitted|;
      History(events, decided, tenant, n + 1) == History(events, admitted, tenant, n) +
        if decided[n] && events[n].tenant == tenant then [events[n].timestamp] else []
  {
    SameDecisions(events, admitted, decided, tenant, 0, 0, |admitted|);
  }

  lemma {:induction false} HistoryAscends(events: seq<Event>, admitted: seq<bool>, tenant: Tenant, n: nat, until: int)
    requires n <= |events| && n <= |admitted| && OrderedUpTo(events, n)
    requires forall i :: 0 <= i < n ==> events[i].timestamp <= until
    ensures Ascending(History(events, admitted, tenant, n))
    ensures forall i :: 0 <= i < |History(events, admitted, tenant, n)| ==>
      History(events, admitted, tenant, n)[i] <= until
  {
    if n > 0 {
      HistoryAscends(events, admitted, tenant, n - 1, events[n - 1].timestamp);
    }
  }

  // ----- Safety and optimality -----

  /** The decisions are determined by the events and the limits. */
  lemma {:induction false} GreedyIsUnique(events: seq<Event>, a: seq<bool>, b: seq<bool>, limit: int, window: int,
                                          n: nat)
    requires n <= |events| && n <= |a| && n <= |b|
    requires IsGreedy(events, a, limit, window) && IsGreedy(events, b, limit, window)
    ensures forall i :: 0 <= i < n ==> a[i] == b[i]
  {
    if n > 0 {
      GreedyIsUnique(events, a, b, limit, window, n - 1);
      var e := events[n - 1];
      SameDecisions(events, a, b, e.tenant, window, e.timestamp, n - 1);
      assert a[n - 1] <==> HasRoom(events, a, limit, window, n - 1);
      assert b[n - 1] <==> HasRoom(events, b, limit, window, n - 1);
    }
  }

  /** A window that ends earlier counts no less among events that all fit before its end. */
  lemma {:induction false} ShiftWindow(events: seq<Event>, admitted: seq<bool>, tenant: Tenant, window: int, s: int,
                                       until: int, n: nat)
    requires n <= |events| && n <= |admitted| && s <= until
    requires forall i :: 0 <= i < n ==> events[i].timestamp <= s
    ensures Admitted(events, admitted, tenant, window, until, n) <= Admitted(events, admitted, tenant, window, s, n)
  {
    if n > 0 {
      ShiftWindow(events, admitted, tenant, window, s, until, n - 1);
    }
  }

  /** No window of any tenant ever holds more admitted events than the limit. */
  lemma {:induction false} GreedyFitsWindow(events: seq<Event>, admitted: seq<bool>, limit: int, window: int,
                                            tenant: Tenant, until: int, n: nat)
    requires Ordered(events) && IsGreedy(events, admitted, limit, window)
    requires n <= |admitted| && 0 <= limit
    ensures Admitted(events, admitted, tenant, window, until, n) <= limit
  {
    if n > 0 {
      GreedyFitsWindow(events, admitted, limit, window, tenant, until, n - 1);
      var e := events[n - 1];
      if Counts(events, admitted, tenant, window, until, n - 1) {
        assert HasRoom(events, admitted, limit, window, n - 1);
        ShiftWindow(events, admitted, tenant, window, e.timestamp, until, n - 1);
      }
    }
  }

  lemma GreedyIsFeasible(events: seq<Event>, admitted: seq<bool>, limit: int, window: int)
    requires Ordered(events) && |admitted| == |events| && 0 <= limit
    requires IsGreedy(events, admitted, limit, window)
    ensures Feasible(events, admitted, limit, window)
  {
    forall tenant, until
      ensures Admitted(events, admitted, tenant, window, until, |events|) <= limit
    {
      GreedyFitsWindow(events, admitted, limit, window, tenant, until, |events|);
    }
  }

  /** How many of the first `n` events are no later than `after`. */
  ghost function Expired(events: seq<Event>, after: int, n: nat): (m: nat)
    requires n <= |events|
    ensures m <= n
    ensures m > 0 ==> events[m - 1].timestamp <= after
    ensures forall i :: m <= i < n ==> after < events[i].timestamp
  {
    if n == 0 then 0 else if events[n - 1].timestamp <= after then n else Expired(events, after, n - 1)
  }

  /** A tenant's total splits into what had expired and what its window still counts. */
  lemma {:induction false} TotalSplits(events: seq<Event>, admitted: seq<bool>, tenant: Tenant, window: int,
                                       until: int, m: nat, n: nat)
    requires m <= n <= |events| && n <= |admitted|
    requires forall i :: 0 <= i < m ==> events[i].timestamp <= until - window
    requires forall i :: m <= i < n ==> until - window < events[i].timestamp <= until
    ensures Total(events, admitted, tenant, n) ==
      Total(events, admitted, tenant, m) + Admitted(events, admitted, tenant, window, until, n)
  {
    if n > m {
      TotalSplits(events, admitted, tenant, window, until, m, n - 1);
    } else if n > 0 {
      TotalSplits(events, admitted, tenant, window, until, m - 1, n - 1);
    }
  }

  lemma {:induction false} AdmittedGrows(events: seq<Event>, admitted: seq<bool>, tenant: Tenant, window: int,
                                         until: int, m: nat, n: nat)
    requires m <= n <= |events| && n <= |admitted|
    ensures Admitted(events, admitted, tenant, window, until, m) <= Admitted(events, admitted, tenant, window, until, n)
  {
    if m < n {
      AdmittedGrows(events, admitted, tenant, window, until, m, n - 1);
    }
  }

  /** Where greedy rejects and another feasible policy admits, greedy has already admitted as many. */
  lemma RejectionIsRepaid(events: seq<Event>, greedy: seq<bool>, other: seq<bool>, limit: int, window: int, n: nat)
    requires n < |events| == |greedy| == |other| && 0 < window && OrderedUpTo(events, n + 1)
    requires !HasRoom(events, greedy, limit, window, n) && !greedy[n]
    requires var e := events[n];
      Admitted(events, other, e.tenant, window, e.timestamp, n + 1) <= limit
    requires var m := Expired(events, events[n].timestamp - window, n);
      Total(events, other, events[n].tenant, m) <= Total(events, greedy, events[n].tenant, m)
    ensures Total(events, other, events[n].tenant, n + 1) <= Total(events, greedy, events[n].tenant, n + 1)
  {
    var e := events[n];
    var m := Expired(events, e.timestamp - window, n);
    ExpiredSplits(events, e.timestamp - window, n);
    TotalSplits(events, greedy, e.tenant, window, e.timestamp, m, n);
    TotalSplits(events, other, e.tenant, window, e.timestamp, m, n + 1);
  }

  lemma {:induction false} FeasibleRejection(events: seq<Event>, greedy: seq<bool>, other: seq<bool>, limit: int,
                                             window: int, n: nat)
    requires Ordered(events) && n < |events| == |greedy| && 0 < window && !greedy[n]
    requires IsGreedy(events, greedy, limit, window) && Feasible(events, other, limit, window)
    requires var m := Expired(events, events[n].timestamp - window, n);
      Total(events, other, events[n].tenant, m) <= Total(events, greedy, events[n].tenant, m)
    ensures Total(events, other, events[n].tenant, n + 1) <= Total(events, greedy, events[n].tenant, n + 1)
  {
    var e := events[n];
    AdmittedGrows(events, other, e.tenant, window, e.timestamp, n + 1, |events|);
    RejectionIsRepaid(events, greedy, other, limit, window, n);
  }

  lemma ExpiredSplits(events: seq<Event>, after: int, n: nat)
    requires n <= |events| && OrderedUpTo(events, n)
    ensures forall i :: 0 <= i < Expired(events, after, n) ==> events[i].timestamp <= after
  {
    var m := Expired(events, after, n);
    if m > 0 {
      assert forall i :: 0 <= i < m - 1 ==> events[i].timestamp <= events[m - 1].timestamp;
    }
  }

  /** No policy that keeps every window within the limit has admitted more of any tenant's events,
      at any point of the stream. */
  lemma {:induction false} GreedyIsOptimal(events: seq<Event>, greedy: seq<bool>, other: seq<bool>, limit: int,
                                           window: int, tenant: Tenant, n: nat)
    requires Ordered(events) && n <= |events| == |greedy| && 0 < window
    requires IsGreedy(events, greedy, limit, window) && Feasible(events, other, limit, window)
    ensures Total(events, other, tenant, n) <= Total(events, greedy, tenant, n)
    decreases n
  {
    if n > 0 {
      if events[n - 1].tenant == tenant && !greedy[n - 1] {
        var m := Expired(events, events[n - 1].timestamp - window, n - 1);
        GreedyIsOptimal(events, greedy, other, limit, window, tenant, m);
        assert Total(events, other, events[n - 1].tenant, m) <= Total(events, greedy, events[n - 1].tenant, m);
        FeasibleRejection(events, greedy, other, limit, window, n - 1);
      } else {
        GreedyIsOptimal(events, greedy, other, limit, window, tenant, n - 1);
        OneFurther(events, greedy, other, tenant, n - 1);
      }
    }
  }

  lemma OneFurther(events: seq<Event>, greedy: seq<bool>, other: seq<bool>, tenant: Tenant, n: nat)
    requires n < |events| && n < |greedy| && n < |other| && (events[n].tenant == tenant ==> greedy[n])
    requires Total(events, other, tenant, n) <= Total(events, greedy, tenant, n)
    ensures Total(events, other, tenant, n + 1) <= Total(events, greedy, tenant, n + 1)
  {
  }

  // ----- Decisions by counting -----

  /** The events of the tenant of event `i` admitted before it less than a window ago. */
  ghost function Recent(events: seq<Event>, admitted: seq<bool>, window: int, i: nat): set<nat>
    requires i < |events| && i <= |admitted|
  {
    set j: nat | j < i && admitted[j] && events[j].tenant == events[i].tenant &&
                 events[i].timestamp - events[j].timestamp < window
  }

  ghost function Counted(events: seq<Event>, admitted: seq<bool>, tenant: Tenant, window: int, until: int,
                         n: nat): set<nat>
    requires n <= |events| && n <= |admitted|
  {
    set j: nat | j < n && Counts(events, admitted, tenant, window, until, j)
  }

  lemma CountedGrow(events: seq<Event>, admitted: seq<bool>, tenant: Tenant, window: int, until: int, n: nat)
    requires n < |events| && n < |admitted|
    ensures |Counted(events, admitted, tenant, window, until, n + 1)| ==
      |Counted(events, admitted, tenant, window, until, n)| +
      if Counts(events, admitted, tenant, window, until, n) then 1 else 0
  {
    var now := Counted(events, admitted, tenant, window, until, n + 1);
    var before := Counted(events, admitted, tenant, window, until, n);
    if Counts(events, admitted, tenant, window, until, n) {
      assert now == before + {n};
    } else {
      assert now == before;
    }
  }

  lemma {:induction false} AdmittedCounts(events: seq<Event>, admitted: seq<bool>, tenant: Tenant, window: int,
                                          until: int, n: nat)
    requires n <= |events| && n <= |admitted|
    ensures Admitted(events, admitted, tenant, window, until, n) ==
      |Counted(events, admitted, tenant, window, until, n)|
  {
    if n == 0 {
      assert Counted(events, admitted, tenant, window, until, 0) == {};
    } else {
      AdmittedCounts(events, admitted, tenant, window, until, n - 1);
      CountedGrow(events, admitted, tenant, window, until, n - 1);
    }
  }

  /** An event is admitted exactly when fewer than `limit` events of its tenant were admitted before it less than
      a window ago; one exactly a window old no longer counts. */
  lemma DecisionsCount(events: seq<Event>, admitted: seq<bool>, limit: int, window: int, i: nat)
    requires Ordered(events) && IsGreedy(events, admitted, limit, window) && i < |admitted|
    ensures admitted[i] <==> |Recent(events, admitted, window, i)| < limit
  {
    var e := events[i];
    AdmittedCounts(events, admitted, e.tenant, window, e.timestamp, i);
    assert admitted[i] <==> HasRoom(events, admitted, limit, window, i);
    assert Recent(events, admitted, window, i) == Counted(events, admitted, e.tenant, window, e.timestamp, i);
  }
}
