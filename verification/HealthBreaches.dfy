/** `health_breach_intervals`: the maximal runs of samples at or above a threshold. */
module HealthBreaches {
  import opened Wrappers

  datatype Sample = Sample(timestamp: int, value: real)

  datatype Interval = Interval(first: int, last: int)

  datatype BreachError = InvalidMinimum | UnorderedTimestamps

  /** Samples `i` up to but not including `j`. */
  datatype Span = Span(i: nat, j: nat)

  ghost predicate Increasing(samples: seq<Sample>) {
    forall k :: 0 < k < |samples| ==> samples[k - 1].timestamp < samples[k].timestamp
  }

  ghost predicate Breaching(samples: seq<Sample>, threshold: real, s: Span) {
    s.i < s.j <= |samples| && forall k :: s.i <= k < s.j ==> threshold <= samples[k].value
  }

  /** A run that cannot be extended on either side. */
  ghost predicate IsMaximal(samples: seq<Sample>, threshold: real, s: Span) {
    && Breaching(samples, threshold, s)
    && (s.i > 0 ==> samples[s.i - 1].value < threshold)
    && (s.j < |samples| ==> samples[s.j].value < threshold)
  }

  ghost predicate Qualifies(samples: seq<Sample>, threshold: real, minimum: int, s: Span) {
    IsMaximal(samples, threshold, s) && minimum <= s.j - s.i
  }

  /** The samples from `i` to `j` inclusive are at the threshold or above, and those just outside are not. */
  ghost predicate IsRunFrom(samples: seq<Sample>, threshold: real, i: nat, j: nat) {
    && i <= j < |samples| && (forall k :: i <= k <= j ==> samples[k].value >= threshold)
    && (i == 0 || samples[i - 1].value < threshold) && (j == |samples| - 1 || samples[j + 1].value < threshold)
  }

  /** Such a run, long enough, lasts from the first time to the last. */
  ghost predicate IsReported(samples: seq<Sample>, threshold: real, minimum: int, interval: Interval) {
    exists i: nat, j: nat :: IsRunFrom(samples, threshold, i, j) && j - i + 1 >= minimum &&
      interval.first == samples[i].timestamp && interval.last == samples[j].timestamp
  }

  lemma ReportedAt(samples: seq<Sample>, threshold: real, minimum: int, output: seq<Interval>, spans: seq<Span>, k: nat)
    requires Reports(samples, output, spans) && k < |spans| && Qualifies(samples, threshold, minimum, spans[k])
    ensures IsReported(samples, threshold, minimum, output[k])
  {
    assert IsRunFrom(samples, threshold, spans[k].i, spans[k].j - 1);
  }

  ghost predicate InOrder(spans: seq<Span>) {
    forall a, b :: 0 <= a < b < |spans| ==> spans[a].j < spans[b].i
  }

  ghost predicate Reports(samples: seq<Sample>, output: seq<Interval>, spans: seq<Span>) {
    && |output| == |spans|
    && forall k :: 0 <= k < |spans| ==>
      spans[k].i < spans[k].j <= |samples| &&
      output[k] == Interval(samples[spans[k].i].timestamp, samples[spans[k].j - 1].timestamp)
  }

  /** The first and last timestamps of exactly the maximal runs that are long enough, in order. */
  method HealthBreachIntervals(samples: seq<Sample>, threshold: real, minimumConsecutive: int)
    returns (r: Result<seq<Interval>, BreachError>, ghost spans: seq<Span>)
    ensures r == Err(InvalidMinimum) <==> minimumConsecutive <= 0
    ensures r == Err(UnorderedTimestamps) <==> 0 < minimumConsecutive && !Increasing(samples)
    ensures r.Ok? ==> forall k :: 0 < k < |samples| ==> samples[k - 1].timestamp < samples[k].timestamp
    ensures r == Err(UnorderedTimestamps) ==>
      exists k :: 0 < k < |samples| && samples[k - 1].timestamp >= samples[k].timestamp
    ensures r.Ok? ==> Reports(samples, r.value, spans) && InOrder(spans)
    ensures r.Ok? ==> forall s :: s in spans <==> Qualifies(samples, threshold, minimumConsecutive, s)
    ensures r.Ok? ==> forall k :: 0 <= k < |r.value| ==>
      IsReported(samples, threshold, minimumConsecutive, r.value[k])
  {
    spans := [];
    if minimumConsecutive <= 0 {
      return Err(InvalidMinimum), spans;
    }
    var increasing := AreIncreasing(samples);
    if !increasing {
      return Err(UnorderedTimestamps), spans;
    }
    var output := [];
    var start: Option<int> := None;
    var count := 0;
    var previous: Option<int> := None;
    // The last step is the sentinel after the samples.
    for k := 0 to |samples| + 1
      invariant OpenRun(samples, threshold, k, start, count, previous)
      invariant Collected(samples, threshold, minimumConsecutive, k, output, spans)
      invariant forall a :: 0 <= a < |spans| ==> spans[a].j < k - count
    {
      if k < |samples| && threshold <= samples[k].value {
        if start.None? {
          start := Some(samples[k].timestamp);
        }
        previous := Some(samples[k].timestamp);
        count := count + 1;
        NothingCloses(samples, threshold, minimumConsecutive, k, output, spans);
      } else {
        CollectMore(samples, threshold, minimumConsecutive, k, start, count, previous, output, spans);
        if start.Some? && count >= minimumConsecutive {
          output := output + [Interval(start.value, previous.value)];
          spans := spans + [Span(k - count, k)];
        }
        start, count, previous := None, 0, None;
      }
    }
    forall k | 0 <= k < |output|
      ensures IsReported(samples, threshold, minimumConsecutive, output[k])
    {
      assert spans[k] in spans;
      ReportedAt(samples, threshold, minimumConsecutive, output, spans, k);
    }
    return Ok(output), spans;
  }

  method AreIncreasing(samples: seq<Sample>) returns (increasing: bool)
    ensures increasing <==> Increasing(samples)
  {
    for k := 0 to |samples|
      invariant forall m :: 0 < m < k ==> samples[m - 1].timestamp < samples[m].timestamp
    {
      if k > 0 && samples[k - 1].timestamp >= samples[k].timestamp {
        return false;
      }
    }
    return true;
  }

  /** The output reports, in order, exactly the runs long enough that end before `k`. */
  ghost predicate Collected(samples: seq<Sample>, threshold: real, minimum: int, k: nat,
                            output: seq<Interval>, spans: seq<Span>) {
    && Reports(samples, output, spans) && InOrder(spans)
    && forall s :: s in spans <==> Qualifies(samples, threshold, minimum, s) && s.j < k
  }

  lemma NothingCloses(samples: seq<Sample>, threshold: real, minimum: int, k: nat, output: seq<Interval>,
                      spans: seq<Span>)
    requires Collected(samples, threshold, minimum, k, output, spans)
    requires k < |samples| && threshold <= samples[k].value
    ensures Collected(samples, threshold, minimum, k + 1, output, spans)
  {
  }

  lemma CollectMore(samples: seq<Sample>, threshold: real, minimum: int, k: nat, start: Option<int>, count: nat,
                    previous: Option<int>, output: seq<Interval>, spans: seq<Span>)
    requires k <= |samples| && OpenRun(samples, threshold, k, start, count, previous) && 0 < minimum
    requires k < |samples| ==> samples[k].value < threshold
    requires Collected(samples, threshold, minimum, k, output, spans)
    requires forall a :: 0 <= a < |spans| ==> spans[a].j < k - count
    ensures
      if count >= minimum
      then Collected(samples, threshold, minimum, k + 1, output + [Interval(start.value, previous.value)],
                     spans + [Span(k - count, k)])
      else Collected(samples, threshold, minimum, k + 1, output, spans)
  {
    ClosingRun(samples, threshold, k, start, count, previous);
    var closed := Span(if count <= k then k - count else 0, k);
    assert forall s :: s in spans + [closed] <==> s in spans || s == closed;
  }

  /** The run of `count` samples just before `k`, which nothing has closed yet. */
  ghost predicate OpenRun(samples: seq<Sample>, threshold: real, k: nat, start: Option<int>, count: nat,
                          previous: Option<int>) {
    if count == 0 then
      start == previous == None && (0 < k <= |samples| ==> samples[k - 1].value < threshold)
    else
      && count <= k <= |samples|
      && Breaching(samples, threshold, Span(k - count, k))
      && (k > count ==> samples[k - count - 1].value < threshold)
      && start == Some(samples[k - count].timestamp) && previous == Some(samples[k - 1].timestamp)
  }

  /** A sample below the threshold, or the sentinel, closes the open run and no other. */
  lemma ClosingRun(samples: seq<Sample>, threshold: real, k: nat, start: Option<int>, count: nat, previous: Option<int>)
    requires k <= |samples| && OpenRun(samples, threshold, k, start, count, previous)
    requires k < |samples| ==> samples[k].value < threshold
    ensures forall s :: IsMaximal(samples, threshold, s) && s.j == k <==> count > 0 && s == Span(k - count, k)
  {
  }
}
