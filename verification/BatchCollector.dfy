/** `executeBatch`: one future per request, a first pass that waits up to five
    seconds on each of them in parallel, and a second pass that collects in order
    whatever each future holds when it is visited. */
module BatchCollector {
  import opened Wrappers

  const WAIT: int := 5_000 // milliseconds

  datatype Outcome<T> = Data(data: Option<T>) | Exception

  /** When a future completes, if ever, and with what. `getData` may itself be null. */
  datatype Future<T> = Never | Completes(at: int, outcome: Outcome<T>)

  predicate IsDone<T>(f: Future<T>, time: int) {
    f.Completes? && f.at <= time
  }

  /** Completed exceptionally by the time it is visited. */
  predicate Failed<T>(f: Future<T>, time: int) {
    IsDone(f, time) && f.outcome.Exception?
  }

  /** What the caller should find for a request: its data, or null while pending. */
  function Slot<T>(f: Future<T>, time: int): Option<T> {
    if IsDone(f, time) && f.outcome.Data? then f.outcome.data else None
  }

  /** How many of the first k futures had failed when visited. */
  function FailedBefore<T>(futures: seq<Future<T>>, visits: seq<int>, k: nat): (n: nat)
    requires k <= |futures| == |visits|
    ensures n <= k
  {
    if k == 0 then 0
    else FailedBefore(futures, visits, k - 1) + if Failed(futures[k - 1], visits[k - 1]) then 1 else 0
  }

  ghost predicate NoneFailed<T>(futures: seq<Future<T>>, visits: seq<int>)
    requires |futures| == |visits|
  {
    forall k | 0 <= k < |futures| :: !Failed(futures[k], visits[k])
  }

  ghost predicate Placed<T>(futures: seq<Future<T>>, visits: seq<int>, results: seq<Option<T>>, k: nat)
    requires k < |futures| == |visits|
  {
    Failed(futures[k], visits[k]) ||
    (var place := k - FailedBefore(futures, visits, k);
     place < |results| && results[place] == Slot(futures[k], visits[k]))
  }

  /** The results are those of the requests that had not failed, in order: request
      k, if it had not, is found |failed before k| places to the left, and there
      is nothing else. */
  ghost predicate InOrder<T>(futures: seq<Future<T>>, visits: seq<int>, results: seq<Option<T>>)
    requires |futures| == |visits|
  {
    && |results| == |futures| - FailedBefore(futures, visits, |futures|)
    && forall k | 0 <= k < |futures| :: Placed(futures, visits, results, k)
  }

  /** The same read off the futures themselves. `sources` are the requests that have
      a result, in ascending order: all but those found completed with an exception.
      The result is the data of a future found completed, and null otherwise. */
  ghost predicate Collected<T>(futures: seq<Future<T>>, visits: seq<int>, results: seq<Option<T>>, sources: seq<nat>)
    requires |futures| == |visits|
  {
    && |sources| == |results|
    && (forall p, q | 0 <= p < q < |sources| :: sources[p] < sources[q])
    && (forall k: nat :: k in sources <==>
          k < |futures| &&
          !(futures[k].Completes? && futures[k].at <= visits[k] && futures[k].outcome.Exception?))
    && (forall p | 0 <= p < |sources| :: sources[p] < |futures| &&
          var f := futures[sources[p]];
          results[p] == if f.Completes? && f.at <= visits[sources[p]] && f.outcome.Data? then f.outcome.data else None)
  }

  lemma {:induction false} FailedBeforeGrows<T>(futures: seq<Future<T>>, visits: seq<int>, j: nat, k: nat)
    requires j <= k <= |futures| == |visits|
    ensures FailedBefore(futures, visits, j) <= FailedBefore(futures, visits, k) <=
            FailedBefore(futures, visits, j) + (k - j)
    decreases k
  {
    if j < k {
      FailedBeforeGrows(futures, visits, j, k - 1);
    }
  }

  // The requests among the first n that had not failed.
  function Sources<T>(futures: seq<Future<T>>, visits: seq<int>, n: nat): (sources: seq<nat>)
    requires n <= |futures| == |visits|
    ensures |sources| == n - FailedBefore(futures, visits, n)
  {
    if n == 0 then []
    else Sources(futures, visits, n - 1) + if Failed(futures[n - 1], visits[n - 1]) then [] else [n - 1]
  }

  lemma {:induction false} SourceAt<T>(futures: seq<Future<T>>, visits: seq<int>, n: nat, p: nat)
    requires n <= |futures| == |visits| && p < n - FailedBefore(futures, visits, n)
    ensures var k := Sources(futures, visits, n)[p];
            k < n && !Failed(futures[k], visits[k]) && k - FailedBefore(futures, visits, k) == p
  {
    if p < (n - 1) - FailedBefore(futures, visits, n - 1) {
      SourceAt(futures, visits, n - 1, p);
    }
  }

  lemma {:induction false} SourceIsThere<T>(futures: seq<Future<T>>, visits: seq<int>, n: nat, k: nat)
    requires k < n <= |futures| == |visits| && !Failed(futures[k], visits[k])
    ensures k in Sources(futures, visits, n)
  {
    if k < n - 1 {
      SourceIsThere(futures, visits, n - 1, k);
    }
  }

  lemma SourcesAscend<T>(futures: seq<Future<T>>, visits: seq<int>, n: nat, p: nat, q: nat)
    requires n <= |futures| == |visits| && p < q < n - FailedBefore(futures, visits, n)
    ensures Sources(futures, visits, n)[p] < Sources(futures, visits, n)[q]
  {
    SourceAt(futures, visits, n, p);
    SourceAt(futures, visits, n, q);
    var k, l := Sources(futures, visits, n)[p], Sources(futures, visits, n)[q];
    if l <= k {
      FailedBeforeGrows(futures, visits, l, k);
    }
  }

  lemma SourcesCollect<T>(futures: seq<Future<T>>, visits: seq<int>, results: seq<Option<T>>)
    requires |futures| == |visits| && InOrder(futures, visits, results)
    ensures Collected(futures, visits, results, Sources(futures, visits, |futures|))
  {
    var n := |futures|;
    var sources := Sources(futures, visits, n);
    forall p, q | 0 <= p < q < |sources| ensures sources[p] < sources[q] {
      SourcesAscend(futures, visits, n, p, q);
    }
    forall p: nat | p < |sources|
      ensures sources[p] < n && !Failed(futures[sources[p]], visits[sources[p]])
      ensures results[p] == Slot(futures[sources[p]], visits[sources[p]])
    {
      SourceAt(futures, visits, n, p);
      assert Placed(futures, visits, results, sources[p]);
    }
    forall k: nat | k < n && !Failed(futures[k], visits[k]) ensures k in sources {
      SourceIsThere(futures, visits, n, k);
    }
  }

  /** The second pass. `visits[k]` is the time at which future k is looked at. */
  method Collect<T>(futures: seq<Future<T>>, visits: seq<int>) returns (results: seq<Option<T>>)
    requires |futures| == |visits|
    ensures InOrder(futures, visits, results)
    ensures exists sources :: Collected(futures, visits, results, sources)
  {
    results := [];
    for i := 0 to |futures|
      invariant |results| == i - FailedBefore(futures, visits, i)
      invariant forall k | 0 <= k < i :: Placed(futures, visits, results, k)
    {
      ghost var before := results;
      if IsDone(futures[i], visits[i]) {
        match futures[i].outcome {
          case Data(data) => results := results + [data];
          case Exception => // get() throws; the exception is printed
        }
      } else {
        results := results + [None];
      }
      forall k | 0 <= k <= i ensures Placed(futures, visits, results, k) {
        assert k < i ==> Placed(futures, visits, before, k);
      }
    }
    SourcesCollect(futures, visits, results);
  }

  lemma {:induction false} FailedBeforeZero<T>(futures: seq<Future<T>>, visits: seq<int>, k: nat)
    requires k <= |futures| == |visits|
    ensures FailedBefore(futures, visits, k) == 0 <==> forall j | 0 <= j < k :: !Failed(futures[j], visits[j])
  {
    if k > 0 {
      FailedBeforeZero(futures, visits, k - 1);
    }
  }

  /** The description is complete: it determines the result list. */
  lemma InOrderUnique<T>(futures: seq<Future<T>>, visits: seq<int>, a: seq<Option<T>>, b: seq<Option<T>>)
    requires |futures| == |visits| && InOrder(futures, visits, a) && InOrder(futures, visits, b)
    ensures a == b
  {
    forall p | 0 <= p < |a| ensures a[p] == b[p] {
      SourceAt(futures, visits, |futures|, p);
      var k := Sources(futures, visits, |futures|)[p];
      assert Placed(futures, visits, a, k) && Placed(futures, visits, b, k);
    }
  }

  /** The results line up with the requests, index by index, if and only if no
      future had failed when visited; a single failure already shortens the list. */
  lemma AlignedIffNoneFailed<T>(futures: seq<Future<T>>, visits: seq<int>, results: seq<Option<T>>)
    requires |futures| == |visits| && InOrder(futures, visits, results)
    ensures |results| == |futures| <==> NoneFailed(futures, visits)
    ensures NoneFailed(futures, visits) <==>
            results == seq(|futures|, k requires 0 <= k < |futures| => Slot(futures[k], visits[k]))
  {
    FailedBeforeZero(futures, visits, |futures|);
    if NoneFailed(futures, visits) {
      forall k | 0 <= k < |futures| ensures results[k] == Slot(futures[k], visits[k]) {
        FailedBeforeZero(futures, visits, k);
        assert !Failed(futures[k], visits[k]) && Placed(futures, visits, results, k);
      }
    }
  }

  // ---- The first pass ----

  /** When `future.get(5, SECONDS)`, called at `start`, gives up or has an answer. */
  function WaitEnd<T>(f: Future<T>, start: int): int {
    if !IsDone(f, start + WAIT) then start + WAIT
    else if f.at <= start then start
    else f.at
  }

  /** That is the first moment, from the call on and at most five seconds later, at
      which the future has completed or the five seconds are over. */
  lemma WaitEndExact<T>(f: Future<T>, start: int, end: int)
    ensures end == WaitEnd(f, start) <==>
            && start <= end <= start + 5_000
            && (end < start + 5_000 ==> f.Completes? && f.at <= end)
            && (start < end ==> f.Never? || end <= f.at)
  {
  }

  /** `end` is when the last of the waits, or the call itself, is over. */
  ghost predicate PassEnds<T>(futures: seq<Future<T>>, starts: seq<int>, now: int, end: int)
    requires |starts| == |futures|
  {
    && now <= end
    && (forall k | 0 <= k < |futures| :: WaitEnd(futures[k], starts[k]) <= end)
    && (end == now || exists k | 0 <= k < |futures| :: end == WaitEnd(futures[k], starts[k]))
  }

  /** The first pass. The futures are waited for in parallel, each from whatever
      time at or after the call a worker gets to it, so the order is immaterial and the pass ends with
      the last wait: neither earlier, nor later than some wait makes it. */
  method AwaitAll<T>(futures: seq<Future<T>>, starts: seq<int>, now: int) returns (end: int)
    requires |starts| == |futures| && forall k | 0 <= k < |starts| :: now <= starts[k]
    ensures PassEnds(futures, starts, now, end)
  {
    end := now;
    for i := 0 to |futures|
      invariant now <= end && forall k | 0 <= k < i :: WaitEnd(futures[k], starts[k]) <= end
      invariant end == now || exists k | 0 <= k < i :: end == WaitEnd(futures[k], starts[k])
    {
      var waited := WaitEnd(futures[i], starts[i]);
      if waited > end {
        end := waited;
      }
    }
  }

  /** The futures in the order in which the workers take them. */
  ghost predicate TakingOrder(order: seq<nat>, n: nat) {
    && |order| == n
    && (forall m | 0 <= m < n :: order[m] < n)
    && forall k | 0 <= k < n :: k in order
  }

  /** How many of the first m futures taken are still waited for at a time. */
  function Busy<T>(futures: seq<Future<T>>, starts: seq<int>, order: seq<nat>, m: nat, time: int): (n: nat)
    requires |starts| == |futures| && TakingOrder(order, |futures|) && m <= |order|
  {
    if m == 0 then 0
    else Busy(futures, starts, order, m - 1, time) +
         if time < WaitEnd(futures[order[m - 1]], starts[order[m - 1]]) then 1 else 0
  }

  /** `workers` of them keep at it: a future is taken no later than any time after
      the call at which fewer than that many earlier ones are still waited for. */
  ghost predicate KeepsTaking<T>(futures: seq<Future<T>>, starts: seq<int>, order: seq<nat>, now: int, workers: nat)
    requires |starts| == |futures| && TakingOrder(order, |futures|)
  {
    forall m, time | 0 <= m < |order| && now <= time ::
      Busy(futures, starts, order, m, time) < workers ==> starts[order[m]] <= time
  }

  lemma {:induction false} BusyBound<T>(futures: seq<Future<T>>, starts: seq<int>, order: seq<nat>,
                                        over: nat, m: nat, time: int)
    requires |starts| == |futures| && TakingOrder(order, |futures|) && m <= |order|
    requires forall k | 0 <= k < m && k < over :: WaitEnd(futures[order[k]], starts[order[k]]) <= time
    ensures Busy(futures, starts, order, m, time) <= if m <= over then 0 else m - over
  {
    if m > 0 {
      BusyBound(futures, starts, order, over, m - 1, time);
    }
  }

  // The first workers * rounds futures taken are through after that many waits.
  lemma {:induction false} RoundsBound<T>(futures: seq<Future<T>>, starts: seq<int>, order: seq<nat>, now: int,
                                          workers: nat, rounds: nat, m: nat)
    requires |starts| == |futures| && TakingOrder(order, |futures|)
    requires KeepsTaking(futures, starts, order, now, workers)
    requires m < |order| && m < workers * rounds
    ensures WaitEnd(futures[order[m]], starts[order[m]]) <= now + WAIT * rounds
    decreases rounds
  {
    var time := now + WAIT * (rounds - 1);
    var over := workers * (rounds - 1);
    forall k | 0 <= k < m && k < over ensures WaitEnd(futures[order[k]], starts[order[k]]) <= time {
      RoundsBound(futures, starts, order, now, workers, rounds - 1, k);
    }
    BusyBound(futures, starts, order, over, m, time);
    assert workers * rounds == over + workers;
  }

  /** With that many workers keeping at it, the first pass is over within as many
      waits as they need rounds to get through the batch. The calling thread works
      too, so one worker there always is: one wait a request is always enough. */
  lemma PassBounded<T>(futures: seq<Future<T>>, starts: seq<int>, order: seq<nat>, now: int, end: int,
                       workers: nat, rounds: nat)
    requires |starts| == |futures| && TakingOrder(order, |futures|)
    requires KeepsTaking(futures, starts, order, now, workers)
    requires PassEnds(futures, starts, now, end)
    requires |futures| <= workers * rounds
    ensures end <= now + 5_000 * rounds
  {
    if end != now {
      var k: nat :| k < |futures| && end == WaitEnd(futures[k], starts[k]);
      assert k in order;
      var m :| 0 <= m < |order| && order[m] == k;
      RoundsBound(futures, starts, order, now, workers, rounds, m);
    }
  }

  lemma {:induction false} BusyAtLeast<T>(futures: seq<Future<T>>, starts: seq<int>, order: seq<nat>,
                                          over: nat, m: nat, time: int)
    requires |starts| == |futures| && TakingOrder(order, |futures|) && over <= m <= |order|
    requires forall k | over <= k < m :: time < WaitEnd(futures[order[k]], starts[order[k]])
    ensures Busy(futures, starts, order, m, time) >= m - over
  {
    if over < m {
      BusyAtLeast(futures, starts, order, over, m - 1, time);
    }
  }

  /** The round in which a worker gets to the k-th future when all of them take
      the full wait. */
  function RoundOf(k: nat, workers: nat): nat
    requires workers > 0
  {
    if k < workers then 0 else RoundOf(k - workers, workers) + 1
  }

  lemma {:induction false} RoundGrows(a: nat, b: nat, workers: nat)
    requires a <= b && workers > 0
    ensures RoundOf(a, workers) <= RoundOf(b, workers)
    decreases a
  {
    if a >= workers {
      RoundGrows(a - workers, b - workers, workers);
    }
  }

  lemma {:induction false} LastRound(k: nat, workers: nat, rounds: nat)
    requires workers > 0 && workers * rounds <= k < workers * rounds + workers
    ensures RoundOf(k, workers) == rounds
    decreases k
  {
    assert rounds > 0 ==> workers * rounds == workers * (rounds - 1) + workers;
    if rounds > 0 {
      LastRound(k - workers, workers, rounds - 1);
    }
  }

  function RoundStarts(n: nat, workers: nat, now: int): seq<int>
    requires workers > 0
  {
    seq(n, k requires 0 <= k < n => now + WAIT * RoundOf(k, workers))
  }

  lemma StuckBatchKeepsTaking(futures: seq<Future<bool>>, starts: seq<int>, order: seq<nat>, now: int,
                              workers: nat, m: nat, time: int)
    requires workers > 0 && |starts| == |futures| && TakingOrder(order, |futures|)
    requires starts == RoundStarts(|futures|, workers, now)
    requires forall k | 0 <= k < |futures| :: futures[k].Never? && order[k] == k
    requires m < |order| && now <= time < starts[m]
    ensures Busy(futures, starts, order, m, time) >= workers
  {
    assert m >= workers;
    forall k | m - workers <= k < m ensures time < WaitEnd(futures[order[k]], starts[order[k]]) {
      RoundGrows(m - workers, k, workers);
      assert starts[k] == now + WAIT * RoundOf(k, workers);
    }
    BusyAtLeast(futures, starts, order, m - workers, m, time);
  }

  /** The bound is met: a batch none of whose futures ever completes can take its
      workers exactly as many waits as they need rounds to get through it. */
  lemma BoundReached(n: nat, workers: nat, rounds: nat, now: int)
    returns (futures: seq<Future<bool>>, starts: seq<int>, order: seq<nat>, end: int)
    requires rounds > 0 && workers * (rounds - 1) < n <= workers * rounds
    ensures |futures| == |starts| == n && TakingOrder(order, n)
    ensures (forall k | 0 <= k < n :: now <= starts[k]) && KeepsTaking(futures, starts, order, now, workers)
    ensures PassEnds(futures, starts, now, end) && end == now + 5_000 * rounds
  {
    futures := seq(n, _ => Never);
    starts := RoundStarts(n, workers, now);
    order := seq(n, k requires 0 <= k < n => k);
    end := now + WAIT * rounds;
    assert workers * rounds == workers * (rounds - 1) + workers;
    LastRound(n - 1, workers, rounds - 1);
    assert end == WaitEnd(futures[n - 1], starts[n - 1]);
    forall k: nat | k < n ensures k in order && WaitEnd(futures[k], starts[k]) <= end {
      assert order[k] == k;
      RoundGrows(k, n - 1, workers);
    }
    forall m: nat, time | m < n && now <= time && time < starts[m]
      ensures Busy(futures, starts, order, m, time) >= workers
    {
      StuckBatchKeepsTaking(futures, starts, order, now, workers, m, time);
    }
  }

  predicate InTimeWithData<T>(f: Future<T>, start: int) {
    IsDone(f, start + 5_000) && f.outcome.Data?
  }

  /** Whenever the visits come after the waits, a request left pending has
      outlasted its own wait, and a batch in time and with data comes back whole. */
  lemma PendingMeansLate<T>(futures: seq<Future<T>>, starts: seq<int>, visits: seq<int>, results: seq<Option<T>>)
    requires |starts| == |visits| == |futures| && InOrder(futures, visits, results)
    requires forall k | 0 <= k < |futures| :: WaitEnd(futures[k], starts[k]) <= visits[k]
    ensures forall k | 0 <= k < |futures| && !IsDone(futures[k], visits[k]) ::
              !IsDone(futures[k], starts[k] + 5_000)
    ensures (forall k | 0 <= k < |futures| :: InTimeWithData(futures[k], starts[k])) ==>
              results == seq(|futures|, k requires 0 <= k < |futures| => Slot(futures[k], visits[k])) &&
              forall k | 0 <= k < |futures| :: results[k] == futures[k].outcome.data
  {
    forall k | 0 <= k < |futures| && !IsDone(futures[k], visits[k])
      ensures !IsDone(futures[k], starts[k] + 5_000)
    {
      assert WaitEnd(futures[k], starts[k]) <= visits[k];
    }
    if forall k | 0 <= k < |futures| :: InTimeWithData(futures[k], starts[k]) {
      forall k | 0 <= k < |futures|
        ensures !Failed(futures[k], visits[k]) && Slot(futures[k], visits[k]) == futures[k].outcome.data
      {
        assert InTimeWithData(futures[k], starts[k]) && WaitEnd(futures[k], starts[k]) <= visits[k];
      }
      assert NoneFailed(futures, visits);
      AlignedIffNoneFailed(futures, visits, results);
    }
  }

  /** `executeBatch`: the second pass visits the futures in order, `delays[k]`
      after the first pass is over. The whole takes no longer than the waits and
      the delays; a request left pending has outlasted its own five seconds; and a
      batch whose futures all complete within theirs with data comes back whole,
      in order, with no place empty for lack of time. */
  method ExecuteBatch<T>(futures: seq<Future<T>>, starts: seq<int>, delays: seq<nat>, now: int)
    returns (results: seq<Option<T>>, visits: seq<int>, end: int)
    requires |starts| == |delays| == |futures| && forall k | 0 <= k < |starts| :: now <= starts[k]
    ensures |visits| == |futures| && InOrder(futures, visits, results)
    ensures exists sources :: Collected(futures, visits, results, sources)
    ensures PassEnds(futures, starts, now, end)
    ensures forall k | 0 <= k < |visits| :: visits[k] == end + delays[k]
    ensures forall k | 0 <= k < |futures| && !IsDone(futures[k], visits[k]) ::
              !IsDone(futures[k], starts[k] + 5_000)
    ensures (forall k | 0 <= k < |futures| :: InTimeWithData(futures[k], starts[k])) ==>
              results == seq(|futures|, k requires 0 <= k < |futures| => Slot(futures[k], visits[k])) &&
              forall k | 0 <= k < |futures| :: results[k] == futures[k].outcome.data
  {
    end := AwaitAll(futures, starts, now);
    visits := seq(|futures|, k requires 0 <= k < |futures| => end + delays[k]);
    results := Collect(futures, visits);
    forall k | 0 <= k < |futures| ensures WaitEnd(futures[k], starts[k]) <= visits[k] {
      assert visits[k] == end + delays[k];
    }
    PendingMeansLate(futures, starts, visits, results);
  }
}
