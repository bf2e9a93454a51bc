/** Releasing in time does not protect the counter: what can happen when a client
    outlives its lease before it gets to its GET. */
module LeaseLockLostIncrement {
  import opened Wrappers
  import opened LeaseLock
  import opened LeaseLockSafety
  import opened LeaseLockUnlock
  import opened LeaseLockLiveness

  ghost predicate LosesIncrement(total: int, n: nat, start: int, acts: seq<Action>) {
    Exec(total, Init(n, start), acts).counter != start + Increments(total, Init(n, start), acts)
  }

  /** All clients have returned, and every DEL came in time. */
  ghost predicate CompleteInTime(total: int, n: nat, start: int, acts: seq<Action>) {
    AllReturned(Exec(total, Init(n, start), acts)) && DeletesInTime(total, Init(n, start), acts)
  }

  lemma {:induction false} DeletesInTimeAppend(total: int, s: State, a: seq<Action>, b: seq<Action>)
    requires DeletesInTime(total, s, a) && DeletesInTime(total, Exec(total, s, a), b)
    ensures DeletesInTime(total, s, a + b)
    decreases |b|
  {
    if b == [] {
      assert a + b == a;
    } else {
      assert (a + b)[..|a + b| - 1] == a + b[..|b| - 1];
      DeletesInTimeAppend(total, s, a, b[..|b| - 1]);
      ExecAppend(total, s, a, b[..|b| - 1]);
    }
  }

  /** In a well-timed run every DEL comes in time. */
  lemma {:induction false} WellTimedDeletes(total: int, s: State, acts: seq<Action>)
    requires WellTimedRun(total, s, acts)
    ensures DeletesInTime(total, s, acts)
  {
    if acts != [] {
      PrefixWellTimed(total, s, acts, |acts| - 1);
      WellTimedDeletes(total, s, acts[..|acts| - 1]);
      assert WellTimed(Exec(total, s, acts[..|acts| - 1]));
    }
  }

  // Two clients have read the start value, and the lease of the first has run out.
  lemma BothHaveRead(total: int, n: nat, start: int) returns (acts: seq<Action>)
    requires start < total && n >= 2
    ensures var s := Exec(total, Init(n, start), acts);
            && s == State(LEASE, Some(Lease(1, 2 * LEASE)), start,
                          Init(n, start).clients[0 := Client(WriteCounter(start), true, 0)]
                                                [1 := Client(WriteCounter(start), true, LEASE)])
    ensures Increments(total, Init(n, start), acts) == 0 && DeletesInTime(total, Init(n, start), acts)
  {
    var s0 := Init(n, start);
    acts := ThenReachesTryLock(total, s0, [], 0);
    acts := ThenReadsCounter(total, s0, acts, 0);
    acts := ThenExpires(total, s0, acts);
    acts := ThenReachesTryLock(total, s0, acts, 1);
    acts := ThenReadsCounter(total, s0, acts, 1);
  }

  lemma ThenIncrements(total: int, s0: State, acts: seq<Action>, i: nat) returns (longer: seq<Action>)
    requires var s := Exec(total, s0, acts);
             i < |s.clients| && s.clients[i].pc.WriteCounter? && INT_MIN <= s.clients[i].pc.seen < INT_MAX
    ensures var s := Exec(total, s0, acts);
            Exec(total, s0, longer) == Goto(s, i, GetKey).(counter := s.clients[i].pc.seen + 1)
    ensures Increments(total, s0, longer) == Increments(total, s0, acts) + 1
    ensures DeletesInTime(total, s0, acts) ==> DeletesInTime(total, s0, longer)
  {
    longer := ThenRuns(total, s0, acts, i);
  }

  lemma ThenDeletesInTime(total: int, s0: State, acts: seq<Action>, i: nat) returns (longer: seq<Action>)
    requires var s := Exec(total, s0, acts);
             i < |s.clients| && s.clients[i].pc.DelKey? && !Expired(s, i)
    ensures var s := Exec(total, s0, acts);
            Exec(total, s0, longer) == Leave(s, i, OuterTest).(key := None)
    ensures Increments(total, s0, longer) == Increments(total, s0, acts)
    ensures DeletesInTime(total, s0, acts) ==> DeletesInTime(total, s0, longer)
  {
    longer := acts + [Run(i)];
    assert longer[..|acts|] == acts;
    ExecSnoc(total, s0, acts, Run(i));
  }

  // Both complete an increment, and the counter moves by one. The first client's
  // GET finds another id; the second one releases its own lock in time.
  lemma BothHaveUnlocked(total: int, n: nat, start: int) returns (acts: seq<Action>)
    requires INT_MIN <= start < total <= INT_MAX && n >= 2
    ensures var s := Exec(total, Init(n, start), acts);
            && s.key == None && s.counter == start + 1
            && forall i | 0 <= i < |s.clients| :: s.clients[i].pc.OuterTest? && !s.clients[i].holds
    ensures Increments(total, Init(n, start), acts) == 2 && DeletesInTime(total, Init(n, start), acts)
  {
    var s0 := Init(n, start);
    var read := BothHaveRead(total, n, start);
    var s := Exec(total, s0, read);
    acts := ThenIncrements(total, s0, read, 1);
    acts := ThenIncrements(total, s0, acts, 0);
    assert Exec(total, s0, acts) ==
           s.(counter := start + 1,
              clients := s.clients[1 := Client(GetKey, true, LEASE)][0 := Client(GetKey, true, 0)]);
    acts := ThenRuns(total, s0, acts, 0);
    acts := ThenRuns(total, s0, acts, 1);
    acts := ThenDeletesInTime(total, s0, acts, 1);
  }

  // From there everyone finishes in time, and the lost increment stays lost.
  lemma LostIncrementHappens(total: int, n: nat, start: int)
    requires INT_MIN <= start < total <= INT_MAX && n >= 2
    ensures exists acts :: CompleteInTime(total, n, start, acts) && LosesIncrement(total, n, start, acts)
  {
    var s0 := Init(n, start);
    var lost := BothHaveUnlocked(total, n, start);
    var s := Exec(total, s0, lost);
    assert Inv(total, s) && Timely(s);
    var rest := FinishAll(total, s);
    TimelyIsWellTimed(total, s, rest);
    WellTimedDeletes(total, s, rest);
    RunInv(total, s, rest);
    ExecAppend(total, s0, lost, rest);
    IncrementsAppend(total, s0, lost, rest);
    DeletesInTimeAppend(total, s0, lost, rest);
    assert CompleteInTime(total, n, start, lost + rest);
    assert LosesIncrement(total, n, start, lost + rest);
  }

  /** Over complete runs, in which every client has returned and every DEL came
      less than ten seconds after its SET: some such run loses an increment if and
      only if two clients compete for any work. The client that outlives its lease
      finds another id at its GET and deletes nothing, but it has already written
      over what the other one counted. */
  lemma LostIncrementExact(total: int, n: nat, start: int)
    requires INT_MIN <= start <= INT_MAX && total <= INT_MAX
    ensures (exists acts :: CompleteInTime(total, n, start, acts) && LosesIncrement(total, n, start, acts)) <==>
            n >= 2 && start < total
  {
    if n >= 2 && start < total {
      LostIncrementHappens(total, n, start);
    } else {
      forall acts ensures !LosesIncrement(total, n, start, acts) {
        if n < 2 {
          OneClientStaysAlone(total, n, start, acts);
        } else {
          NoWorkStaysIdle(total, n, start, acts);
        }
      }
    }
  }
}
