/** `unlock` promises to "release lock only if the owner to release is the one
    who locked", but its GET and its DEL are two separate commands. These are the
    exact limits of that promise, over all runs, timed or not. */
module LeaseLockUnlock {
  import opened Wrappers
  import opened LeaseLock

  /** A DEL that removes the live key of another client. */
  predicate StrayDelete(s: State, a: Action) {
    && a.Run? && a.i < |s.clients| && s.clients[a.i].pc.DelKey?
    && Held(s).Some? && Held(s).value != a.i
  }

  /** A lease runs out while its owner stands between its matching GET and its DEL. */
  predicate ExpiryInUnlock(total: int, s: State, a: Action) {
    && a.Tick? && Held(s).Some? && Held(s).value < |s.clients|
    && s.clients[Held(s).value].pc.DelKey?
    && Held(Step(total, s, a)).None?
  }

  ghost predicate NoStrayDelete(total: int, s: State, acts: seq<Action>) {
    forall k | 0 <= k < |acts| :: !StrayDelete(Exec(total, s, acts[..k]), acts[k])
  }

  // Whoever is about to DEL owns the live key.
  ghost predicate DeletersOwn(s: State) {
    forall i | 0 <= i < |s.clients| :: s.clients[i].pc.DelKey? ==> Held(s) == Some(i)
  }

  lemma DeletersOwnStep(total: int, s: State, a: Action)
    requires DeletersOwn(s) && !ExpiryInUnlock(total, s, a)
    ensures DeletersOwn(Step(total, s, a))
  {
    var t := Step(total, s, a);
    forall i | 0 <= i < |t.clients| && t.clients[i].pc.DelKey? ensures Held(t) == Some(i) {
      assert s.clients[i].pc.DelKey? ==> Held(s) == Some(i);
    }
  }

  lemma {:induction false} DeletersOwnUntilExpiry(total: int, n: nat, start: int, acts: seq<Action>)
    requires forall m | 0 <= m < |acts| ::
               !ExpiryInUnlock(total, Exec(total, Init(n, start), acts[..m]), acts[m])
    ensures DeletersOwn(Exec(total, Init(n, start), acts))
  {
    if acts != [] {
      var before := acts[..|acts| - 1];
      forall m | 0 <= m < |before|
        ensures !ExpiryInUnlock(total, Exec(total, Init(n, start), before[..m]), before[m])
      {
        assert before[..m] == acts[..m];
      }
      DeletersOwnUntilExpiry(total, n, start, before);
      DeletersOwnStep(total, Exec(total, Init(n, start), before), acts[|acts| - 1]);
    }
  }

  /** In every run whatsoever, a DEL that hits another client's key is preceded
      by a lease running out between its owner's GET and DEL. The culprit's own
      lease need not be that one (stray deletes can cascade), but some such
      expiry always came first. */
  lemma StrayDeleteNeedsExpiry(total: int, n: nat, start: int, acts: seq<Action>, k: nat)
    requires k < |acts| && StrayDelete(Exec(total, Init(n, start), acts[..k]), acts[k])
    ensures exists m | 0 <= m < k ::
              ExpiryInUnlock(total, Exec(total, Init(n, start), acts[..m]), acts[m])
  {
    if forall m | 0 <= m < k :: !ExpiryInUnlock(total, Exec(total, Init(n, start), acts[..m]), acts[m]) {
      forall m | 0 <= m < |acts[..k]|
        ensures !ExpiryInUnlock(total, Exec(total, Init(n, start), acts[..k][..m]), acts[..k][m])
      {
        assert acts[..k][..m] == acts[..m];
      }
      DeletersOwnUntilExpiry(total, n, start, acts[..k]);
      assert false;
    }
  }

  // As long as no stray DEL has happened, a live lease is where its holder put it.
  ghost predicate ClientOwns(s: State, i: nat)
    requires i < |s.clients|
  {
    && (s.clients[i].pc.DelKey? ==> s.clients[i].holds)
    && (s.clients[i].holds ==> Committed(s.clients[i].pc) || s.clients[i].pc.ReCheck?)
    && (s.clients[i].holds && !Expired(s, i) ==>
          s.key == Some(Lease(i, s.clients[i].since + LEASE)))
  }

  ghost predicate KeyOwned(s: State) {
    Held(s).Some? ==>
      var o := Held(s).value;
      o < |s.clients| &&
      s.key.value.deadline == s.clients[o].since + LEASE &&
      (s.clients[o].holds || s.clients[o].pc.Returned?)
  }

  ghost predicate OwnershipInv(s: State) {
    KeyOwned(s) && forall i | 0 <= i < |s.clients| :: ClientOwns(s, i)
  }

  lemma ClientOwnsStep(total: int, s: State, a: Action, j: nat)
    requires OwnershipInv(s) && !StrayDelete(s, a) && j < |s.clients|
    ensures ClientOwns(Step(total, s, a), j)
  {
    assert ClientOwns(s, j);
    if a.Run? && a.i < |s.clients| {
      assert ClientOwns(s, a.i);
      assert s.clients[a.i].holds && !Expired(s, a.i) ==> Held(s) == Some(a.i);
      assert s.clients[j].holds && !Expired(s, j) ==> Held(s) == Some(j);
    }
  }

  lemma OwnershipStep(total: int, s: State, a: Action)
    requires OwnershipInv(s) && !StrayDelete(s, a)
    ensures OwnershipInv(Step(total, s, a))
  {
    var t := Step(total, s, a);
    assert KeyOwned(t) by {
      if a.Run? && a.i < |s.clients| {
        assert ClientOwns(s, a.i);
      }
    }
    forall j | 0 <= j < |t.clients| ensures ClientOwns(t, j) {
      ClientOwnsStep(total, s, a, j);
    }
  }

  lemma {:induction false} OwnershipWithoutStray(total: int, n: nat, start: int, acts: seq<Action>)
    requires NoStrayDelete(total, Init(n, start), acts)
    ensures OwnershipInv(Exec(total, Init(n, start), acts))
  {
    if acts != [] {
      var before := acts[..|acts| - 1];
      forall k | 0 <= k < |before|
        ensures !StrayDelete(Exec(total, Init(n, start), before[..k]), before[k])
      {
        assert before[..k] == acts[..k];
      }
      OwnershipWithoutStray(total, n, start, before);
      var a := acts[|acts| - 1];
      assert !StrayDelete(Exec(total, Init(n, start), before), a);
      OwnershipStep(total, Exec(total, Init(n, start), before), a);
    }
  }

  /** The first misuse is always an overdue DEL, exactly: while no DEL has been
      stray, the next DEL of a client releases that client's own lease if and
      only if it comes less than ten seconds after its SET. */
  lemma ReleasesOwnLeaseIffInTime(total: int, n: nat, start: int, acts: seq<Action>, i: nat)
    requires NoStrayDelete(total, Init(n, start), acts)
    requires i < |Exec(total, Init(n, start), acts).clients|
    requires Exec(total, Init(n, start), acts).clients[i].pc.DelKey?
    ensures var s := Exec(total, Init(n, start), acts);
            Held(s) == Some(i) <==> s.now < s.clients[i].since + 10_000
  {
    OwnershipWithoutStray(total, n, start, acts);
    assert ClientOwns(Exec(total, Init(n, start), acts), i);
  }

  /** A DEL ten seconds or more after the SET it belongs to. */
  predicate OverdueDelete(s: State, a: Action) {
    a.Run? && a.i < |s.clients| && s.clients[a.i].pc.DelKey? && Expired(s, a.i)
  }

  /** Every DEL of the run comes less than ten seconds after its SET. */
  predicate DeletesInTime(total: int, s: State, acts: seq<Action>) {
    acts == [] ||
    (DeletesInTime(total, s, acts[..|acts| - 1]) &&
     !OverdueDelete(Exec(total, s, acts[..|acts| - 1]), acts[|acts| - 1]))
  }

  /** So a run in which every DEL comes in time has no stray DEL, whatever else
      happens in it. */
  lemma {:induction false} DeletesInTimeAreNotStray(total: int, n: nat, start: int, acts: seq<Action>)
    requires DeletesInTime(total, Init(n, start), acts)
    ensures NoStrayDelete(total, Init(n, start), acts)
  {
    if acts != [] {
      var last := |acts| - 1;
      var before := acts[..last];
      DeletesInTimeAreNotStray(total, n, start, before);
      var s := Exec(total, Init(n, start), before);
      if StrayDelete(s, acts[last]) {
        ReleasesOwnLeaseIffInTime(total, n, start, before, acts[last].i);
      }
      forall k | 0 <= k < |acts| ensures !StrayDelete(Exec(total, Init(n, start), acts[..k]), acts[k]) {
        if k < last {
          assert before[..k] == acts[..k];
        }
      }
    }
  }

  // The concrete runs below are built step by step: each lemma extends a run
  // and says where the longer run leads.

  lemma ThenRuns(total: int, s0: State, acts: seq<Action>, i: nat) returns (longer: seq<Action>)
    requires i < |Exec(total, s0, acts).clients|
    ensures Exec(total, s0, longer) == StepClient(total, Exec(total, s0, acts), i)
    ensures Increments(total, s0, longer) ==
            Increments(total, s0, acts) + if IsIncrement(Exec(total, s0, acts), Run(i)) then 1 else 0
    ensures DeletesInTime(total, s0, acts) && !Exec(total, s0, acts).clients[i].pc.DelKey? ==>
              DeletesInTime(total, s0, longer)
  {
    longer := acts + [Run(i)];
    assert longer[..|acts|] == acts;
    ExecSnoc(total, s0, acts, Run(i));
  }

  lemma ThenExpires(total: int, s0: State, acts: seq<Action>) returns (longer: seq<Action>)
    ensures Exec(total, s0, longer) == Exec(total, s0, acts).(now := Exec(total, s0, acts).now + LEASE)
    ensures Increments(total, s0, longer) == Increments(total, s0, acts)
    ensures DeletesInTime(total, s0, acts) ==> DeletesInTime(total, s0, longer)
  {
    longer := acts + [Tick(LEASE)];
    assert longer[..|acts|] == acts;
    ExecSnoc(total, s0, acts, Tick(LEASE));
  }

  lemma ThenReachesTryLock(total: int, s0: State, acts: seq<Action>, i: nat) returns (longer: seq<Action>)
    requires var s := Exec(total, s0, acts);
             i < |s.clients| && s.clients[i].pc.OuterTest? && s.counter < total
    ensures Exec(total, s0, longer) == Goto(Exec(total, s0, acts), i, TryLock)
    ensures Increments(total, s0, longer) == Increments(total, s0, acts)
    ensures DeletesInTime(total, s0, acts) ==> DeletesInTime(total, s0, longer)
  {
    longer := ThenRuns(total, s0, acts, i);
    longer := ThenRuns(total, s0, longer, i);
  }

  lemma ThenReadsCounter(total: int, s0: State, acts: seq<Action>, i: nat) returns (longer: seq<Action>)
    requires var s := Exec(total, s0, acts);
             i < |s.clients| && s.clients[i].pc.TryLock? && s.counter < total && Held(s).None?
    ensures var s := Exec(total, s0, acts);
            Exec(total, s0, longer) ==
            s.(key := Some(Lease(i, s.now + LEASE)),
               clients := s.clients[i := Client(WriteCounter(s.counter), true, s.now)])
    ensures Increments(total, s0, longer) == Increments(total, s0, acts)
    ensures DeletesInTime(total, s0, acts) ==> DeletesInTime(total, s0, longer)
  {
    longer := ThenRuns(total, s0, acts, i);
    longer := ThenRuns(total, s0, longer, i);
    longer := ThenRuns(total, s0, longer, i);
  }

  // The first client is past its matching GET, the second one wants the lock.
  lemma DeleteAhead(total: int, n: nat, start: int) returns (acts: seq<Action>)
    requires n >= 2 && start < total
    ensures var s := Exec(total, Init(n, start), acts);
            && |s.clients| == n && Held(s) == Some(0) && s.key.value.deadline == s.now + LEASE
            && s.clients[0].pc.DelKey? && s.clients[1].pc.TryLock?
  {
    var s0 := Init(n, start);
    acts := ThenReachesTryLock(total, s0, [], 1);
    acts := ThenReachesTryLock(total, s0, acts, 0);
    acts := ThenReadsCounter(total, s0, acts, 0);
    acts := ThenRuns(total, s0, acts, 0);
    acts := ThenRuns(total, s0, acts, 0);
  }

  /** The promise fails whenever two clients compete for any work at all: while
      the second one waits for the lock, the first one's lease runs out after
      its matching GET; the second one locks, and the first one's DEL removes
      the second one's key. */
  lemma StrayDeleteHappens(total: int, n: nat, start: int)
    requires n >= 2 && start < total
    ensures exists acts :: !NoStrayDelete(total, Init(n, start), acts)
  {
    var s0 := Init(n, start);
    var acts := DeleteAhead(total, n, start);
    acts := ThenExpires(total, s0, acts);
    acts := ThenRuns(total, s0, acts, 1);
    var stray := acts + [Run(0)];
    assert stray[..|acts|] == acts;
    assert StrayDelete(Exec(total, s0, stray[..|acts|]), stray[|acts|]);
    assert !NoStrayDelete(total, s0, stray);
  }

  // With no work every client only ever tests the counter and returns.
  ghost predicate Idle(start: int, s: State) {
    s.key == None && s.counter == start &&
    forall i | 0 <= i < |s.clients| :: s.clients[i].pc.OuterTest? || s.clients[i].pc.Returned?
  }

  lemma {:induction false} NoWorkStaysIdle(total: int, n: nat, start: int, acts: seq<Action>)
    requires start >= total
    ensures Idle(start, Exec(total, Init(n, start), acts))
    ensures Increments(total, Init(n, start), acts) == 0
  {
    if acts != [] {
      NoWorkStaysIdle(total, n, start, acts[..|acts| - 1]);
    }
  }

  // One client alone reads what it wrote, and owns whatever key there is.
  ghost predicate Alone(s: State) {
    |s.clients| <= 1 &&
    (s.key.Some? ==> s.key.value.owner < |s.clients|) &&
    (|s.clients| == 1 && s.clients[0].pc.WriteCounter? ==> s.clients[0].pc.seen == s.counter) &&
    (|s.clients| == 1 && (s.clients[0].pc.ReadCounter? || s.clients[0].pc.WriteCounter?) ==>
       s.counter < INT_MAX)
  }

  lemma AloneStep(total: int, s: State, a: Action)
    requires Alone(s) && INT_MIN <= s.counter <= INT_MAX && total <= INT_MAX
    ensures var t := Step(total, s, a);
            Alone(t) && INT_MIN <= t.counter <= INT_MAX &&
            t.counter == s.counter + if IsIncrement(s, a) then 1 else 0
  {
  }

  lemma {:induction false} OneClientStaysAlone(total: int, n: nat, start: int, acts: seq<Action>)
    requires n <= 1 && INT_MIN <= start <= INT_MAX && total <= INT_MAX
    ensures var s := Exec(total, Init(n, start), acts);
            Alone(s) && INT_MIN <= s.counter <= INT_MAX &&
            s.counter == start + Increments(total, Init(n, start), acts)
  {
    if acts != [] {
      var before := acts[..|acts| - 1];
      OneClientStaysAlone(total, n, start, before);
      AloneStep(total, Exec(total, Init(n, start), before), acts[|acts| - 1]);
    }
  }

  /** The exact condition, which the caller knows before starting: no run can
      ever release another client's lock if and only if there are fewer than two
      clients or there is nothing to count. */
  lemma UnlockPromiseExact(total: int, n: nat, start: int)
    requires INT_MIN <= start <= INT_MAX && total <= INT_MAX
    ensures (forall acts :: NoStrayDelete(total, Init(n, start), acts)) <==> n < 2 || start >= total
  {
    if n >= 2 && start < total {
      StrayDeleteHappens(total, n, start);
    } else {
      forall acts: seq<Action>, k | 0 <= k < |acts|
        ensures !StrayDelete(Exec(total, Init(n, start), acts[..k]), acts[k])
      {
        if n < 2 {
          OneClientStaysAlone(total, n, start, acts[..k]);
        } else {
          NoWorkStaysIdle(total, n, start, acts[..k]);
        }
      }
    }
  }
}
