/** What every well-timed run of the lease lock keeps: mutual exclusion, and no
    increment lost. Mutual exclusion rests on "only a holder reaches the
    increment", that rests on the counter never falling, and that rests on
    mutual exclusion, so all three are one inductive invariant. */
module LeaseLockSafety {
  import opened Wrappers
  import opened LeaseLock

  ghost predicate ClientInv(total: int, s: State, i: nat)
    requires i < |s.clients|
  {
    var c := s.clients[i];
    && (Committed(c.pc) ==> c.holds)
    && (c.holds ==> (Committed(c.pc) || c.pc.ReCheck?) && c.since <= s.now)
    && (c.holds && !Expired(s, i) ==> s.key == Some(Lease(i, c.since + LEASE)))
    && (c.pc.ReCheck? && !c.holds ==> s.counter == total)
    && (c.pc.Returned? ==> s.counter == total)
    && (c.pc.ReadCounter? ==> s.counter < total)
    && (c.pc.WriteCounter? ==> c.pc.seen == s.counter < total)
  }

  /** A live key belongs to a client inside the lock, or to one that returned at
      the re-check and left it behind. */
  ghost predicate KeyInv(s: State) {
    Held(s).Some? ==>
      var o := Held(s).value;
      o < |s.clients| &&
      (s.clients[o].pc.Returned? ||
       (s.clients[o].holds && s.key.value.deadline == s.clients[o].since + LEASE))
  }

  ghost predicate Inv(total: int, s: State) {
    && INT_MIN <= s.counter <= total <= INT_MAX
    && (forall i | 0 <= i < |s.clients| :: ClientInv(total, s, i))
    && KeyInv(s)
  }

  lemma InitInv(total: int, n: nat, start: int)
    requires INT_MIN <= start <= total <= INT_MAX
    ensures Inv(total, Init(n, start))
  {
  }

  /** Live leases have one owner. */
  lemma OneLiveHolder(total: int, s: State, i: nat, j: nat)
    requires Inv(total, s)
    requires i < |s.clients| && s.clients[i].holds && !Expired(s, i)
    requires j < |s.clients| && s.clients[j].holds && !Expired(s, j)
    ensures i == j
  {
    assert ClientInv(total, s, i) && ClientInv(total, s, j);
  }

  // A client keeps its own invariant when it takes a step ...
  lemma OwnStep(total: int, s: State, i: nat)
    requires Inv(total, s) && WellTimed(s) && i < |s.clients|
    ensures var t := StepClient(total, s, i);
            && ClientInv(total, t, i)
            && s.counter <= t.counter <= total
            && t.counter == s.counter + if IsIncrement(s, Run(i)) then 1 else 0
  {
    assert ClientInv(total, s, i);
  }

  // ... and when another one does: what a committed client changes, no other
  // committed client or live holder is there to see.
  lemma OthersStep(total: int, s: State, i: nat, j: nat)
    requires Inv(total, s) && WellTimed(s)
    requires i < |s.clients| && j < |s.clients| && i != j
    ensures ClientInv(total, StepClient(total, s, i), j)
  {
    assert ClientInv(total, s, i) && ClientInv(total, s, j);
    if Committed(s.clients[i].pc) && s.clients[j].holds && !Expired(s, j) {
      OneLiveHolder(total, s, i, j);
    }
  }

  lemma KeyStep(total: int, s: State, i: nat)
    requires Inv(total, s) && WellTimed(s) && i < |s.clients|
    ensures KeyInv(StepClient(total, s, i))
  {
    assert ClientInv(total, s, i);
  }

  lemma StepInv(total: int, s: State, a: Action)
    requires Inv(total, s) && WellTimed(s)
    ensures Inv(total, Step(total, s, a))
    ensures s.counter <= Step(total, s, a).counter
    ensures Step(total, s, a).counter == s.counter + if IsIncrement(s, a) then 1 else 0
  {
    var t := Step(total, s, a);
    if a.Run? && a.i < |s.clients| {
      OwnStep(total, s, a.i);
      KeyStep(total, s, a.i);
      forall j | 0 <= j < |t.clients| ensures ClientInv(total, t, j) {
        if j != a.i {
          OthersStep(total, s, a.i, j);
        }
      }
    } else {
      forall j | 0 <= j < |t.clients| ensures ClientInv(total, t, j) {
        assert ClientInv(total, s, j);
      }
    }
  }

  lemma PrefixWellTimed(total: int, s: State, acts: seq<Action>, k: nat)
    requires k <= |acts| && WellTimedRun(total, s, acts)
    ensures WellTimedRun(total, s, acts[..k])
  {
    forall m | 0 <= m <= k ensures WellTimed(Exec(total, s, acts[..k][..m])) {
      assert acts[..k][..m] == acts[..m];
    }
  }

  lemma {:induction false} RunInv(total: int, s: State, acts: seq<Action>)
    requires Inv(total, s) && WellTimedRun(total, s, acts)
    ensures Inv(total, Exec(total, s, acts))
    ensures Exec(total, s, acts).counter == s.counter + Increments(total, s, acts)
  {
    if acts != [] {
      var before := acts[..|acts| - 1];
      PrefixWellTimed(total, s, acts, |acts| - 1);
      RunInv(total, s, before);
      assert WellTimed(Exec(total, s, before));
      StepInv(total, Exec(total, s, before), acts[|acts| - 1]);
    }
  }

  lemma PrefixOfSuffix<T>(xs: seq<T>, k: nat, m: nat)
    requires k + m <= |xs|
    ensures xs[..k] + xs[k..][..m] == xs[..k + m]
  {
  }

  lemma SuffixWellTimed(total: int, s: State, acts: seq<Action>, k: nat)
    requires k <= |acts| && WellTimedRun(total, s, acts)
    ensures WellTimedRun(total, Exec(total, s, acts[..k]), acts[k..])
  {
    forall m | 0 <= m <= |acts| - k
      ensures WellTimed(Exec(total, Exec(total, s, acts[..k]), acts[k..][..m]))
    {
      ExecAppend(total, s, acts[..k], acts[k..][..m]);
      PrefixOfSuffix(acts, k, m);
    }
  }

  /** The server never drops the lease of a client that is still in time: from
      its SET to the end of its unlock, GET answers with that client's id. */
  lemma LiveLeaseStaysHeld(total: int, n: nat, start: int, acts: seq<Action>, i: nat)
    requires INT_MIN <= start <= total <= INT_MAX
    requires WellTimedRun(total, Init(n, start), acts)
    requires i < |Exec(total, Init(n, start), acts).clients|
    requires Exec(total, Init(n, start), acts).clients[i].holds
    ensures var s := Exec(total, Init(n, start), acts);
            Committed(s.clients[i].pc) || !Expired(s, i) ==> Held(s) == Some(i)
  {
    var s := Exec(total, Init(n, start), acts);
    RunInv(total, Init(n, start), acts);
    assert WellTimed(Exec(total, Init(n, start), acts[..|acts|]));
    assert acts[..|acts|] == acts;
    assert ClientInv(total, s, i);
  }

  /** Mutual exclusion, for any number of clients and in every state of every
      well-timed run: at most one client is between the re-check that let it in
      and the end of its unlock, it got there by a successful SET, and no other
      client holds an unexpired lease meanwhile. */
  lemma MutualExclusion(total: int, n: nat, start: int, acts: seq<Action>, i: nat, j: nat)
    requires INT_MIN <= start <= total <= INT_MAX
    requires WellTimedRun(total, Init(n, start), acts)
    requires i < n && j < n
    ensures var s := Exec(total, Init(n, start), acts);
            && |s.clients| == n
            && (Committed(s.clients[i].pc) ==> s.clients[i].holds)
            && (Committed(s.clients[i].pc) && Committed(s.clients[j].pc) ==> i == j)
            && (Committed(s.clients[i].pc) && s.clients[j].holds && !Expired(s, j) ==> i == j)
  {
    var s := Exec(total, Init(n, start), acts);
    ClientCount(total, Init(n, start), acts);
    RunInv(total, Init(n, start), acts);
    assert acts[..|acts|] == acts;
    assert WellTimed(s);
    assert ClientInv(total, s, i) && ClientInv(total, s, j);
  }

  lemma TimelyStateIsWellTimed(total: int, s: State)
    requires Inv(total, s) && Timely(s)
    ensures WellTimed(s)
  {
    forall i | 0 <= i < |s.clients| && Committed(s.clients[i].pc) ensures !Expired(s, i) {
      assert ClientInv(total, s, i);
    }
  }

  lemma {:induction false} TimelyIsWellTimed(total: int, s: State, acts: seq<Action>)
    requires Inv(total, s) && TimelyRun(total, s, acts)
    ensures WellTimedRun(total, s, acts)
  {
    if acts != [] {
      var before := acts[..|acts| - 1];
      forall m | 0 <= m <= |before| ensures Timely(Exec(total, s, before[..m])) {
        assert before[..m] == acts[..m];
      }
      TimelyIsWellTimed(total, s, before);
      RunInv(total, s, before);
      assert before[..|before|] == before;
      StepInv(total, Exec(total, s, before), acts[|acts| - 1]);
      forall k | 0 <= k <= |acts| ensures WellTimed(Exec(total, s, acts[..k])) {
        if k < |acts| {
          assert acts[..k] == before[..k];
        } else {
          assert acts[..k] == acts;
          TimelyStateIsWellTimed(total, Exec(total, s, acts));
        }
      }
    } else {
      forall k | 0 <= k <= |acts| ensures WellTimed(Exec(total, s, acts[..k])) {
        assert acts[..k] == acts;
        TimelyStateIsWellTimed(total, s);
      }
    }
  }

  /** When holders are also in time at the re-check, at most one client is
      anywhere between a successful SET and the end of its unlock. */
  lemma OneHolder(total: int, n: nat, start: int, acts: seq<Action>, i: nat, j: nat)
    requires INT_MIN <= start <= total <= INT_MAX
    requires TimelyRun(total, Init(n, start), acts)
    requires i < n && j < n
    ensures var s := Exec(total, Init(n, start), acts);
            |s.clients| == n && (s.clients[i].holds && s.clients[j].holds ==> i == j)
  {
    var s := Exec(total, Init(n, start), acts);
    ClientCount(total, Init(n, start), acts);
    InitInv(total, n, start);
    TimelyIsWellTimed(total, Init(n, start), acts);
    RunInv(total, Init(n, start), acts);
    assert acts[..|acts|] == acts;
    assert Timely(s);
    if s.clients[i].holds && s.clients[j].holds {
      OneLiveHolder(total, s, i, j);
    }
  }

  /** No increment is lost: in every well-timed run the counter is its start
      value plus the increments completed, and never exceeds TOTAL; as soon as
      one client has returned it is TOTAL exactly. */
  lemma NoIncrementLost(total: int, n: nat, start: int, acts: seq<Action>)
    requires INT_MIN <= start <= total <= INT_MAX
    requires WellTimedRun(total, Init(n, start), acts)
    ensures var s := Exec(total, Init(n, start), acts);
            && s.counter == start + Increments(total, Init(n, start), acts) <= total
            && (forall i | 0 <= i < |s.clients| :: s.clients[i].pc.Returned? ==> s.counter == total)
            && (n > 0 && AllReturned(s) ==> Increments(total, Init(n, start), acts) == total - start)
  {
    var s := Exec(total, Init(n, start), acts);
    ClientCount(total, Init(n, start), acts);
    RunInv(total, Init(n, start), acts);
    forall i | 0 <= i < |s.clients| && s.clients[i].pc.Returned? ensures s.counter == total {
      assert ClientInv(total, s, i);
    }
    if n > 0 && AllReturned(s) {
      assert s.clients[0].pc.Returned?;
    }
  }

  lemma {:induction false} CounterRises(total: int, s: State, acts: seq<Action>, j: nat, k: nat)
    requires Inv(total, s) && WellTimedRun(total, s, acts) && j <= k <= |acts|
    ensures Exec(total, s, acts[..j]).counter <= Exec(total, s, acts[..k]).counter
    decreases k
  {
    if j < k {
      CounterRises(total, s, acts, j, k - 1);
      PrefixWellTimed(total, s, acts, k - 1);
      RunInv(total, s, acts[..k - 1]);
      assert acts[..k] == acts[..k - 1] + [acts[k - 1]];
      ExecSnoc(total, s, acts[..k - 1], acts[k - 1]);
      StepInv(total, Exec(total, s, acts[..k - 1]), acts[k - 1]);
    }
  }

  /** The counter never falls between two moments of a well-timed run. */
  lemma CounterNeverFalls(total: int, n: nat, start: int, acts: seq<Action>, j: nat, k: nat)
    requires INT_MIN <= start <= total <= INT_MAX
    requires WellTimedRun(total, Init(n, start), acts)
    requires j <= k <= |acts|
    ensures Exec(total, Init(n, start), acts[..j]).counter <= Exec(total, Init(n, start), acts[..k]).counter
  {
    InitInv(total, n, start);
    CounterRises(total, Init(n, start), acts, j, k);
  }

  /** A live key whose owner is no longer inside the lock was left behind by a
      client that returned at the re-check, and by then the counter is at TOTAL,
      so nobody needs that lock again. */
  lemma AbandonedLock(total: int, n: nat, start: int, acts: seq<Action>)
    requires INT_MIN <= start <= total <= INT_MAX
    requires WellTimedRun(total, Init(n, start), acts)
    ensures var s := Exec(total, Init(n, start), acts);
            Held(s).Some? ==>
              var o := Held(s).value;
              o < |s.clients| &&
              (s.clients[o].holds || (s.clients[o].pc.Returned? && s.counter == total))
  {
    var s := Exec(total, Init(n, start), acts);
    RunInv(total, Init(n, start), acts);
    if Held(s).Some? {
      assert ClientInv(total, s, Held(s).value);
    }
  }
}
