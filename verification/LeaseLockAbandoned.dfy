/** A client that returns at the re-check does not run `unlock`: the lock it has
    just taken stays behind. When that can be the end of the whole run. */
module LeaseLockAbandoned {
  import opened Wrappers
  import opened LeaseLock
  import opened LeaseLockSafety
  import opened LeaseLockFairness
  import opened LeaseLockStarvation
  import opened LeaseLockUnlock

  /** A well-timed run that ends with every client returned and a live key. */
  ghost predicate LeavesKey(total: int, n: nat, start: int, acts: seq<Action>) {
    var s := Exec(total, Init(n, start), acts);
    WellTimedRun(total, Init(n, start), acts) && AllReturned(s) && Held(s).Some?
  }

  // ---- With a competitor it can happen ----

  lemma {:induction false} NeverLocksNobody(total: int, s: State, acts: seq<Action>, i: nat)
    requires i >= |s.clients|
    ensures NeverLocks(total, s, acts, i)
  {
    if acts != [] {
      NeverLocksNobody(total, s, acts[..|acts| - 1], i);
      ClientCount(total, s, acts[..|acts| - 1]);
    }
  }

  // Client 0 has the lock for the last increment; client 1 is about to try SET.
  lemma LastLockTaken(total: int, n: nat, start: int) returns (acts: seq<Action>)
    requires INT_MIN <= start < total <= INT_MAX && n >= 2
    ensures var s := Exec(total, Init(n, start), acts);
            && |s.clients| == n && s.counter == total - 1 && Held(s) == Some(0)
            && s.clients[0].pc.ReCheck? && s.clients[1].pc.TryLock?
            && forall j | 2 <= j < n :: Waits(s.clients[j])
    ensures OnlyRuns(acts)
  {
    var s0 := Init(n, start);
    var rounds := StarvingRounds(total, n, start, 0, n, total - 1 - start);
    var counted := Concat(rounds);
    var taken := TakesIt(total, Exec(total, s0, counted), 0, n);
    acts := counted + taken;
    ExecAppend(total, s0, counted, taken);
    NeverLocksNobody(total, s0, acts, n);
    var s := Exec(total, s0, acts);
    assert Held(s) == Some(0) && Waits(s.clients[1]);
    acts := Turn(total, s0, acts, 1, n);
    acts := Turn(total, s0, acts, 1, n);
  }

  // Client 0 counts to TOTAL and unlocks, client 1 locks and returns at the re-check.
  lemma LockLeftBehind(total: int, n: nat, start: int) returns (acts: seq<Action>)
    requires INT_MIN <= start < total <= INT_MAX && n >= 2
    ensures var s := Exec(total, Init(n, start), acts);
            && |s.clients| == n && s.counter == total && Held(s) == Some(1)
            && s.clients[1].pc.Returned?
            && forall j | 0 <= j < n && j != 1 :: Waits(s.clients[j])
    ensures OnlyRuns(acts)
  {
    var s0 := Init(n, start);
    acts := LastLockTaken(total, n, start);
    NeverLocksNobody(total, s0, acts, n);
    acts := Counts(total, s0, acts, 0, n);
    acts := Releases(total, s0, acts, 0, n);
    acts := Turn(total, s0, acts, 1, n);
    acts := Turn(total, s0, acts, 1, n);
  }

  predicate ReturnedOrWaits(c: Client) {
    c.pc.Returned? || Waits(c)
  }

  lemma FinishesOne(total: int, s0: State, acts: seq<Action>, j: nat) returns (longer: seq<Action>)
    requires OnlyRuns(acts)
    requires var s := Exec(total, s0, acts);
             j < |s.clients| && s.counter == total && ReturnedOrWaits(s.clients[j])
    ensures var s, t := Exec(total, s0, acts), Exec(total, s0, longer);
            && |t.clients| == |s.clients| && t == s.(clients := t.clients)
            && t.clients[j].pc.Returned?
            && forall k | 0 <= k < |s.clients| && k != j :: t.clients[k] == s.clients[k]
    ensures OnlyRuns(longer)
  {
    NeverLocksNobody(total, s0, acts, |s0.clients|);
    ClientCount(total, s0, acts);
    longer := Turn(total, s0, acts, j, |s0.clients|);
    assert Exec(total, s0, longer).clients[j].pc.InnerTest? || Exec(total, s0, longer).clients[j].pc.Returned?;
    longer := Turn(total, s0, longer, j, |s0.clients|);
    longer := Turn(total, s0, longer, j, |s0.clients|);
  }

  // Everyone who still waits returns, without touching the key.
  lemma {:induction false} OthersReturn(total: int, s0: State, acts: seq<Action>, k: nat) returns (longer: seq<Action>)
    requires OnlyRuns(acts)
    requires var s := Exec(total, s0, acts);
             && k <= |s.clients| && s.counter == total
             && forall j | 0 <= j < |s.clients| :: ReturnedOrWaits(s.clients[j])
    ensures var s, t := Exec(total, s0, acts), Exec(total, s0, longer);
            && |t.clients| == |s.clients| && t == s.(clients := t.clients)
            && (forall j | 0 <= j < |s.clients| :: ReturnedOrWaits(t.clients[j]))
            && (forall j | 0 <= j < k :: t.clients[j].pc.Returned?)
    ensures OnlyRuns(longer)
    decreases k
  {
    if k == 0 {
      longer := acts;
    } else {
      longer := OthersReturn(total, s0, acts, k - 1);
      longer := FinishesOne(total, s0, longer, k - 1);
    }
  }

  lemma KeyCanBeLeft(total: int, n: nat, start: int)
    requires INT_MIN <= start < total <= INT_MAX && n >= 2
    ensures exists acts :: LeavesKey(total, n, start, acts)
  {
    var acts := LockLeftBehind(total, n, start);
    var all := OthersReturn(total, Init(n, start), acts, n);
    InstantRunsAreWellTimed(total, n, start, all);
    assert LeavesKey(total, n, start, all);
  }

  // ---- Without one it cannot ----

  // A client by itself re-checks the counter it has just tested, so a lock it
  // takes leads to an increment and to an unlock.
  ghost predicate Tidy(total: int, s: State) {
    && |s.clients| <= 1
    && (|s.clients| == 0 ==> s.key == None)
    && (|s.clients| == 1 ==>
          && (!s.clients[0].holds ==> s.key == None)
          && (s.clients[0].pc.TryLock? || (s.clients[0].pc.ReCheck? && s.clients[0].holds) ==> s.counter < total))
  }

  lemma TidyStep(total: int, s: State, a: Action)
    requires Inv(total, s) && WellTimed(s) && Tidy(total, s)
    ensures Tidy(total, Step(total, s, a))
  {
    if |s.clients| == 1 {
      assert ClientInv(total, s, 0);
    }
  }

  lemma {:induction false} OneClientTidies(total: int, n: nat, start: int, acts: seq<Action>)
    requires n <= 1 && INT_MIN <= start <= total <= INT_MAX
    requires WellTimedRun(total, Init(n, start), acts)
    ensures Tidy(total, Exec(total, Init(n, start), acts))
  {
    if acts != [] {
      var before := acts[..|acts| - 1];
      PrefixWellTimed(total, Init(n, start), acts, |acts| - 1);
      OneClientTidies(total, n, start, before);
      RunInv(total, Init(n, start), before);
      assert WellTimed(Exec(total, Init(n, start), before));
      TidyStep(total, Exec(total, Init(n, start), before), acts[|acts| - 1]);
    }
  }

  lemma KeyIsFree(total: int, n: nat, start: int, acts: seq<Action>)
    requires INT_MIN <= start <= total <= INT_MAX && (n <= 1 || start == total)
    requires WellTimedRun(total, Init(n, start), acts) && AllReturned(Exec(total, Init(n, start), acts))
    ensures Exec(total, Init(n, start), acts).key == None
  {
    if start == total {
      NoWorkStaysIdle(total, n, start, acts);
    } else {
      OneClientTidies(total, n, start, acts);
      RunInv(total, Init(n, start), acts);
      ClientCount(total, Init(n, start), acts);
      if n == 1 {
        assert ClientInv(total, Exec(total, Init(n, start), acts), 0);
      }
    }
  }

  /** A lock is really left behind, exactly: some well-timed run ends with every
      client returned and the key still held if and only if two clients compete for
      any work. The last client to lock finds the counter at TOTAL and returns
      without `unlock`; whoever comes next waits for the expiry. */
  lemma AbandonedLockExact(total: int, n: nat, start: int)
    requires INT_MIN <= start <= total <= INT_MAX
    ensures (exists acts :: LeavesKey(total, n, start, acts)) <==> n >= 2 && start < total
  {
    if n >= 2 && start < total {
      KeyCanBeLeft(total, n, start);
    } else {
      forall acts ensures !LeavesKey(total, n, start, acts) {
        if LeavesKey(total, n, start, acts) {
          KeyIsFree(total, n, start, acts);
        }
      }
    }
  }
}
