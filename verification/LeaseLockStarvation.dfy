/** What fairness does not give: a client can lose the race for the lock every
    time, in rounds that give everyone their turns and in which no time passes. */
module LeaseLockStarvation {
  import opened Wrappers
  import opened LeaseLock
  import opened LeaseLockSafety
  import opened LeaseLockLiveness
  import opened LeaseLockFairness

  /** Client i never takes the lock in the run. */
  predicate NeverLocks(total: int, s: State, acts: seq<Action>, i: nat) {
    acts == [] ||
    (NeverLocks(total, s, acts[..|acts| - 1], i) &&
     !(acts[|acts| - 1] == Run(i) && TakesLock(Exec(total, s, acts[..|acts| - 1]), Run(i))))
  }

  /** Fair rounds, in time, that count to TOTAL without client i. */
  ghost predicate Starves(total: int, n: nat, start: int, i: nat, rounds: seq<seq<Action>>) {
    && (forall k | 0 <= k < |rounds| :: Round(n, rounds[k]))
    && WellTimedRun(total, Init(n, start), Concat(rounds))
    && Exec(total, Init(n, start), Concat(rounds)).counter == total
    && NeverLocks(total, Init(n, start), Concat(rounds), i)
  }

  predicate OnlyRuns(acts: seq<Action>) {
    forall k | 0 <= k < |acts| :: acts[k].Run?
  }

  lemma {:induction false} NeverLocksAppend(total: int, s: State, a: seq<Action>, b: seq<Action>, i: nat)
    requires NeverLocks(total, s, a, i) && NeverLocks(total, Exec(total, s, a), b, i)
    ensures NeverLocks(total, s, a + b, i)
    decreases |b|
  {
    if b == [] {
      assert a + b == a;
    } else {
      assert (a + b)[..|a + b| - 1] == a + b[..|b| - 1];
      NeverLocksAppend(total, s, a, b[..|b| - 1], i);
      ExecAppend(total, s, a, b[..|b| - 1]);
    }
  }

  // ---- One round, built turn by turn ----

  lemma Turn(total: int, s0: State, acts: seq<Action>, j: nat, i: nat) returns (longer: seq<Action>)
    requires j < |Exec(total, s0, acts).clients| && OnlyRuns(acts) && NeverLocks(total, s0, acts, i)
    requires j == i ==> !TakesLock(Exec(total, s0, acts), Run(i))
    ensures Exec(total, s0, longer) == StepClient(total, Exec(total, s0, acts), j)
    ensures OnlyRuns(longer) && NeverLocks(total, s0, longer, i)
    ensures forall x: nat :: TurnsOf(longer, x) == TurnsOf(acts, x) + if x == j then 1 else 0
  {
    longer := acts + [Run(j)];
    assert longer[..|acts|] == acts;
    ExecSnoc(total, s0, acts, Run(j));
  }

  predicate Waits(c: Client) {
    !c.holds && (c.pc.Sleep? || c.pc.OuterTest?)
  }

  // A client that finds the lock taken goes round its loop.
  lemma Cycle(total: int, s0: State, acts: seq<Action>, j: nat, i: nat) returns (longer: seq<Action>)
    requires OnlyRuns(acts) && NeverLocks(total, s0, acts, i)
    requires var s := Exec(total, s0, acts);
             j < |s.clients| && Waits(s.clients[j]) && s.counter < total && Held(s).Some?
    ensures Exec(total, s0, longer) == Goto(Exec(total, s0, acts), j, Sleep)
    ensures OnlyRuns(longer) && NeverLocks(total, s0, longer, i)
    ensures forall x: nat :: TurnsOf(longer, x) == TurnsOf(acts, x) + if x == j then 3 else 0
  {
    longer := Turn(total, s0, acts, j, i);
    longer := Turn(total, s0, longer, j, i);
    longer := Turn(total, s0, longer, j, i);
  }

  lemma ThreeCycles(total: int, s0: State, acts: seq<Action>, j: nat, i: nat) returns (longer: seq<Action>)
    requires OnlyRuns(acts) && NeverLocks(total, s0, acts, i)
    requires var s := Exec(total, s0, acts);
             j < |s.clients| && Waits(s.clients[j]) && s.counter < total && Held(s).Some?
    ensures Exec(total, s0, longer) == Goto(Exec(total, s0, acts), j, Sleep)
    ensures OnlyRuns(longer) && NeverLocks(total, s0, longer, i)
    ensures forall x: nat :: TurnsOf(longer, x) == TurnsOf(acts, x) + if x == j then 9 else 0
  {
    longer := Cycle(total, s0, acts, j, i);
    longer := Cycle(total, s0, longer, j, i);
    longer := Cycle(total, s0, longer, j, i);
  }

  // Everyone but w waits.
  ghost predicate AllWait(s: State, w: nat) {
    forall j | 0 <= j < |s.clients| && j != w :: Waits(s.clients[j])
  }

  // The first k clients, w excepted, go round three times each.
  lemma {:induction false} OthersCycle(total: int, s0: State, acts: seq<Action>, w: nat, i: nat, k: nat)
    returns (longer: seq<Action>)
    requires OnlyRuns(acts) && NeverLocks(total, s0, acts, i)
    requires var s := Exec(total, s0, acts);
             k <= |s.clients| && w < |s.clients| && AllWait(s, w) && s.counter < total && Held(s).Some?
    ensures var s, t := Exec(total, s0, acts), Exec(total, s0, longer);
            && t == s.(clients := t.clients) && |t.clients| == |s.clients|
            && t.clients[w] == s.clients[w] && AllWait(t, w)
    ensures OnlyRuns(longer) && NeverLocks(total, s0, longer, i)
    ensures forall x: nat :: TurnsOf(longer, x) >= TurnsOf(acts, x) + if x < k && x != w then 9 else 0
    decreases k
  {
    if k == 0 {
      longer := acts;
    } else {
      longer := OthersCycle(total, s0, acts, w, i, k - 1);
      if k - 1 != w {
        longer := ThreeCycles(total, s0, longer, k - 1, i);
      }
    }
  }

  // Between rounds: the key is free, w stands at the top of its loop.
  ghost predicate Ready(total: int, s: State, w: nat) {
    && s.key == None && INT_MIN <= s.counter && w < |s.clients|
    && s.clients[w].pc.OuterTest? && AllWait(s, w)
  }

  lemma TakesIt(total: int, s0: State, w: nat, i: nat) returns (acts: seq<Action>)
    requires Ready(total, s0, w) && s0.counter < total && w != i
    ensures Exec(total, s0, acts) ==
            s0.(key := Some(Lease(w, s0.now + LEASE)), clients := s0.clients[w := Client(ReCheck, true, s0.now)])
    ensures OnlyRuns(acts) && NeverLocks(total, s0, acts, i)
    ensures TurnsOf(acts, w) == 3
  {
    acts := Turn(total, s0, [], w, i);
    var s := Goto(s0, w, InnerTest);
    assert Exec(total, s0, acts) == s && Held(s).None?;
    TriedOnce(total, s, w);
    acts := Turn(total, s0, acts, w, i);
    acts := Turn(total, s0, acts, w, i);
  }

  lemma Counts(total: int, s0: State, acts: seq<Action>, w: nat, i: nat) returns (longer: seq<Action>)
    requires OnlyRuns(acts) && NeverLocks(total, s0, acts, i) && w != i
    requires var s := Exec(total, s0, acts);
             w < |s.clients| && s.clients[w].pc.ReCheck? && INT_MIN <= s.counter < total <= INT_MAX
    ensures var s := Exec(total, s0, acts);
            Exec(total, s0, longer) == Goto(s, w, GetKey).(counter := s.counter + 1)
    ensures OnlyRuns(longer) && NeverLocks(total, s0, longer, i)
    ensures forall x: nat :: TurnsOf(longer, x) == TurnsOf(acts, x) + if x == w then 3 else 0
  {
    CountedOne(total, Exec(total, s0, acts), w);
    longer := Turn(total, s0, acts, w, i);
    longer := Turn(total, s0, longer, w, i);
    longer := Turn(total, s0, longer, w, i);
  }

  lemma Releases(total: int, s0: State, acts: seq<Action>, w: nat, i: nat) returns (longer: seq<Action>)
    requires OnlyRuns(acts) && NeverLocks(total, s0, acts, i) && w != i
    requires var s := Exec(total, s0, acts);
             w < |s.clients| && s.clients[w].pc.GetKey? && Held(s) == Some(w)
    ensures Exec(total, s0, longer) == Leave(Exec(total, s0, acts), w, OuterTest).(key := None)
    ensures OnlyRuns(longer) && NeverLocks(total, s0, longer, i)
    ensures forall x: nat :: TurnsOf(longer, x) == TurnsOf(acts, x) + if x == w then 2 else 0
  {
    longer := Turn(total, s0, acts, w, i);
    longer := Turn(total, s0, longer, w, i);
  }

  // Client w takes the lock, everyone else goes round three times, w counts.
  lemma StarvingRound(total: int, s0: State, w: nat, i: nat) returns (acts: seq<Action>)
    requires Ready(total, s0, w) && s0.counter < total <= INT_MAX && w != i
    ensures var t := Exec(total, s0, acts);
            Ready(total, t, w) && |t.clients| == |s0.clients| && t.counter == s0.counter + 1
    ensures OnlyRuns(acts) && NeverLocks(total, s0, acts, i) && Round(|s0.clients|, acts)
  {
    var taken := TakesIt(total, s0, w, i);
    var waited := OthersCycle(total, s0, taken, w, i, |s0.clients|);
    var counted := Counts(total, s0, waited, w, i);
    acts := Releases(total, s0, counted, w, i);
  }

  // ---- Whole runs ----

  lemma {:induction false} StarvingRounds(total: int, n: nat, start: int, w: nat, i: nat, k: nat)
    returns (rounds: seq<seq<Action>>)
    requires INT_MIN <= start && start + k <= total <= INT_MAX && w < n && w != i
    ensures var t := Exec(total, Init(n, start), Concat(rounds));
            Ready(total, t, w) && |t.clients| == n && t.counter == start + k
    ensures forall j | 0 <= j < |rounds| :: Round(n, rounds[j])
    ensures OnlyRuns(Concat(rounds)) && NeverLocks(total, Init(n, start), Concat(rounds), i)
    decreases k
  {
    if k == 0 {
      rounds := [];
    } else {
      var before := StarvingRounds(total, n, start, w, i, k - 1);
      var done := Concat(before);
      var acts := StarvingRound(total, Exec(total, Init(n, start), done), w, i);
      rounds := before + [acts];
      assert Concat(rounds) == done + acts by {
        assert rounds[..|before|] == before;
      }
      ExecAppend(total, Init(n, start), done, acts);
      NeverLocksAppend(total, Init(n, start), done, acts, i);
    }
  }

  // A client that never locks never counts: alone, it cannot reach TOTAL.
  lemma NoLockNoStep(total: int, s: State, a: Action)
    requires Inv(total, s) && |s.clients| == 1 && !s.clients[0].holds
    requires !(a == Run(0) && TakesLock(s, a))
    ensures var t := Step(total, s, a);
            |t.clients| == 1 && !t.clients[0].holds && t.counter == s.counter
  {
    assert ClientInv(total, s, 0);
  }

  lemma {:induction false} NoLockNoCount(total: int, start: int, acts: seq<Action>)
    requires INT_MIN <= start <= total <= INT_MAX
    requires WellTimedRun(total, Init(1, start), acts) && NeverLocks(total, Init(1, start), acts, 0)
    ensures var s := Exec(total, Init(1, start), acts);
            |s.clients| == 1 && !s.clients[0].holds && s.counter == start
  {
    if acts != [] {
      var before := acts[..|acts| - 1];
      PrefixWellTimed(total, Init(1, start), acts, |acts| - 1);
      NoLockNoCount(total, start, before);
      RunInv(total, Init(1, start), before);
      NoLockNoStep(total, Exec(total, Init(1, start), before), acts[|acts| - 1]);
    }
  }

  /** Individual progress, exactly: fair and well-timed rounds can count to TOTAL
      without client i ever taking the lock if and only if it has a competitor, or
      there is nothing to count. */
  lemma StarvationExact(total: int, n: nat, start: int, i: nat)
    requires INT_MIN <= start <= total <= INT_MAX && i < n
    ensures (exists rounds :: Starves(total, n, start, i, rounds)) <==> n >= 2 || start == total
  {
    if n >= 2 {
      var rounds := StarvingRounds(total, n, start, if i == 0 then 1 else 0, i, total - start);
      InstantRunsAreWellTimed(total, n, start, Concat(rounds));
      assert Starves(total, n, start, i, rounds);
    } else if start == total {
      InstantRunsAreWellTimed(total, n, start, Concat([]));
      assert Starves(total, n, start, i, []);
    } else {
      forall rounds ensures !Starves(total, n, start, i, rounds) {
        if Starves(total, n, start, i, rounds) {
          NoLockNoCount(total, start, Concat(rounds));
        }
      }
    }
  }
}
