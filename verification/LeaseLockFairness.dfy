/** Fair runs finish: in every well-timed run that keeps giving every client its
    turns, all clients return, within a number of rounds known beforehand. */
module LeaseLockFairness {
  import opened Wrappers
  import opened LeaseLock
  import opened LeaseLockSafety
  import opened LeaseLockLiveness

  /** A SET that is answered with OK. */
  predicate TakesLock(s: State, a: Action) {
    a.Run? && a.i < |s.clients| && s.clients[a.i].pc.TryLock? && Held(s).None?
  }

  /** How many times the lock is taken in a run. */
  function Locks(total: int, s: State, acts: seq<Action>): nat {
    if acts == [] then 0
    else
      var before := acts[..|acts| - 1];
      Locks(total, s, before) + if TakesLock(Exec(total, s, before), acts[|acts| - 1]) then 1 else 0
  }

  lemma {:induction false} LocksAppend(total: int, s: State, a: seq<Action>, b: seq<Action>)
    ensures Locks(total, s, a + b) == Locks(total, s, a) + Locks(total, Exec(total, s, a), b)
    decreases |b|
  {
    if b == [] {
      assert a + b == a;
    } else {
      var front := b[..|b| - 1];
      assert (a + b)[..|a + b| - 1] == a + front;
      LocksAppend(total, s, a, front);
      ExecAppend(total, s, a, front);
    }
  }

  // ---- The lock is taken at most TOTAL - start + n times ----

  // A client whose last SET has not led to an increment, or that has returned.
  predicate Unspent(c: Client) {
    c.pc.Returned? || (c.holds && (c.pc.ReCheck? || c.pc.ReadCounter? || c.pc.WriteCounter?))
  }

  function UnspentAmong(clients: seq<Client>): (k: nat)
    ensures k <= |clients|
  {
    if clients == [] then 0
    else UnspentAmong(clients[..|clients| - 1]) + if Unspent(clients[|clients| - 1]) then 1 else 0
  }

  lemma {:induction false} UnspentUpdate(clients: seq<Client>, i: nat, c: Client)
    requires i < |clients|
    ensures UnspentAmong(clients[i := c]) ==
            UnspentAmong(clients) - (if Unspent(clients[i]) then 1 else 0) + (if Unspent(c) then 1 else 0)
  {
    var last := |clients| - 1;
    if i == last {
      assert clients[i := c][..last] == clients[..last];
    } else {
      assert clients[i := c][..last] == clients[..last][i := c];
      UnspentUpdate(clients[..last], i, c);
    }
  }

  lemma UnspentStep(total: int, s: State, a: Action)
    ensures UnspentAmong(Step(total, s, a).clients) + (if IsIncrement(s, a) then 1 else 0) >=
            UnspentAmong(s.clients) + (if TakesLock(s, a) then 1 else 0)
  {
    if a.Run? && a.i < |s.clients| {
      var t := Step(total, s, a);
      assert t.clients == s.clients[a.i := t.clients[a.i]];
      UnspentUpdate(s.clients, a.i, t.clients[a.i]);
    }
  }

  lemma {:induction false} NoneUnspent(n: nat, start: int, k: nat)
    requires k <= n
    ensures UnspentAmong(Init(n, start).clients[..k]) == 0
  {
    if k > 0 {
      NoneUnspent(n, start, k - 1);
      assert Init(n, start).clients[..k][..k - 1] == Init(n, start).clients[..k - 1];
    }
  }

  // In every run, timed or not, each lock taken has led to an increment or
  // belongs to a client that is still before its increment or has returned.
  lemma {:induction false} LocksAreSpent(total: int, n: nat, start: int, acts: seq<Action>)
    ensures Locks(total, Init(n, start), acts) <=
            Increments(total, Init(n, start), acts) + UnspentAmong(Exec(total, Init(n, start), acts).clients)
  {
    if acts == [] {
      NoneUnspent(n, start, n);
    } else {
      LocksAreSpent(total, n, start, acts[..|acts| - 1]);
      UnspentStep(total, Exec(total, Init(n, start), acts[..|acts| - 1]), acts[|acts| - 1]);
    }
  }

  /** In every well-timed run the lock is taken at most once for every increment
      to be made and once more for every client. */
  lemma LocksBounded(total: int, n: nat, start: int, acts: seq<Action>)
    requires INT_MIN <= start <= total <= INT_MAX
    requires WellTimedRun(total, Init(n, start), acts)
    ensures Locks(total, Init(n, start), acts) <= total - start + n
  {
    LocksAreSpent(total, n, start, acts);
    NoIncrementLost(total, n, start, acts);
    ClientCount(total, Init(n, start), acts);
  }

  // ---- A round in which everyone has eight turns takes the lock ----

  // Steps a client needs to its next SET when nobody else takes the lock.
  function StepsToLock(pc: Pc): nat {
    match pc
    case TryLock => 1
    case InnerTest => 2
    case OuterTest => 3
    case Sleep => 3
    case DelKey => 4
    case GetKey => 5
    case WriteCounter(_) => 6
    case ReadCounter => 7
    case ReCheck => 8
    case Returned => 0
  }

  // If anyone holds the key, it is c.
  predicate OnlyHeldBy(s: State, c: nat) {
    Held(s).None? || Held(s) == Some(c)
  }

  lemma StepTowardsLock(total: int, s: State, a: Action, c: nat)
    requires Inv(total, s) && WellTimed(s) && s.counter < total
    requires c < |s.clients| && OnlyHeldBy(s, c) && !TakesLock(s, a)
    ensures var t := Step(total, s, a);
            && OnlyHeldBy(t, c) && |t.clients| == |s.clients|
            && (a == Run(c) ==> StepsToLock(t.clients[c].pc) < StepsToLock(s.clients[c].pc))
            && (a != Run(c) ==> t.clients[c] == s.clients[c])
  {
    assert ClientInv(total, s, c);
    if a.Run? && a.i < |s.clients| {
      assert ClientInv(total, s, a.i);
    }
  }

  lemma {:induction false} WithoutLocks(total: int, s: State, acts: seq<Action>, c: nat)
    requires Inv(total, s) && WellTimedRun(total, s, acts)
    requires c < |s.clients| && OnlyHeldBy(s, c)
    requires Locks(total, s, acts) == 0 && Exec(total, s, acts).counter < total
    ensures var t := Exec(total, s, acts);
            && OnlyHeldBy(t, c) && |t.clients| == |s.clients|
            && StepsToLock(t.clients[c].pc) + TurnsOf(acts, c) <= StepsToLock(s.clients[c].pc)
  {
    if acts != [] {
      var before := acts[..|acts| - 1];
      PrefixWellTimed(total, s, acts, |acts| - 1);
      RunInv(total, s, before);
      assert before[..|before|] == before;
      var m := Exec(total, s, before);
      assert WellTimed(m);
      StepInv(total, m, acts[|acts| - 1]);
      WithoutLocks(total, s, before, c);
      StepTowardsLock(total, m, acts[|acts| - 1], c);
    }
  }

  lemma FewTurnsWithoutLocks(total: int, s: State, acts: seq<Action>, c: nat)
    requires Inv(total, s) && WellTimedRun(total, s, acts)
    requires c < |s.clients| && OnlyHeldBy(s, c)
    requires Locks(total, s, acts) == 0 && Exec(total, s, acts).counter < total
    ensures TurnsOf(acts, c) < 8
  {
    WithoutLocks(total, s, acts, c);
    RunInv(total, s, acts);
    assert ClientInv(total, Exec(total, s, acts), c);
  }

  /** Everyone gets at least eight turns. */
  ghost predicate Round(n: nat, acts: seq<Action>) {
    forall i: nat | i < n :: TurnsOf(acts, i) >= 8
  }

  lemma PickHolder(total: int, s: State) returns (c: nat)
    requires Inv(total, s) && s.counter < total && |s.clients| > 0
    ensures c < |s.clients| && OnlyHeldBy(s, c)
  {
    c := if Held(s).Some? then Held(s).value else 0;
  }

  /** A well-timed round takes the lock at least once or ends with the counter at TOTAL. */
  lemma RoundTakesLock(total: int, s: State, acts: seq<Action>)
    requires Inv(total, s) && WellTimedRun(total, s, acts)
    requires |s.clients| > 0 && Round(|s.clients|, acts)
    ensures Exec(total, s, acts).counter == total || Locks(total, s, acts) > 0
  {
    RunInv(total, s, acts);
    if Exec(total, s, acts).counter < total && Locks(total, s, acts) == 0 {
      var c := PickHolder(total, s);
      assert TurnsOf(acts, c) >= 8;
      FewTurnsWithoutLocks(total, s, acts, c);
    }
  }

  // ---- Whole runs ----

  function Concat(rounds: seq<seq<Action>>): seq<Action> {
    if rounds == [] then [] else Concat(rounds[..|rounds| - 1]) + rounds[|rounds| - 1]
  }

  lemma {:induction false} ConcatPrefix(rounds: seq<seq<Action>>, k: nat)
    requires k <= |rounds|
    ensures Concat(rounds[..k]) <= Concat(rounds)
  {
    if k == |rounds| {
      assert rounds[..k] == rounds;
    } else {
      ConcatPrefix(rounds[..|rounds| - 1], k);
      assert rounds[..|rounds| - 1][..k] == rounds[..k];
    }
  }

  lemma {:induction false} RoundsTakeLocks(total: int, n: nat, start: int, rounds: seq<seq<Action>>)
    requires INT_MIN <= start <= total <= INT_MAX && n > 0
    requires WellTimedRun(total, Init(n, start), Concat(rounds))
    requires forall k | 0 <= k < |rounds| :: Round(n, rounds[k])
    ensures Exec(total, Init(n, start), Concat(rounds)).counter == total ||
            Locks(total, Init(n, start), Concat(rounds)) >= |rounds|
  {
    if rounds != [] {
      var s0, front, last := Init(n, start), rounds[..|rounds| - 1], rounds[|rounds| - 1];
      var done := Concat(front);
      var s := Exec(total, s0, done);
      assert Concat(rounds)[..|done|] == done && Concat(rounds)[|done|..] == last;
      PrefixWellTimed(total, s0, Concat(rounds), |done|);
      SuffixWellTimed(total, s0, Concat(rounds), |done|);
      RoundsTakeLocks(total, n, start, front);
      ClientCount(total, s0, done);
      RunInv(total, s0, done);
      RunInv(total, s, last);
      RoundTakesLock(total, s, last);
      ExecAppend(total, s0, done, last);
      LocksAppend(total, s0, done, last);
    }
  }

  /** Fair runs finish: a well-timed run made of TOTAL - start + n + 2 rounds, in
      each of which every client takes at least eight steps in any order and at
      any times, ends with every client returned and the counter at TOTAL. */
  lemma FairRunsFinish(total: int, n: nat, start: int, rounds: seq<seq<Action>>)
    requires INT_MIN <= start <= total <= INT_MAX
    requires WellTimedRun(total, Init(n, start), Concat(rounds))
    requires forall k | 0 <= k < |rounds| :: Round(n, rounds[k])
    requires |rounds| >= total - start + n + 2
    ensures AllReturned(Exec(total, Init(n, start), Concat(rounds)))
    ensures n > 0 ==> Exec(total, Init(n, start), Concat(rounds)).counter == total
  {
    var s0, all := Init(n, start), Concat(rounds);
    ClientCount(total, s0, all);
    if n > 0 {
      var front := rounds[..|rounds| - 1];
      var done := Concat(front);
      assert all[..|done|] == done && all[|done|..] == rounds[|rounds| - 1];
      PrefixWellTimed(total, s0, all, |done|);
      RoundsTakeLocks(total, n, start, front);
      LocksBounded(total, n, start, done);
      assert Exec(total, s0, all[..|done|]).counter == total;
      assert Round(n, rounds[|rounds| - 1]);
      forall i: nat | i < n ensures Exec(total, s0, all).clients[i].pc.Returned? {
        ReturnsWithinFourSteps(total, n, start, all, |done|, i);
      }
      NoIncrementLost(total, n, start, all);
      assert Exec(total, s0, all).clients[0].pc.Returned?;
    }
  }

  lemma {:induction false} ClockStandsStill(total: int, n: nat, start: int, acts: seq<Action>)
    requires forall k | 0 <= k < |acts| :: acts[k].Run?
    ensures var s := Exec(total, Init(n, start), acts);
            s.now == 0 && forall i | 0 <= i < |s.clients| :: s.clients[i].since == 0
  {
    if acts != [] {
      ClockStandsStill(total, n, start, acts[..|acts| - 1]);
    }
  }

  /** Such runs exist for every interleaving: a run in which no time passes is well timed. */
  lemma {:induction false} InstantRunsAreWellTimed(total: int, n: nat, start: int, acts: seq<Action>)
    requires forall k | 0 <= k < |acts| :: acts[k].Run?
    ensures WellTimedRun(total, Init(n, start), acts)
  {
    forall k | 0 <= k <= |acts| ensures WellTimed(Exec(total, Init(n, start), acts[..k])) {
      ClockStandsStill(total, n, start, acts[..k]);
    }
  }
}
