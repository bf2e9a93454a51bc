/** Progress of the lease lock. Once the counter is at TOTAL every client returns
    within four of its own steps, whatever the others do and whoever still holds
    the key; and no state is a dead end. */
module LeaseLockLiveness {
  import opened LeaseLock
  import opened LeaseLockSafety

  /** How many steps client i takes in a schedule. */
  function TurnsOf(acts: seq<Action>, i: nat): nat {
    if acts == [] then 0
    else TurnsOf(acts[..|acts| - 1], i) + if acts[|acts| - 1] == Run(i) then 1 else 0
  }

  // Steps left to a client once the counter has reached its bound.
  function StepsLeft(pc: Pc): nat {
    match pc
    case Returned => 0
    case OuterTest => 1
    case ReCheck => 1
    case InnerTest => 2
    case DelKey => 2
    case Sleep => 3
    case GetKey => 3
    case TryLock => 4
    case ReadCounter => 4
    case WriteCounter(_) => 4
  }

  lemma OneStepLess(total: int, s: State, a: Action, i: nat)
    requires Inv(total, s) && WellTimed(s)
    requires s.counter == total && i < |s.clients|
    ensures var t := Step(total, s, a);
            && t.counter == total && |t.clients| == |s.clients|
            && (s.clients[i].pc.Returned? ==> t.clients[i].pc.Returned?)
            && (a == Run(i) && !s.clients[i].pc.Returned? ==>
                  StepsLeft(t.clients[i].pc) < StepsLeft(s.clients[i].pc))
            && (a != Run(i) ==> t.clients[i].pc == s.clients[i].pc)
  {
    assert ClientInv(total, s, i);
    if a.Run? && a.i < |s.clients| {
      assert ClientInv(total, s, a.i);
    }
  }

  lemma {:induction false} StepsLeftFall(total: int, s: State, acts: seq<Action>, i: nat)
    requires Inv(total, s) && WellTimedRun(total, s, acts)
    requires s.counter == total && i < |s.clients|
    ensures var t := Exec(total, s, acts);
            && t.counter == total && |t.clients| == |s.clients|
            && (t.clients[i].pc.Returned? ||
                StepsLeft(t.clients[i].pc) + TurnsOf(acts, i) <= StepsLeft(s.clients[i].pc))
  {
    if acts != [] {
      var before := acts[..|acts| - 1];
      PrefixWellTimed(total, s, acts, |acts| - 1);
      StepsLeftFall(total, s, before, i);
      RunInv(total, s, before);
      assert before[..|before|] == before;
      assert WellTimed(Exec(total, s, before));
      OneStepLess(total, Exec(total, s, before), acts[|acts| - 1], i);
    }
  }

  /** In every well-timed run, from the moment k at which the counter is at TOTAL,
      a client that gets four more steps has returned, in every interleaving and
      even when the key was left locked by a client that has gone. */
  lemma ReturnsWithinFourSteps(total: int, n: nat, start: int, acts: seq<Action>, k: nat, i: nat)
    requires INT_MIN <= start <= total <= INT_MAX
    requires WellTimedRun(total, Init(n, start), acts)
    requires k <= |acts| && i < n
    requires Exec(total, Init(n, start), acts[..k]).counter == total
    requires TurnsOf(acts[k..], i) >= 4
    ensures var s := Exec(total, Init(n, start), acts);
            |s.clients| == n && s.clients[i].pc.Returned?
  {
    var s0 := Init(n, start);
    var s := Exec(total, s0, acts[..k]);
    ClientCount(total, s0, acts[..k]);
    PrefixWellTimed(total, s0, acts, k);
    RunInv(total, s0, acts[..k]);
    SuffixWellTimed(total, s0, acts, k);
    StepsLeftFall(total, s, acts[k..], i);
    ExecAppend(total, s0, acts[..k], acts[k..]);
    assert acts[..k] + acts[k..] == acts;
    RunInv(total, s, acts[k..]);
    assert ClientInv(total, Exec(total, s, acts[k..]), i);
  }

  // ---- No state is a dead end ----

  /** What client i still has to count by itself, after the increment it is in. */
  function Gap(total: int, s: State, i: nat): nat
    requires i < |s.clients|
  {
    var reached := match s.clients[i].pc
                   case ReadCounter => Int32(s.counter + 1)
                   case WriteCounter(seen) => Int32(seen + 1)
                   case _ => s.counter;
    if reached < total then total - reached else 0
  }

  function Rank(pc: Pc): nat {
    match pc
    case ReadCounter => 9
    case WriteCounter(_) => 8
    case GetKey => 7
    case DelKey => 6
    case OuterTest => 5
    case Sleep => 5
    case InnerTest => 4
    case TryLock => 3
    case ReCheck => 2
    case Returned => 0
  }

  /** Let client i go on: when it wants a lock that is taken, wait for the expiry first. */
  function Move(s: State, i: nat): seq<Action>
    requires i < |s.clients|
  {
    if s.clients[i].pc.TryLock? && Held(s).Some? then [Tick(s.key.value.deadline - s.now), Run(i)]
    else [Run(i)]
  }

  lemma MoveExec(total: int, s: State, i: nat)
    requires i < |s.clients|
    ensures Exec(total, s, Move(s, i)) ==
            StepClient(total,
                       if s.clients[i].pc.TryLock? && Held(s).Some? then s.(now := s.key.value.deadline) else s,
                       i)
  {
    if s.clients[i].pc.TryLock? && Held(s).Some? {
      ExecSnoc(total, s, [Tick(s.key.value.deadline - s.now)], Run(i));
      ExecSnoc(total, s, [], Tick(s.key.value.deadline - s.now));
      assert Move(s, i) == ([] + [Tick(s.key.value.deadline - s.now)]) + [Run(i)];
    } else {
      ExecSnoc(total, s, [], Run(i));
      assert Move(s, i) == [] + [Run(i)];
    }
  }

  // Client i, and it alone, has come closer to its return.
  ghost predicate Nearer(total: int, s: State, t: State, i: nat)
    requires i < |s.clients|
  {
    && |t.clients| == |s.clients|
    && (forall j | 0 <= j < |s.clients| && j != i :: t.clients[j] == s.clients[j])
    && INT_MIN <= t.counter
    && (Gap(total, t, i) < Gap(total, s, i) ||
        (Gap(total, t, i) == Gap(total, s, i) && Rank(t.clients[i].pc) < Rank(s.clients[i].pc)))
  }

  // Whatever step client i is at ...
  lemma TestProgresses(total: int, s: State, i: nat)
    requires INT_MIN <= s.counter && i < |s.clients|
    requires s.clients[i].pc.OuterTest? || s.clients[i].pc.InnerTest? || s.clients[i].pc.Sleep?
    ensures Nearer(total, s, StepClient(total, s, i), i)
  {
  }

  lemma TryProgresses(total: int, s: State, i: nat, later: State)
    requires INT_MIN <= s.counter && i < |s.clients| && s.clients[i].pc.TryLock?
    requires later == s.(now := later.now) && Held(later).None?
    ensures Nearer(total, s, StepClient(total, later, i), i)
  {
  }

  lemma IncrementProgresses(total: int, s: State, i: nat)
    requires total <= INT_MAX && INT_MIN <= s.counter && i < |s.clients|
    requires s.clients[i].pc.ReCheck? || s.clients[i].pc.ReadCounter? || s.clients[i].pc.WriteCounter?
    ensures Nearer(total, s, StepClient(total, s, i), i)
  {
  }

  lemma UnlockProgresses(total: int, s: State, i: nat)
    requires INT_MIN <= s.counter && i < |s.clients|
    requires s.clients[i].pc.GetKey? || s.clients[i].pc.DelKey?
    ensures Nearer(total, s, StepClient(total, s, i), i)
  {
  }

  // ... its move brings it closer to its return.
  lemma MoveProgresses(total: int, s: State, i: nat)
    requires total <= INT_MAX && INT_MIN <= s.counter
    requires i < |s.clients| && !s.clients[i].pc.Returned?
    ensures Nearer(total, s, Exec(total, s, Move(s, i)), i)
  {
    MoveExec(total, s, i);
    match s.clients[i].pc {
      case OuterTest | InnerTest | Sleep => TestProgresses(total, s, i);
      case TryLock =>
        TryProgresses(total, s, i, if Held(s).Some? then s.(now := s.key.value.deadline) else s);
      case ReCheck | ReadCounter | WriteCounter(_) => IncrementProgresses(total, s, i);
      case GetKey | DelKey => UnlockProgresses(total, s, i);
    }
  }

  // Nobody but i is inside the lock, and nobody has outstayed.
  ghost predicate Quiet(total: int, s: State, i: nat) {
    Inv(total, s) && Timely(s) &&
    forall j | 0 <= j < |s.clients| && j != i :: !s.clients[j].holds
  }

  lemma TickStaysQuiet(total: int, s: State, i: nat, d: nat)
    requires i < |s.clients| && Quiet(total, s, i) && s.clients[i].pc.TryLock?
    ensures Quiet(total, Step(total, s, Tick(d)), i)
  {
    assert ClientInv(total, s, i);
    TimelyStateIsWellTimed(total, s);
    StepInv(total, s, Tick(d));
  }

  lemma RunStaysQuiet(total: int, s: State, i: nat)
    requires i < |s.clients| && Quiet(total, s, i)
    ensures Quiet(total, Step(total, s, Run(i)), i)
  {
    assert ClientInv(total, s, i);
    TimelyStateIsWellTimed(total, s);
    StepInv(total, s, Run(i));
  }

  lemma MoveStaysQuiet(total: int, s: State, i: nat)
    requires i < |s.clients| && Quiet(total, s, i)
    ensures Quiet(total, Exec(total, s, Move(s, i)), i)
    ensures TimelyRun(total, s, Move(s, i))
  {
    var m := Move(s, i);
    MoveExec(total, s, i);
    if s.clients[i].pc.TryLock? && Held(s).Some? {
      var tick := Tick(s.key.value.deadline - s.now);
      TickStaysQuiet(total, s, i, tick.d);
      RunStaysQuiet(total, Step(total, s, tick), i);
      ExecSnoc(total, s, [], tick);
      assert m[..1] == [] + [tick];
    } else {
      RunStaysQuiet(total, s, i);
    }
    forall k | 0 <= k <= |m| ensures Timely(Exec(total, s, m[..k])) {
      assert k == 0 || k == 1 || k == |m|;
      assert m[..|m|] == m;
    }
  }

  lemma TimelyAppend(total: int, s: State, a: seq<Action>, b: seq<Action>)
    requires TimelyRun(total, s, a) && TimelyRun(total, Exec(total, s, a), b)
    ensures TimelyRun(total, s, a + b)
  {
    forall k | 0 <= k <= |a + b| ensures Timely(Exec(total, s, (a + b)[..k])) {
      if k <= |a| {
        assert (a + b)[..k] == a[..k];
      } else {
        assert (a + b)[..k] == a + b[..k - |a|];
        ExecAppend(total, s, a, b[..k - |a|]);
      }
    }
  }

  /** From any state at all, client i can be run to its return, and without
      anyone outstaying a lease if nobody else is inside the lock. */
  lemma {:induction false} RunToReturn(total: int, s: State, i: nat) returns (acts: seq<Action>)
    requires total <= INT_MAX && INT_MIN <= s.counter && i < |s.clients|
    ensures var t := Exec(total, s, acts);
            && |t.clients| == |s.clients| && INT_MIN <= t.counter
            && t.clients[i].pc.Returned?
            && (forall j | 0 <= j < |s.clients| && j != i :: t.clients[j] == s.clients[j])
            && (Quiet(total, s, i) ==> TimelyRun(total, s, acts) && Quiet(total, t, i))
    decreases Gap(total, s, i), Rank(s.clients[i].pc)
  {
    if s.clients[i].pc.Returned? {
      acts := [];
    } else {
      MoveProgresses(total, s, i);
      var m := Exec(total, s, Move(s, i));
      var rest := RunToReturn(total, m, i);
      acts := Move(s, i) + rest;
      ExecAppend(total, s, Move(s, i), rest);
      if Quiet(total, s, i) {
        MoveStaysQuiet(total, s, i);
        TimelyAppend(total, s, Move(s, i), rest);
      }
    }
  }

  function Unreturned(s: State): set<nat> {
    set i: nat | i < |s.clients| && !s.clients[i].pc.Returned?
  }

  // The client inside the lock goes first.
  lemma PickNext(total: int, s: State) returns (i: nat)
    requires !AllReturned(s)
    ensures i < |s.clients| && !s.clients[i].pc.Returned?
    ensures Inv(total, s) && Timely(s) ==> Quiet(total, s, i)
  {
    i :| i < |s.clients| && !s.clients[i].pc.Returned?;
    if Inv(total, s) && Timely(s) {
      if h: nat :| h < |s.clients| && s.clients[h].holds {
        assert ClientInv(total, s, h);
        i := h;
        forall j | 0 <= j < |s.clients| && j != h ensures !s.clients[j].holds {
          if s.clients[j].holds {
            OneLiveHolder(total, s, h, j);
          }
        }
      }
    }
  }

  /** Every state can be continued to one where all clients have returned; a
      state reached in time can be so continued in time. */
  lemma {:induction false} FinishAll(total: int, s: State) returns (acts: seq<Action>)
    requires total <= INT_MAX && INT_MIN <= s.counter
    ensures AllReturned(Exec(total, s, acts))
    ensures Inv(total, s) && Timely(s) ==> TimelyRun(total, s, acts)
    decreases |Unreturned(s)|
  {
    if AllReturned(s) {
      acts := [];
      assert acts[..0] == acts;
    } else {
      var i := PickNext(total, s);
      var first := RunToReturn(total, s, i);
      var t := Exec(total, s, first);
      assert i in Unreturned(s);
      assert Unreturned(t) == Unreturned(s) - {i};
      var rest := FinishAll(total, t);
      acts := first + rest;
      ExecAppend(total, s, first, rest);
      if Inv(total, s) && Timely(s) {
        TimelyAppend(total, s, first, rest);
      }
    }
  }

  lemma {:induction false} CounterStaysInt(total: int, s: State, acts: seq<Action>)
    requires INT_MIN <= s.counter
    ensures INT_MIN <= Exec(total, s, acts).counter
  {
    if acts != [] {
      CounterStaysInt(total, s, acts[..|acts| - 1]);
    }
  }

  /** Every run can be continued to one in which all clients have returned. */
  lemma EveryRunCanFinish(total: int, n: nat, start: int, acts: seq<Action>)
    requires total <= INT_MAX && INT_MIN <= start
    ensures exists more :: AllReturned(Exec(total, Init(n, start), acts + more))
  {
    var s0 := Init(n, start);
    CounterStaysInt(total, s0, acts);
    var more := FinishAll(total, Exec(total, s0, acts));
    ExecAppend(total, s0, acts, more);
  }

  /** A run in which nobody outstays a lease can be continued, still without
      anyone outstaying, until all have returned; the counter then is TOTAL. */
  lemma TimelyRunCanFinish(total: int, n: nat, start: int, acts: seq<Action>)
    requires INT_MIN <= start <= total <= INT_MAX
    requires TimelyRun(total, Init(n, start), acts)
    ensures exists more ::
              && TimelyRun(total, Init(n, start), acts + more)
              && AllReturned(Exec(total, Init(n, start), acts + more))
              && (n > 0 ==> Exec(total, Init(n, start), acts + more).counter == total)
  {
    var s0 := Init(n, start);
    TimelyIsWellTimed(total, s0, acts);
    RunInv(total, s0, acts);
    assert acts[..|acts|] == acts;
    var more := FinishAll(total, Exec(total, s0, acts));
    ExecAppend(total, s0, acts, more);
    TimelyAppend(total, s0, acts, more);
    TimelyIsWellTimed(total, s0, acts + more);
    NoIncrementLost(total, n, start, acts + more);
    ClientCount(total, s0, acts + more);
    if n > 0 {
      assert Exec(total, s0, acts + more).clients[0].pc.Returned?;
    }
  }
}
