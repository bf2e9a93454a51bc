/** The lease lock and the bounded counter of `TechRedisConfigurationTests`, as
    an interleaved protocol: one shared key with an expiry, a clock, the static
    counter, and any number of clients each executing `CounterIncr.run` one
    atomic step at a time. */
module LeaseLock {
  import opened Wrappers

  // "EX 10", in milliseconds.
  const LEASE: int := 10_000

  const INT_MIN: int := -0x8000_0000
  const INT_MAX: int := 0x7FFF_FFFF

  /** Java's `int` arithmetic wraps around. */
  function Int32(x: int): int {
    (x - INT_MIN) % 0x1_0000_0000 + INT_MIN
  }

  /** Where a client stands in `run`. Every value names the next atomic step. */
  datatype Pc =
    | OuterTest               // while (COUNTER < TOTAL)
    | InnerTest               // left operand of the inner loop's guard
    | TryLock                 // SET user.lock id NX EX 10
    | Sleep                   // Thread.sleep(10), then back to the inner guard
    | ReCheck                 // if (COUNTER >= TOTAL) return
    | ReadCounter             // the read half of ++COUNTER
    | WriteCounter(seen: int) // the write half of ++COUNTER
    | GetKey                  // unlock: value.equals(GET user.lock)
    | DelKey                  // unlock: DEL user.lock
    | Returned

  /** `holds` and `since` record the last successful SET that has not yet been
      matched by the end of `unlock` or by a return. They are history: no step
      looks at them. A client's unique id is its index. */
  datatype Client = Client(pc: Pc, holds: bool, since: int)

  datatype Lease = Lease(owner: nat, deadline: int)

  datatype State = State(now: int, key: Option<Lease>, counter: int, clients: seq<Client>)

  /** A schedule interleaves the passing of time with steps of the clients. */
  datatype Action = Tick(d: nat) | Run(i: nat)

  function Init(n: nat, start: int): State {
    State(0, None, start, seq(n, _ => Client(OuterTest, false, 0)))
  }

  /** The id GET would return: an expired key is absent. */
  function Held(s: State): Option<nat> {
    if s.key.Some? && s.now < s.key.value.deadline then Some(s.key.value.owner) else None
  }

  function Goto(s: State, i: nat, pc: Pc): State
    requires i < |s.clients|
  {
    s.(clients := s.clients[i := s.clients[i].(pc := pc)])
  }

  function Leave(s: State, i: nat, pc: Pc): State
    requires i < |s.clients|
  {
    s.(clients := s.clients[i := s.clients[i].(pc := pc, holds := false)])
  }

  /** One atomic step of client i. */
  function StepClient(total: int, s: State, i: nat): State
    requires i < |s.clients|
  {
    match s.clients[i].pc
    case OuterTest => Goto(s, i, if s.counter < total then InnerTest else Returned)
    case InnerTest => Goto(s, i, if s.counter < total then TryLock else ReCheck)
    case TryLock =>
      if Held(s).Some? then Goto(s, i, Sleep)
      else s.(key := Some(Lease(i, s.now + LEASE)),
              clients := s.clients[i := Client(ReCheck, true, s.now)])
    case Sleep => Goto(s, i, InnerTest)
    case ReCheck => if s.counter >= total then Leave(s, i, Returned) else Goto(s, i, ReadCounter)
    case ReadCounter => Goto(s, i, WriteCounter(s.counter))
    case WriteCounter(seen) => Goto(s, i, GetKey).(counter := Int32(seen + 1))
    case GetKey => if Held(s) == Some(i) then Goto(s, i, DelKey) else Leave(s, i, OuterTest)
    case DelKey => Leave(s, i, OuterTest).(key := None)
    case Returned => s
  }

  function Step(total: int, s: State, a: Action): State {
    match a
    case Tick(d) => s.(now := s.now + d)
    case Run(i) => if i < |s.clients| then StepClient(total, s, i) else s
  }

  /** The state a schedule leads to. */
  function Exec(total: int, s: State, acts: seq<Action>): State {
    if acts == [] then s
    else Step(total, Exec(total, s, acts[..|acts| - 1]), acts[|acts| - 1])
  }

  /** Past the re-check, and so bound to increment and to run `unlock`. */
  predicate Committed(pc: Pc) {
    pc.ReadCounter? || pc.WriteCounter? || pc.GetKey? || pc.DelKey?
  }

  predicate Expired(s: State, i: nat)
    requires i < |s.clients|
  {
    s.clients[i].since + LEASE <= s.now
  }

  /** No client that has passed the re-check is still short of the end of its
      `unlock` ten seconds after its SET. */
  ghost predicate WellTimed(s: State) {
    forall i | 0 <= i < |s.clients| :: Committed(s.clients[i].pc) ==> !Expired(s, i)
  }

  /** The same also for a holder that has not yet re-checked the counter. */
  ghost predicate Timely(s: State) {
    forall i | 0 <= i < |s.clients| :: s.clients[i].holds ==> !Expired(s, i)
  }

  ghost predicate WellTimedRun(total: int, s: State, acts: seq<Action>) {
    forall k | 0 <= k <= |acts| :: WellTimed(Exec(total, s, acts[..k]))
  }

  ghost predicate TimelyRun(total: int, s: State, acts: seq<Action>) {
    forall k | 0 <= k <= |acts| :: Timely(Exec(total, s, acts[..k]))
  }

  predicate IsIncrement(s: State, a: Action) {
    a.Run? && a.i < |s.clients| && s.clients[a.i].pc.WriteCounter?
  }

  /** How many increments a run completes. */
  function Increments(total: int, s: State, acts: seq<Action>): nat {
    if acts == [] then 0
    else
      var before := acts[..|acts| - 1];
      Increments(total, s, before)
      + if IsIncrement(Exec(total, s, before), acts[|acts| - 1]) then 1 else 0
  }

  predicate AllReturned(s: State) {
    forall i | 0 <= i < |s.clients| :: s.clients[i].pc.Returned?
  }

  // Two steps of one client, from the test of the counter over SET ...
  lemma TriedOnce(total: int, s: State, i: nat)
    requires i < |s.clients| && s.clients[i].pc.InnerTest? && s.counter < total
    ensures var t := StepClient(total, s, i);
            && i < |t.clients|
            && StepClient(total, t, i) ==
               if Held(s).Some? then Goto(s, i, Sleep)
               else s.(key := Some(Lease(i, s.now + LEASE)),
                       clients := s.clients[i := Client(ReCheck, true, s.now)])
  {
    assert StepClient(total, s, i) == Goto(s, i, TryLock);
  }

  // ... and three, from the re-check over the increment.
  lemma CountedOne(total: int, s: State, i: nat)
    requires i < |s.clients| && s.clients[i].pc.ReCheck?
    requires INT_MIN <= s.counter < total <= INT_MAX
    ensures var r := StepClient(total, s, i);
            && i < |r.clients|
            && var w := StepClient(total, r, i);
               && i < |w.clients|
               && StepClient(total, w, i) == Goto(s, i, GetKey).(counter := s.counter + 1)
  {
    var r, w := Goto(s, i, ReadCounter), Goto(s, i, WriteCounter(s.counter));
    assert StepClient(total, s, i) == r && StepClient(total, r, i) == w;
    assert Int32(s.counter + 1) == s.counter + 1;
  }

  lemma ExecSnoc(total: int, s: State, acts: seq<Action>, a: Action)
    ensures Exec(total, s, acts + [a]) == Step(total, Exec(total, s, acts), a)
    ensures Increments(total, s, acts + [a]) ==
            Increments(total, s, acts) + if IsIncrement(Exec(total, s, acts), a) then 1 else 0
  {
    assert (acts + [a])[..|acts|] == acts;
  }

  lemma {:induction false} ExecAppend(total: int, s: State, a: seq<Action>, b: seq<Action>)
    ensures Exec(total, s, a + b) == Exec(total, Exec(total, s, a), b)
    decreases |b|
  {
    if b == [] {
      assert a + b == a;
    } else {
      var front, last := b[..|b| - 1], b[|b| - 1];
      assert a + b == (a + front) + [last];
      ExecAppend(total, s, a, front);
      ExecSnoc(total, s, a + front, last);
    }
  }

  lemma {:induction false} ClientCount(total: int, s: State, acts: seq<Action>)
    ensures |Exec(total, s, acts).clients| == |s.clients|
  {
    if acts != [] {
      ClientCount(total, s, acts[..|acts| - 1]);
    }
  }

  lemma {:induction false} IncrementsAppend(total: int, s: State, a: seq<Action>, b: seq<Action>)
    ensures Increments(total, s, a + b) == Increments(total, s, a) + Increments(total, Exec(total, s, a), b)
    decreases |b|
  {
    if b == [] {
      assert a + b == a;
    } else {
      var front, last := b[..|b| - 1], b[|b| - 1];
      assert a + b == (a + front) + [last];
      assert b == front + [last];
      IncrementsAppend(total, s, a, front);
      ExecAppend(total, s, a, front);
      ExecSnoc(total, s, a + front, last);
      ExecSnoc(total, Exec(total, s, a), front, last);
    }
  }
}
