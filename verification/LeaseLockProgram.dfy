/** `CounterIncr.run` once more, as the structured program it is written as: a
    `while` around a `while`, a `return`, an increment and an `unlock`. The flat
    protocol of LeaseLock is shown to be that program, run by any number of
    threads under any schedule. */
module LeaseLockProgram {
  import opened Wrappers
  import opened LeaseLock
  import opened LeaseLockServer
  import opened LeaseLockFairness

  /** A statement of the program, or what is left of one between two atomic steps. */
  datatype Stmt =
    | WhileBelowTotal(body: seq<Stmt>)        // while (COUNTER < TOTAL) body
    | WhileBelowAndUnlocked(body: seq<Stmt>)  // while (COUNTER < TOTAL && !lock(key, id)) body
    | UnlessLocked(body: seq<Stmt>)           // its right operand, then the body and the loop again
    | Pause                                   // Thread.sleep(10)
    | ReturnIfAtTotal                         // if (COUNTER >= TOTAL) return
    | Increment                               // ++COUNTER
    | Store(value: int)                       // its second half
    | Unlock                                  // if (id.equals(get(key))) del(key)
    | Delete                                  // its del

  const RUN: seq<Stmt> := [
    WhileBelowTotal([
      WhileBelowAndUnlocked([Pause]),
      ReturnIfAtTotal,
      Increment,
      Unlock
    ])
  ]

  /** What `SET` left on the server, and when. */
  datatype Entry = Entry(id: nat, setAt: int)

  datatype Memory = Memory(clock: int, lock: Option<Entry>, counter: int)

  /** All threads, each with the statements it still has to execute. */
  datatype System = System(memory: Memory, threads: seq<seq<Stmt>>)

  /** An entry lives for ten seconds. */
  function Stored(m: Memory): Option<nat> {
    if m.lock.Some? && m.clock - m.lock.value.setAt < 10_000 then Some(m.lock.value.id) else None
  }

  /** The successor of a Java `int`. */
  function Successor(x: int): int {
    if x == 2147483647 then -2147483648 else x + 1
  }

  /** One atomic step of thread `id`, whose remaining statements are `todo`. */
  function Execute(total: int, m: Memory, id: nat, todo: seq<Stmt>): (Memory, seq<Stmt>) {
    if todo == [] then (m, todo)
    else
      var rest := todo[1..];
      match todo[0]
      case WhileBelowTotal(body) => (m, if m.counter < total then body + todo else rest)
      case WhileBelowAndUnlocked(body) => (m, if m.counter < total then [UnlessLocked(body)] + rest else rest)
      case UnlessLocked(body) =>
        if Stored(m).None? then (m.(lock := Some(Entry(id, m.clock))), rest)
        else (m, body + [WhileBelowAndUnlocked(body)] + rest)
      case Pause => (m, rest)
      case ReturnIfAtTotal => (m, if m.counter >= total then [] else rest)
      case Increment => (m, [Store(Successor(m.counter))] + rest)
      case Store(value) => (m.(counter := value), rest)
      case Unlock => (m, if Stored(m) == Some(id) then [Delete] + rest else rest)
      case Delete => (m.(lock := None), rest)
  }

  function Advance(total: int, p: System, a: Action): System {
    match a
    case Tick(d) => p.(memory := p.memory.(clock := p.memory.clock + d))
    case Run(i) =>
      if i < |p.threads| then
        var (memory, todo) := Execute(total, p.memory, i, p.threads[i]);
        System(memory, p.threads[i := todo])
      else p
  }

  function Schedule(total: int, p: System, acts: seq<Action>): System {
    if acts == [] then p
    else Advance(total, Schedule(total, p, acts[..|acts| - 1]), acts[|acts| - 1])
  }

  function Launch(n: nat, start: int): System {
    System(Memory(0, None, start), seq(n, _ => RUN))
  }

  // ---- The protocol is this program ----

  /** The statements a client still has to execute. */
  function Remaining(pc: Pc): seq<Stmt> {
    var inner := WhileBelowAndUnlocked([Pause]);
    match pc
    case OuterTest => RUN
    case InnerTest => [inner, ReturnIfAtTotal, Increment, Unlock] + RUN
    case TryLock => [UnlessLocked([Pause]), ReturnIfAtTotal, Increment, Unlock] + RUN
    case Sleep => [Pause, inner, ReturnIfAtTotal, Increment, Unlock] + RUN
    case ReCheck => [ReturnIfAtTotal, Increment, Unlock] + RUN
    case ReadCounter => [Increment, Unlock] + RUN
    case WriteCounter(seen) => [Store(Successor(seen)), Unlock] + RUN
    case GetKey => [Unlock] + RUN
    case DelKey => [Delete] + RUN
    case Returned => []
  }

  function Shared(s: State): Memory {
    Memory(s.now,
           if s.key.None? then None else Some(Entry(s.key.value.owner, s.key.value.deadline - 10_000)),
           s.counter)
  }

  function AsProgram(s: State): System {
    System(Shared(s), seq(|s.clients|, i requires 0 <= i < |s.clients| => Remaining(s.clients[i].pc)))
  }

  // All values of the counter are Java `int`s.
  ghost predicate JavaInts(s: State) {
    && -2147483648 <= s.counter <= 2147483647
    && forall i | 0 <= i < |s.clients| && s.clients[i].pc.WriteCounter? ::
         -2147483648 <= s.clients[i].pc.seen <= 2147483647
  }

  lemma JavaIntsStep(total: int, s: State, a: Action)
    requires JavaInts(s)
    ensures JavaInts(Step(total, s, a))
  {
  }

  // Client i and thread i take the same step.
  ghost predicate SameStep(total: int, s: State, i: nat)
    requires i < |s.clients|
  {
    var t := StepClient(total, s, i);
    && |t.clients| == |s.clients|
    && Execute(total, Shared(s), i, Remaining(s.clients[i].pc)) == (Shared(t), Remaining(t.clients[i].pc))
  }

  lemma LoopIsThread(total: int, s: State, i: nat)
    requires i < |s.clients|
    requires s.clients[i].pc.OuterTest? || s.clients[i].pc.InnerTest? || s.clients[i].pc.Sleep?
    ensures SameStep(total, s, i)
  {
    var todo := Remaining(s.clients[i].pc);
    match s.clients[i].pc {
      case OuterTest =>
        assert todo[1..] == [] && RUN[0].body + RUN == Remaining(InnerTest);
      case InnerTest =>
        assert [UnlessLocked([Pause])] + todo[1..] == Remaining(TryLock) && todo[1..] == Remaining(ReCheck);
      case Sleep =>
        assert todo[1..] == Remaining(InnerTest);
    }
  }

  lemma SetIsThread(total: int, s: State, i: nat)
    requires i < |s.clients| && s.clients[i].pc.TryLock?
    ensures SameStep(total, s, i)
  {
    var todo := Remaining(TryLock);
    assert [Pause] + [WhileBelowAndUnlocked([Pause])] + todo[1..] == Remaining(Sleep);
    assert todo[1..] == Remaining(ReCheck);
  }

  lemma IncrementIsThread(total: int, s: State, i: nat)
    requires JavaInts(s) && i < |s.clients|
    requires s.clients[i].pc.ReCheck? || s.clients[i].pc.ReadCounter? || s.clients[i].pc.WriteCounter?
    ensures SameStep(total, s, i)
  {
    var todo := Remaining(s.clients[i].pc);
    match s.clients[i].pc {
      case ReCheck =>
        assert todo[1..] == Remaining(ReadCounter);
      case ReadCounter =>
        assert [Store(Successor(s.counter))] + todo[1..] == Remaining(WriteCounter(s.counter));
      case WriteCounter(seen) =>
        assert todo[1..] == Remaining(GetKey);
    }
  }

  lemma UnlockIsThread(total: int, s: State, i: nat)
    requires i < |s.clients| && (s.clients[i].pc.GetKey? || s.clients[i].pc.DelKey? || s.clients[i].pc.Returned?)
    ensures SameStep(total, s, i)
  {
    var todo := Remaining(s.clients[i].pc);
    match s.clients[i].pc {
      case GetKey =>
        assert [Delete] + todo[1..] == Remaining(DelKey) && todo[1..] == RUN;
      case DelKey =>
        assert todo[1..] == RUN;
      case Returned =>
    }
  }

  lemma ClientIsThread(total: int, s: State, i: nat)
    requires JavaInts(s) && i < |s.clients|
    ensures SameStep(total, s, i)
  {
    match s.clients[i].pc {
      case OuterTest | InnerTest | Sleep => LoopIsThread(total, s, i);
      case TryLock => SetIsThread(total, s, i);
      case ReCheck | ReadCounter | WriteCounter(_) => IncrementIsThread(total, s, i);
      case GetKey | DelKey | Returned => UnlockIsThread(total, s, i);
    }
  }

  lemma StepIsAdvance(total: int, s: State, a: Action)
    requires JavaInts(s)
    ensures AsProgram(Step(total, s, a)) == Advance(total, AsProgram(s), a)
  {
    StepFrame(total, s, a);
    if a.Run? && a.i < |s.clients| {
      ClientIsThread(total, s, a.i);
      var p, t := AsProgram(s), Step(total, s, a);
      assert AsProgram(t).threads == p.threads[a.i := Remaining(t.clients[a.i].pc)];
    }
  }

  /** The protocol refines the program and the program the protocol: under every
      schedule, timed or not, the two go through the same states. */
  lemma {:induction false} ProtocolIsProgram(total: int, n: nat, start: int, acts: seq<Action>)
    requires INT_MIN <= start <= INT_MAX
    ensures AsProgram(Exec(total, Init(n, start), acts)) == Schedule(total, Launch(n, start), acts)
    ensures JavaInts(Exec(total, Init(n, start), acts))
  {
    if acts == [] {
      assert AsProgram(Init(n, start)) == Launch(n, start);
    } else {
      var before := acts[..|acts| - 1];
      ProtocolIsProgram(total, n, start, before);
      JavaIntsStep(total, Exec(total, Init(n, start), before), acts[|acts| - 1]);
      StepIsAdvance(total, Exec(total, Init(n, start), before), acts[|acts| - 1]);
    }
  }

  /** So what holds of the protocol holds of the program. Under every schedule in
      which no time passes and each of TOTAL - start + n + 2 rounds gives every
      thread at least eight steps, the program ends: no thread has a statement
      left, and the counter is at TOTAL. */
  lemma FairProgramsFinish(total: int, n: nat, start: int, rounds: seq<seq<Action>>)
    requires INT_MIN <= start <= total <= INT_MAX && n > 0
    requires forall k | 0 <= k < |Concat(rounds)| :: Concat(rounds)[k].Run?
    requires forall k | 0 <= k < |rounds| :: Round(n, rounds[k])
    requires |rounds| >= total - start + n + 2
    ensures var p := Schedule(total, Launch(n, start), Concat(rounds));
            p.memory.counter == total && p.threads == seq(n, _ => [])
  {
    var acts := Concat(rounds);
    InstantRunsAreWellTimed(total, n, start, acts);
    FairRunsFinish(total, n, start, rounds);
    ClientCount(total, Init(n, start), acts);
    ProtocolIsProgram(total, n, start, acts);
    var s := Exec(total, Init(n, start), acts);
    forall i | 0 <= i < n ensures AsProgram(s).threads[i] == [] {
      assert s.clients[i].pc.Returned?;
    }
  }
}
