/** The same protocol as code that changes state in place: the key held by the
    Redis server, the static counter, and each client's atomic steps. */
module LeaseLockCluster {
  import opened Wrappers
  import opened LeaseLock

  /** Only client i takes steps, and time passes ten milliseconds at a time. */
  ghost predicate Solitary(i: nat, acts: seq<Action>) {
    forall k | 0 <= k < |acts| :: acts[k] == Run(i) || acts[k] == Tick(10)
  }

  class Cluster {
    const total: int
    var now: int
    var key: Option<Lease>
    var counter: int
    var clients: seq<Client>

    ghost function View(): State
      reads this
    {
      State(now, key, counter, clients)
    }

    constructor (n: nat, start: int, total: int)
      ensures View() == Init(n, start) && this.total == total
    {
      this.total := total;
      now, key, counter := 0, None, start;
      clients := seq(n, _ => Client(OuterTest, false, 0));
    }

    method Tick(d: nat)
      modifies this`now
      ensures View() == Step(total, old(View()), LeaseLock.Tick(d))
    {
      now := now + d;
    }

    /** GET user.lock */
    method Get() returns (value: Option<nat>)
      ensures value == Held(View())
    {
      if key.Some? && now < key.value.deadline {
        value := Some(key.value.owner);
      } else {
        value := None;
      }
    }

    /** `lock`: SET user.lock id NX EX 10, and whether the answer was OK. */
    method Lock(id: nat) returns (isLock: bool)
      modifies this`key
      ensures isLock <==> old(key).None? || old(key).value.deadline <= now
      ensures key == if isLock then Some(Lease(id, now + 10_000)) else old(key)
    {
      var current := Get();
      isLock := current.None?;
      if isLock {
        key := Some(Lease(id, now + LEASE));
      }
    }

    /** DEL user.lock */
    method Del()
      modifies this`key
      ensures key == None
    {
      key := None;
    }

    method SetClient(i: nat, c: Client)
      requires i < |clients|
      modifies this`clients
      ensures clients == old(clients)[i := c]
    {
      clients := clients[i := c];
    }

    /** The next atomic step of client i in `run`. */
    method Advance(i: nat)
      requires i < |clients|
      modifies this`key, this`counter, this`clients
      ensures View() == Step(total, old(View()), Run(i))
    {
      var me := clients[i];
      match me.pc {
        case OuterTest =>
          SetClient(i, me.(pc := if counter < total then InnerTest else Returned));
        case InnerTest =>
          SetClient(i, me.(pc := if counter < total then TryLock else ReCheck));
        case TryLock =>
          var isLock := Lock(i);
          SetClient(i, if isLock then Client(ReCheck, true, now) else me.(pc := Sleep));
        case Sleep =>
          SetClient(i, me.(pc := InnerTest));
        case ReCheck =>
          if counter >= total {
            SetClient(i, me.(pc := Returned, holds := false));
          } else {
            SetClient(i, me.(pc := ReadCounter));
          }
        case ReadCounter =>
          SetClient(i, me.(pc := WriteCounter(counter)));
        case WriteCounter(seen) =>
          counter := Int32(seen + 1);
          SetClient(i, me.(pc := GetKey));
        case GetKey =>
          var value := Get();
          if value == Some(i) {
            SetClient(i, me.(pc := DelKey));
          } else {
            SetClient(i, me.(pc := OuterTest, holds := false));
          }
        case DelKey =>
          Del();
          SetClient(i, me.(pc := OuterTest, holds := false));
        case Returned =>
      }
    }

    /** Advance, and record the step. */
    method Record(i: nat, ghost before: State, ghost acts: seq<Action>) returns (ghost longer: seq<Action>)
      requires i < |clients| && View() == Exec(total, before, acts) && Solitary(i, acts)
      modifies this`key, this`counter, this`clients
      ensures View() == Step(total, old(View()), Run(i)) == Exec(total, before, longer)
      ensures Solitary(i, longer)
    {
      ExecSnoc(total, before, acts, Run(i));
      longer := acts + [Run(i)];
      Advance(i);
    }

    /** Let ten milliseconds pass, and record it. */
    method RecordTick(i: nat, ghost before: State, ghost acts: seq<Action>) returns (ghost longer: seq<Action>)
      requires View() == Exec(total, before, acts) && Solitary(i, acts)
      modifies this`now
      ensures View() == Step(total, old(View()), LeaseLock.Tick(10)) == Exec(total, before, longer)
      ensures Solitary(i, longer)
    {
      ExecSnoc(total, before, acts, LeaseLock.Tick(10));
      longer := acts + [LeaseLock.Tick(10)];
      Tick(10);
    }

    /** Test the counter and try SET: two steps that take the key if it is free. */
    method TryOnce(i: nat, ghost before: State, ghost acts: seq<Action>) returns (ghost longer: seq<Action>)
      requires i < |clients| && clients[i].pc.InnerTest? && counter < total
      requires View() == Exec(total, before, acts) && Solitary(i, acts)
      modifies this`key, this`counter, this`clients
      ensures View() == Exec(total, before, longer) && Solitary(i, longer)
      ensures counter == old(counter)
      ensures |clients| == |old(clients)| && forall j | 0 <= j < |clients| && j != i :: clients[j] == old(clients[j])
      ensures if Held(old(View())).Some?
              then clients[i].pc.Sleep? && key == old(key)
              else clients[i] == Client(ReCheck, true, now) && key == Some(Lease(i, now + LEASE))
    {
      TriedOnce(total, View(), i);
      longer := Record(i, before, acts);
      longer := Record(i, before, longer);
    }

    /** Sleep, test the counter again and try SET again. */
    method Retry(i: nat, ghost before: State, ghost acts: seq<Action>) returns (ghost longer: seq<Action>)
      requires i < |clients| && clients[i].pc.Sleep? && counter < total
      requires View() == Exec(total, before, acts) && Solitary(i, acts)
      modifies this`now, this`key, this`counter, this`clients
      ensures View() == Exec(total, before, longer) && Solitary(i, longer)
      ensures counter == old(counter) && now == old(now) + 10
      ensures |clients| == |old(clients)| && forall j | 0 <= j < |clients| && j != i :: clients[j] == old(clients[j])
      ensures if old(key).Some? && now < old(key).value.deadline
              then clients[i].pc.Sleep? && key == old(key)
              else clients[i] == Client(ReCheck, true, now) && key == Some(Lease(i, now + LEASE))
    {
      longer := RecordTick(i, before, acts);
      longer := Record(i, before, longer);
      longer := TryOnce(i, before, longer);
    }

    /** The inner loop: test the counter, try SET, sleep. */
    method WaitForLock(i: nat) returns (ghost acts: seq<Action>)
      requires i < |clients| && clients[i].pc.InnerTest? && counter < total
      modifies this`now, this`key, this`counter, this`clients
      ensures View() == Exec(total, old(View()), acts) && Solitary(i, acts)
      ensures |clients| == |old(clients)| && counter == old(counter)
      ensures forall j | 0 <= j < |clients| && j != i :: clients[j] == old(clients[j])
      ensures clients[i] == Client(ReCheck, true, now) && key == Some(Lease(i, now + 10_000))
      ensures old(now) <= now
      ensures Held(old(View())).None? ==> now == old(now)
      ensures Held(old(View())).Some? ==> old(key).value.deadline <= now < old(key).value.deadline + 10
    {
      ghost var before := View();
      acts := TryOnce(i, before, []);
      while clients[i].pc.Sleep?
        invariant View() == Exec(total, before, acts) && Solitary(i, acts)
        invariant |clients| == |old(clients)| && counter == old(counter) && old(now) <= now
        invariant forall j | 0 <= j < |clients| && j != i :: clients[j] == old(clients[j])
        invariant clients[i].pc.Sleep? ==> key == old(key) && Held(View()).Some?
        invariant !clients[i].pc.Sleep? ==>
                    clients[i] == Client(ReCheck, true, now) && key == Some(Lease(i, now + LEASE)) &&
                    (if Held(old(View())).None? then now == old(now)
                     else old(key).value.deadline <= now < old(key).value.deadline + 10)
        decreases clients[i].pc.Sleep?, if key.Some? then key.value.deadline - now else 0
      {
        acts := Retry(i, before, acts);
      }
    }

    /** Re-check, then the two halves of the increment. */
    method Increment(i: nat, ghost before: State, ghost acts: seq<Action>) returns (ghost longer: seq<Action>)
      requires i < |clients| && clients[i].pc.ReCheck?
      requires INT_MIN <= counter < total <= INT_MAX
      requires View() == Exec(total, before, acts) && Solitary(i, acts)
      modifies this`key, this`counter, this`clients
      ensures View() == Exec(total, before, longer) && Solitary(i, longer)
      ensures clients == old(clients)[i := old(clients[i]).(pc := GetKey)]
      ensures key == old(key) && counter == old(counter) + 1
    {
      CountedOne(total, View(), i);
      longer := Record(i, before, acts);
      longer := Record(i, before, longer);
      longer := Record(i, before, longer);
    }

    /** `unlock` by a client that has the key: GET, then DEL. */
    method Unlock(i: nat, ghost before: State, ghost acts: seq<Action>) returns (ghost longer: seq<Action>)
      requires i < |clients| && clients[i].pc.GetKey? && Held(View()) == Some(i)
      requires View() == Exec(total, before, acts) && Solitary(i, acts)
      modifies this`key, this`counter, this`clients
      ensures View() == Exec(total, before, longer) && Solitary(i, longer)
      ensures clients == old(clients)[i := old(clients[i]).(pc := OuterTest, holds := false)]
      ensures key == None && counter == old(counter)
    {
      longer := Record(i, before, acts);
      longer := Record(i, before, longer);
    }

    /** From the re-check of a holder that is still in time to the end of its
        unlock: five steps, one more increment, and the key is free. */
    method IncrementAndUnlock(i: nat) returns (ghost acts: seq<Action>)
      requires i < |clients| && clients[i].pc.ReCheck? && clients[i].holds && !Expired(View(), i)
      requires key == Some(Lease(i, clients[i].since + LEASE))
      requires INT_MIN <= counter < total <= INT_MAX
      modifies this`key, this`counter, this`clients
      ensures View() == Exec(total, old(View()), acts) && Solitary(i, acts)
      ensures clients == old(clients)[i := old(clients[i]).(pc := OuterTest, holds := false)]
      ensures key == None && counter == old(counter) + 1
    {
      ghost var before := View();
      acts := Increment(i, before, []);
      acts := Unlock(i, before, acts);
    }

    /** One turn of the outer loop, up to its next test. */
    method RunOnce(i: nat, ghost before: State, ghost acts: seq<Action>) returns (ghost longer: seq<Action>)
      requires i < |clients| && clients[i].pc.InnerTest? && INT_MIN <= counter < total <= INT_MAX
      requires View() == Exec(total, before, acts) && Solitary(i, acts)
      modifies this`now, this`key, this`counter, this`clients
      ensures View() == Exec(total, before, longer) && Solitary(i, longer)
      ensures |clients| == |old(clients)|
      ensures forall j | 0 <= j < |clients| && j != i :: clients[j] == old(clients[j])
      ensures clients[i].pc == if counter < total then InnerTest else Returned
      ensures counter == old(counter) + 1 && key == None
    {
      ghost var waited := WaitForLock(i);
      ExecAppend(total, before, acts, waited);
      ghost var counted := IncrementAndUnlock(i);
      ExecAppend(total, before, acts + waited, counted);
      longer := Record(i, before, acts + waited + counted);
    }

    /** `run` with nobody else at work: whatever key an earlier client left
        behind, the client waits out its lease in steps of ten milliseconds,
        drives the counter to TOTAL, releases the key after every increment and
        returns. All of it is a run of the protocol in which only this client takes
        steps, and nothing of the other clients changes. */
    method RunAlone(i: nat) returns (ghost acts: seq<Action>)
      requires i < |clients| && clients[i].pc.OuterTest?
      requires INT_MIN <= counter && total <= INT_MAX
      modifies this`now, this`key, this`counter, this`clients
      ensures View() == Exec(total, old(View()), acts) && Solitary(i, acts)
      ensures |clients| == |old(clients)| && clients[i].pc.Returned?
      ensures forall j | 0 <= j < |clients| && j != i :: clients[j] == old(clients[j])
      ensures counter == if old(counter) < total then total else old(counter)
      ensures old(counter) < total ==> Held(View()).None?
      ensures old(counter) >= total ==> key == old(key) && now == old(now)
    {
      ghost var before := View();
      acts := Record(i, before, []);
      while clients[i].pc.InnerTest?
        invariant View() == Exec(total, before, acts) && Solitary(i, acts)
        invariant |clients| == |old(clients)|
        invariant forall j | 0 <= j < |clients| && j != i :: clients[j] == old(clients[j])
        invariant clients[i].pc == if counter < total then InnerTest else Returned
        invariant INT_MIN <= old(counter) <= counter
        invariant counter <= if old(counter) < total then total else old(counter)
        invariant old(counter) < counter ==> Held(View()).None?
        invariant old(counter) == counter ==> key == old(key) && now == old(now)
        decreases total - counter
      {
        acts := RunOnce(i, before, acts);
      }
    }
  }
}
