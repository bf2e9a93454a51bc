/** The key on the server, over whole runs: which commands touch it, and whose it
    is at any moment. */
module LeaseLockServer {
  import opened Wrappers
  import opened LeaseLock

  /** What each kind of step leaves alone. Only a SET that finds no live key and a
      DEL touch the key, only the write half of an increment touches the counter,
      and no client's step touches the clock or another client. */
  lemma StepFrame(total: int, s: State, a: Action)
    ensures var t := Step(total, s, a);
            && |t.clients| == |s.clients|
            && (forall j | 0 <= j < |s.clients| && a != Run(j) :: t.clients[j] == s.clients[j])
            && t.now == s.now + (if a.Tick? then a.d else 0)
            && (t.key != s.key ==> a.Run? && a.i < |s.clients| &&
                                   (s.clients[a.i].pc.TryLock? || s.clients[a.i].pc.DelKey?))
            && (t.counter != s.counter ==> a.Run? && a.i < |s.clients| && s.clients[a.i].pc.WriteCounter?)
  {
  }

  /** The two commands that write the key, in full: SET with NX and EX 10 takes a
      key that is absent or older than ten seconds, and DEL removes it, whosever it is. */
  lemma KeyCommands(total: int, s: State, i: nat)
    requires i < |s.clients|
    ensures var t := Step(total, s, Run(i));
            && (s.clients[i].pc.TryLock? ==>
                  if s.key.Some? && s.now < s.key.value.deadline
                  then t.key == s.key && t.clients[i].pc.Sleep?
                  else t.key == Some(Lease(i, s.now + 10_000)) && t.clients[i].pc.ReCheck?)
            && (s.clients[i].pc.DelKey? ==> t.key == None)
  {
  }

  /** Step m of the run is a SET of client i that is answered with OK. */
  ghost predicate SetsKey(total: int, s0: State, acts: seq<Action>, m: nat, i: nat)
    requires m < |acts|
  {
    var s := Exec(total, s0, acts[..m]);
    var t := Step(total, s, acts[m]);
    acts[m] == Run(i) && i < |s.clients| == |t.clients| && s.clients[i].pc.TryLock? && t.clients[i].pc.ReCheck?
  }

  /** Step m of the run is a DEL. */
  ghost predicate DeletesKey(total: int, s0: State, acts: seq<Action>, m: nat)
    requires m < |acts|
  {
    var s := Exec(total, s0, acts[..m]);
    acts[m].Run? && acts[m].i < |s.clients| && s.clients[acts[m].i].pc.DelKey?
  }

  // The key was put there by a SET, and no DEL has come since.
  ghost predicate PutBy(total: int, s0: State, acts: seq<Action>, m: nat, i: nat)
    requires m < |acts|
  {
    SetsKey(total, s0, acts, m, i) && forall d | m < d < |acts| :: !DeletesKey(total, s0, acts, d)
  }

  lemma PutByPrefix(total: int, s0: State, acts: seq<Action>, m: nat, i: nat)
    requires m < |acts| - 1
    ensures PutBy(total, s0, acts, m, i) <==>
            PutBy(total, s0, acts[..|acts| - 1], m, i) && !DeletesKey(total, s0, acts, |acts| - 1)
  {
    var before := acts[..|acts| - 1];
    forall d | m <= d < |before| ensures acts[..d] == before[..d] && acts[d] == before[d] {
    }
    forall d | m < d < |before| ensures DeletesKey(total, s0, acts, d) <==> DeletesKey(total, s0, before, d) {
    }
    if PutBy(total, s0, before, m, i) && !DeletesKey(total, s0, acts, |acts| - 1) {
      forall d | m < d < |acts| ensures !DeletesKey(total, s0, acts, d) {
        assert d < |before| ==> !DeletesKey(total, s0, before, d);
      }
    }
  }

  // A key on the server comes from the last SET, which says when it will expire.
  lemma {:induction false} KeyIsPut(total: int, n: nat, start: int, acts: seq<Action>) returns (m: nat)
    requires Exec(total, Init(n, start), acts).key.Some?
    ensures var s0 := Init(n, start);
            var key := Exec(total, s0, acts).key.value;
            && m < |acts| && PutBy(total, s0, acts, m, key.owner)
            && key.deadline == Exec(total, s0, acts[..m]).now + 10_000
  {
    var s0, last := Init(n, start), |acts| - 1;
    var before := acts[..last];
    var s := Exec(total, s0, before);
    StepFrame(total, s, acts[last]);
    if acts[last].Run? && acts[last].i < |s.clients| {
      KeyCommands(total, s, acts[last].i);
    }
    if s.key.Some? && Exec(total, s0, acts).key == s.key && !SetsKey(total, s0, acts, last, s.key.value.owner) {
      m := KeyIsPut(total, n, start, before);
      assert before[..m] == acts[..m];
      PutByPrefix(total, s0, acts, m, s.key.value.owner);
    } else {
      m := last;
    }
  }

  lemma LiveKeyStays(total: int, s: State, a: Action)
    requires s.key.Some? && Step(total, s, a).now < s.key.value.deadline
    requires a.Run? && a.i < |s.clients| ==> !s.clients[a.i].pc.DelKey?
    ensures Step(total, s, a).key == s.key
  {
    StepFrame(total, s, a);
  }

  // A key that has been set stays as it is for ten seconds unless a DEL comes.
  lemma {:induction false} PutStays(total: int, s0: State, acts: seq<Action>, m: nat, i: nat)
    requires m < |acts| && PutBy(total, s0, acts, m, i)
    requires Exec(total, s0, acts).now < Exec(total, s0, acts[..m]).now + 10_000
    ensures Exec(total, s0, acts).key == Some(Lease(i, Exec(total, s0, acts[..m]).now + 10_000))
  {
    var last := |acts| - 1;
    var s := Exec(total, s0, acts[..last]);
    if m < last {
      PutByPrefix(total, s0, acts, m, i);
      assert acts[..last][..m] == acts[..m];
      StepFrame(total, s, acts[last]);
      PutStays(total, s0, acts[..last], m, i);
      LiveKeyStays(total, s, acts[last]);
    } else {
      KeyCommands(total, s, i);
    }
  }

  /** Whose key it is, in every run, timed or not: GET answers with i if and only
      if a SET of i was answered with OK less than ten seconds ago and no DEL, by
      anyone, has come since. */
  lemma HeldExact(total: int, n: nat, start: int, acts: seq<Action>, i: nat)
    ensures var s0 := Init(n, start);
            Held(Exec(total, s0, acts)) == Some(i) <==>
            exists m | 0 <= m < |acts| ::
              && PutBy(total, s0, acts, m, i)
              && Exec(total, s0, acts).now < Exec(total, s0, acts[..m]).now + 10_000
  {
    var s0 := Init(n, start);
    var s := Exec(total, s0, acts);
    if Held(s) == Some(i) {
      var m := KeyIsPut(total, n, start, acts);
    }
    if m: nat :| m < |acts| && PutBy(total, s0, acts, m, i) && s.now < Exec(total, s0, acts[..m]).now + 10_000 {
      PutStays(total, s0, acts, m, i);
    }
  }
}
