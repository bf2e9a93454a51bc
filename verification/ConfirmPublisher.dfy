/** `EmitLogTopic.main` in its own form: the publishing loop, the confirm
    listener and the wait loop over the shared set, for every way in which the
    broker's confirmations fall between the sender's steps. */
module ConfirmPublisher {
  import opened ConfirmTracker

  /** A batch of confirmations for messages published so far. */
  ghost predicate Confirmations(batch: seq<Action>, sent: nat) {
    forall k | 0 <= k < |batch| :: !batch[k].Send? && 1 <= batch[k].tag <= sent
  }

  /** The run of the publishing loop over its first k messages: what the broker
      confirms before message i is recorded, the record, what it confirms between
      the two, and the publication. */
  ghost function PublishRun(before: seq<seq<Action>>, between: seq<seq<Action>>, k: nat): seq<Action>
    requires k <= |before| && k <= |between|
  {
    if k == 0 then []
    else PublishRun(before, between, k - 1) + before[k - 1] + [Send] + between[k - 1] + [Send]
  }

  /** The run of the wait loop over its first k turns: a test that finds the set
      not empty, and what arrives while it sleeps. */
  ghost function WaitRun(batches: seq<seq<Action>>, k: nat): seq<Action>
    requires k <= |batches|
  {
    if k == 0 then [] else WaitRun(batches, k - 1) + [Send] + batches[k - 1]
  }

  /** One of the first k batches acknowledges t. */
  ghost predicate ConfirmedWithin(batches: seq<seq<Action>>, k: nat, t: int)
    requires k <= |batches|
  {
    exists i | 0 <= i < k :: Confirmed(batches[i], t)
  }

  /** Some message has not been acknowledged. */
  ghost predicate Unfinished(count: nat, log: seq<Action>) {
    exists t | 1 <= t <= count :: !Confirmed(log, t)
  }

  lemma ConfirmedAppend(a: seq<Action>, b: seq<Action>, t: int)
    ensures Confirmed(a + b, t) <==> Confirmed(a, t) || Confirmed(b, t)
  {
    if Confirmed(a, t) {
      var k :| 0 <= k < |a| && AckCovers(a[k], t);
      assert AckCovers((a + b)[k], t);
    }
    if Confirmed(b, t) {
      var k :| 0 <= k < |b| && AckCovers(b[k], t);
      assert AckCovers((a + b)[|a| + k], t);
    }
    if k :| 0 <= k < |a + b| && AckCovers((a + b)[k], t) {
      assert if k < |a| then AckCovers(a[k], t) else AckCovers(b[k - |a|], t);
    }
  }

  lemma {:induction false} PublishRunConfirms(before: seq<seq<Action>>, between: seq<seq<Action>>, k: nat, t: int)
    requires k <= |before| && k <= |between|
    ensures Confirmed(PublishRun(before, between, k), t) <==>
            exists i | 0 <= i < k :: Confirmed(before[i], t) || Confirmed(between[i], t)
  {
    if k > 0 {
      var r := PublishRun(before, between, k - 1);
      PublishRunConfirms(before, between, k - 1, t);
      ConfirmedAppend(r, before[k - 1], t);
      ConfirmedAppend(r + before[k - 1], [Send], t);
      ConfirmedAppend(r + before[k - 1] + [Send], between[k - 1], t);
      ConfirmedAppend(r + before[k - 1] + [Send] + between[k - 1], [Send], t);
    }
  }

  lemma {:induction false} WaitRunConfirms(batches: seq<seq<Action>>, k: nat, t: int)
    requires k <= |batches|
    ensures Confirmed(WaitRun(batches, k), t) <==> ConfirmedWithin(batches, k, t)
  {
    if k > 0 {
      var r := WaitRun(batches, k - 1);
      WaitRunConfirms(batches, k - 1, t);
      ConfirmedAppend(r, [Send], t);
      ConfirmedAppend(r + [Send], batches[k - 1], t);
    }
  }

  class Publisher {
    const count: nat
    var sent: nat
    var unconfirmed: set<int>
    ghost var phase: Phase
    ghost var log: seq<Action>

    /** The log is a legal run of the protocol, and this is where it has led. */
    ghost predicate Tracking()
      reads this
    {
      LegalRun(count, log) && Exec(count, log) == State(count, sent, phase, unconfirmed)
    }

    constructor (count: nat)
      ensures Tracking() && log == [] && this.count == count
    {
      this.count := count;
      sent, unconfirmed := 0, {};
      phase := if count == 0 then Waiting else Adding;
      log := [];
    }

    method HandleAck(deliveryTag: int, multiple: bool)
      requires Tracking() && 1 <= deliveryTag <= sent && !phase.Closed?
      modifies this`unconfirmed, this`log
      ensures Tracking() && log == old(log) + [Ack(deliveryTag, multiple)]
    {
      ExecSnoc(count, log, Ack(deliveryTag, multiple));
      if multiple {
        var bound := Int64(deliveryTag + 1);
        unconfirmed := set t | t in unconfirmed && t >= bound;
      } else {
        unconfirmed := unconfirmed - {deliveryTag};
      }
      log := log + [Ack(deliveryTag, multiple)];
    }

    method HandleNack(deliveryTag: int, multiple: bool)
      requires Tracking() && 1 <= deliveryTag <= sent && !phase.Closed?
      modifies this`log
      ensures Tracking() && log == old(log) + [Nack(deliveryTag, multiple)]
    {
      ExecSnoc(count, log, Nack(deliveryTag, multiple));
      log := log + [Nack(deliveryTag, multiple)];
    }

    /** The listener works off a batch of confirmations. */
    method Deliver(confirms: seq<Action>)
      requires Tracking() && !phase.Closed?
      requires Confirmations(confirms, sent)
      modifies this`unconfirmed, this`log
      ensures Tracking() && log == old(log) + confirms
    {
      for k := 0 to |confirms|
        invariant Tracking() && log == old(log) + confirms[..k]
      {
        match confirms[k] {
          case Ack(tag, multiple) => HandleAck(tag, multiple);
          case Nack(tag, multiple) => HandleNack(tag, multiple);
        }
        assert confirms[..k + 1] == confirms[..k] + [confirms[k]];
      }
      assert confirms[..|confirms|] == confirms;
    }

    /** unconfirmedSet.add(channel.getNextPublishSeqNo()) */
    method AddNext()
      requires Tracking() && phase.Adding?
      modifies this
      ensures Tracking() && log == old(log) + [Send] && phase.Publishing? && sent == old(sent)
    {
      ExecSnoc(count, log, Send);
      unconfirmed := unconfirmed + {sent + 1};
      phase := Publishing;
      log := log + [Send];
    }

    /** channel.basicPublish(...) */
    method PublishNext()
      requires Tracking() && phase.Publishing?
      modifies this
      ensures Tracking() && log == old(log) + [Send] && sent == old(sent) + 1
      ensures phase == if sent < count then Adding else Waiting
    {
      ExecSnoc(count, log, Send);
      sent := sent + 1;
      phase := if sent < count then Adding else Waiting;
      log := log + [Send];
    }

    /** One turn of the publishing loop. */
    method PublishOne(before: seq<Action>, between: seq<Action>)
      requires Tracking() && phase.Adding?
      requires Confirmations(before, sent) && Confirmations(between, sent)
      modifies this
      ensures Tracking() && sent == old(sent) + 1
      ensures phase == if sent < count then Adding else Waiting
      ensures log == old(log) + before + [Send] + between + [Send]
    {
      Deliver(before);
      AddNext();
      Deliver(between);
      PublishNext();
    }

    lemma LeftUnconfirmed(before: seq<seq<Action>>, between: seq<seq<Action>>)
      requires Tracking() && phase.Waiting? && sent == count == |before| == |between|
      requires log == PublishRun(before, between, count)
      ensures count < LONG_MAX ==>
                forall t :: t in unconfirmed <==>
                  1 <= t <= count &&
                  !exists i | 0 <= i < count :: Confirmed(before[i], t) || Confirmed(between[i], t)
    {
      if count < LONG_MAX {
        forall t
          ensures t in unconfirmed <==>
            1 <= t <= count &&
            !exists i | 0 <= i < count :: Confirmed(before[i], t) || Confirmed(between[i], t)
        {
          UnconfirmedExact(count, log, t);
          PublishRunConfirms(before, between, count, t);
        }
      }
    }

    /** The publishing loop. `before[i]` and `between[i]` are what the broker
        confirms before message i is recorded, and between its record and its
        publication; it can only confirm what is out already. All of it is worked
        off, at its place, and the set is left with the messages that none of it
        acknowledged. */
    method PublishAll(before: seq<seq<Action>>, between: seq<seq<Action>>)
      requires Tracking() && log == []
      requires |before| == count && |between| == count
      requires forall i | 0 <= i < count :: Confirmations(before[i], i) && Confirmations(between[i], i)
      modifies this
      ensures Tracking() && phase.Waiting? && sent == count
      ensures log == PublishRun(before, between, count)
      ensures count < LONG_MAX ==>
                forall t :: t in unconfirmed <==>
                  1 <= t <= count &&
                  !exists i | 0 <= i < count :: Confirmed(before[i], t) || Confirmed(between[i], t)
    {
      for i := 0 to count
        invariant Tracking() && sent == i
        invariant phase == if i < count then Adding else Waiting
        invariant log == PublishRun(before, between, i)
      {
        assert Confirmations(before[i], i) && Confirmations(between[i], i);
        PublishOne(before[i], between[i]);
      }
      LeftUnconfirmed(before, between);
    }

    /** The next test of the wait loop finds the set not empty. */
    method SleepOnce()
      requires Tracking() && phase.Waiting? && unconfirmed != {}
      modifies this`log
      ensures Tracking() && log == old(log) + [Send]
    {
      ExecSnoc(count, log, Send);
      log := log + [Send];
    }

    /** The test of the wait loop. */
    method TestAgain() returns (closed: bool)
      requires Tracking() && phase.Waiting? && sent == count < LONG_MAX
      modifies this`phase, this`log
      ensures Tracking() && log == old(log) + [Send] && phase == if closed then Closed else Waiting
      ensures closed <==> unconfirmed == {}
      ensures closed <==> forall t | 1 <= t <= count :: Confirmed(old(log), t)
    {
      closed := unconfirmed == {};
      WaitEndsIffAllAcked(count, log);
      ExecSnoc(count, log, Send);
      phase := if closed then Closed else Waiting;
      log := log + [Send];
    }

    // While the set is not empty some message is unacknowledged.
    lemma SomeUnacked()
      requires Tracking() && phase.Waiting? && unconfirmed != {} && count < LONG_MAX
      ensures Unfinished(count, log)
    {
      ExecSnoc(count, log, Send);
      WaitEndsIffAllAcked(count, log);
    }

    /** One turn of the wait loop. */
    method WaitOnce(batch: seq<Action>)
      requires Tracking() && phase.Waiting? && sent == count < LONG_MAX && unconfirmed != {}
      requires Confirmations(batch, count)
      modifies this`unconfirmed, this`log
      ensures Tracking() && log == old(log) + [Send] + batch
      ensures Unfinished(count, old(log))
    {
      SomeUnacked();
      SleepOnce();
      Deliver(batch);
    }

    lemma AckedByWhatArrived(before: seq<Action>, batches: seq<seq<Action>>, arrived: nat, closed: bool,
                             run: seq<Action>)
      requires arrived <= |batches| && (!closed ==> arrived == |batches|)
      requires run == before + WaitRun(batches, arrived)
      requires closed <==> forall t | 1 <= t <= count :: Confirmed(run, t)
      ensures closed <==>
              forall t | 1 <= t <= count :: Confirmed(before, t) || ConfirmedWithin(batches, |batches|, t)
    {
      forall t
        ensures Confirmed(run, t) <==> Confirmed(before, t) || ConfirmedWithin(batches, arrived, t)
      {
        ConfirmedAppend(before, WaitRun(batches, arrived), t);
        WaitRunConfirms(batches, arrived, t);
      }
      if closed {
        forall t | 1 <= t <= count ensures Confirmed(before, t) || ConfirmedWithin(batches, |batches|, t) {
          assert Confirmed(run, t);
        }
      }
    }

    /** The wait loop: while it sleeps the next batch of confirmations arrives.
        The first `arrived` batches are worked off, and the loop stops as soon as
        the set is empty. The channel closes exactly when every message has been
        acknowledged by what came before or by one of the batches; otherwise all
        the batches have been worked off and the sender is still waiting. */
    method WaitForConfirms(batches: seq<seq<Action>>) returns (closed: bool, arrived: nat)
      requires Tracking() && phase.Waiting? && sent == count < LONG_MAX
      requires forall i | 0 <= i < |batches| :: Confirmations(batches[i], count)
      modifies this
      ensures Tracking() && (closed <==> phase.Closed?) && (closed <==> unconfirmed == {})
      ensures arrived <= |batches| && (!closed ==> arrived == |batches|)
      ensures log == old(log) + WaitRun(batches, arrived) + [Send]
      ensures closed <==>
              forall t | 1 <= t <= count ::
                Confirmed(old(log), t) || ConfirmedWithin(batches, |batches|, t)
      ensures forall k | 0 <= k < arrived :: Unfinished(count, old(log) + WaitRun(batches, k))
    {
      arrived := 0;
      assert log == old(log) + WaitRun(batches, 0);
      while unconfirmed != {} && arrived < |batches|
        invariant arrived <= |batches|
        invariant Tracking() && phase.Waiting? && sent == count
        invariant log == old(log) + WaitRun(batches, arrived)
        invariant forall k | 0 <= k < arrived :: Unfinished(count, old(log) + WaitRun(batches, k))
        decreases |batches| - arrived
      {
        assert Confirmations(batches[arrived], count);
        WaitOnce(batches[arrived]);
        arrived := arrived + 1;
        assert WaitRun(batches, arrived) == WaitRun(batches, arrived - 1) + [Send] + batches[arrived - 1];
      }
      ghost var run := log;
      closed := TestAgain();
      AckedByWhatArrived(old(log), batches, arrived, closed, run);
    }
  }
}
