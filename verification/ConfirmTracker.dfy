/** The publisher-confirm tracker of `EmitLogTopic`: a sender that records each
    sequence number before publishing it, a broker that confirms published
    messages whenever it likes, and a wait loop that ends when nothing is
    unconfirmed. Publishing, confirming and waiting interleave freely. */
module ConfirmTracker {
  const LONG_MAX: int := 0x7FFF_FFFF_FFFF_FFFF

  /** Java's `long` arithmetic wraps around. */
  function Int64(x: int): int {
    (x + 0x8000_0000_0000_0000) % 0x1_0000_0000_0000_0000 - 0x8000_0000_0000_0000
  }

  /** The sender's next atomic step. */
  datatype Phase =
    | Adding     // unconfirmedSet.add(channel.getNextPublishSeqNo())
    | Publishing // channel.basicPublish(...)
    | Waiting    // while (!unconfirmedSet.isEmpty()) sleep
    | Closed

  /** `count` messages are to be sent and `sent` have been published. */
  datatype State = State(count: nat, sent: nat, phase: Phase, unconfirmed: set<int>)

  datatype Action =
    | Send
    | Ack(tag: int, multiple: bool)
    | Nack(tag: int, multiple: bool)

  function Init(count: nat): State {
    State(count, 0, if count == 0 then Waiting else Adding, {})
  }

  /** `handleAck` on the set: one tag, or everything below tag + 1. */
  function Acked(unconfirmed: set<int>, tag: int, multiple: bool): set<int> {
    if multiple then set t | t in unconfirmed && t >= Int64(tag + 1)
    else unconfirmed - {tag}
  }

  function SendStep(s: State): State {
    match s.phase
    case Adding => s.(unconfirmed := s.unconfirmed + {s.sent + 1}, phase := Publishing)
    case Publishing => s.(sent := s.sent + 1, phase := if s.sent + 1 < s.count then Adding else Waiting)
    case Waiting => if s.unconfirmed == {} then s.(phase := Closed) else s
    case Closed => s
  }

  function Step(s: State, a: Action): State {
    match a
    case Send => SendStep(s)
    case Ack(tag, multiple) => s.(unconfirmed := Acked(s.unconfirmed, tag, multiple))
    case Nack(_, _) => s
  }

  function Exec(count: nat, acts: seq<Action>): State {
    if acts == [] then Init(count) else Step(Exec(count, acts[..|acts| - 1]), acts[|acts| - 1])
  }

  /** The broker only confirms what has been published, on an open channel. */
  predicate Legal(s: State, a: Action) {
    a.Send? || (1 <= a.tag <= s.sent && !s.phase.Closed?)
  }

  /** Every action of the run was legal when it happened. */
  predicate LegalRun(count: nat, acts: seq<Action>) {
    acts == [] ||
    (LegalRun(count, acts[..|acts| - 1]) && Legal(Exec(count, acts[..|acts| - 1]), acts[|acts| - 1]))
  }

  predicate AckCovers(a: Action, t: int) {
    a.Ack? && if a.multiple then t <= a.tag else t == a.tag
  }

  predicate NackCovers(a: Action, t: int) {
    a.Nack? && if a.multiple then t <= a.tag else t == a.tag
  }

  /** Some acknowledgement received so far is for tag t. */
  ghost predicate Confirmed(acts: seq<Action>, t: int) {
    exists k | 0 <= k < |acts| :: AckCovers(acts[k], t)
  }

  /** How many tags have been recorded: one more than published while in between. */
  function Added(s: State): nat {
    s.sent + if s.phase.Publishing? then 1 else 0
  }

  ghost predicate Shape(count: nat, s: State) {
    && s.count == count
    && (s.phase.Adding? || s.phase.Publishing? ==> s.sent < count)
    && (s.phase.Waiting? || s.phase.Closed? ==> s.sent == count)
  }

  lemma {:induction false} ShapeHolds(count: nat, acts: seq<Action>)
    ensures Shape(count, Exec(count, acts))
  {
    if acts != [] {
      ShapeHolds(count, acts[..|acts| - 1]);
    }
  }

  lemma {:induction false} LegalAt(count: nat, acts: seq<Action>, k: nat)
    requires LegalRun(count, acts) && k < |acts|
    ensures Legal(Exec(count, acts[..k]), acts[k])
  {
    var last := |acts| - 1;
    if k < last {
      LegalAt(count, acts[..last], k);
      assert acts[..last][..k] == acts[..k];
    }
  }

  lemma ConfirmedSnoc(acts: seq<Action>, t: int)
    requires acts != []
    ensures Confirmed(acts, t) <==> Confirmed(acts[..|acts| - 1], t) || AckCovers(acts[|acts| - 1], t)
  {
    var before := acts[..|acts| - 1];
    if Confirmed(before, t) {
      var k :| 0 <= k < |before| && AckCovers(before[k], t);
      assert AckCovers(acts[k], t);
    }
    if k :| 0 <= k < |acts| && AckCovers(acts[k], t) {
      assert k < |before| ==> AckCovers(before[k], t);
    }
  }

  // Only published messages are acknowledged.
  lemma {:induction false} AckedIsSent(count: nat, acts: seq<Action>, t: int)
    requires LegalRun(count, acts) && Confirmed(acts, t)
    ensures t <= Exec(count, acts).sent
  {
    var last := |acts| - 1;
    var before := acts[..last];
    ConfirmedSnoc(acts, t);
    if Confirmed(before, t) {
      AckedIsSent(count, before, t);
    }
  }

  /** Step m of the run puts tag t into the set, where it was not. */
  ghost predicate Records(count: nat, acts: seq<Action>, m: nat, t: int)
    requires m < |acts|
  {
    var s := Exec(count, acts[..m]);
    acts[m].Send? && t !in s.unconfirmed && Step(s, acts[m]).unconfirmed == s.unconfirmed + {t}
  }

  /** Step m of the run publishes the message with tag t. */
  ghost predicate Publishes(count: nat, acts: seq<Action>, m: nat, t: int)
    requires m < |acts|
  {
    var s := Exec(count, acts[..m]);
    acts[m].Send? && s.sent == t - 1 && Step(s, acts[m]).sent == t
  }

  lemma {:induction false} OnlyAddedTags(count: nat, acts: seq<Action>)
    ensures forall t | t in Exec(count, acts).unconfirmed :: t <= Added(Exec(count, acts))
  {
    if acts != [] {
      OnlyAddedTags(count, acts[..|acts| - 1]);
    }
  }

  // Every tag recorded so far was recorded by some step.
  lemma {:induction false} RecordedOnce(count: nat, acts: seq<Action>, t: int) returns (m: nat)
    requires 1 <= t <= Added(Exec(count, acts))
    ensures m < |acts| && Records(count, acts, m, t)
  {
    var last := |acts| - 1;
    var before := acts[..last];
    ShapeHolds(count, before);
    if t <= Added(Exec(count, before)) {
      m := RecordedOnce(count, before, t);
      assert before[..m] == acts[..m];
    } else {
      m := last;
      OnlyAddedTags(count, before);
    }
  }

  // Every message published so far was published by some step.
  lemma {:induction false} PublishedOnce(count: nat, acts: seq<Action>, t: int) returns (m: nat)
    requires 1 <= t <= Exec(count, acts).sent
    ensures m < |acts| && Publishes(count, acts, m, t)
  {
    var last := |acts| - 1;
    var before := acts[..last];
    if t <= Exec(count, before).sent {
      m := PublishedOnce(count, before, t);
      assert before[..m] == acts[..m];
    } else {
      m := last;
    }
  }

  /** Every tag is recorded before its message is published, and its message is
      published before any acknowledgement for it arrives: no acknowledgement can
      precede the record it is meant to remove. */
  lemma NoAckBeforeAdd(count: nat, acts: seq<Action>, k: nat, t: int)
    requires LegalRun(count, acts) && k < |acts| && 1 <= t && AckCovers(acts[k], t)
    ensures exists l, m | 0 <= l < m < k :: Records(count, acts, l, t) && Publishes(count, acts, m, t)
  {
    LegalAt(count, acts, k);
    var m := PublishedOnce(count, acts[..k], t);
    assert acts[..k][..m] == acts[..m];
    var l := RecordedOnce(count, acts[..m], t);
    assert acts[..m][..l] == acts[..l];
    assert Records(count, acts, l, t) && Publishes(count, acts, m, t);
  }

  lemma Int64Exact(x: int)
    requires -0x8000_0000_0000_0000 <= x <= LONG_MAX
    ensures Int64(x) == x
  {
  }

  // What one step does to one tag.
  lemma TagStep(s: State, a: Action, t: int)
    requires s.count < LONG_MAX && s.sent <= s.count && Legal(s, a)
    ensures var u := Step(s, a).unconfirmed;
            match a
            case Send => t in u <==> t in s.unconfirmed || (s.phase.Adding? && t == s.sent + 1)
            case Ack(_, _) => t in u <==> t in s.unconfirmed && !AckCovers(a, t)
            case Nack(_, _) => t in u <==> t in s.unconfirmed
    ensures a.Send? && s.phase.Adding? ==> Added(Step(s, a)) == Added(s) + 1 == s.sent + 1
    ensures !(a.Send? && s.phase.Adding?) ==> Added(Step(s, a)) == Added(s)
  {
    if a.Ack? {
      Int64Exact(a.tag + 1);
    }
  }

  /** In every interleaving the set is exactly the recorded tags that no single
      and no cumulative acknowledgement received so far is for; negative
      acknowledgements never change it. */
  lemma {:induction false} UnconfirmedExact(count: nat, acts: seq<Action>, t: int)
    requires count < LONG_MAX && LegalRun(count, acts)
    ensures var s := Exec(count, acts);
            t in s.unconfirmed <==> 1 <= t <= Added(s) && !Confirmed(acts, t)
  {
    if acts != [] {
      var last := |acts| - 1;
      var before := acts[..last];
      ShapeHolds(count, before);
      UnconfirmedExact(count, before, t);
      ConfirmedSnoc(acts, t);
      if Confirmed(before, t) {
        AckedIsSent(count, before, t);
      }
      TagStep(Exec(count, before), acts[last], t);
    }
  }

  /** Once everything is published, the sender's next test ends the wait if and
      only if every message has been acknowledged, in whatever order and mixture
      of single and cumulative acknowledgements; nacks count for nothing. */
  lemma WaitEndsIffAllAcked(count: nat, acts: seq<Action>)
    requires count < LONG_MAX && LegalRun(count, acts)
    requires Exec(count, acts).phase.Waiting?
    ensures Exec(count, acts + [Send]).phase.Closed? <==> forall t | 1 <= t <= count :: Confirmed(acts, t)
  {
    ShapeHolds(count, acts);
    var s := Exec(count, acts);
    assert (acts + [Send])[..|acts|] == acts;
    if s.unconfirmed == {} {
      forall t | 1 <= t <= count ensures Confirmed(acts, t) {
        UnconfirmedExact(count, acts, t);
      }
    }
    if forall t | 1 <= t <= count :: Confirmed(acts, t) {
      forall t ensures t !in s.unconfirmed {
        UnconfirmedExact(count, acts, t);
      }
      assert s.unconfirmed == {};
    }
  }

  /** Every message of a run that has closed its channel was acknowledged. */
  lemma {:induction false} ClosedMeansAllAcked(count: nat, acts: seq<Action>, t: int)
    requires count < LONG_MAX && LegalRun(count, acts)
    requires Exec(count, acts).phase.Closed? && 1 <= t <= count
    ensures Confirmed(acts, t)
  {
    var last := |acts| - 1;
    var before := acts[..last];
    ConfirmedSnoc(acts, t);
    if Exec(count, before).phase.Closed? {
      ClosedMeansAllAcked(count, before, t);
    } else {
      assert acts == before + [Send];
      WaitEndsIffAllAcked(count, before);
    }
  }

  lemma {:induction false} SentGrows(count: nat, acts: seq<Action>, k: nat)
    requires k <= |acts|
    ensures Exec(count, acts[..k]).sent <= Exec(count, acts).sent
  {
    if k == |acts| {
      assert acts[..k] == acts;
    } else {
      assert acts[..|acts| - 1][..k] == acts[..k];
      SentGrows(count, acts[..|acts| - 1], k);
    }
  }

  /** A message the broker refused and never acknowledged keeps the sender
      waiting for ever: no legal continuation without an acknowledgement for it
      closes the channel, however long, and the tag stays in the set. */
  lemma NackWaitsForever(count: nat, acts: seq<Action>, more: seq<Action>, k: nat, t: int)
    requires count < LONG_MAX && LegalRun(count, acts + more)
    requires k < |acts| && NackCovers(acts[k], t) && 1 <= t
    requires !Confirmed(acts + more, t)
    ensures !Exec(count, acts + more).phase.Closed?
    ensures t in Exec(count, acts + more).unconfirmed
  {
    var all := acts + more;
    ShapeHolds(count, all);
    LegalAt(count, all, k);
    SentGrows(count, all, k);
    UnconfirmedExact(count, all, t);
    if Exec(count, all).phase.Closed? {
      ClosedMeansAllAcked(count, all, t);
    }
  }

  /** In a run in which no refused message is acknowledged later, reaching the
      end means every message was positively acknowledged, and any refusal came
      after the acknowledgement. */
  lemma ExitMeansPositivelyAcked(count: nat, acts: seq<Action>, t: int)
    requires count < LONG_MAX && LegalRun(count, acts)
    requires forall j, k | 0 <= j < k < |acts| :: NackCovers(acts[j], t) ==> !AckCovers(acts[k], t)
    requires Exec(count, acts).phase.Closed? && 1 <= t <= count
    ensures exists k | 0 <= k < |acts| ::
              AckCovers(acts[k], t) && forall j | 0 <= j < k :: !NackCovers(acts[j], t)
  {
    ClosedMeansAllAcked(count, acts, t);
    var k :| 0 <= k < |acts| && AckCovers(acts[k], t);
    assert forall j | 0 <= j < k :: !NackCovers(acts[j], t);
  }

  // ---- The wait can always end ----

  lemma ExecSnoc(count: nat, acts: seq<Action>, a: Action)
    ensures Exec(count, acts + [a]) == Step(Exec(count, acts), a)
    ensures LegalRun(count, acts) && Legal(Exec(count, acts), a) ==> LegalRun(count, acts + [a])
  {
    var longer := acts + [a];
    assert longer[..|acts|] == acts;
  }

  lemma {:induction false} SendRest(count: nat, acts: seq<Action>) returns (all: seq<Action>)
    requires LegalRun(count, acts) && !Exec(count, acts).phase.Closed?
    ensures LegalRun(count, all) && acts <= all && Exec(count, all).phase.Waiting?
    decreases count - Exec(count, acts).sent, if Exec(count, acts).phase.Adding? then 1 else 0
  {
    ShapeHolds(count, acts);
    if Exec(count, acts).phase.Waiting? {
      all := acts;
    } else {
      ExecSnoc(count, acts, Send);
      all := SendRest(count, acts + [Send]);
    }
  }

  // The broker acknowledges everything at once, and the wait ends.
  lemma AckAllCloses(count: nat, sent: seq<Action>) returns (all: seq<Action>)
    requires count < LONG_MAX && LegalRun(count, sent) && Exec(count, sent).phase.Waiting?
    ensures LegalRun(count, all) && sent <= all && Exec(count, all).phase.Closed?
  {
    ShapeHolds(count, sent);
    all := sent;
    if count > 0 {
      all := sent + [Ack(count, true)];
      ExecSnoc(count, sent, Ack(count, true));
    }
    forall t | 1 <= t <= count ensures Confirmed(all, t) {
      assert AckCovers(all[|sent|], t);
    }
    WaitEndsIffAllAcked(count, all);
    ExecSnoc(count, all, Send);
    all := all + [Send];
  }

  /** Every run can be continued to the closing of the channel. */
  lemma EveryRunCanClose(count: nat, acts: seq<Action>)
    requires count < LONG_MAX && LegalRun(count, acts)
    ensures exists more :: LegalRun(count, acts + more) && Exec(count, acts + more).phase.Closed?
  {
    if Exec(count, acts).phase.Closed? {
      assert acts + [] == acts;
    } else {
      var sent := SendRest(count, acts);
      var all := AckAllCloses(count, sent);
      assert all == acts + all[|acts|..];
    }
  }

  /** A cumulative acknowledgement clears everything up to its tag if and only if
      the tag is not the largest `long` or there is nothing to clear; for that one
      tag + 1 wraps and nothing at all is cleared. */
  lemma CumulativeAckExact(unconfirmed: set<int>, tag: int)
    requires 0 <= tag <= LONG_MAX && forall t | t in unconfirmed :: 1 <= t <= LONG_MAX
    ensures (forall t :: t in Acked(unconfirmed, tag, true) <==> t in unconfirmed && t > tag) <==>
            tag < 9223372036854775807 || unconfirmed == {}
    ensures tag == 9223372036854775807 ==> Acked(unconfirmed, tag, true) == unconfirmed
  {
    if tag == LONG_MAX && forall t :: t in Acked(unconfirmed, tag, true) <==> t in unconfirmed && t > tag {
      forall t ensures t !in unconfirmed {
        assert t in unconfirmed ==> t in Acked(unconfirmed, tag, true);
      }
      assert unconfirmed == {};
    }
  }
}
