/**
 Runs of a sending session with its congestion window: queueing, building, ticks and reports
 (raknet/src/session/outbound.rs, inbound.rs, tick.rs).
*/
module SenderRuns {
  import opened Wrappers
  import opened Ranges
  import opened Protocol
  import opened DatagramCodec
  import opened Sliding
  import opened SentWindow
  import opened Sending
  import opened Congestion

  datatype Sender = Sender(tx: Tx, w: Window)

  datatype SenderEvent =
    | Queued(payload: Bytes, reliability: Reliability, channel: byte)
    | Built(now: nat, out: Option<Datagram>)
    | Ticked(now: nat)
    | AcksCame(ranges: seq<SequenceRange>)
    | NacksCame(ranges: seq<SequenceRange>)

  /** What a session keeps between its operations. */
  ghost predicate Kept(s: Sender) {
    s.w.Sane() && Numbered(s.tx.base, s.tx.slots)
  }

  ghost predicate SenderStep(s: Sender, e: SenderEvent, s': Sender) {
    match e
    case Queued(payload, reliability, channel) =>
      Kept(s) && s' == s.(tx := AfterQueue(s.tx, payload, reliability, channel))
    case Built(now, out) => Kept(s) && BuildsCharging(s.tx, s.w, now, out, s'.tx, s'.w)
    case Ticked(now) => Kept(s) && s' == AfterTick(s, now)
    case AcksCame(ranges) => Kept(s) && s' == s.(tx := s.tx.(acks := s.tx.acks + ranges))
    case NacksCame(ranges) => Kept(s) && s' == s.(tx := s.tx.(naks := s.tx.naks + ranges))
  }

  ghost function AfterTick(s: Sender, now: nat): Sender
    requires Kept(s)
  {
    var w, tx := BeforeResends(s.w, s.tx, now), SettledTx(s.tx, now);
    Sender(AfterResends(tx, now, w.Rto()), Resending(w, DueDatagrams(tx.slots, now) != [], tx.dgramWrite))
  }

  ghost predicate StepAt(states: seq<Sender>, events: seq<SenderEvent>, i: nat)
    requires i < |events| < |states|
  {
    SenderStep(states[i], events[i], states[i + 1])
  }

  ghost predicate IsSenderRun(start: Sender, states: seq<Sender>, events: seq<SenderEvent>) {
    && |states| == |events| + 1
    && states[0] == start
    && forall i :: 0 <= i < |events| ==> StepAt(states, events, i)
  }

  predicate NeverBuilds(events: seq<SenderEvent>) {
    forall i :: 0 <= i < |events| && events[i].Built? ==> events[i].out.None?
  }

  ghost predicate NeverBuildsAgain(s: Sender) {
    forall states, events :: IsSenderRun(s, states, events) ==> NeverBuilds(events)
  }

  lemma BuildKeeps(s: Sender, now: nat, out: Option<Datagram>, s': Sender)
    requires Kept(s) && BuildsCharging(s.tx, s.w, now, out, s'.tx, s'.w)
    ensures Kept(s')
  {
    if out.Some? {
      InsertedNumbered(s.tx.base, s.tx.slots, s.tx.dgramWrite, Tracked(out.value, now, now + s.w.Rto()));
    }
  }

  lemma TickKeeps(s: Sender, now: nat)
    requires Kept(s)
    ensures Kept(AfterTick(s, now))
  {
    var tx, w := SettledTx(s.tx, now), BeforeResends(s.w, s.tx, now);
    assert Numbered(tx.base, ResentSlots(tx.slots, now, w.Rto()));
  }

  /** Every step leaves a session that can go on. */
  lemma StepKeeps(s: Sender, e: SenderEvent, s': Sender)
    requires SenderStep(s, e, s')
    ensures Kept(s')
  {
    if e.Built? {
      BuildKeeps(s, e.now, e.out, s');
    } else if e.Ticked? {
      TickKeeps(s, e.now);
    }
  }

  /** ... so a run can always go on. */
  lemma RunKeeps(start: Sender, states: seq<Sender>, events: seq<SenderEvent>)
    requires IsSenderRun(start, states, events) && Kept(start)
    ensures forall i :: 0 <= i < |states| ==> Kept(states[i])
  {
    forall i | 0 <= i < |states|
      ensures Kept(states[i])
    {
      if i > 0 {
        var j := i - 1;
        assert StepAt(states, events, j);
        StepKeeps(states[j], events[j], states[i]);
      }
    }
  }

  lemma EarlierStep(states: seq<Sender>, events: seq<SenderEvent>, e: SenderEvent, s': Sender, i: nat)
    requires i < |events| < |states| && StepAt(states, events, i)
    ensures StepAt(states + [s'], events + [e], i)
  {
    var next := i + 1;
    assert (states + [s'])[next] == states[next];
  }

  /** A run goes on with one more step. */
  lemma RunExtended(start: Sender, states: seq<Sender>, events: seq<SenderEvent>, e: SenderEvent, s': Sender)
    returns (states': seq<Sender>, events': seq<SenderEvent>)
    requires IsSenderRun(start, states, events) && SenderStep(states[|events|], e, s')
    ensures IsSenderRun(start, states', events') && states'[|events'|] == s'
  {
    states', events' := states + [s'], events + [e];
    forall i | 0 <= i < |events|
      ensures StepAt(states', events', i)
    {
      EarlierStep(states, events, e, s', i);
    }
    assert StepAt(states', events', |events|);
  }

  lemma RunFrom(s: Sender, e: SenderEvent, start: Sender, states: seq<Sender>, events: seq<SenderEvent>)
    requires SenderStep(s, e, start) && IsSenderRun(start, states, events)
    ensures IsSenderRun(s, [s] + states, [e] + events)
  {
    var states', events' := [s] + states, [e] + events;
    forall i | 0 <= i < |events'|
      ensures StepAt(states', events', i)
    {
      if i > 0 {
        var j := i - 1;
        assert StepAt(states, events, j);
        assert states'[i] == states[j] && states'[i + 1] == states[j + 1] && events'[i] == events[j];
      }
    }
  }

  /** Whoever never builds again does not after one more step either. */
  lemma NeverBuildsStep(s: Sender, e: SenderEvent, s': Sender)
    requires NeverBuildsAgain(s) && SenderStep(s, e, s')
    ensures NeverBuildsAgain(s')
  {
    forall states: seq<Sender>, events: seq<SenderEvent> | IsSenderRun(s', states, events)
      ensures NeverBuilds(events)
    {
      RunFrom(s, e, s', states, events);
      assert IsSenderRun(s, [s] + states, [e] + events);
      NeverBuildsTail(e, events);
    }
  }

  lemma NeverBuildsTail(e: SenderEvent, events: seq<SenderEvent>)
    requires NeverBuilds([e] + events)
    ensures NeverBuilds(events)
  {
    forall i | 0 <= i < |events| && events[i].Built?
      ensures events[i].out.None?
    {
      assert ([e] + events)[i + 1] == events[i];
    }
  }

  // ----- what a run builds -----

  /** What is queued fits a datagram and carries no sequence index. */
  ghost predicate QueueGood(tx: Tx) {
    WorkableMtu(tx.mtu) && AllSendable(tx.mtu, tx.heap) && WithoutSequenceIndex(tx.heap)
  }

  lemma StepKeepsQueueGood(s: Sender, e: SenderEvent, s': Sender)
    requires SenderStep(s, e, s') && QueueGood(s.tx)
    ensures QueueGood(s'.tx)
  {
    match e
    case Queued(payload, reliability, channel) =>
      QueueKeepsSendable(s.tx, payload, reliability, channel);
      QueueLeavesSequenceIndexOut(s.tx, payload, reliability, channel);
    case Built(now, out) =>
      BuildKeepsSequenceIndexOut(s.tx, now, s.w.TransmissionBandwidth(), s.w.Rto(), s'.tx, out);
      BuildKeepsSendable(s.tx, now, s.w.TransmissionBandwidth(), s.w.Rto(), s'.tx, out);
    case _ =>
  }

  /** In every run that starts with nothing queued, a built datagram encodes if and only if no packet in it is
      sequenced. */
  lemma EncodesInEveryRun(start: Sender, states: seq<Sender>, events: seq<SenderEvent>, i: nat)
    requires IsSenderRun(start, states, events) && WorkableMtu(start.tx.mtu) && start.tx.heap == []
    requires i < |events| && events[i].Built? && events[i].out.Some?
    ensures DatagramBytes(events[i].out.value).Ok? <==>
            forall e :: e in PacketsOf(events[i].out) ==> !e.header.reliability.IsSequenced()
  {
    for k := 0 to i
      invariant QueueGood(states[k].tx)
    {
      assert StepAt(states, events, k);
      StepKeepsQueueGood(states[k], events[k], states[k + 1]);
    }
    assert StepAt(states, events, i);
    var s := states[i];
    BuiltEncodesUnlessSequenced(s.tx, events[i].now, s.w.TransmissionBandwidth(), s.w.Rto(), states[i + 1].tx,
                                events[i].out.value);
  }
}
