/**
 What the reports of a receiver are worth, over runs with fewer than 2^23 datagrams: a NACK only names numbers
 that were skipped and had not been handled, and every number handled is reported.
*/
module Reporting {
  import opened Sequence24
  import opened Wrappers
  import opened Ranges
  import opened AckQueues
  import opened GapTracking
  import opened Protocol
  import opened DatagramCodec
  import opened Split
  import opened Receiving
  import opened Network

  ghost predicate AckNames(b: Bytes, n: Seq24) {
    match ParseDatagram(b)
    case Ok(d) => d.payload.Ack? && Covered(d.payload.ackRanges, n)
    case Err(_) => false
  }

  ghost predicate NakNames(b: Bytes, n: Seq24) {
    match ParseDatagram(b)
    case Ok(d) => d.payload.Nak? && Covered(d.payload.nakRanges, n)
    case Err(_) => false
  }

  ghost predicate SomeAckNames(wire: seq<Bytes>, n: Seq24) {
    exists b :: b in wire && AckNames(b, n)
  }

  ghost predicate SomeNakNames(wire: seq<Bytes>, n: Seq24) {
    exists b :: b in wire && NakNames(b, n)
  }

  /** The number waits to be reported, or has been in a report. */
  ghost predicate Acknowledged(s: System, n: Seq24) {
    Covered(s.rx.acks, n) || SomeAckNames(s.toSender, n)
  }

  /** The number is NACKed somewhere: in the receiver's queue, on the wire, or at the sender. */
  ghost predicate Nacked(s: System, n: Seq24) {
    Covered(s.rx.naks, n) || SomeNakNames(s.toSender, n) || Covered(s.tx.naks, n)
  }

  /** The event is an arrival, handled without error, that skips `n`; and `n` has not been handled. */
  ghost predicate SkipsUnhandled(s: System, e: Event, n: Seq24) {
    && e.Arrive? && e.ok
    && ParseDatagram(e.wire).Ok? && ParseDatagram(e.wire).value.payload.Frames?
    && s.rx.readIndex <= n < ParseDatagram(e.wire).value.sequence
    && !NumberHandled(s.handled, n)
  }

  // ----- while numbers do not wrap -----

  ghost predicate HandledBelow(handled: set<Datagram>, n: nat) {
    forall d :: d in handled ==> d.sequence < n
  }

  /** Numbers are plain integers below 2^23, and everything handled is below the read index. */
  ghost predicate Narrow(s: System) {
    match s
    case System(_, rx, _, _, _, _, built, handled, _, _) =>
      && |built| < HALF
      && rx.readIndex <= |built|
      && HandledBelow(handled, rx.readIndex)
      && AllInWindow(0, rx.acks) && AllInWindow(0, rx.naks)
  }

  lemma NoWrap(read: Seq24, arrival: Seq24)
    requires read < HALF && arrival < HALF
    ensures ReadIndexAfter(read, arrival) == if read > arrival then read else arrival + 1
    ensures Skipped(read, arrival) == if read > arrival then 0 else arrival - read
  {
  }

  lemma {:induction false} ChunksInWindow(start: Seq24, missing: nat)
    requires start + missing < HALF
    ensures AllInWindow(0, NakChunks(start, missing))
    decreases missing
  {
    if missing > 0 {
      var n := if missing <= MAX_ACK_SEQUENCES then missing else MAX_ACK_SEQUENCES;
      ChunksInWindow(Ahead(start, n), missing - n);
    }
  }

  /** Pushing ranges never covers a number that neither the queue nor the ranges covered. */
  lemma {:induction false} PushedAllIsSound(q: seq<SequenceRange>, max: nat, rs: seq<SequenceRange>)
    requires AllInWindow(0, q) && AllInWindow(0, rs)
    ensures AllInWindow(0, PushedAll(q, max, rs))
    ensures forall n: Seq24 :: Covered(PushedAll(q, max, rs), n) ==> Covered(q, n) || Covered(rs, n)
  {
    if rs != [] {
      var init, last := rs[..|rs| - 1], rs[|rs| - 1];
      PushedAllIsSound(q, max, init);
      forall n: Seq24
        ensures AllInWindow(0, PushedAll(q, max, rs))
        ensures Covered(PushedAll(q, max, rs), n) ==> Covered(q, n) || Covered(rs, n)
      {
        PushCovers(0, PushedAll(q, max, init), max, last, n);
        if Covered(init, n) {
          var i :| 0 <= i < |init| && InRange(init[i], n);
          assert rs[i] == init[i];
        }
      }
      PushCovers(0, PushedAll(q, max, init), max, last, 0);
    }
  }

  /** An arrival queues NACKs only for what it skips. */
  lemma NacksOfArrival(rx: Rx, arrival: Seq24, n: Seq24)
    requires rx.readIndex < HALF && arrival < HALF && AllInWindow(0, rx.naks)
    ensures AllInWindow(0, AfterArrival(rx, arrival).naks)
    ensures Covered(AfterArrival(rx, arrival).naks, n) ==> Covered(rx.naks, n) || rx.readIndex <= n < arrival
  {
    var missing := Skipped(rx.readIndex, arrival);
    NoWrap(rx.readIndex, arrival);
    ChunksInWindow(rx.readIndex, missing);
    PushedAllIsSound(rx.naks, rx.maxNaks, NakChunks(rx.readIndex, missing));
    ChunksCoverGap(rx.readIndex, missing, n);
  }

  /** With a free slot the number of the arrival is queued to be acknowledged, and nothing queued is lost. */
  lemma AckOfArrival(rx: Rx, arrival: Seq24, n: Seq24)
    requires arrival < HALF && AllInWindow(0, rx.acks)
    ensures AllInWindow(0, AfterArrival(rx, arrival).acks)
    ensures |rx.acks| < rx.maxAcks ==>
            (Covered(AfterArrival(rx, arrival).acks, n) <==> Covered(rx.acks, n) || n == arrival)
  {
    PushCovers(0, rx.acks, rx.maxAcks, Singleton(arrival), n);
  }

  lemma ArrivalStaysNarrow(s: System, e: Event, s': System)
    requires Inv(s) && Narrow(s) && e.Arrive? && Arrives(s, e, s')
    ensures Narrow(s')
  {
    if s' != s {
      var d := ParseDatagram(e.wire).value;
      ArrivalNumber(s, e, d);
      if e.ok {
        AcceptedArrival(s.rx, d, e.now, s'.rx, e.ready);
        NumberStaysNarrow(s.rx, d, |s.built|, s.handled);
      } else {
        RefusedArrival(s.rx, d, e.now, s'.rx, e.ready);
      }
    }
  }

  lemma NumberStaysNarrow(rx: Rx, d: Datagram, n: nat, handled: set<Datagram>)
    requires d.sequence < n < HALF && rx.readIndex <= n && HandledBelow(handled, rx.readIndex)
    requires AllInWindow(0, rx.acks) && AllInWindow(0, rx.naks)
    ensures var rx' := AfterArrival(rx, d.sequence);
            && rx'.readIndex <= n && HandledBelow(handled + {d}, rx'.readIndex)
            && AllInWindow(0, rx'.acks) && AllInWindow(0, rx'.naks)
  {
    NoWrap(rx.readIndex, d.sequence);
    NacksOfArrival(rx, d.sequence, 0);
    AckOfArrival(rx, d.sequence, 0);
  }

  lemma ArrivalNumber(s: System, e: Event, d: Datagram)
    requires Inv(s) && Narrow(s) && e.Arrive? && e.wire in s.toReceiver && ParseDatagram(e.wire) == Ok(d)
    ensures d.sequence < |s.built| < HALF && d.payload.Frames?
  {
    var i :| 0 <= i < |s.built| && s.built[i] == d;
    assert BuiltAt(d, i, s.msgs);
  }

  lemma AcceptedArrival(rx: Rx, d: Datagram, now: nat, rx': Rx, ready: seq<Encap>)
    requires Received(rx, d, now, rx', ready, true)
    ensures rx'.readIndex == AfterArrival(rx, d.sequence).readIndex
    ensures rx'.acks == AfterArrival(rx, d.sequence).acks && rx'.naks == AfterArrival(rx, d.sequence).naks
    ensures rx'.maxAcks == rx.maxAcks
  {
    var rx1 :| HandlesAll(rx, d.payload.packets, now, rx1, ready, true) && rx' == AfterArrival(rx1, d.sequence);
    HandlingKeepsAcks(rx, d.payload.packets, now, rx1, ready, true);
  }

  lemma RefusedArrival(rx: Rx, d: Datagram, now: nat, rx': Rx, ready: seq<Encap>)
    requires Received(rx, d, now, rx', ready, false)
    ensures rx'.readIndex == rx.readIndex && rx'.acks == rx.acks && rx'.naks == rx.naks && rx'.maxAcks == rx.maxAcks
  {
    HandlingKeepsAcks(rx, d.payload.packets, now, rx', ready, false);
  }

  // ----- the receiver's tick -----

  lemma {:induction false} SkippingKeepsNumbers(rx: Rx, positions: seq<(Option<byte>, Option<Seq24>)>, rx': Rx)
    requires SkipsAll(rx, positions, rx')
    ensures rx'.readIndex == rx.readIndex && rx'.maxAcks == rx.maxAcks
    decreases |positions|
  {
    if positions != [] {
      var init, last := positions[..|positions| - 1], positions[|positions| - 1];
      assert SkipsOneMore(rx, init, last, rx');
      var rx1 :| SkipsAll(rx, init, rx1) && Receiving.Skips(rx1, last, rx');
      SkippingKeepsNumbers(rx, init, rx1);
    }
  }

  lemma TickKeepsNumbers(mtu: nat, rx: Rx, now: nat, rx': Rx, ids: seq<u16>, acks: seq<SequenceRange>,
                         naks: seq<SequenceRange>)
    requires TicksRx(mtu, rx, now, rx', ids, acks, naks)
    ensures rx'.readIndex == rx.readIndex && rx'.maxAcks == rx.maxAcks
  {
    var gone := Expired(rx.entries, rx.ttl, now);
    var positions :| SkipsDropped(rx.entries, rx.(entries := rx.entries - gone), rx'.(acks := rx.acks, naks := rx.naks),
                                  ids, positions);
    SkippingKeepsNumbers(rx.(entries := rx.entries - gone), positions, rx'.(acks := rx.acks, naks := rx.naks));
  }

  lemma RestInWindow(mtu: nat, q: seq<SequenceRange>, q': seq<SequenceRange>, sent: seq<SequenceRange>)
    requires Reports(mtu, q, q', sent) && AllInWindow(0, q)
    ensures AllInWindow(0, q')
  {
    var popped :| q == popped + q' && sent == SortedByStart(popped);
    SuffixInWindow(popped, q');
  }

  lemma SuffixInWindow(front: seq<SequenceRange>, back: seq<SequenceRange>)
    requires AllInWindow(0, front + back)
    ensures AllInWindow(0, back)
  {
    forall i | 0 <= i < |back|
      ensures InWindow(0, back[i])
    {
      assert back[i] == (front + back)[|front| + i];
    }
  }

  lemma TickStaysNarrow(s: System, e: Event, s': System)
    requires Narrow(s) && e.ReceiverTick? && TicksReceiver(s, e, s')
    ensures Narrow(s')
  {
    TickKeepsNumbers(s.rxMtu, s.rx, e.now, s'.rx, e.ids, e.ackSent, e.nakSent);
    RestInWindow(s.rxMtu, s.rx.acks, s'.rx.acks, e.ackSent);
    RestInWindow(s.rxMtu, s.rx.naks, s'.rx.naks, e.nakSent);
  }

  /** The ACK datagram of a report names exactly the numbers of the report. */
  lemma AckOnWire(sent: seq<SequenceRange>, n: Seq24)
    requires TotalRecords(sent) <= MAX_ACK_SEQUENCES
    ensures SomeAckNames(AllOnWire(AckDatagram(sent)), n) <==> Covered(sent, n)
    ensures !SomeNakNames(AllOnWire(AckDatagram(sent)), n)
  {
    if sent != [] {
      var b := AckBytesName(sent, n);
      NamesOfOne(b, n);
    }
  }

  lemma AckBytesName(sent: seq<SequenceRange>, n: Seq24) returns (b: Bytes)
    requires TotalRecords(sent) <= MAX_ACK_SEQUENCES && sent != []
    ensures AllOnWire(AckDatagram(sent)) == [b]
    ensures (AckNames(b, n) <==> Covered(sent, n)) && !NakNames(b, n)
  {
    var d := Datagram(FLAGS_ACK, 0, Ack(sent));
    AckDatagramRoundTrip(d);
    AllRecordsCover(sent, n);
    SingleOnWire(d);
    b := DatagramBytes(d).value;
  }

  lemma NamesOfOne(b: Bytes, n: Seq24)
    ensures SomeAckNames([b], n) <==> AckNames(b, n)
    ensures SomeNakNames([b], n) <==> NakNames(b, n)
  {
    assert b in [b];
  }

  lemma NakOnWire(sent: seq<SequenceRange>, n: Seq24)
    requires TotalRecords(sent) <= MAX_ACK_SEQUENCES
    ensures SomeNakNames(AllOnWire(NakDatagram(sent)), n) <==> Covered(sent, n)
    ensures !SomeAckNames(AllOnWire(NakDatagram(sent)), n)
  {
    if sent != [] {
      var b := NakBytesName(sent, n);
      NamesOfOne(b, n);
    }
  }

  lemma NakBytesName(sent: seq<SequenceRange>, n: Seq24) returns (b: Bytes)
    requires TotalRecords(sent) <= MAX_ACK_SEQUENCES && sent != []
    ensures AllOnWire(NakDatagram(sent)) == [b]
    ensures (NakNames(b, n) <==> Covered(sent, n)) && !AckNames(b, n)
  {
    var d := Datagram(FLAGS_NAK, 0, Nak(sent));
    NakDatagramRoundTrip(d);
    AllRecordsCover(sent, n);
    SingleOnWire(d);
    b := DatagramBytes(d).value;
  }

  lemma SingleOnWire(d: Datagram)
    requires DatagramBytes(d).Ok?
    ensures AllOnWire([d]) == [DatagramBytes(d).value]
  {
    assert [d][..0] == [];
  }

  lemma NamesConcat(a: seq<Bytes>, b: seq<Bytes>, n: Seq24)
    ensures SomeAckNames(a + b, n) <==> SomeAckNames(a, n) || SomeAckNames(b, n)
    ensures SomeNakNames(a + b, n) <==> SomeNakNames(a, n) || SomeNakNames(b, n)
  {
  }

  /** A tick moves reported numbers from the queues to the wire, and none is lost or made up. */
  lemma TickReports(s: System, e: Event, s': System, n: Seq24)
    requires Inv(s) && e.ReceiverTick? && TicksReceiver(s, e, s')
    ensures Acknowledged(s', n) <==> Acknowledged(s, n)
    ensures Nacked(s', n) <==> Nacked(s, n)
  {
    ReportsSplitCoverage(s.rxMtu, s.rx.acks, s'.rx.acks, e.ackSent, n);
    ReportsSplitCoverage(s.rxMtu, s.rx.naks, s'.rx.naks, e.nakSent, n);
    ReportsAreAcceptable(s.rxMtu, s.rx.acks, s'.rx.acks, e.ackSent);
    ReportsAreAcceptable(s.rxMtu, s.rx.naks, s'.rx.naks, e.nakSent);
    var acks, naks := AllOnWire(AckDatagram(e.ackSent)), AllOnWire(NakDatagram(e.nakSent));
    AllOnWireConcat(AckDatagram(e.ackSent), NakDatagram(e.nakSent));
    AckOnWire(e.ackSent, n);
    NakOnWire(e.nakSent, n);
    NamesConcat(acks, naks, n);
    NamesConcat(s.toSender, acks + naks, n);
  }

  // ----- every step -----

  /** The steps of the sending half do not touch the receiver. */
  lemma SenderSteps(s: System, e: Event, s': System)
    requires Step(s, e, s') && !e.Arrive? && !e.ReceiverTick? && !e.Report?
    ensures s'.rx == s.rx && s'.toSender == s.toSender && s'.handled == s.handled
    ensures s'.tx.naks == s.tx.naks || s'.tx.naks == []
    ensures |s.built| <= |s'.built|
  {
  }

  lemma ReportLeavesReceiver(s: System, e: Event, s': System)
    requires e.Report? && Reported(s, e, s')
    ensures s'.rx == s.rx && s'.toSender == s.toSender && s'.handled == s.handled && s'.built == s.built
  {
  }

  lemma StepStaysNarrow(s: System, e: Event, s': System)
    requires Inv(s) && Narrow(s) && Step(s, e, s') && |s'.built| < HALF
    ensures Narrow(s')
  {
    if e.Arrive? {
      ArrivalStaysNarrow(s, e, s');
    } else if e.ReceiverTick? {
      TickStaysNarrow(s, e, s');
    } else if e.Report? {
      ReportLeavesReceiver(s, e, s');
    } else {
      SenderSteps(s, e, s');
    }
  }

  /** Only an arrival that skips an unhandled number makes it NACKed. */
  lemma StepNacks(s: System, e: Event, s': System, n: Seq24)
    requires Inv(s) && Narrow(s) && Step(s, e, s')
    ensures Nacked(s', n) ==> Nacked(s, n) || SkipsUnhandled(s, e, n)
  {
    if e.Arrive? {
      ArrivalNacks(s, e, s', n);
    } else if e.ReceiverTick? {
      TickReports(s, e, s', n);
    } else if e.Report? {
      ReportNacks(s, e, s', n);
    } else {
      SenderSteps(s, e, s');
    }
  }

  lemma ArrivalNacks(s: System, e: Event, s': System, n: Seq24)
    requires Inv(s) && Narrow(s) && e.Arrive? && Arrives(s, e, s')
    ensures Nacked(s', n) ==> Nacked(s, n) || SkipsUnhandled(s, e, n)
  {
    if s' != s {
      var d := ParseDatagram(e.wire).value;
      ArrivalNumber(s, e, d);
      if e.ok {
        AcceptedArrival(s.rx, d, e.now, s'.rx, e.ready);
        NacksOfArrival(s.rx, d.sequence, n);
      } else {
        RefusedArrival(s.rx, d, e.now, s'.rx, e.ready);
      }
    }
  }

  lemma ReportNacks(s: System, e: Event, s': System, n: Seq24)
    requires e.Report? && Reported(s, e, s')
    ensures Nacked(s', n) ==> Nacked(s, n)
    ensures Acknowledged(s', n) <==> Acknowledged(s, n)
  {
    if ParseDatagram(e.wire).Ok? && ParseDatagram(e.wire).value.payload.Nak? {
      CoveredConcat(s.tx.naks, ParseDatagram(e.wire).value.payload.nakRanges, n);
      assert NakNames(e.wire, n) <==> Covered(ParseDatagram(e.wire).value.payload.nakRanges, n);
    }
  }

  /** A number once acknowledged stays so, and a handled one becomes so if the queue has a free slot. */
  lemma StepAcknowledges(s: System, e: Event, s': System, n: Seq24)
    requires Inv(s) && Narrow(s) && Step(s, e, s')
    requires e.Arrive? ==> |s.rx.acks| < s.rx.maxAcks
    requires NumberHandled(s.handled, n) ==> Acknowledged(s, n)
    ensures NumberHandled(s'.handled, n) ==> Acknowledged(s', n)
  {
    if e.Arrive? {
      ArrivalAcknowledges(s, e, s', n);
    } else if e.ReceiverTick? {
      TickReports(s, e, s', n);
    } else if e.Report? {
      ReportNacks(s, e, s', n);
      ReportLeavesReceiver(s, e, s');
    } else {
      SenderSteps(s, e, s');
    }
  }

  lemma ArrivalAcknowledges(s: System, e: Event, s': System, n: Seq24)
    requires Inv(s) && Narrow(s) && e.Arrive? && Arrives(s, e, s')
    requires |s.rx.acks| < s.rx.maxAcks
    requires NumberHandled(s.handled, n) ==> Acknowledged(s, n)
    ensures NumberHandled(s'.handled, n) ==> Acknowledged(s', n)
  {
    if s' != s {
      var d := ParseDatagram(e.wire).value;
      ArrivalNumber(s, e, d);
      if e.ok {
        AcceptedArrival(s.rx, d, e.now, s'.rx, e.ready);
        AckOfArrival(s.rx, d.sequence, n);
        if NumberHandled(s'.handled, n) && n != d.sequence {
          var x :| x in s'.handled && x.sequence == n;
          assert x in s.handled;
        }
      } else {
        RefusedArrival(s.rx, d, e.now, s'.rx, e.ready);
      }
    }
  }

  // ----- every run -----

  lemma BuiltNeverShrinks(states: seq<System>, events: seq<Event>, i: nat, j: nat)
    requires IsRun(states, events) && i <= j < |states|
    ensures |states[i].built| <= |states[j].built|
  {
    for k := i to j
      invariant |states[i].built| <= |states[k].built|
    {
      assert StepAt(states, events, k);
    }
  }

  lemma NarrowInEveryRun(states: seq<System>, events: seq<Event>, i: nat)
    requires IsRun(states, events) && i < |states| && |states[i].built| < HALF
    ensures Narrow(states[i])
  {
    for k := 0 to i
      invariant Narrow(states[k])
    {
      BuiltNeverShrinks(states, events, k + 1, i);
      RunKeepsInv(states, events, k);
      assert StepAt(states, events, k);
      StepStaysNarrow(states[k], events[k], states[k + 1]);
    }
  }

  /** In every run with fewer than 2^23 datagrams, a NACKed number was skipped by an arrival before it had been
      handled, wherever the NACK is by now. */
  lemma NacksAreTrueInEveryRun(states: seq<System>, events: seq<Event>, i: nat, n: Seq24) returns (j: nat)
    requires IsRun(states, events) && i < |states| && |states[i].built| < HALF
    requires Nacked(states[i], n)
    ensures j < i && SkipsUnhandled(states[j], events[j], n)
  {
    j := 0;
    for k := 0 to i
      invariant Nacked(states[k], n) ==> j < k && SkipsUnhandled(states[j], events[j], n)
    {
      BuiltNeverShrinks(states, events, k, i);
      NarrowInEveryRun(states, events, k);
      RunKeepsInv(states, events, k);
      assert StepAt(states, events, k);
      StepNacks(states[k], events[k], states[k + 1], n);
      if SkipsUnhandled(states[k], events[k], n) {
        j := k;
      }
    }
  }

  ghost predicate AckQueueHasRoom(states: seq<System>, events: seq<Event>) {
    |states| > |events| &&
    forall k :: 0 <= k < |events| && events[k].Arrive? ==> |states[k].rx.acks| < states[k].rx.maxAcks
  }

  lemma HandledIsAcknowledged(states: seq<System>, events: seq<Event>, i: nat, n: Seq24)
    requires IsRun(states, events) && i < |states| && |states[i].built| < HALF
    requires AckQueueHasRoom(states, events)
    ensures NumberHandled(states[i].handled, n) ==> Acknowledged(states[i], n)
  {
    for k := 0 to i
      invariant NumberHandled(states[k].handled, n) ==> Acknowledged(states[k], n)
    {
      BuiltNeverShrinks(states, events, k, i);
      AcknowledgedAfter(states, events, k, n);
    }
  }

  lemma AcknowledgedAfter(states: seq<System>, events: seq<Event>, k: nat, n: Seq24)
    requires IsRun(states, events) && k < |events| && |states[k].built| < HALF
    requires AckQueueHasRoom(states, events)
    requires NumberHandled(states[k].handled, n) ==> Acknowledged(states[k], n)
    ensures NumberHandled(states[k + 1].handled, n) ==> Acknowledged(states[k + 1], n)
  {
    NarrowInEveryRun(states, events, k);
    RunKeepsInv(states, events, k);
    assert StepAt(states, events, k);
    StepAcknowledges(states[k], events[k], states[k + 1], n);
  }

  /** In every run with fewer than 2^23 datagrams whose ACK queue is never full when one arrives, exactly the
      numbers handled wait to be acknowledged or have been in an ACK. */
  lemma HandledIsAcknowledgedInEveryRun(states: seq<System>, events: seq<Event>, i: nat, n: Seq24)
    requires IsRun(states, events) && i < |states| && |states[i].built| < HALF
    requires AckQueueHasRoom(states, events)
    ensures NumberHandled(states[i].handled, n) <==> Acknowledged(states[i], n)
  {
    HandledIsAcknowledged(states, events, i, n);
    if Acknowledged(states[i], n) {
      RunKeepsInv(states, events, i);
      AcknowledgedWasHandled(states[i], n);
    }
  }

  /** The converse needs no bound: nothing is acknowledged that was not handled. */
  lemma AcknowledgedWasHandled(s: System, n: Seq24)
    requires Inv(s) && Acknowledged(s, n)
    ensures NumberHandled(s.handled, n)
  {
    if !Covered(s.rx.acks, n) {
      var b :| b in s.toSender && AckNames(b, n);
      assert ReportGood(b, s.handled);
    }
  }
}
