/**
 One direction of a connection, end to end: a sending half, a receiving half, and a network that
 may lose, duplicate, delay and reorder every datagram ever sent. What travels are bytes.
 The steps are those the session methods are proved to take.
*/
module Network {
  import opened Sequence24
  import opened Wrappers
  import opened Ranges
  import opened AckQueues
  import opened Protocol
  import opened DatagramCodec
  import opened Sequences
  import opened SentWindow
  import opened Sending
  import opened Receiving
  import opened History
  import opened Delivery

  datatype System = System(
    tx: Tx,
    rx: Rx,
    rxMtu: nat,
    toReceiver: seq<Bytes>,   // everything ever put on the wire, in order
    toSender: seq<Bytes>,
    // what has happened so far
    msgs: seq<Message>,       // queued by the application
    built: seq<Datagram>,     // data datagrams, in the order they were numbered
    handled: set<Datagram>,   // those whose payload the receiver took in without error
    delivered: seq<Encap>,    // passed on by the receiver
    exact: bool)              // no incomplete message has timed out

  datatype Event =
    | Queue(payload: Bytes, reliability: Reliability, channel: byte)
    | Build(now: nat, bandwidth: nat, rto: nat, out: Option<Datagram>)
    | SenderTick(now: nat, rto: nat, sent: seq<Datagram>)
    | Arrive(wire: Bytes, now: nat, ready: seq<Encap>, ok: bool)
    | ReceiverTick(now: nat, ids: seq<u16>, ackSent: seq<SequenceRange>, nakSent: seq<SequenceRange>)
    | Report(wire: Bytes)

  /** The bytes a datagram is sent as; one that does not encode is not sent. */
  function OnWire(d: Datagram): seq<Bytes> {
    if DatagramBytes(d).Ok? then [DatagramBytes(d).value] else []
  }

  function AllOnWire(ds: seq<Datagram>): seq<Bytes> {
    if ds == [] then [] else AllOnWire(ds[..|ds| - 1]) + OnWire(ds[|ds| - 1])
  }

  // ----- the steps -----

  ghost predicate Queues(s: System, e: Event, s': System)
    requires e.Queue?
  {
    var msgs' := s.msgs + [Message(s.tx, e.payload, e.reliability, e.channel)];
    && e.channel < |s.tx.orderWrite|
    && !e.reliability.IsSequenced()
    && Bounded(msgs')
    && s' == s.(tx := AfterQueue(s.tx, e.payload, e.reliability, e.channel), msgs := msgs')
  }

  /** Fewer than 2^24 datagrams are numbered, so that no number is used twice. */
  ghost predicate BuildsOne(s: System, e: Event, s': System)
    requires e.Build?
  {
    && Builds(s.tx, e.now, e.bandwidth, e.rto, s'.tx, e.out)
    && match e.out
       case None => s' == s.(tx := s'.tx)
       case Some(d) =>
         && |s.built| + 1 < MODULO
         && s' == s.(tx := s'.tx, built := s.built + [d], toReceiver := s.toReceiver + OnWire(d))
  }

  ghost predicate TicksSender(s: System, e: Event, s': System)
    requires e.SenderTick?
  {
    && Numbered(s.tx.base, s.tx.slots)
    && var tx := SettledTx(s.tx, e.now);
       && e.sent == DueDatagrams(tx.slots, e.now)
       && s' == s.(tx := AfterResends(tx, e.now, e.rto), toReceiver := s.toReceiver + AllOnWire(e.sent))
  }

  ghost predicate Arrives(s: System, e: Event, s': System)
    requires e.Arrive?
  {
    && e.wire in s.toReceiver
    && var parsed := ParseDatagram(e.wire);
       if parsed.Ok? && parsed.value.payload.Frames? then
         && Received(s.rx, parsed.value, e.now, s'.rx, e.ready, e.ok)
         && s' == s.(rx := s'.rx, delivered := s.delivered + e.ready,
                     handled := if e.ok then s.handled + {parsed.value} else s.handled)
       else s' == s
  }

  ghost predicate TicksReceiver(s: System, e: Event, s': System)
    requires e.ReceiverTick?
  {
    && TicksRx(s.rxMtu, s.rx, e.now, s'.rx, e.ids, e.ackSent, e.nakSent)
    && s' == s.(rx := s'.rx, exact := s.exact && e.ids == [],
                toSender := s.toSender + AllOnWire(AckDatagram(e.ackSent) + NakDatagram(e.nakSent)))
  }

  ghost predicate Reported(s: System, e: Event, s': System)
    requires e.Report?
  {
    && e.wire in s.toSender
    && match ParseDatagram(e.wire)
       case Err(_) => s' == s
       case Ok(d) =>
         match d.payload
         case Frames(_) => s' == s
         case Ack(ranges) => s' == s.(tx := s.tx.(acks := s.tx.acks + ranges))
         case Nak(ranges) => s' == s.(tx := s.tx.(naks := s.tx.naks + ranges))
  }

  ghost predicate Step(s: System, e: Event, s': System) {
    match e
    case Queue(_, _, _) => Queues(s, e, s')
    case Build(_, _, _, _) => BuildsOne(s, e, s')
    case SenderTick(_, _, _) => TicksSender(s, e, s')
    case Arrive(_, _, _, _) => Arrives(s, e, s')
    case ReceiverTick(_, _, _, _) => TicksReceiver(s, e, s')
    case Report(_) => Reported(s, e, s')
  }

  /** Two fresh sessions with nothing on the way. */
  ghost predicate Init(s: System) {
    && WorkableMtu(s.tx.mtu) && s.rxMtu <= 2 * MAX_ACK_SEQUENCES
    && s.tx == Tx(s.tx.mtu, s.tx.maxSent, s.tx.timeout, 0, 0, seq(|s.tx.orderWrite|, _ => 0), [], 0, 0, [], [], [])
    && s.rx.entries == map[] && s.rx.acks == [] && s.rx.naks == [] && s.rx.readIndex == 0
    && |s.rx.orderRead| == |s.rx.heaps|
    && (forall c :: 0 <= c < |s.rx.heaps| ==> s.rx.orderRead[c] == 0 && s.rx.heaps[c] == [])
    && s.toReceiver == [] && s.toSender == []
    && s.msgs == [] && s.built == [] && s.handled == {} && s.delivered == [] && s.exact
  }

  ghost predicate StepAt(states: seq<System>, events: seq<Event>, i: nat)
    requires i < |events| < |states|
  {
    Step(states[i], events[i], states[i + 1])
  }

  /** A run: its states, and the events between them. */
  ghost predicate IsRun(states: seq<System>, events: seq<Event>) {
    && |states| == |events| + 1
    && Init(states[0])
    && forall i :: 0 <= i < |events| ==> StepAt(states, events, i)
  }

  // ----- the invariant -----

  ghost predicate AllFrom(packets: seq<Encap>, msgs: seq<Message>) {
    forall e :: e in packets ==> FromHistory(e, msgs)
  }

  ghost predicate SenderGood(tx: Tx, msgs: seq<Message>) {
    && WorkableMtu(tx.mtu)
    && Consistent(msgs) && Counts(tx, msgs)
    && AllSendable(tx.mtu, tx.heap) && AllFrom(tx.heap, msgs)
  }

  /** The datagram numbered `i` holds queued packets and decodes to itself. */
  ghost predicate BuiltAt(d: Datagram, i: nat, msgs: seq<Message>) {
    && d.sequence == i
    && d.payload.Frames? && AllFrom(d.payload.packets, msgs)
    && DatagramBytes(d).Ok? && ParseDatagram(DatagramBytes(d).value) == Ok(d)
  }

  ghost predicate BuiltGood(built: seq<Datagram>, msgs: seq<Message>) {
    |built| < MODULO && forall i :: 0 <= i < |built| ==> BuiltAt(built[i], i, msgs)
  }

  ghost predicate SlotsBuilt(slots: Slots, built: seq<Datagram>) {
    forall i :: 0 <= i < |slots| && slots[i].Some? ==> slots[i].value.datagram in built
  }

  ghost predicate WindowGood(tx: Tx, built: seq<Datagram>) {
    && tx.dgramWrite == |built|
    && Numbered(tx.base, tx.slots)
    && SlotsBuilt(tx.slots, built)
  }

  ghost predicate WireGood(wire: seq<Bytes>, built: seq<Datagram>) {
    forall b :: b in wire ==> ParseDatagram(b).Ok? && ParseDatagram(b).value in built
  }

  ghost predicate NumberHandled(handled: set<Datagram>, n: Seq24) {
    exists d :: d in handled && d.sequence == n
  }

  ghost predicate AllHandled(ranges: seq<SequenceRange>, handled: set<Datagram>) {
    forall n: Seq24 :: Covered(ranges, n) ==> NumberHandled(handled, n)
  }

  ghost predicate ReportGood(b: Bytes, handled: set<Datagram>) {
    && ParseDatagram(b).Ok?
    && (ParseDatagram(b).value.payload.Ack? ==> AllHandled(ParseDatagram(b).value.payload.ackRanges, handled))
  }

  ghost predicate ReportsGood(wire: seq<Bytes>, handled: set<Datagram>) {
    forall b :: b in wire ==> ReportGood(b, handled)
  }

  ghost predicate HandledGood(handled: set<Datagram>, built: seq<Datagram>) {
    forall d :: d in handled ==> d in built
  }

  ghost predicate Inv(s: System) {
    match s
    case System(tx, rx, rxMtu, toReceiver, toSender, msgs, built, handled, delivered, exact) =>
      && rxMtu <= 2 * MAX_ACK_SEQUENCES
      && SenderGood(tx, msgs)
      && BuiltGood(built, msgs)
      && WindowGood(tx, built)
      && WireGood(toReceiver, built)
      && HandledGood(handled, built)
      && AllHandled(rx.acks, handled)
      && AllHandled(tx.acks, handled)
      && ReportsGood(toSender, handled)
      && ReceiverGood(rx, msgs, delivered, exact)
  }

  // ----- initially -----

  lemma InitReceiverGood(rx: Rx, exact: bool)
    requires rx.entries == map[] && |rx.orderRead| == |rx.heaps|
    requires forall c :: 0 <= c < |rx.heaps| ==> rx.orderRead[c] == 0 && rx.heaps[c] == []
    ensures ReceiverGood(rx, [], [], exact)
  {
  }

  lemma InitGood(s: System)
    requires Init(s)
    ensures Inv(s)
  {
    InitReceiverGood(s.rx, s.exact);
    assert forall c: byte :: Queued([], c) == [];
  }

  // ----- queueing -----

  lemma NewPacketsFrom(tx: Tx, msgs: seq<Message>, payload: Bytes, rel: Reliability, channel: byte)
    requires AllFrom(tx.heap, msgs)
    ensures AllFrom(AfterQueue(tx, payload, rel, channel).heap, msgs + [Message(tx, payload, rel, channel)])
  {
    HistoryGrows(msgs, Message(tx, payload, rel, channel));
  }

  lemma BuiltGoodGrows(built: seq<Datagram>, msgs: seq<Message>, m: Message)
    requires BuiltGood(built, msgs)
    ensures BuiltGood(built, msgs + [m])
  {
    HistoryGrows(msgs, m);
    forall i | 0 <= i < |built|
      ensures BuiltAt(built[i], i, msgs + [m])
    {
      assert BuiltAt(built[i], i, msgs);
    }
  }

  lemma QueueKeepsInv(s: System, e: Event, s': System)
    requires Inv(s) && e.Queue? && Queues(s, e, s')
    ensures Inv(s')
  {
    var m := Message(s.tx, e.payload, e.reliability, e.channel);
    QueueExtends(s.tx, s.msgs, e.payload, e.reliability, e.channel);
    QueueKeepsSendable(s.tx, e.payload, e.reliability, e.channel);
    NewPacketsFrom(s.tx, s.msgs, e.payload, e.reliability, e.channel);
    BuiltGoodGrows(s.built, s.msgs, m);
    GrowthKeepsGood(s.rx, s.msgs, m, s.delivered, s.exact);
  }

  // ----- building -----

  lemma HistoryIsNotSequenced(e: Encap, msgs: seq<Message>)
    requires Consistent(msgs) && FromHistory(e, msgs)
    ensures !e.header.reliability.IsSequenced()
  {
    var k: nat :| PacketOf(e, msgs, k);
    assert CountedAt(msgs, k);
  }

  lemma HeapIsNotSequenced(tx: Tx, msgs: seq<Message>)
    requires SenderGood(tx, msgs)
    ensures forall e :: e in tx.heap ==> !e.header.reliability.IsSequenced()
  {
    forall e | e in tx.heap
      ensures !e.header.reliability.IsSequenced()
    {
      HistoryIsNotSequenced(e, msgs);
    }
  }

  lemma BuiltDatagramGood(tx: Tx, now: nat, bw: nat, rto: nat, tx': Tx, d: Datagram, msgs: seq<Message>)
    requires SenderGood(tx, msgs) && Builds(tx, now, bw, rto, tx', Some(d))
    ensures BuiltAt(d, tx.dgramWrite, msgs)
    ensures SenderGood(tx', msgs)
  {
    HeapIsNotSequenced(tx, msgs);
    BuiltDatagramTravels(tx, now, bw, rto, tx', d);
  }

  lemma TrackingKeepsWindow(tx: Tx, now: nat, bw: nat, rto: nat, tx': Tx, d: Datagram, built: seq<Datagram>)
    requires WindowGood(tx, built) && Builds(tx, now, bw, rto, tx', Some(d)) && |built| + 1 < MODULO
    ensures WindowGood(tx', built + [d])
  {
    var built' := built + [d];
    assert forall x :: x in built ==> x in built';
    assert d in built' by {
      assert built'[|built|] == d;
    }
    var t := Tracked(d, now, now + rto);
    InsertedNumbered(tx.base, tx.slots, tx.dgramWrite, t);
  }

  lemma MoreBuilt(built: seq<Datagram>, d: Datagram, msgs: seq<Message>, wire: seq<Bytes>, handled: set<Datagram>)
    requires BuiltGood(built, msgs) && WireGood(wire, built) && HandledGood(handled, built)
    requires BuiltAt(d, |built|, msgs) && |built| + 1 < MODULO
    ensures BuiltGood(built + [d], msgs)
    ensures WireGood(wire + OnWire(d), built + [d])
    ensures HandledGood(handled, built + [d])
  {
    var built' := built + [d];
    assert built'[|built|] == d;
    assert forall x :: x in built ==> x in built';
  }

  lemma BuildKeepsInv(s: System, e: Event, s': System)
    requires Inv(s) && e.Build? && BuildsOne(s, e, s')
    ensures Inv(s')
  {
    if e.out.Some? {
      var d := e.out.value;
      BuiltDatagramGood(s.tx, e.now, e.bandwidth, e.rto, s'.tx, d, s.msgs);
      TrackingKeepsWindow(s.tx, e.now, e.bandwidth, e.rto, s'.tx, d, s.built);
      MoreBuilt(s.built, d, s.msgs, s.toReceiver, s.handled);
    }
  }

  // ----- the sender's tick -----

  lemma SettledKeepsWindow(tx: Tx, now: nat, built: seq<Datagram>)
    requires WindowGood(tx, built)
    ensures WindowGood(SettledTx(tx, now), built)
  {
    var acked := AckedSlots(tx.base, tx.slots, tx.acks);
    var tx1 := AfterAcks(tx, now);
    SettledWindow(tx, now);
    assert SlotsBuilt(acked, built);
    var k := FrontDrop(acked, now, tx.timeout, tx.maxSent);
    assert SlotsBuilt(acked[k..], built);
    assert SlotsBuilt(tx1.slots, built);
  }

  lemma ResendsKeepWindow(tx: Tx, now: nat, rto: nat, built: seq<Datagram>)
    requires WindowGood(tx, built)
    ensures WindowGood(AfterResends(tx, now, rto), built)
  {
  }

  lemma {:induction false} WireSource(ds: seq<Datagram>, b: Bytes) returns (d: Datagram)
    requires b in AllOnWire(ds)
    ensures d in ds && b in OnWire(d)
  {
    if b in OnWire(ds[|ds| - 1]) {
      d := ds[|ds| - 1];
    } else {
      d := WireSource(ds[..|ds| - 1], b);
    }
  }

  lemma DueAreBuilt(slots: Slots, now: nat, built: seq<Datagram>, msgs: seq<Message>)
    requires SlotsBuilt(slots, built) && BuiltGood(built, msgs)
    ensures WireGood(AllOnWire(DueDatagrams(slots, now)), built)
  {
    forall b | b in AllOnWire(DueDatagrams(slots, now))
      ensures ParseDatagram(b).Ok? && ParseDatagram(b).value in built
    {
      var d := WireSource(DueDatagrams(slots, now), b);
      DueMembers(slots, now, d);
      var i :| 0 <= i < |built| && built[i] == d;
      assert BuiltAt(d, i, msgs);
    }
  }

  lemma SenderTickKeepsInv(s: System, e: Event, s': System)
    requires Inv(s) && e.SenderTick? && TicksSender(s, e, s')
    ensures Inv(s')
  {
    var tx := SettledTx(s.tx, e.now);
    SettledKeepsWindow(s.tx, e.now, s.built);
    ResendsKeepWindow(tx, e.now, e.rto, s.built);
    DueAreBuilt(tx.slots, e.now, s.built, s.msgs);
  }

  // ----- arrivals -----

  /** The receiving half's handling of payloads leaves the numbers to report alone. */
  lemma {:induction false} HandlingKeepsAcks(rx: Rx, packets: seq<Encap>, now: nat, rx': Rx, ready: seq<Encap>,
                                             ok: bool)
    requires HandlesAll(rx, packets, now, rx', ready, ok)
    ensures rx'.acks == rx.acks && rx'.maxAcks == rx.maxAcks
    ensures rx'.naks == rx.naks && rx'.maxNaks == rx.maxNaks && rx'.readIndex == rx.readIndex
    decreases |packets|
  {
    if packets != [] {
      var init, last := packets[..|packets| - 1], packets[|packets| - 1];
      assert HandlesOneMore(rx, init, last, now, rx', ready, ok);
      var rx1, ready1, ok1 :|
        HandlesAll(rx, init, now, rx1, ready1, ok1)
        && if ok1 then HandlesLast(rx1, last, now, rx', ready1, ready, ok) else rx' == rx1 && ready == ready1 && !ok;
      HandlingKeepsAcks(rx, init, now, rx1, ready1, ok1);
    }
  }

  /** A number enters the ACK queue only with a datagram that was handled. */
  lemma ArrivalKeepsAcks(rx: Rx, d: Datagram, now: nat, rx': Rx, ready: seq<Encap>, ok: bool, handled: set<Datagram>)
    requires Received(rx, d, now, rx', ready, ok) && AllHandled(rx.acks, handled)
    ensures AllHandled(rx'.acks, if ok then handled + {d} else handled)
  {
    var rx1 :| HandlesAll(rx, d.payload.packets, now, rx1, ready, ok)
               && rx' == if ok then AfterArrival(rx1, d.sequence) else rx1;
    HandlingKeepsAcks(rx, d.payload.packets, now, rx1, ready, ok);
    if ok {
      PushHandled(rx.acks, rx.maxAcks, d, handled);
    }
  }

  lemma PushHandled(q: seq<SequenceRange>, max: nat, d: Datagram, handled: set<Datagram>)
    requires AllHandled(q, handled)
    ensures AllHandled(Pushed(q, max, Singleton(d.sequence)), handled + {d})
  {
    var handled' := handled + {d};
    forall n: Seq24 | Covered(Pushed(q, max, Singleton(d.sequence)), n)
      ensures NumberHandled(handled', n)
    {
      PushSingletonIsSound(q, max, d.sequence, n);
      if Covered(q, n) {
        assert NumberHandled(handled, n);
        var x :| x in handled && x.sequence == n;
        assert x in handled';
      } else {
        assert d in handled';
      }
    }
  }

  lemma MoreHandled(handled: set<Datagram>, d: Datagram, ranges: seq<SequenceRange>, wire: seq<Bytes>)
    requires AllHandled(ranges, handled) && ReportsGood(wire, handled)
    ensures AllHandled(ranges, handled + {d}) && ReportsGood(wire, handled + {d})
  {
    forall n: Seq24 | NumberHandled(handled, n)
      ensures NumberHandled(handled + {d}, n)
    {
      var x :| x in handled && x.sequence == n;
      assert x in handled + {d};
    }
    forall b | b in wire
      ensures ReportGood(b, handled + {d})
    {
      assert ReportGood(b, handled);
    }
  }

  lemma ArriveKeepsInv(s: System, e: Event, s': System)
    requires Inv(s) && e.Arrive? && Arrives(s, e, s')
    ensures Inv(s')
  {
    var d := ParseDatagram(e.wire).value;
    assert d in s.built;
    var i :| 0 <= i < |s.built| && s.built[i] == d;
    assert BuiltAt(d, i, s.msgs);
    ArrivalKeepsAcks(s.rx, d, e.now, s'.rx, e.ready, e.ok, s.handled);
    MoreHandled(s.handled, d, s.tx.acks, s.toSender);
    ReceivedKeepsGood(s.rx, d, e.now, s'.rx, e.ready, e.ok, s.msgs, s.delivered, s.exact);
  }

  // ----- the receiver's tick -----

  lemma AckReportGood(mtu: nat, q: seq<SequenceRange>, q': seq<SequenceRange>, sent: seq<SequenceRange>,
                      handled: set<Datagram>)
    requires Reports(mtu, q, q', sent) && mtu <= 2 * MAX_ACK_SEQUENCES && AllHandled(q, handled)
    ensures AllHandled(q', handled)
    ensures ReportsGood(AllOnWire(AckDatagram(sent)), handled)
  {
    forall n: Seq24
      ensures Covered(q', n) || Covered(sent, n) ==> Covered(q, n)
    {
      ReportsSplitCoverage(mtu, q, q', sent, n);
    }
    ReportsAreAcceptable(mtu, q, q', sent);
    var d := Datagram(FLAGS_ACK, 0, Ack(sent));
    AckDatagramRoundTrip(d);
    forall n: Seq24 | Covered(AllRecords(sent), n)
      ensures NumberHandled(handled, n)
    {
      AllRecordsCover(sent, n);
    }
    assert ReportGood(DatagramBytes(d).value, handled);
  }

  lemma NakReportGood(mtu: nat, q: seq<SequenceRange>, q': seq<SequenceRange>, sent: seq<SequenceRange>,
                      handled: set<Datagram>)
    requires Reports(mtu, q, q', sent) && mtu <= 2 * MAX_ACK_SEQUENCES
    ensures ReportsGood(AllOnWire(NakDatagram(sent)), handled)
  {
    ReportsAreAcceptable(mtu, q, q', sent);
    NakDatagramRoundTrip(Datagram(FLAGS_NAK, 0, Nak(sent)));
  }

  lemma {:induction false} AllOnWireConcat(a: seq<Datagram>, b: seq<Datagram>)
    ensures AllOnWire(a + b) == AllOnWire(a) + AllOnWire(b)
  {
    if b == [] {
      assert a + b == a;
    } else {
      var init, last := b[..|b| - 1], b[|b| - 1];
      assert (a + b)[..|a + b| - 1] == a + init && (a + b)[|a + b| - 1] == last;
      AllOnWireConcat(a, init);
      Regrouped(AllOnWire(a), AllOnWire(init), OnWire(last));
    }
  }

  lemma ReceiverTickKeepsInv(s: System, e: Event, s': System)
    requires Inv(s) && e.ReceiverTick? && TicksReceiver(s, e, s')
    ensures Inv(s')
  {
    AckReportGood(s.rxMtu, s.rx.acks, s'.rx.acks, e.ackSent, s.handled);
    NakReportGood(s.rxMtu, s.rx.naks, s'.rx.naks, e.nakSent, s.handled);
    AllOnWireConcat(AckDatagram(e.ackSent), NakDatagram(e.nakSent));
    var pruned := s'.rx.(acks := s.rx.acks, naks := s.rx.naks);
    PrunesKeepsGood(s.rx, e.now, pruned, e.ids, s.msgs, s.delivered, s.exact);
    BookkeepingKeepsGood(pruned, s'.rx, s.msgs, s.delivered, s'.exact);
  }

  // ----- reports reach the sender -----

  lemma ReportKeepsInv(s: System, e: Event, s': System)
    requires Inv(s) && e.Report? && Reported(s, e, s')
    ensures Inv(s')
  {
    assert ReportGood(e.wire, s.handled);
    var d := ParseDatagram(e.wire).value;
    if d.payload.Ack? {
      forall n: Seq24 | Covered(s'.tx.acks, n)
        ensures NumberHandled(s.handled, n)
      {
        CoveredConcat(s.tx.acks, d.payload.ackRanges, n);
      }
    }
  }

  // ----- every run -----

  lemma StepKeepsInv(s: System, e: Event, s': System)
    requires Inv(s) && Step(s, e, s')
    ensures Inv(s')
  {
    match e
    case Queue(_, _, _) => QueueKeepsInv(s, e, s');
    case Build(_, _, _, _) => BuildKeepsInv(s, e, s');
    case SenderTick(_, _, _) => SenderTickKeepsInv(s, e, s');
    case Arrive(_, _, _, _) => ArriveKeepsInv(s, e, s');
    case ReceiverTick(_, _, _, _) => ReceiverTickKeepsInv(s, e, s');
    case Report(_) => ReportKeepsInv(s, e, s');
  }

  lemma RunKeepsInv(states: seq<System>, events: seq<Event>, i: nat)
    requires IsRun(states, events) && i < |states|
    ensures Inv(states[i])
  {
    InitGood(states[0]);
    for k := 0 to i
      invariant Inv(states[k])
    {
      assert StepAt(states, events, k);
      StepKeepsInv(states[k], events[k], states[k + 1]);
    }
  }

  // ----- what every run guarantees -----

  /** At every moment of every run, what a channel has delivered is a prefix of what was queued on it;
      once an incomplete message has timed out, still an in-order, repeat-free subsequence. */
  lemma OrderedDeliveryInEveryRun(states: seq<System>, events: seq<Event>, i: nat, c: byte)
    requires IsRun(states, events) && i < |states|
    ensures var s := states[i];
            && Subsequence(OnChannel(s.delivered, c), Queued(s.msgs, c))
            && (s.exact ==> OnChannel(s.delivered, c) <= Queued(s.msgs, c))
  {
    RunKeepsInv(states, events, i);
    ChannelDelivers(states[i].rx, states[i].msgs, states[i].delivered, states[i].exact, c);
  }

  lemma ChannelDelivers(rx: Rx, msgs: seq<Message>, delivered: seq<Encap>, exact: bool, c: byte)
    requires ReceiverGood(rx, msgs, delivered, exact)
    ensures Subsequence(OnChannel(delivered, c), Queued(msgs, c))
    ensures exact ==> OnChannel(delivered, c) <= Queued(msgs, c)
  {
    var q, out := Queued(msgs, c), OnChannel(delivered, c);
    assert ChannelGood(rx, c, q, out, exact);
    if c < |rx.orderRead| {
      SubsequenceOfLonger(out, q, rx.orderRead[c]);
    }
  }

  /** Whatever is delivered, ordered or not, is a queued message with its payload, position and channel. */
  lemma DeliveredWasQueued(states: seq<System>, events: seq<Event>, i: nat, e: Encap) returns (k: nat)
    requires IsRun(states, events) && i < |states|
    requires e in states[i].delivered
    ensures Carried(e, states[i].msgs, k)
  {
    RunKeepsInv(states, events, i);
    assert Genuine(e, states[i].msgs);
    k :| Carried(e, states[i].msgs, k);
  }

  /** Event `j` is an arrival of `d` that was handled without error. */
  predicate HandledAt(events: seq<Event>, j: nat, d: Datagram) {
    && j < |events|
    && events[j].Arrive? && events[j].ok
    && ParseDatagram(events[j].wire) == Ok(d)
  }

  lemma {:induction false} HandledArrived(states: seq<System>, events: seq<Event>, i: nat, d: Datagram) returns (j: nat)
    requires IsRun(states, events) && i < |states|
    requires d in states[i].handled
    ensures j < i && HandledAt(events, j, d)
  {
    assert i > 0;
    assert StepAt(states, events, i - 1);
    if d in states[i - 1].handled {
      j := HandledArrived(states, events, i - 1, d);
    } else {
      j := i - 1;
    }
  }

  /** A number belongs to one datagram only. */
  lemma NumberDetermines(built: seq<Datagram>, msgs: seq<Message>, d: Datagram, d': Datagram)
    requires BuiltGood(built, msgs) && d in built && d' in built && d.sequence == d'.sequence
    ensures d == d'
  {
    var i :| 0 <= i < |built| && built[i] == d;
    var j :| 0 <= j < |built| && built[j] == d';
    assert BuiltAt(built[i], i, msgs) && BuiltAt(built[j], j, msgs);
  }

  lemma AckedWasHandled(s: System, n: Seq24)
    requires Inv(s) && Covered(s.tx.acks, n)
    ensures Lookup(s.tx.base, s.tx.slots, n).Some? ==> Lookup(s.tx.base, s.tx.slots, n).value.datagram in s.handled
  {
    var slot := Lookup(s.tx.base, s.tx.slots, n);
    if slot.Some? {
      DistanceDetermines(s.tx.base, n);
      assert NumberHandled(s.handled, n);
      var d :| d in s.handled && d.sequence == n;
      NumberDetermines(s.built, s.msgs, d, slot.value.datagram);
    }
  }

  /** Every datagram the sender is about to strike off its window for an acknowledgement arrived earlier
      and was handled without error: no number is ever acknowledged that was not. */
  lemma AckSafetyInEveryRun(states: seq<System>, events: seq<Event>, i: nat, n: Seq24) returns (j: nat)
    requires IsRun(states, events) && i < |states|
    requires Lookup(states[i].tx.base, states[i].tx.slots, n).Some? && Covered(states[i].tx.acks, n)
    ensures j < i && HandledAt(events, j, Lookup(states[i].tx.base, states[i].tx.slots, n).value.datagram)
  {
    RunKeepsInv(states, events, i);
    AckedWasHandled(states[i], n);
    j := HandledArrived(states, events, i, Lookup(states[i].tx.base, states[i].tx.slots, n).value.datagram);
  }

  // ----- nothing is forgotten -----

  predicate IsTracked(tx: Tx, d: Datagram) {
    var slot := Lookup(tx.base, tx.slots, d.sequence);
    slot.Some? && slot.value.datagram == d
  }

  /** A tick that finds `d` unacknowledged in the window but too old, or too far behind for the capacity. */
  predicate GivesUp(s: System, e: Event, d: Datagram) {
    && e.SenderTick?
    && IsTracked(s.tx, d)
    && !Covered(s.tx.acks, d.sequence)
    && (SaturatingSub(e.now, Lookup(s.tx.base, s.tx.slots, d.sequence).value.sendTime) > s.tx.timeout
        || |s.tx.slots| - DistanceTo(s.tx.base, d.sequence) > s.tx.maxSent)
  }

  /** The window before retransmission, as a map. */
  lemma SettledLookup(tx: Tx, now: nat, n: Seq24)
    requires Numbered(tx.base, tx.slots)
    ensures var acked := AckedSlots(tx.base, tx.slots, tx.acks);
            var dropped := FrontDrop(acked, now, tx.timeout, tx.maxSent);
            Lookup(SettledTx(tx, now).base, SettledTx(tx, now).slots, n) ==
            if Covered(tx.acks, n) || DistanceTo(tx.base, n) < dropped then None
            else if Covered(tx.naks, n) then Hurried(Lookup(tx.base, tx.slots, n), now)
            else Lookup(tx.base, tx.slots, n)
    ensures Lookup(tx.base, tx.slots, n).Some? && !Covered(tx.acks, n) &&
            Lookup(SettledTx(tx, now).base, SettledTx(tx, now).slots, n).None? ==>
              || SaturatingSub(now, Lookup(tx.base, tx.slots, n).value.sendTime) > tx.timeout
              || |tx.slots| - DistanceTo(tx.base, n) > tx.maxSent
  {
    var acked := AckedSlots(tx.base, tx.slots, tx.acks);
    var tx1 := AfterAcks(tx, now);
    SettledWindow(tx, now);
    AckedIsMapRemoval(tx.base, tx.slots, tx.acks, n);
    assert Numbered(tx.base, acked);
    CleaningDropsOnlyExpiredOrOldest(tx.base, acked, now, tx.timeout, tx.maxSent, n);
    DistanceDetermines(tx1.base, n);
  }

  /** A tick keeps what is tracked, unless it is acknowledged, too old or too far behind. */
  lemma TickKeepsTracked(s: System, e: Event, d: Datagram)
    requires e.SenderTick? && Numbered(s.tx.base, s.tx.slots)
    requires IsTracked(s.tx, d) && !Covered(s.tx.acks, d.sequence)
    ensures IsTracked(AfterResends(SettledTx(s.tx, e.now), e.now, e.rto), d) || GivesUp(s, e, d)
  {
    SettledLookup(s.tx, e.now, d.sequence);
  }

  lemma BuildKeepsTracked(s: System, e: Event, s': System, d: Datagram)
    requires Inv(s) && e.Build? && BuildsOne(s, e, s')
    requires d in s'.built && HasReliable(PacketsOf(Some(d)))
    requires d in s.built ==> IsTracked(s.tx, d)
    ensures IsTracked(s'.tx, d)
  {
    if e.out.Some? {
      var dn := e.out.value;
      var t := Tracked(dn, e.now, e.now + e.rto);
      InsertedIsMapUpdate(s.tx.base, s.tx.slots, s.tx.dgramWrite, t, d.sequence);
      if d in s.built {
        var i :| 0 <= i < |s.built| && s.built[i] == d;
        assert BuiltAt(d, i, s.msgs);
      }
    }
  }

  lemma OtherStepKeepsTracked(s: System, e: Event, s': System, d: Datagram)
    requires Step(s, e, s') && !e.Build? && !e.SenderTick?
    ensures s'.built == s.built
    ensures IsTracked(s.tx, d) ==> IsTracked(s'.tx, d)
  {
  }

  lemma StepKeepsTracked(s: System, e: Event, s': System, d: Datagram)
    requires Inv(s) && Step(s, e, s')
    requires d in s'.built && HasReliable(PacketsOf(Some(d)))
    requires d in s.built ==> IsTracked(s.tx, d)
    ensures d in s.handled || IsTracked(s'.tx, d) || GivesUp(s, e, d)
  {
    if e.Build? {
      BuildKeepsTracked(s, e, s', d);
    } else if e.SenderTick? {
      if Covered(s.tx.acks, d.sequence) {
        AckedWasHandled(s, d.sequence);
      } else {
        TickKeepsTracked(s, e, d);
      }
    } else {
      OtherStepKeepsTracked(s, e, s', d);
    }
  }

  /** Handled datagrams stay handled; any other stays in the window or is dropped by this very step. */
  lemma StepForgetsNothing(s: System, e: Event, s': System, d: Datagram)
    requires Inv(s) && Step(s, e, s')
    requires d in s'.built && HasReliable(PacketsOf(Some(d)))
    requires d in s.built ==> d in s.handled || IsTracked(s.tx, d)
    ensures d in s'.handled || IsTracked(s'.tx, d) || GivesUp(s, e, d)
  {
    HandledGrows(s, e, s');
    if d !in s.handled {
      StepKeepsTracked(s, e, s', d);
    }
  }

  lemma HandledGrows(s: System, e: Event, s': System)
    requires Step(s, e, s')
    ensures s.handled <= s'.handled
  {
  }

  /** Tick `j` drops `d` from the window, for its age or for lack of capacity. */
  ghost predicate DroppedAt(states: seq<System>, events: seq<Event>, j: nat, d: Datagram) {
    j < |events| < |states| && GivesUp(states[j], events[j], d) && !IsTracked(states[j + 1].tx, d)
  }

  /** Every datagram that carries a reliable packet is, at every moment after it was built, still in the
      window, or was handled by the receiver, or the sender dropped it at tick `j`, for age or capacity. */
  lemma NothingIsForgotten(states: seq<System>, events: seq<Event>, i: nat, d: Datagram) returns (j: nat)
    requires IsRun(states, events) && i < |states|
    requires d in states[i].built && HasReliable(PacketsOf(Some(d)))
    ensures d in states[i].handled || IsTracked(states[i].tx, d) || (j < i && DroppedAt(states, events, j, d))
  {
    j := 0;
    for k := 0 to i
      invariant d in states[k].built ==>
                  d in states[k].handled || IsTracked(states[k].tx, d) || (j < k && DroppedAt(states, events, j, d))
    {
      RunKeepsInv(states, events, k);
      assert StepAt(states, events, k);
      if d in states[k + 1].built && (d in states[k].built ==> d in states[k].handled || IsTracked(states[k].tx, d)) {
        StepForgetsNothing(states[k], events[k], states[k + 1], d);
        if GivesUp(states[k], events[k], d) && !IsTracked(states[k + 1].tx, d) {
          j := k;
          assert DroppedAt(states, events, j, d);
        }
      }
    }
  }

  // ----- exactly what is due goes out -----

  /** A datagram is due at the tick exactly when it is tracked up to retransmission and its time has come,
      by a NACK or by its deadline. */
  lemma DueExactly(tx: Tx, now: nat, rto: nat, d: Datagram)
    requires Numbered(tx.base, tx.slots)
    ensures d in DueDatagrams(SettledTx(tx, now).slots, now) <==>
            && IsTracked(SettledTx(tx, now), d) && IsTracked(tx, d)
            && (Covered(tx.naks, d.sequence) || Lookup(tx.base, tx.slots, d.sequence).value.nextSend <= now)
    ensures d in DueDatagrams(SettledTx(tx, now).slots, now) ==>
              var tx' := AfterResends(SettledTx(tx, now), now, rto);
              IsTracked(tx', d) && Lookup(tx'.base, tx'.slots, d.sequence).value.nextSend == now + rto
  {
    var settled := SettledTx(tx, now);
    SettledLookup(tx, now, d.sequence);
    DueMembers(settled.slots, now, d);
    if d in DueDatagrams(settled.slots, now) {
      var i :| 0 <= i < |settled.slots| && IsDue(settled.slots[i], now) && settled.slots[i].value.datagram == d;
      assert d.sequence == Ahead(settled.base, i);
    } else if IsTracked(settled, d) {
      var i := DistanceTo(settled.base, d.sequence);
      assert settled.slots[i].Some? && settled.slots[i].value.datagram == d;
    }
  }

  lemma {:induction false} DueAreDistinct(base: Seq24, slots: Slots, now: nat)
    requires Numbered(base, slots)
    ensures forall d :: d in DueDatagrams(slots, now) ==> DistanceTo(base, d.sequence) < |slots|
    ensures forall j, k :: 0 <= j < k < |DueDatagrams(slots, now)| ==>
              DueDatagrams(slots, now)[j] != DueDatagrams(slots, now)[k]
  {
    if slots != [] {
      DueAreDistinct(base, slots[..|slots| - 1], now);
    }
  }

  /** The `k`-th place on the wire decodes to the `k`-th datagram. */
  ghost predicate DecodesTo(wire: seq<Bytes>, ds: seq<Datagram>, k: nat)
    requires k < |ds| == |wire|
  {
    match ParseDatagram(wire[k])
    case Ok(d) => d == ds[k]
    case Err(_) => false
  }

  ghost predicate AllDecode(wire: seq<Bytes>, ds: seq<Datagram>) {
    |wire| == |ds| && forall k :: 0 <= k < |ds| ==> DecodesTo(wire, ds, k)
  }

  lemma OneMoreDecodes(wire: seq<Bytes>, ds: seq<Datagram>, b: Bytes, d: Datagram)
    requires AllDecode(wire, ds) && ParseDatagram(b) == Ok(d)
    ensures AllDecode(wire + [b], ds + [d])
  {
    var wire', ds' := wire + [b], ds + [d];
    forall k | 0 <= k < |ds'|
      ensures DecodesTo(wire', ds', k)
    {
      if k < |ds| {
        assert DecodesTo(wire, ds, k) && wire'[k] == wire[k] && ds'[k] == ds[k];
      }
    }
  }

  /** The datagram encodes, to bytes that decode to it. */
  ghost predicate Travels(d: Datagram) {
    match OnWire(d)
    case wire => |wire| == 1 && ParseDatagram(wire[0]) == Ok(d)
  }

  /** Datagrams that travel take one place on the wire each. */
  lemma {:induction false} SentAsIs(ds: seq<Datagram>)
    requires forall d :: d in ds ==> Travels(d)
    ensures AllDecode(AllOnWire(ds), ds)
  {
    if ds != [] {
      var init, last := ds[..|ds| - 1], ds[|ds| - 1];
      SentAsIs(init);
      assert last in ds && Travels(last);
      OneMoreDecodes(AllOnWire(init), init, OnWire(last)[0], last);
      assert OnWire(last) == [OnWire(last)[0]] && ds == init + [last];
    }
  }

  lemma BuiltTravels(d: Datagram, built: seq<Datagram>, msgs: seq<Message>)
    requires BuiltGood(built, msgs) && d in built
    ensures Travels(d)
  {
    var k :| 0 <= k < |built| && built[k] == d;
    assert BuiltAt(d, k, msgs);
  }

  lemma BuiltAreSentAsIs(ds: seq<Datagram>, built: seq<Datagram>, msgs: seq<Message>)
    requires BuiltGood(built, msgs) && forall d :: d in ds ==> d in built
    ensures AllDecode(AllOnWire(ds), ds)
  {
    forall d | d in ds
      ensures Travels(d)
    {
      BuiltTravels(d, built, msgs);
    }
    SentAsIs(ds);
  }

  lemma DueFromBuilt(slots: Slots, now: nat, built: seq<Datagram>)
    requires SlotsBuilt(slots, built)
    ensures forall d :: d in DueDatagrams(slots, now) ==> d in built
  {
    forall d | d in DueDatagrams(slots, now)
      ensures d in built
    {
      DueMembers(slots, now, d);
    }
  }

  /** In every run a tick appends exactly its retransmissions to the wire, each once and decodable to itself. */
  lemma TickSendsOnWire(states: seq<System>, events: seq<Event>, i: nat)
    requires IsRun(states, events) && i < |events| && events[i].SenderTick?
    ensures states[i + 1].toReceiver == states[i].toReceiver + AllOnWire(events[i].sent)
    ensures AllDecode(AllOnWire(events[i].sent), events[i].sent)
    ensures forall j, k :: 0 <= j < k < |events[i].sent| ==> events[i].sent[j] != events[i].sent[k]
  {
    RunKeepsInv(states, events, i);
    assert StepAt(states, events, i);
    var s, now := states[i], events[i].now;
    SettledKeepsWindow(s.tx, now, s.built);
    DueFromBuilt(SettledTx(s.tx, now).slots, now, s.built);
    BuiltAreSentAsIs(events[i].sent, s.built, s.msgs);
    DueAreDistinct(SettledTx(s.tx, now).base, SettledTx(s.tx, now).slots, now);
  }

  /** A datagram that survives a tick's acknowledgements and cleaning: tracked, not acknowledged, not dropped. */
  predicate Survives(tx: Tx, now: nat, d: Datagram)
    requires |tx.slots| <= MODULO
  {
    && IsTracked(tx, d) && !Covered(tx.acks, d.sequence)
    && DistanceTo(tx.base, d.sequence) >= FrontDrop(AckedSlots(tx.base, tx.slots, tx.acks), now, tx.timeout, tx.maxSent)
  }

  /** In every run a tick retransmits, and reschedules, exactly the survivors that are NACKed or overdue. */
  lemma ResentExactlyInEveryRun(states: seq<System>, events: seq<Event>, i: nat, d: Datagram)
    requires IsRun(states, events) && i < |events| && events[i].SenderTick?
    ensures Numbered(states[i].tx.base, states[i].tx.slots)
    ensures d in events[i].sent <==>
            && Survives(states[i].tx, events[i].now, d)
            && (|| Covered(states[i].tx.naks, d.sequence)
                || Lookup(states[i].tx.base, states[i].tx.slots, d.sequence).value.nextSend <= events[i].now)
    ensures d in events[i].sent ==>
              && IsTracked(states[i + 1].tx, d)
              && Lookup(states[i + 1].tx.base, states[i + 1].tx.slots, d.sequence).value.nextSend ==
                 events[i].now + events[i].rto
  {
    RunKeepsInv(states, events, i);
    assert StepAt(states, events, i);
    DueExactly(states[i].tx, events[i].now, events[i].rto, d);
    SettledLookup(states[i].tx, events[i].now, d.sequence);
  }
}
