/**
 A run of two endpoints in which a reliable, ordered packet is handled and acknowledged and never delivered,
 although every datagram arrives exactly once and nothing expires: the duplicate filter drops it.
*/
module Loss {
  import opened Sequence24
  import opened Wrappers
  import opened Protocol
  import opened DatagramCodec
  import opened Sequences
  import opened Ordering
  import opened SentWindow
  import opened Sending
  import opened Receiving
  import opened History
  import opened Delivery
  import opened Network
  import opened Filtering
  import opened Reporting

  // ----- four messages, each in a datagram of its own -----

  function Pkt(k: byte): Encap {
    Encap(Header(ReliableOrdered, false, false), 8, Some(k), None, Some(k), Some(0), None, [k])
  }

  function Dg(k: byte): Datagram {
    DataDatagram(k, [Pkt(k)], false)
  }

  /** After `n` of them: the sending half, ... */
  function TxAt(tx: Tx, rto: nat, n: byte): Tx
    requires tx.orderWrite != []
  {
    tx.(orderWrite := tx.orderWrite[0 := n], reliableWrite := n, dgramWrite := n,
        slots := seq(n, k requires 0 <= k < n => Some(Tracked(Dg(k), 0, rto))))
  }

  /** ... the history, ... */
  function MsgsAt(tx: Tx, rto: nat, n: byte): seq<Message>
    requires tx.orderWrite != []
  {
    seq(n, k requires 0 <= k < n => Message(TxAt(tx, rto, k), [k], ReliableOrdered, 0))
  }

  function DgsAt(n: byte): seq<Datagram> {
    seq(n, k requires 0 <= k < n => Dg(k))
  }

  /** ... and the system. */
  ghost predicate SentAt(s0: System, s: System, rto: nat, n: byte)
    requires s0.tx.orderWrite != []
  {
    && s == s0.(tx := TxAt(s0.tx, rto, n), msgs := MsgsAt(s0.tx, rto, n), built := DgsAt(n), toReceiver := s.toReceiver)
    && forall k: byte :: k < n ==> forall b :: b in OnWire(Dg(k)) ==> b in s.toReceiver
  }

  /** A fresh connection with room for what follows. */
  ghost predicate Start(s0: System) {
    match s0
    case System(tx, rx, _, _, _, _, _, _, _, _) =>
      && Init(s0) && tx.orderWrite != []
      && rx.heaps != [] && rx.tracker == Fresh(rx.tracker.maxWindow) && rx.tracker.maxWindow >= 2
      && rx.maxAcks >= 4
  }

  lemma {:induction false} CountsAreSmall(msgs: seq<Message>, c: byte)
    ensures |Queued(msgs, c)| <= |msgs| && FragmentedCount(msgs) <= |msgs|
  {
    if msgs != [] {
      CountsAreSmall(msgs[..|msgs| - 1], c);
    }
  }

  lemma FewAreBounded(msgs: seq<Message>)
    requires |msgs| <= 4 && forall k :: 0 <= k < |msgs| ==> |msgs[k].payload| == 1
    ensures Bounded(msgs)
  {
    forall c: byte
      ensures |Queued(msgs, c)| < MODULO
    {
      CountsAreSmall(msgs, c);
    }
    CountsAreSmall(msgs, 0);
  }

  /** Queueing message `n`. */
  lemma QueueNext(s0: System, s: System, rto: nat, n: byte) returns (e: Event, s1: System)
    requires Start(s0) && SentAt(s0, s, rto, n) && n < 4
    ensures e == Queue([n], ReliableOrdered, 0) && Step(s, e, s1)
    ensures s1 == s.(tx := s1.tx, msgs := MsgsAt(s0.tx, rto, n + 1))
    ensures s1.tx == s.tx.(orderWrite := s0.tx.orderWrite[0 := n + 1], reliableWrite := n + 1, heap := [Pkt(n)])
  {
    e := Queue([n], ReliableOrdered, 0);
    var msgs' := s.msgs + [Message(s.tx, [n], ReliableOrdered, 0)];
    assert msgs' == MsgsAt(s0.tx, rto, n + 1);
    FewAreBounded(msgs');
    s1 := s.(tx := AfterQueue(s.tx, [n], ReliableOrdered, 0), msgs := msgs');
    assert SingleEncap(s.tx, [n], ReliableOrdered, 0) == Pkt(n);
    assert [] + [Pkt(n)] == [Pkt(n)];
    assert s0.tx.orderWrite[0 := n][0 := n + 1] == s0.tx.orderWrite[0 := n + 1];
  }

  lemma SlotsGrow(rto: nat, n: byte)
    requires n < 4
    ensures var slots: Slots := seq(n, k requires 0 <= k < n => Some(Tracked(Dg(k), 0, rto)));
            Inserted(0, slots, n, Tracked(Dg(n), 0, rto)) ==
            seq(n + 1, k requires 0 <= k < n + 1 => Some(Tracked(Dg(k), 0, rto)))
  {
  }

  lemma TxGrows(s0: System, s: System, tx1: Tx, rto: nat, n: byte)
    requires Start(s0) && s.tx == TxAt(s0.tx, rto, n) && n < 4
    requires tx1 == s.tx.(orderWrite := s0.tx.orderWrite[0 := n + 1], reliableWrite := n + 1, heap := [Pkt(n)])
    ensures Builds(tx1, 0, s0.tx.mtu, rto, TxAt(s0.tx, rto, n + 1), Some(Dg(n)))
  {
    SlotsGrow(rto, n);
    var tx2, d := SendOnly(tx1, 0, s0.tx.mtu, rto, Pkt(n));
  }

  /** Sending it. */
  lemma BuildNext(s0: System, s: System, s1: System, rto: nat, n: byte) returns (e: Event, s2: System)
    requires Start(s0) && SentAt(s0, s, rto, n) && n < 4
    requires s1 == s.(tx := s1.tx, msgs := MsgsAt(s0.tx, rto, n + 1))
    requires s1.tx == s.tx.(orderWrite := s0.tx.orderWrite[0 := n + 1], reliableWrite := n + 1, heap := [Pkt(n)])
    ensures Step(s1, e, s2) && e.Build? && SentAt(s0, s2, rto, n + 1)
  {
    var d := Dg(n);
    TxGrows(s0, s, s1.tx, rto, n);
    e := Build(0, s0.tx.mtu, rto, Some(d));
    s2 := s1.(tx := TxAt(s0.tx, rto, n + 1), built := s1.built + [d], toReceiver := s1.toReceiver + OnWire(d));
    BuildStep(s1, e, s2);
    DgsGrow(n);
  }

  lemma BuildStep(s: System, e: Event, s': System)
    requires e.Build? && e.out.Some? && |s.built| + 1 < MODULO
    requires Builds(s.tx, e.now, e.bandwidth, e.rto, s'.tx, e.out)
    requires s' == s.(tx := s'.tx, built := s.built + [e.out.value], toReceiver := s.toReceiver + OnWire(e.out.value))
    ensures Step(s, e, s')
  {
  }

  lemma DgsGrow(n: byte)
    requires n < 4
    ensures DgsAt(n) + [Dg(n)] == DgsAt(n + 1)
  {
  }

  // ----- the run so far -----

  /** A run from `s0` to `s`, in which no datagram has arrived twice and there was always room for its number. */
  ghost predicate Leads(s0: System, states: seq<System>, events: seq<Event>, s: System) {
    match s
    case System(_, _, _, _, _, _, _, _, _, _) =>
      && Network.IsRun(states, events) && states[0] == s0 && states[|events|] == s
      && AckQueueHasRoom(states, events)
      && EachOnce(states, events)
  }

  ghost predicate EachOnce(states: seq<System>, events: seq<Event>)
    requires |states| > |events|
  {
    forall i :: 0 <= i < |events| && events[i].Arrive? ==> Brings(events[i].wire, states[i])
  }

  /** The bytes are a datagram that has not been handled. */
  ghost predicate Brings(wire: Bytes, s: System) {
    ParseDatagram(wire).Ok? && ParseDatagram(wire).value !in s.handled
  }

  lemma EarlierStep(states: seq<System>, events: seq<Event>, s': System, e: Event, i: nat)
    requires i < |events| && |states| == |events| + 1 && Network.StepAt(states, events, i)
    ensures Network.StepAt(states + [s'], events + [e], i)
  {
    var next := i + 1;
    assert (states + [s'])[next] == states[next];
  }

  lemma LastStep(states: seq<System>, events: seq<Event>, s': System, e: Event)
    requires |states| == |events| + 1 && Step(states[|events|], e, s')
    ensures Network.StepAt(states + [s'], events + [e], |events|)
  {
    assert (states + [s'])[|events| + 1] == s';
  }

  lemma RunSnoc(states: seq<System>, events: seq<Event>, e: Event, s': System)
    requires Network.IsRun(states, events) && Step(states[|events|], e, s')
    ensures Network.IsRun(states + [s'], events + [e])
  {
    forall i | 0 <= i < |events|
      ensures Network.StepAt(states + [s'], events + [e], i)
    {
      EarlierStep(states, events, s', e, i);
    }
    LastStep(states, events, s', e);
  }

  lemma ArrivalsSnoc(states: seq<System>, events: seq<Event>, s: System, e: Event, s': System)
    requires |states| == |events| + 1 && states[|events|] == s
    requires AckQueueHasRoom(states, events) && EachOnce(states, events)
    requires e.Arrive? ==> Brings(e.wire, s) && |s.rx.acks| < s.rx.maxAcks
    ensures AckQueueHasRoom(states + [s'], events + [e]) && EachOnce(states + [s'], events + [e])
  {
    var states', events' := states + [s'], events + [e];
    forall i | 0 <= i < |events'| && events'[i].Arrive?
      ensures |states'[i].rx.acks| < states'[i].rx.maxAcks && Brings(events'[i].wire, states'[i])
    {
      if i < |events| {
        assert states'[i] == states[i] && events'[i] == events[i];
      }
    }
  }

  lemma Extend(s0: System, states: seq<System>, events: seq<Event>, s: System, e: Event, s': System)
    requires Leads(s0, states, events, s) && Step(s, e, s')
    requires e.Arrive? ==> Brings(e.wire, s) && |s.rx.acks| < s.rx.maxAcks
    ensures Leads(s0, states + [s'], events + [e], s')
  {
    RunSnoc(states, events, e, s');
    ArrivalsSnoc(states, events, s, e, s');
  }

  lemma Begin(s0: System)
    requires Start(s0)
    ensures Leads(s0, [s0], [], s0) && SentAt(s0, s0, 0, 0)
  {
    assert s0.tx.orderWrite[0 := 0] == s0.tx.orderWrite;
    assert TxAt(s0.tx, 0, 0) == s0.tx;
  }

  lemma {:induction false} SendAll(s0: System, n: byte) returns (states: seq<System>, events: seq<Event>, s: System)
    requires Start(s0) && n <= 4
    ensures Leads(s0, states, events, s) && SentAt(s0, s, 0, n)
    decreases n
  {
    if n == 0 {
      states, events, s := [s0], [], s0;
      Begin(s0);
    } else {
      var before;
      states, events, before := SendAll(s0, n - 1);
      var e1, s1 := QueueNext(s0, before, 0, n - 1);
      Extend(s0, states, events, before, e1, s1);
      var e2, s2 := BuildNext(s0, before, s1, 0, n - 1);
      Extend(s0, states + [s1], events + [e1], s1, e2, s2);
      states, events, s := (states + [s1]) + [s2], (events + [e1]) + [e2], s2;
    }
  }

  // ----- what the receiver makes of each -----

  ghost predicate At(rx: Rx, max: nat, base: Seq24, window: seq<bool>, read: Seq24, h: seq<OrderedEncap>) {
    match rx
    case Rx(_, _, entries, tracker, orderRead, heaps, _, _, _, _, _) =>
      && entries == map[] && tracker == ReliableTracker(base, window, max)
      && |orderRead| == |heaps| > 0
      && orderRead[0] == read && heaps[0] == h
  }

  lemma HandleSecond(rx: Rx, max: nat) returns (rx': Rx)
    requires At(rx, max, 0, [], 0, []) && max >= 2
    ensures Handles(rx, Pkt(2), 0, rx', [], true)
    ensures At(rx', max, 0, [false, true], 0, [OrderedEncap(2, Pkt(2))])
    ensures rx'.acks == rx.acks && rx'.maxAcks == rx.maxAcks
  {
    rx' := rx.(tracker := ReliableTracker(0, [false, true], max), heaps := rx.heaps[0 := [OrderedEncap(2, Pkt(2))]]);
    assert rx.tracker.Seeing(2).window == [false, true];
    assert rx.orderRead[0 := 0] == rx.orderRead;
    assert [] + [OrderedEncap(2, Pkt(2))] == [OrderedEncap(2, Pkt(2))];
    CmpIsForwardDistance(0, 2);
  }

  lemma HandleZeroth(rx: Rx, max: nat) returns (rx': Rx)
    requires At(rx, max, 0, [false, true], 0, [OrderedEncap(2, Pkt(2))]) && max >= 2
    ensures Handles(rx, Pkt(0), 0, rx', [Pkt(0)], true)
    ensures At(rx', max, 1, [false, true], 1, [OrderedEncap(2, Pkt(2))])
    ensures rx'.acks == rx.acks && rx'.maxAcks == rx.maxAcks
  {
    var h := [OrderedEncap(2, Pkt(2))];
    rx' := rx.(tracker := ReliableTracker(1, [false, true], max), orderRead := rx.orderRead[0 := 1]);
    assert rx.heaps[0 := h] == rx.heaps;
    assert IsTop(h, 0);
    assert [Pkt(0)][1..] == [];
    assert Drained(1, h, [], 1, h);
  }

  lemma HandleThird(rx: Rx, max: nat, h: seq<OrderedEncap>)
    requires At(rx, max, 1, [false, true], 1, h) && max >= 2
    ensures Handles(rx, Pkt(3), 0, rx, [], true)
  {
    assert rx.tracker.HasSeen(3);
  }

  lemma HandleFirst(rx: Rx, max: nat) returns (rx': Rx)
    requires At(rx, max, 1, [false, true], 1, [OrderedEncap(2, Pkt(2))])
    ensures Handles(rx, Pkt(1), 0, rx', [Pkt(1), Pkt(2)], true)
    ensures At(rx', max, 2, [false, true], 3, [])
    ensures rx'.acks == rx.acks && rx'.maxAcks == rx.maxAcks
  {
    rx' := rx.(tracker := ReliableTracker(2, [false, true], max), orderRead := rx.orderRead[0 := 3],
               heaps := rx.heaps[0 := []]);
    DrainsOne(OrderedEncap(2, Pkt(2)));
    assert [Pkt(1), Pkt(2)][1..] == [Pkt(2)];
  }

  lemma DrainsOne(e: OrderedEncap)
    requires e.index == 2
    ensures Drained(2, [e], [e.pkt], 3, [])
  {
    var h := [e];
    assert IsTop(h, 0);
    PoppedMore(2, h, [], 2, h, 0);
    assert Without(h, 0) == [] && [] + [e.pkt] == [e.pkt];
  }

  // ----- the arrivals -----

  lemma HandlesOne(rx: Rx, e: Encap, now: nat, rx': Rx, ready: seq<Encap>)
    requires Handles(rx, e, now, rx', ready, true)
    ensures HandlesAll(rx, [e], now, rx', ready, true)
  {
    assert [e][..0] == [] && [] + ready == ready;
    assert HandlesAll(rx, [], now, rx, [], true);
    assert HandlesLast(rx, e, now, rx', [], ready, true);
    assert HandlesOneMore(rx, [], e, now, rx', ready, true);
  }

  /** The datagram can arrive. */
  ghost predicate OnItsWay(s: System, k: byte) {
    && DatagramBytes(Dg(k)).Ok? && DatagramBytes(Dg(k)).value in s.toReceiver
    && ParseDatagram(DatagramBytes(Dg(k)).value) == Ok(Dg(k))
  }

  lemma AllOnTheirWay(s0: System, states: seq<System>, events: seq<Event>, s: System, rto: nat, n: byte, k: byte)
    requires Start(s0) && Leads(s0, states, events, s) && SentAt(s0, s, rto, n) && k < n
    ensures OnItsWay(s, k)
  {
    RunKeepsInv(states, events, |events|);
    assert s.built[k] == Dg(k) && BuiltAt(s.built[k], k, s.msgs);
    assert DatagramBytes(Dg(k)).value in OnWire(Dg(k));
  }

  lemma OneNumberMore(rx: Rx, k: Seq24)
    requires |rx.acks| < rx.maxAcks
    ensures |AfterArrival(rx, k).acks| <= |rx.acks| + 1
  {
  }

  function ArrivalOf(s: System, k: byte, rx1: Rx, ready: seq<Encap>): System {
    s.(rx := AfterArrival(rx1, k), delivered := s.delivered + ready, handled := s.handled + {Dg(k)})
  }

  lemma ArrivesOne(s: System, k: byte, rx1: Rx, ready: seq<Encap>)
    requires OnItsWay(s, k) && Handles(s.rx, Pkt(k), 0, rx1, ready, true)
    ensures Step(s, Arrive(DatagramBytes(Dg(k)).value, 0, ready, true), ArrivalOf(s, k, rx1, ready))
  {
    HandlesOne(s.rx, Pkt(k), 0, rx1, ready);
    assert Received(s.rx, Dg(k), 0, AfterArrival(rx1, k), ready, true);
  }

  /** What `n` arrivals have left of a system that has sent all four. */
  ghost predicate ArrivedAt(sent: System, s: System, handled: set<Datagram>, delivered: seq<Encap>, n: nat) {
    match s
    case System(_, rx, _, _, _, _, _, _, _, _) =>
      && s == sent.(rx := rx, handled := handled, delivered := delivered)
      && rx.maxAcks == sent.rx.maxAcks && |rx.acks| <= n
  }

  lemma ArriveNext(s0: System, states: seq<System>, events: seq<Event>, sent: System, s: System,
                   handled: set<Datagram>, delivered: seq<Encap>, n: nat, k: byte, rx1: Rx, ready: seq<Encap>)
    returns (states': seq<System>, events': seq<Event>)
    requires Leads(s0, states, events, s) && ArrivedAt(sent, s, handled, delivered, n)
    requires OnItsWay(sent, k) && Dg(k) !in handled && n < 4 <= sent.rx.maxAcks
    requires Handles(s.rx, Pkt(k), 0, rx1, ready, true) && rx1.acks == s.rx.acks && rx1.maxAcks == s.rx.maxAcks
    ensures Leads(s0, states', events', ArrivalOf(s, k, rx1, ready))
    ensures ArrivedAt(sent, ArrivalOf(s, k, rx1, ready), handled + {Dg(k)}, delivered + ready, n + 1)
  {
    var e, s' := Arrive(DatagramBytes(Dg(k)).value, 0, ready, true), ArrivalOf(s, k, rx1, ready);
    ArrivesOne(s, k, rx1, ready);
    Extend(s0, states, events, s, e, s');
    OneNumberMore(rx1, k);
    states', events' := states + [s'], events + [e];
  }

  lemma NumberLeavesRest(rx: Rx, k: Seq24, max: nat, base: Seq24, window: seq<bool>, read: Seq24,
                         h: seq<OrderedEncap>)
    requires At(rx, max, base, window, read, h)
    ensures At(AfterArrival(rx, k), max, base, window, read, h)
  {
  }

  /** Number 2 is buffered. */
  lemma ArriveSecond(s0: System, states: seq<System>, events: seq<Event>, sent: System, s: System, max: nat,
                     handled: set<Datagram>, n: nat)
    returns (states': seq<System>, events': seq<Event>, s': System)
    requires Leads(s0, states, events, s) && ArrivedAt(sent, s, handled, [], n)
    requires OnItsWay(sent, 2) && Dg(2) !in handled && n < 4 <= sent.rx.maxAcks && max >= 2
    requires At(s.rx, max, 0, [], 0, [])
    ensures Leads(s0, states', events', s') && ArrivedAt(sent, s', handled + {Dg(2)}, [], n + 1)
    ensures At(s'.rx, max, 0, [false, true], 0, [OrderedEncap(2, Pkt(2))])
  {
    var rx1 := HandleSecond(s.rx, max);
    s' := ArrivalOf(s, 2, rx1, []);
    states', events' := ArriveNext(s0, states, events, sent, s, handled, [], n, 2, rx1, []);
    NumberLeavesRest(rx1, 2, max, 0, [false, true], 0, [OrderedEncap(2, Pkt(2))]);
    var none: seq<Encap> := [];
    assert none + none == none;
  }

  /** Number 0 is delivered. */
  lemma ArriveZeroth(s0: System, states: seq<System>, events: seq<Event>, sent: System, s: System, max: nat,
                     handled: set<Datagram>, n: nat)
    returns (states': seq<System>, events': seq<Event>, s': System)
    requires Leads(s0, states, events, s) && ArrivedAt(sent, s, handled, [], n)
    requires OnItsWay(sent, 0) && Dg(0) !in handled && n < 4 <= sent.rx.maxAcks && max >= 2
    requires At(s.rx, max, 0, [false, true], 0, [OrderedEncap(2, Pkt(2))])
    ensures Leads(s0, states', events', s') && ArrivedAt(sent, s', handled + {Dg(0)}, [Pkt(0)], n + 1)
    ensures At(s'.rx, max, 1, [false, true], 1, [OrderedEncap(2, Pkt(2))])
  {
    var rx1 := HandleZeroth(s.rx, max);
    s' := ArrivalOf(s, 0, rx1, [Pkt(0)]);
    states', events' := ArriveNext(s0, states, events, sent, s, handled, [], n, 0, rx1, [Pkt(0)]);
    NumberLeavesRest(rx1, 0, max, 1, [false, true], 1, [OrderedEncap(2, Pkt(2))]);
    assert [] + [Pkt(0)] == [Pkt(0)];
  }

  /** Number 3 is dropped. */
  lemma ArriveThird(s0: System, states: seq<System>, events: seq<Event>, sent: System, s: System, max: nat,
                    handled: set<Datagram>, n: nat)
    returns (states': seq<System>, events': seq<Event>, s': System)
    requires Leads(s0, states, events, s) && ArrivedAt(sent, s, handled, [Pkt(0)], n)
    requires OnItsWay(sent, 3) && Dg(3) !in handled && n < 4 <= sent.rx.maxAcks && max >= 2
    requires At(s.rx, max, 1, [false, true], 1, [OrderedEncap(2, Pkt(2))])
    ensures Leads(s0, states', events', s') && ArrivedAt(sent, s', handled + {Dg(3)}, [Pkt(0)], n + 1)
    ensures At(s'.rx, max, 1, [false, true], 1, [OrderedEncap(2, Pkt(2))])
  {
    var rx1 := s.rx;
    HandleThird(s.rx, max, [OrderedEncap(2, Pkt(2))]);
    s' := ArrivalOf(s, 3, rx1, []);
    states', events' := ArriveNext(s0, states, events, sent, s, handled, [Pkt(0)], n, 3, rx1, []);
    NumberLeavesRest(rx1, 3, max, 1, [false, true], 1, [OrderedEncap(2, Pkt(2))]);
    assert [Pkt(0)] + [] == [Pkt(0)];
  }

  /** Number 1 releases number 2 with it. */
  lemma ArriveFirst(s0: System, states: seq<System>, events: seq<Event>, sent: System, s: System, max: nat,
                    handled: set<Datagram>, n: nat)
    returns (states': seq<System>, events': seq<Event>, s': System)
    requires Leads(s0, states, events, s) && ArrivedAt(sent, s, handled, [Pkt(0)], n)
    requires OnItsWay(sent, 1) && Dg(1) !in handled && n < 4 <= sent.rx.maxAcks && max >= 2
    requires At(s.rx, max, 1, [false, true], 1, [OrderedEncap(2, Pkt(2))])
    ensures Leads(s0, states', events', s') && ArrivedAt(sent, s', handled + {Dg(1)}, [Pkt(0), Pkt(1), Pkt(2)], n + 1)
    ensures At(s'.rx, max, 2, [false, true], 3, [])
  {
    var rx1 := HandleFirst(s.rx, max);
    s' := ArrivalOf(s, 1, rx1, [Pkt(1), Pkt(2)]);
    states', events' := ArriveNext(s0, states, events, sent, s, handled, [Pkt(0)], n, 1, rx1, [Pkt(1), Pkt(2)]);
    NumberLeavesRest(rx1, 1, max, 2, [false, true], 3, []);
    assert [Pkt(0)] + [Pkt(1), Pkt(2)] == [Pkt(0), Pkt(1), Pkt(2)];
  }

  lemma QueueOfFour(tx: Tx, rto: nat)
    requires tx.orderWrite != []
    ensures Queued(MsgsAt(tx, rto, 4), 0) == [[0], [1], [2], [3]]
  {
    var msgs := MsgsAt(tx, rto, 4);
    assert msgs[..3] == MsgsAt(tx, rto, 3) && msgs[..3][..2] == MsgsAt(tx, rto, 2);
    assert msgs[..3][..2][..1] == MsgsAt(tx, rto, 1) && msgs[..3][..2][..1][..0] == [];
    assert Queued(msgs[..3][..2][..1], 0) == [[0]];
    assert Queued(msgs[..3][..2], 0) == [[0], [1]];
    assert Queued(msgs[..3], 0) == [[0], [1], [2]];
  }

  lemma DeliveredThree()
    ensures OnChannel([Pkt(0), Pkt(1), Pkt(2)], 0) == [[0], [1], [2]]
  {
    var out := [Pkt(0), Pkt(1), Pkt(2)];
    assert out[..2] == [Pkt(0), Pkt(1)] && out[..2][..1] == [Pkt(0)] && out[..2][..1][..0] == [];
    assert OnChannel(out[..2][..1], 0) == [[0]];
    assert OnChannel(out[..2], 0) == [[0], [1]];
  }

  /** Two arrive, ... */
  lemma ArriveTwo(s0: System, states: seq<System>, events: seq<Event>, sent: System, max: nat)
    returns (states': seq<System>, events': seq<Event>, s': System)
    requires Leads(s0, states, events, sent) && ArrivedAt(sent, sent, {}, [], 0)
    requires OnItsWay(sent, 2) && OnItsWay(sent, 0)
    requires At(sent.rx, max, 0, [], 0, []) && max >= 2 && sent.rx.maxAcks >= 4
    ensures Leads(s0, states', events', s') && ArrivedAt(sent, s', {} + {Dg(2)} + {Dg(0)}, [Pkt(0)], 2)
    ensures At(s'.rx, max, 1, [false, true], 1, [OrderedEncap(2, Pkt(2))])
  {
    NumbersDiffer(0, 2);
    var s1;
    states', events', s1 := ArriveSecond(s0, states, events, sent, sent, max, {}, 0);
    states', events', s' := ArriveZeroth(s0, states', events', sent, s1, max, {} + {Dg(2)}, 1);
  }

  /** ... and two more: in all they arrive as 2, 0, 3, 1. */
  lemma ArriveAll(s0: System, states: seq<System>, events: seq<Event>, sent: System, max: nat)
    returns (states': seq<System>, events': seq<Event>, s': System)
    requires Leads(s0, states, events, sent) && ArrivedAt(sent, sent, {}, [], 0)
    requires forall k: byte :: k < 4 ==> OnItsWay(sent, k)
    requires At(sent.rx, max, 0, [], 0, []) && max >= 2 && sent.rx.maxAcks >= 4
    ensures Leads(s0, states', events', s')
    ensures ArrivedAt(sent, s', {} + {Dg(2)} + {Dg(0)} + {Dg(3)} + {Dg(1)}, [Pkt(0), Pkt(1), Pkt(2)], 4)
    ensures At(s'.rx, max, 2, [false, true], 3, [])
  {
    var s2, s3;
    states', events', s2 := ArriveTwo(s0, states, events, sent, max);
    var handled := {} + {Dg(2)} + {Dg(0)};
    NumbersDiffer(3, 2);
    NumbersDiffer(3, 0);
    states', events', s3 := ArriveThird(s0, states', events', sent, s2, max, handled, 2);
    NumbersDiffer(1, 2);
    NumbersDiffer(1, 0);
    NumbersDiffer(1, 3);
    states', events', s' := ArriveFirst(s0, states', events', sent, s3, max, handled + {Dg(3)}, 3);
  }

  lemma AllHandled(sent: System, s: System, delivered: seq<Encap>)
    requires ArrivedAt(sent, s, {} + {Dg(2)} + {Dg(0)} + {Dg(3)} + {Dg(1)}, delivered, 4) && sent.built == DgsAt(4)
    ensures forall k: byte :: k < 4 ==> Dg(k) in s.handled
    ensures forall d :: d in s.built ==> d in s.handled
  {
    forall k: byte | k < 4
      ensures Dg(k) in s.handled
    {
      assert k == 0 || k == 1 || k == 2 || k == 3;
    }
  }

  lemma NumberAcknowledged(s0: System, states: seq<System>, events: seq<Event>, s: System, n: Seq24)
    requires Leads(s0, states, events, s) && |s.built| == 4 && n < 4 && Dg(n) in s.handled
    ensures Acknowledged(s, n)
  {
    assert Dg(n).sequence == n;
    HandledIsAcknowledgedInEveryRun(states, events, |events|, n);
  }

  lemma BeforeArrivals(s0: System, s: System, max: nat)
    requires Start(s0) && SentAt(s0, s, 0, 4) && max == s0.rx.tracker.maxWindow
    ensures ArrivedAt(s, s, {}, [], 0) && At(s.rx, max, 0, [], 0, []) && max >= 2 && s.rx.maxAcks >= 4
  {
  }

  /** From every fresh connection: four messages, a datagram each, the datagrams arriving once each as 2, 0, 3, 1.
      All are handled and acknowledged, and nothing is left to send, to order or to assemble; but message 3,
      which the filter took for a duplicate, is nowhere. */
  lemma ReliablePacketIsLost(s0: System) returns (states: seq<System>, events: seq<Event>)
    requires Start(s0)
    ensures Network.IsRun(states, events) && states[0] == s0 && EachOnce(states, events)
    ensures var s := states[|events|];
            && s.exact && s.tx.heap == [] && |s.built| == 4 && (forall d :: d in s.built ==> d in s.handled)
            && (forall n: Seq24 :: n < 4 ==> Acknowledged(s, n))
            && Queued(s.msgs, 0) == [[0], [1], [2], [3]] && OnChannel(s.delivered, 0) == [[0], [1], [2]]
            && |s.rx.orderRead| == |s.rx.heaps| > 0 && s.rx.orderRead[0] == 3 && s.rx.heaps[0] == []
            && s.rx.entries == map[]
  {
    var max, sent, s := s0.rx.tracker.maxWindow, s0, s0;
    states, events, sent := SendAll(s0, 4);
    forall k: byte | k < 4
      ensures OnItsWay(sent, k)
    {
      AllOnTheirWay(s0, states, events, sent, 0, 4, k);
    }
    BeforeArrivals(s0, sent, max);
    states, events, s := ArriveAll(s0, states, events, sent, max);
    AllHandled(sent, s, s.delivered);
    forall n: Seq24 | n < 4
      ensures Acknowledged(s, n)
    {
      NumberAcknowledged(s0, states, events, s, n);
    }
    QueueOfFour(s0.tx, 0);
    DeliveredThree();
  }

  lemma NumbersDiffer(j: byte, k: byte)
    requires j != k
    ensures Dg(j) != Dg(k)
  {
    assert Dg(j).sequence == j && Dg(k).sequence == k;
  }
}
