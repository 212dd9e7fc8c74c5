/**
 The other half of delivery: in a run in which every datagram arrives once and nothing is refused, filtered or
 expires, everything that was queued in order on a channel has been delivered on it.
*/
module Completeness {
  import opened Sequence24
  import opened Wrappers
  import opened Protocol
  import opened DatagramCodec
  import opened Sequences
  import opened Split
  import opened Ordering
  import opened Draining
  import opened Sending
  import opened Receiving
  import opened History
  import opened Delivery
  import opened Network

  // ----- no packet is lost or copied on the way to the wire -----

  function PacketsIn(d: Datagram): seq<Encap> {
    PacketsOf(Some(d))
  }

  function BuiltPackets(built: seq<Datagram>): multiset<Encap> {
    if built == [] then multiset{} else BuiltPackets(built[..|built| - 1]) + multiset(PacketsIn(built[|built| - 1]))
  }

  /** Every packet ever queued waits on the heap or is in one datagram. */
  ghost predicate Conserved(s: System) {
    match s
    case System(tx, _, _, _, _, msgs, built, _, _, _) => multiset(tx.heap) + BuiltPackets(built) == AllPackets(msgs)
  }

  lemma BuiltPacketsMore(built: seq<Datagram>, d: Datagram)
    ensures BuiltPackets(built + [d]) == BuiltPackets(built) + multiset(PacketsIn(d))
  {
    assert (built + [d])[..|built|] == built;
  }

  lemma QueueConserves(s: System, e: Event, s': System)
    requires Conserved(s) && e.Queue? && Queues(s, e, s')
    ensures Conserved(s')
  {
    var m := Message(s.tx, e.payload, e.reliability, e.channel);
    AllPacketsMore(s.msgs, m);
    assert s'.tx.heap == s.tx.heap + History.Packets(m);
  }

  lemma BuildConserves(s: System, e: Event, s': System)
    requires Conserved(s) && e.Build? && BuildsOne(s, e, s')
    ensures Conserved(s')
  {
    TakenFacts(s.tx.heap, PacketsOf(e.out), s'.tx.heap);
    if e.out.Some? {
      BuiltPacketsMore(s.built, e.out.value);
    }
  }

  lemma StepConserves(s: System, e: Event, s': System)
    requires Conserved(s) && Step(s, e, s')
    ensures Conserved(s')
  {
    if e.Queue? {
      QueueConserves(s, e, s');
    } else if e.Build? {
      BuildConserves(s, e, s');
    } else {
      NothingQueuedOrBuilt(s, e, s');
    }
  }

  lemma NothingQueuedOrBuilt(s: System, e: Event, s': System)
    requires Step(s, e, s') && !e.Queue? && !e.Build?
    ensures s'.tx.heap == s.tx.heap && s'.msgs == s.msgs && s'.built == s.built
  {
  }

  /** In every run the packets on the heap and those in the datagrams built are together exactly those queued. */
  lemma ConservedInEveryRun(states: seq<System>, events: seq<Event>, i: nat)
    requires Network.IsRun(states, events) && i < |states|
    ensures Conserved(states[i])
  {
    for k := 0 to i
      invariant Conserved(states[k])
    {
      assert Network.StepAt(states, events, k);
      StepConserves(states[k], events[k], states[k + 1]);
    }
  }

  // ----- one channel that misses nothing -----

  ghost predicate OnHeap(h: seq<OrderedEncap>, idx: nat) {
    exists i :: 0 <= i < |h| && h[i].index == idx
  }

  /** Of the positions `here` that have reached the channel, those before `read` are out and the others are on the
      heap, once each; the position waited for is not among them. */
  ghost predicate Holding(read: Seq24, h: seq<OrderedEncap>, here: set<nat>) {
    && |h| <= HEAP_LIMIT && DistinctIndices(h)
    && read !in here
    && (forall p: nat :: p < read ==> p in here)
    && (forall p :: p in here ==> p < HALF && (p < read || OnHeap(h, p)))
    && (forall i :: 0 <= i < |h| ==> h[i].index in here && h[i].index > read)
  }

  /** A new position is buffered, or released with all that follows it. */
  lemma HoldingStep(read: Seq24, h: seq<OrderedEncap>, here: set<nat>, idx: Seq24, enc: Encap,
                    ready: seq<Encap>, read': Seq24, h': seq<OrderedEncap>)
    requires Holding(read, h, here) && Offered(read, h, idx, enc, ready, read', h')
    requires idx !in here && idx < HALF && |h| < HEAP_LIMIT
    ensures Holding(read', h', here + {idx})
  {
    CmpIsForwardDistance(read, idx);
    if idx == read {
      HoldingDrain(read, h, here, ready[1..], read', h');
    } else {
      HoldingPush(read, h, here, OrderedEncap(idx, enc));
    }
  }

  lemma HoldingPush(read: Seq24, h: seq<OrderedEncap>, here: set<nat>, e: OrderedEncap)
    requires Holding(read, h, here) && e.index !in here && e.index < HALF && |h| < HEAP_LIMIT && read < e.index
    ensures Holding(read, h + [e], here + {e.index})
  {
    var h' := h + [e];
    forall p | p in here && p > read
      ensures OnHeap(h', p)
    {
      var i :| 0 <= i < |h| && h[i].index == p;
      assert h'[i].index == p;
    }
    assert h'[|h|] == e;
  }

  lemma NoneBeforeNext(read: Seq24, h: seq<OrderedEncap>)
    requires read < HALF && |h| <= HEAP_LIMIT
    requires forall i :: 0 <= i < |h| ==> read < h[i].index < HALF
    ensures Reaches(Next(read), Next(read), h) && NoneBefore(h, Next(read), 0)
  {
    forall i | 0 <= i < |h|
      ensures DistanceTo(Next(read), h[i].index) < HALF
    {
    }
  }

  /** All on the heap has reached the channel and is not out yet. */
  ghost predicate HeapHere(read: Seq24, h: seq<OrderedEncap>, here: set<nat>) {
    forall i :: 0 <= i < |h| ==> h[i].index in here && read < h[i].index < HALF
  }

  lemma HeldPosition(read: Seq24, h: seq<OrderedEncap>, here: set<nat>, pkt: Encap, i: nat)
    requires HeapHere(read, h, here) && HoldsAt(Next(read), h, i, pkt)
    ensures read + 1 + i in here && read + 1 + i < HALF
  {
    var k :| 0 <= k < |h| && DistanceTo(Next(read), h[k].index) == i;
  }

  /** What is drained are the positions right after `read`. */
  lemma DrainedUpTo(read: Seq24, h: seq<OrderedEncap>, here: set<nat>, rest: seq<Encap>)
    requires read < HALF && HeapHere(read, h, here)
    requires forall i :: 0 <= i < |rest| ==> HoldsAt(Next(read), h, i, rest[i])
    ensures read + 1 + |rest| <= HALF
    ensures forall p: nat :: read < p < read + 1 + |rest| ==> p in here
  {
    if rest != [] {
      HeldPosition(read, h, here, rest[|rest| - 1], |rest| - 1);
    }
    forall p: nat | read < p < read + 1 + |rest|
      ensures p in here
    {
      HeldPosition(read, h, here, rest[p - read - 1], p - read - 1);
    }
  }

  /** After the drain: the heap holds what is ahead of the new read index, which is not there. */
  lemma HeapAfterDrain(read: Seq24, h: seq<OrderedEncap>, here: set<nat>, rest: seq<Encap>,
                       read': Seq24, h': seq<OrderedEncap>)
    requires read < HALF && |h| <= HEAP_LIMIT && DistinctIndices(h) && HeapHere(read, h, here)
    requires Drained(Next(read), h, rest, read', h')
    ensures read' == read + 1 + |rest| <= HALF
    ensures |h'| <= HEAP_LIMIT && DistinctIndices(h') && HeapHere(read', h', here)
    ensures forall p: nat :: read < p < read' ==> p in here
    ensures forall p: nat :: OnHeap(h, p) && p >= read' ==> OnHeap(h', p)
    ensures !OnHeap(h', read')
  {
    var next := Next(read);
    NoneBeforeNext(read, h);
    PoppedIsConsecutive(next, h, rest, read', h');
    PoppedLeavesNoCopy(next, h, rest, read', h');
    DistinctDrainsFully(next, next, h, rest, read', h');
    DrainedUpTo(read, h, here, rest);
    DistanceDetermines(next, read');
    CopiesMember(h', read');
    forall p: nat | OnHeap(h, p) && p >= read'
      ensures OnHeap(h', p)
    {
      StillOnHeap(next, h, rest, h', p);
    }
    forall i | 0 <= i < |h'|
      ensures h'[i].index in here && read' < h'[i].index < HALF
    {
      assert h'[i] in h;
      assert DistanceTo(next, h'[i].index) >= |rest|;
    }
  }

  lemma HoldingDrain(read: Seq24, h: seq<OrderedEncap>, here: set<nat>, rest: seq<Encap>,
                     read': Seq24, h': seq<OrderedEncap>)
    requires Holding(read, h, here) && read < HALF
    requires Drained(Next(read), h, rest, read', h')
    ensures Holding(read', h', here + {read as nat})
  {
    HeapAfterDrain(read, h, here, rest, read', h');
  }

  lemma StillOnHeap(next: Seq24, h: seq<OrderedEncap>, rest: seq<Encap>, h': seq<OrderedEncap>, p: nat)
    requires forall e :: e in h ==> AccountedFor(next, rest, h', e)
    requires OnHeap(h, p) && next + |rest| <= p < MODULO
    ensures OnHeap(h', p)
  {
    var i :| 0 <= i < |h| && h[i].index == p;
    assert h[i] in h && AccountedFor(next, rest, h', h[i]);
  }

  // ----- what has arrived -----

  /** All packets of message `k` have arrived. */
  ghost predicate Arrived(msgs: seq<Message>, k: nat, got: set<Encap>) {
    k < |msgs| && forall e :: e in History.Packets(msgs[k]) ==> e in got
  }

  ghost predicate ArrivedOn(msgs: seq<Message>, k: nat, c: byte, got: set<Encap>) {
    OrderedOn(msgs, k, c) && Arrived(msgs, k, got)
  }

  function PlaceOf(m: Message): nat {
    if History.Position(m).Some? then History.Position(m).value else 0
  }

  /** The positions of channel `c` whose message has arrived. */
  ghost function Here(msgs: seq<Message>, got: set<Encap>, c: byte): set<nat> {
    set k: nat | k < |msgs| && ArrivedOn(msgs, k, c, got) :: PlaceOf(msgs[k])
  }

  /** The parts of message `m` that have arrived. */
  ghost function PartsHere(m: Message, got: set<Encap>): set<nat> {
    set i: nat | i < |History.Packets(m)| && History.Packets(m)[i] in got
  }

  /** The assembler holds just the parts that have arrived, until the message is complete. */
  ghost predicate PartsHeld(entries: Entries, m: Message, got: set<Encap>) {
    IsFragmented(m) ==>
      var f, parts := FragmentsOf(m), PartsHere(m, got);
      if Complete(f, parts) then f.id !in entries else InFlight(entries, f, parts)
  }

  ghost predicate AllPartsHeld(entries: Entries, msgs: seq<Message>, got: set<Encap>) {
    forall k :: 0 <= k < |msgs| ==> PartsHeld(entries, msgs[k], got)
  }

  ghost predicate ChannelsHold(rx: Rx, msgs: seq<Message>, got: set<Encap>) {
    && |rx.orderRead| == |rx.heaps|
    && forall c: byte :: c < |rx.heaps| ==> Holding(rx.orderRead[c], rx.heaps[c], Here(msgs, got, c))
  }

  /** Nothing that has arrived is missing. */
  ghost predicate NothingMissing(rx: Rx, msgs: seq<Message>, got: set<Encap>) {
    match rx
    case Rx(_, _, entries, _, _, _, _, _, _, _, _) => AllPartsHeld(entries, msgs, got) && ChannelsHold(rx, msgs, got)
  }

  ghost predicate HalfCircle(msgs: seq<Message>) {
    forall c: byte :: |Queued(msgs, c)| <= HALF
  }

  // ----- one more packet -----

  lemma TellsOwner(msgs: seq<Message>, k: nat, e: Encap)
    requires Consistent(msgs) && PacketOf(e, msgs, k)
    ensures Telling(e) <==> IsFragmented(msgs[k]) || msgs[k].reliability.IsOrdered()
  {
    if IsFragmented(msgs[k]) {
      var i := FragmentPacket(msgs, k, e);
    } else {
      SinglePacket(msgs[k], e);
    }
  }

  /** A packet belongs to no message but its own that is ordered or fragmented. */
  lemma NotOfAnother(msgs: seq<Message>, e: Encap, k: nat, j: nat)
    requires Consistent(msgs) && PacketOf(e, msgs, k) && j < |msgs| && j != k
    requires msgs[j].reliability.IsOrdered() || IsFragmented(msgs[j])
    ensures e !in History.Packets(msgs[j])
  {
    if e in History.Packets(msgs[j]) {
      assert PacketOf(e, msgs, j);
      TellsOwner(msgs, j, e);
      OneOwner(msgs, j, k, e);
    }
  }

  lemma PlaceDetermines(msgs: seq<Message>, j: nat, k: nat, c: byte)
    requires Consistent(msgs) && OrderedOn(msgs, j, c) && OrderedOn(msgs, k, c)
    requires PlaceOf(msgs[j]) == PlaceOf(msgs[k])
    ensures j == k
  {
    if j < k {
      PositionsAscend(msgs, j, k, c);
    } else if k < j {
      PositionsAscend(msgs, k, j, c);
    }
  }

  /** One more packet completes at most its own message. */
  lemma HereAfter(msgs: seq<Message>, got: set<Encap>, e: Encap, k: nat, c: byte)
    requires Consistent(msgs) && PacketOf(e, msgs, k) && (Telling(e) ==> e !in got)
    ensures Here(msgs, got + {e}, c) ==
            Here(msgs, got, c) + if ArrivedOn(msgs, k, c, got + {e}) then {PlaceOf(msgs[k])} else {}
    ensures Telling(e) && OrderedOn(msgs, k, c) ==> PlaceOf(msgs[k]) !in Here(msgs, got, c)
  {
    var got' := got + {e};
    forall j | 0 <= j < |msgs| && j != k && OrderedOn(msgs, j, c)
      ensures ArrivedOn(msgs, j, c, got') <==> ArrivedOn(msgs, j, c, got)
    {
      NotOfAnother(msgs, e, k, j);
    }
    if Telling(e) && OrderedOn(msgs, k, c) && PlaceOf(msgs[k]) in Here(msgs, got, c) {
      var j: nat :| j < |msgs| && ArrivedOn(msgs, j, c, got) && PlaceOf(msgs[j]) == PlaceOf(msgs[k]);
      PlaceDetermines(msgs, j, k, c);
    }
    if ArrivedOn(msgs, k, c, got) {
      assert ArrivedOn(msgs, k, c, got');
    }
  }

  // ----- one more fragment -----

  lemma CompleteIsArrived(msgs: seq<Message>, k: nat, got: set<Encap>)
    requires Consistent(msgs) && k < |msgs| && IsFragmented(msgs[k])
    ensures Complete(FragmentsOf(msgs[k]), PartsHere(msgs[k], got)) <==> Arrived(msgs, k, got)
  {
    var packets, parts := History.Packets(msgs[k]), PartsHere(msgs[k], got);
    SomeChunk(msgs[k]);
    FragmentAt(msgs, k, 0);
    if Complete(FragmentsOf(msgs[k]), parts) {
      forall e | e in packets
        ensures e in got
      {
        var i :| 0 <= i < |packets| && packets[i] == e;
        assert i in parts;
      }
    }
    if Arrived(msgs, k, got) {
      forall i | 0 <= i < |packets|
        ensures i in parts
      {
        assert packets[i] in packets;
      }
    }
  }

  lemma PartsAfter(msgs: seq<Message>, got: set<Encap>, k: nat, i: nat)
    requires Consistent(msgs) && k < |msgs| && IsFragmented(msgs[k]) && i < |History.Packets(msgs[k])|
    ensures var e := History.Packets(msgs[k])[i];
            PartsHere(msgs[k], got + {e}) == PartsHere(msgs[k], got) + {i}
  {
    var packets := History.Packets(msgs[k]);
    forall p | 0 <= p < |packets| && packets[p] == packets[i]
      ensures p == i
    {
      FragmentAt(msgs, k, p);
      FragmentAt(msgs, k, i);
    }
  }

  lemma OtherPartsAfter(msgs: seq<Message>, got: set<Encap>, e: Encap, k: nat, j: nat)
    requires Consistent(msgs) && PacketOf(e, msgs, k) && j < |msgs| && j != k && IsFragmented(msgs[j])
    ensures PartsHere(msgs[j], got + {e}) == PartsHere(msgs[j], got)
    ensures !Carries(e, FragmentsOf(msgs[j]).id)
  {
    NotOfAnother(msgs, e, k, j);
    if IsFragmented(msgs[k]) {
      var i := FragmentPacket(msgs, k, e);
      if j < k {
        SplitIdsDistinct(msgs, j, k);
      } else {
        SplitIdsDistinct(msgs, k, j);
      }
    } else {
      SinglePacket(msgs[k], e);
    }
  }

  /** The parts of other messages stay as they are. */
  lemma OtherPartsHeld(entries: Entries, limits: Limits, e: Encap, now: nat, msgs: seq<Message>, got: set<Encap>,
                       k: nat, j: nat)
    requires Consistent(msgs) && PacketOf(e, msgs, k) && j < |msgs| && j != k
    requires PartsHeld(entries, msgs[j], got)
    ensures PartsHeld(Added(entries, limits, e, now).0, msgs[j], got + {e})
  {
    if IsFragmented(msgs[j]) {
      OtherPartsAfter(msgs, got, e, k, j);
      AddedTouchesOneEntry(entries, limits, e, now, FragmentsOf(msgs[j]).id);
    }
  }

  /** A fragment that is not refused joins those held, or completes its message. */
  lemma OwnPartsHeld(entries: Entries, limits: Limits, e: Encap, now: nat, msgs: seq<Message>, got: set<Encap>, k: nat)
    requires Consistent(msgs) && PacketOf(e, msgs, k) && IsFragmented(msgs[k]) && e !in got
    requires Sound(entries, limits) && PartsHeld(entries, msgs[k], got)
    requires Added(entries, limits, e, now).1.Ok?
    ensures PartsHeld(Added(entries, limits, e, now).0, msgs[k], got + {e})
    ensures var out := Added(entries, limits, e, now).1.value;
            if Arrived(msgs, k, got + {e}) then out.Some? && Carried(out.value, msgs, k) else out.None?
  {
    var i := FragmentPacket(msgs, k, e);
    var f, parts := FragmentsOf(msgs[k]), PartsHere(msgs[k], got);
    PartsAfter(msgs, got, k, i);
    CompleteIsArrived(msgs, k, got);
    CompleteIsArrived(msgs, k, got + {e});
    if |f.chunks| > limits.maxParts || (f.id !in entries && |entries| >= limits.maxConcurrent) {
      RefusedChangesNothing(entries, limits, e, now);
    }
    FragmentStep(entries, limits, f, parts, e, i, now);
    if Complete(f, parts + {i}) {
      WholeCarries(msgs, k, Added(entries, limits, e, now).1.value.value);
    }
  }

  /** What the assembler makes of a packet that it does not refuse. */
  lemma AddedMissesNothing(entries: Entries, limits: Limits, e: Encap, now: nat, msgs: seq<Message>, got: set<Encap>,
                           k: nat)
    requires Consistent(msgs) && PacketOf(e, msgs, k) && (Telling(e) ==> e !in got)
    requires Sound(entries, limits) && AllPartsHeld(entries, msgs, got)
    requires Added(entries, limits, e, now).1.Ok?
    ensures AllPartsHeld(Added(entries, limits, e, now).0, msgs, got + {e})
    ensures var out := Added(entries, limits, e, now).1.value;
            if Arrived(msgs, k, got + {e}) then out.Some? && Carried(out.value, msgs, k) else out.None?
  {
    TellsOwner(msgs, k, e);
    if IsFragmented(msgs[k]) {
      OwnPartsHeld(entries, limits, e, now, msgs, got, k);
    } else {
      SinglePacket(msgs[k], e);
      SingleCarries(msgs, k, e);
    }
    forall j | 0 <= j < |msgs|
      ensures PartsHeld(Added(entries, limits, e, now).0, msgs[j], got + {e})
    {
      if j != k {
        OtherPartsHeld(entries, limits, e, now, msgs, got, k, j);
      }
    }
  }

  // ----- one more packet handled -----

  ghost predicate HeapsHaveRoom(rx: Rx) {
    forall c :: 0 <= c < |rx.heaps| ==> |rx.heaps[c]| < HEAP_LIMIT
  }

  /** The packet is not taken for a duplicate, and no channel is full. */
  ghost predicate Unhindered(rx: Rx, e: Encap) {
    && (FilterIndex(e).Some? ==> !rx.tracker.HasSeen(FilterIndex(e).value))
    && HeapsHaveRoom(rx)
  }

  /** An ordered packet that carries message `k` reaches its channel. */
  lemma OrdersMissesNothing(rx: Rx, pkt: Encap, rx': Rx, ready: seq<Encap>, msgs: seq<Message>, k: nat,
                            here: byte -> set<nat>)
    requires Consistent(msgs) && HalfCircle(msgs) && Carried(pkt, msgs, k) && pkt.header.reliability.IsOrdered()
    requires Orders(rx, pkt, rx', ready) && HeapsHaveRoom(rx) && |rx.orderRead| == |rx.heaps|
    requires forall c: byte :: c < |rx.heaps| ==> Holding(rx.orderRead[c], rx.heaps[c], here(c))
    requires PlaceOf(msgs[k]) !in here(msgs[k].channel)
    ensures |rx'.orderRead| == |rx'.heaps| == |rx.heaps|
    ensures forall c: byte :: c < |rx.heaps| ==>
              Holding(rx'.orderRead[c], rx'.heaps[c],
                      here(c) + if OrderedOn(msgs, k, c) then {PlaceOf(msgs[k])} else {})
  {
    QueuedAt(msgs, k);
    var c := msgs[k].channel;
    if c < |rx.heaps| {
      var idx := pkt.orderingIndex.value;
      HoldingStep(rx.orderRead[c], rx.heaps[c], here(c), idx, pkt, ready, rx'.orderRead[c], rx'.heaps[c]);
    }
    forall d: byte | d < |rx.heaps| && d != c
      ensures here(d) + {} == here(d)
    {
    }
  }

  lemma HandlingMissesNothing(rx: Rx, e: Encap, now: nat, rx': Rx, ready: seq<Encap>, msgs: seq<Message>,
                              got: set<Encap>, k: nat)
    requires Consistent(msgs) && HalfCircle(msgs) && PacketOf(e, msgs, k) && (Telling(e) ==> e !in got)
    requires Sound(rx.entries, rx.limits) && NothingMissing(rx, msgs, got)
    requires Unhindered(rx, e) && Handles(rx, e, now, rx', ready, true)
    ensures NothingMissing(rx', msgs, got + {e})
  {
    var (entries', r) := Added(rx.entries, rx.limits, e, now);
    AddedMissesNothing(rx.entries, rx.limits, e, now, msgs, got, k);
    var tracker' := if FilterIndex(e).Some? then rx.tracker.Seeing(FilterIndex(e).value) else rx.tracker;
    var rx2 := rx.(entries := entries', tracker := tracker');
    forall c: byte
      ensures Here(msgs, got + {e}, c) ==
              Here(msgs, got, c) + if ArrivedOn(msgs, k, c, got + {e}) then {PlaceOf(msgs[k])} else {}
    {
      HereAfter(msgs, got, e, k, c);
    }
    if r.value.Some? && r.value.value.header.reliability.IsOrdered() {
      HereAfter(msgs, got, e, k, msgs[k].channel);
      TellsOwner(msgs, k, e);
      OrdersMissesNothing(rx2, r.value.value, rx', ready, msgs, k, c => Here(msgs, got, c));
    } else {
      SameChannels(rx, rx2, msgs, got, msgs, got + {e});
    }
  }

  lemma SameChannels(rx: Rx, rx': Rx, msgs: seq<Message>, got: set<Encap>, msgs': seq<Message>, got': set<Encap>)
    requires ChannelsHold(rx, msgs, got) && rx'.orderRead == rx.orderRead && rx'.heaps == rx.heaps
    requires forall c: byte :: Here(msgs', got', c) == Here(msgs, got, c)
    ensures ChannelsHold(rx', msgs', got')
  {
  }

  // ----- one datagram -----

  /** The packets are handled one after the other, none of them hindered or refused. */
  ghost predicate HandlesCleanly(rx: Rx, packets: seq<Encap>, now: nat, rx': Rx, ready: seq<Encap>)
    decreases |packets|, 0
  {
    if packets == [] then rx' == rx && ready == []
    else exists rx1, ready1, more ::
           HandlesLastCleanly(rx, packets, now, rx1, ready1, more, rx', ready)
  }

  ghost predicate HandlesLastCleanly(rx: Rx, packets: seq<Encap>, now: nat, rx1: Rx, ready1: seq<Encap>,
                                     more: seq<Encap>, rx': Rx, ready: seq<Encap>)
    requires packets != []
    decreases |packets| - 1, 1
  {
    && HandlesCleanly(rx, packets[..|packets| - 1], now, rx1, ready1)
    && Unhindered(rx1, packets[|packets| - 1])
    && Handles(rx1, packets[|packets| - 1], now, rx', more, true)
    && ready == ready1 + more
  }

  function SetOf(packets: seq<Encap>): set<Encap> {
    set e | e in packets
  }

  /** Every telling packet is new, and is not repeated. */
  ghost predicate AllNew(packets: seq<Encap>, got: set<Encap>) {
    forall i :: 0 <= i < |packets| && Telling(packets[i]) ==> packets[i] !in got && packets[i] !in packets[..i]
  }

  lemma NewUpToLast(packets: seq<Encap>, got: set<Encap>)
    requires AllNew(packets, got) && packets != []
    ensures var init, last := packets[..|packets| - 1], packets[|packets| - 1];
            && AllNew(init, got)
            && (Telling(last) ==> last !in got + SetOf(init))
            && got + SetOf(packets) == (got + SetOf(init)) + {last}
  {
    var init, last := packets[..|packets| - 1], packets[|packets| - 1];
    assert packets == init + [last];
    forall i | 0 <= i < |init| && Telling(init[i])
      ensures init[i] !in got && init[i] !in init[..i]
    {
      assert packets[i] == init[i] && packets[..i] == init[..i];
    }
  }

  lemma LastMissesNothing(rx: Rx, e: Encap, now: nat, rx': Rx, ready: seq<Encap>, msgs: seq<Message>,
                          got: set<Encap>)
    requires Consistent(msgs) && HalfCircle(msgs) && FromHistory(e, msgs) && (Telling(e) ==> e !in got)
    requires Sound(rx.entries, rx.limits) && NothingMissing(rx, msgs, got)
    requires Unhindered(rx, e) && Handles(rx, e, now, rx', ready, true)
    ensures NothingMissing(rx', msgs, got + {e})
  {
    var k: nat :| PacketOf(e, msgs, k);
    HandlingMissesNothing(rx, e, now, rx', ready, msgs, got, k);
  }

  lemma {:induction false} DatagramMissesNothing(rx: Rx, packets: seq<Encap>, now: nat, rx': Rx, ready: seq<Encap>,
                                                 msgs: seq<Message>, delivered: seq<Encap>, exact: bool,
                                                 got: set<Encap>)
    requires Consistent(msgs) && HalfCircle(msgs) && AllFrom(packets, msgs)
    requires ReceiverGood(rx, msgs, delivered, exact) && NothingMissing(rx, msgs, got)
    requires AllNew(packets, got) && HandlesCleanly(rx, packets, now, rx', ready)
    ensures NothingMissing(rx', msgs, got + SetOf(packets))
    ensures ReceiverGood(rx', msgs, delivered + ready, exact)
    decreases |packets|
  {
    if packets == [] {
      assert got + SetOf(packets) == got && delivered + ready == delivered;
    } else {
      var init, last := packets[..|packets| - 1], packets[|packets| - 1];
      var rx1, ready1, more :| HandlesLastCleanly(rx, packets, now, rx1, ready1, more, rx', ready);
      NewUpToLast(packets, got);
      assert last in packets && FromHistory(last, msgs);
      DatagramMissesNothing(rx, init, now, rx1, ready1, msgs, delivered, exact, got);
      LastMissesNothing(rx1, last, now, rx', more, msgs, got + SetOf(init));
      HandlesKeepsGood(rx1, last, now, rx', more, true, msgs, delivered + ready1, exact);
      Regrouped(delivered, ready1, more);
    }
  }

  // ----- runs -----

  /** The packets of the datagrams handled so far. */
  ghost function GotOf(handled: set<Datagram>): set<Encap> {
    set d, e | d in handled && e in PacketsIn(d) :: e
  }

  ghost predicate UpToDate(s: System) {
    match s
    case System(_, rx, _, _, _, msgs, _, handled, _, _) =>
      Inv(s) && Conserved(s) && NothingMissing(rx, msgs, GotOf(handled))
  }

  /** A data datagram that arrives is new, and its packets are handled without hindrance. */
  ghost predicate ArrivesCleanly(s: System, e: Event, s': System) {
    e.Arrive? && ParseDatagram(e.wire).Ok? && ParseDatagram(e.wire).value.payload.Frames? ==>
      var d := ParseDatagram(e.wire).value;
      d !in s.handled && HandledCleanly(s.rx, d, e.now, e.ready, e.ok, s'.rx)
  }

  ghost predicate HandledCleanly(rx: Rx, d: Datagram, now: nat, ready: seq<Encap>, ok: bool, rx': Rx) {
    && ok
    && exists rx1 :: HandlesCleanly(rx, PacketsIn(d), now, rx1, ready) && rx' == AfterArrival(rx1, d.sequence)
  }

  lemma {:induction false} BuiltHolds(built: seq<Datagram>, d: Datagram, e: Encap)
    requires d in built
    ensures multiset(PacketsIn(d))[e] <= BuiltPackets(built)[e]
  {
    var init, last := built[..|built| - 1], built[|built| - 1];
    if d != last {
      assert built == init + [last];
      BuiltHolds(init, d, e);
    }
  }

  lemma {:induction false} BuiltHoldsBoth(built: seq<Datagram>, d: Datagram, d': Datagram, e: Encap)
    requires d in built && d' in built && d != d'
    ensures multiset(PacketsIn(d))[e] + multiset(PacketsIn(d'))[e] <= BuiltPackets(built)[e]
  {
    var init, last := built[..|built| - 1], built[|built| - 1];
    assert built == init + [last];
    if d == last {
      BuiltHolds(init, d', e);
    } else if d' == last {
      BuiltHolds(init, d, e);
    } else {
      BuiltHoldsBoth(init, d, d', e);
    }
  }

  /** A telling packet is in the datagrams at most once. */
  lemma BuiltOnce(s: System, e: Encap)
    requires Conserved(s) && Consistent(s.msgs) && Telling(e)
    ensures BuiltPackets(s.built)[e] <= 1
  {
    QueuedOnce(s.msgs, |s.msgs|, e);
    assert s.msgs[..|s.msgs|] == s.msgs;
    assert BuiltPackets(s.built)[e] <= (multiset(s.tx.heap) + BuiltPackets(s.built))[e];
  }

  lemma NotRepeated(packets: seq<Encap>, i: nat)
    requires i < |packets| && multiset(packets)[packets[i]] <= 1
    ensures packets[i] !in packets[..i]
  {
    assert packets == packets[..i] + packets[i..];
    assert packets[i..][0] == packets[i];
    assert packets[i] in multiset(packets[i..]);
    assert multiset(packets)[packets[i]] == multiset(packets[..i])[packets[i]] + multiset(packets[i..])[packets[i]];
  }

  /** So a datagram that has not been handled brings nothing that has arrived. */
  lemma NewDatagram(s: System, d: Datagram)
    requires Conserved(s) && Consistent(s.msgs) && HandledGood(s.handled, s.built)
    requires d in s.built && d !in s.handled
    ensures AllNew(PacketsIn(d), GotOf(s.handled))
  {
    var packets, got := PacketsIn(d), GotOf(s.handled);
    forall i | 0 <= i < |packets| && Telling(packets[i])
      ensures packets[i] !in got && packets[i] !in packets[..i]
    {
      var e := packets[i];
      BuiltOnce(s, e);
      BuiltHolds(s.built, d, e);
      NotRepeated(packets, i);
      if e in got {
        var d' :| d' in s.handled && e in PacketsIn(d');
        BuiltHoldsBoth(s.built, d, d', e);
      }
    }
  }

  lemma GotMore(handled: set<Datagram>, d: Datagram)
    ensures GotOf(handled + {d}) == GotOf(handled) + SetOf(PacketsIn(d))
  {
  }

  lemma ArrivalUpToDate(s: System, e: Event, s': System)
    requires UpToDate(s) && HalfCircle(s.msgs) && e.Arrive? && Arrives(s, e, s') && ArrivesCleanly(s, e, s')
    ensures NothingMissing(s'.rx, s'.msgs, GotOf(s'.handled))
  {
    if ParseDatagram(e.wire).Ok? && ParseDatagram(e.wire).value.payload.Frames? {
      var d := ParseDatagram(e.wire).value;
      var rx1 :| HandlesCleanly(s.rx, PacketsIn(d), e.now, rx1, e.ready) && s'.rx == AfterArrival(rx1, d.sequence);
      NewDatagram(s, d);
      var i :| 0 <= i < |s.built| && s.built[i] == d;
      assert BuiltAt(d, i, s.msgs);
      DatagramMissesNothing(s.rx, PacketsIn(d), e.now, rx1, e.ready, s.msgs, s.delivered, s.exact, GotOf(s.handled));
      GotMore(s.handled, d);
    }
  }

  // ----- a new message has not arrived -----

  lemma NewMessageNotHere(s: System, m: Message, e: Encap)
    requires Conserved(s) && HandledGood(s.handled, s.built) && Consistent(s.msgs + [m])
    requires e in History.Packets(m) && (IsFragmented(m) || m.reliability.IsOrdered())
    ensures e !in GotOf(s.handled)
  {
    var msgs' := s.msgs + [m];
    assert PacketOf(e, msgs', |s.msgs|);
    TellsOwner(msgs', |s.msgs|, e);
    if e in GotOf(s.handled) {
      var d :| d in s.handled && e in PacketsIn(d);
      BuiltHolds(s.built, d, e);
      assert e in multiset(s.tx.heap) + BuiltPackets(s.built);
      assert s.msgs[..|s.msgs|] == s.msgs;
      InAllPackets(s.msgs, |s.msgs|, e);
      var j: nat :| j < |s.msgs| && PacketOf(e, s.msgs, j);
      assert PacketOf(e, msgs', j);
      OneOwner(msgs', j, |s.msgs|, e);
    }
  }

  lemma SomePacket(msgs: seq<Message>, k: nat)
    requires Consistent(msgs) && k < |msgs|
    ensures History.Packets(msgs[k]) != []
  {
    if IsFragmented(msgs[k]) {
      SomeChunk(msgs[k]);
    }
  }

  lemma HereGrows(s: System, m: Message, c: byte)
    requires Conserved(s) && HandledGood(s.handled, s.built) && Consistent(s.msgs + [m])
    ensures Here(s.msgs + [m], GotOf(s.handled), c) == Here(s.msgs, GotOf(s.handled), c)
  {
    var msgs', got, n := s.msgs + [m], GotOf(s.handled), |s.msgs|;
    forall j | 0 <= j < n
      ensures ArrivedOn(msgs', j, c, got) <==> ArrivedOn(s.msgs, j, c, got)
      ensures msgs'[j] == s.msgs[j]
    {
    }
    SomePacket(msgs', n);
    if ArrivedOn(msgs', n, c, got) {
      var e := History.Packets(m)[0];
      NewMessageNotHere(s, m, e);
    }
  }

  /** No entry waits for a message that has only now been queued. */
  lemma NewPartsHeld(s: System, m: Message)
    requires Conserved(s) && HandledGood(s.handled, s.built) && Consistent(s.msgs + [m])
    requires EntriesGood(s.rx.entries, s.msgs)
    ensures PartsHeld(s.rx.entries, m, GotOf(s.handled))
  {
    if IsFragmented(m) {
      var msgs', n := s.msgs + [m], |s.msgs|;
      forall e | e in History.Packets(m)
        ensures e !in GotOf(s.handled)
      {
        NewMessageNotHere(s, m, e);
      }
      assert PartsHere(m, GotOf(s.handled)) == {};
      SomeChunk(m);
      var id := FragmentsOf(m).id;
      if id in s.rx.entries {
        assert EntryGood(id, s.rx.entries[id], s.msgs);
        var k: nat, seen: set<nat> :| EntryFor(id, s.rx.entries[id], s.msgs, k, seen);
        assert msgs'[k] == s.msgs[k] && msgs'[n] == m;
        SplitIdsDistinct(msgs', k, n);
      }
    }
  }

  lemma GrownPartsHeld(entries: Entries, msgs: seq<Message>, m: Message, got: set<Encap>)
    requires AllPartsHeld(entries, msgs, got) && PartsHeld(entries, m, got)
    ensures AllPartsHeld(entries, msgs + [m], got)
  {
    var msgs' := msgs + [m];
    forall k | 0 <= k < |msgs'|
      ensures PartsHeld(entries, msgs'[k], got)
    {
      if k < |msgs| {
        assert PartsHeld(entries, msgs[k], got) && msgs'[k] == msgs[k];
      }
    }
  }

  lemma QueueMissesNothing(s: System, m: Message)
    requires Conserved(s) && HandledGood(s.handled, s.built) && Consistent(s.msgs + [m])
    requires EntriesGood(s.rx.entries, s.msgs) && NothingMissing(s.rx, s.msgs, GotOf(s.handled))
    ensures NothingMissing(s.rx, s.msgs + [m], GotOf(s.handled))
  {
    var got := GotOf(s.handled);
    NewPartsHeld(s, m);
    GrownPartsHeld(s.rx.entries, s.msgs, m, got);
    forall c: byte
      ensures Here(s.msgs + [m], got, c) == Here(s.msgs, got, c)
    {
      HereGrows(s, m, c);
    }
    SameChannels(s.rx, s.rx, s.msgs, got, s.msgs + [m], got);
  }

  lemma QueueUpToDate(s: System, e: Event, s': System)
    requires UpToDate(s) && e.Queue? && Queues(s, e, s')
    ensures NothingMissing(s'.rx, s'.msgs, GotOf(s'.handled))
  {
    var m := Message(s.tx, e.payload, e.reliability, e.channel);
    QueueExtends(s.tx, s.msgs, e.payload, e.reliability, e.channel);
    QueueMissesNothing(s, m);
  }

  lemma NothingPruned(rx: Rx, now: nat, rx': Rx)
    requires Prunes(rx, now, rx', [])
    ensures rx' == rx
  {
    assert Expired(rx.entries, rx.ttl, now) == {};
    assert rx.entries - {} == rx.entries;
  }

  lemma TickUpToDate(s: System, e: Event, s': System)
    requires UpToDate(s) && e.ReceiverTick? && TicksReceiver(s, e, s') && s'.exact
    ensures NothingMissing(s'.rx, s'.msgs, GotOf(s'.handled))
  {
    NothingPruned(s.rx, e.now, s'.rx.(acks := s.rx.acks, naks := s.rx.naks));
  }

  lemma StepMissesNothing(s: System, e: Event, s': System)
    requires UpToDate(s) && Step(s, e, s') && HalfCircle(s.msgs) && s'.exact
    requires e.Arrive? ==> ArrivesCleanly(s, e, s')
    ensures NothingMissing(s'.rx, s'.msgs, GotOf(s'.handled))
  {
    if e.Queue? {
      QueueUpToDate(s, e, s');
    } else if e.Arrive? {
      ArrivalUpToDate(s, e, s');
    } else if e.ReceiverTick? {
      TickUpToDate(s, e, s');
    } else {
      ReceiverUntouched(s, e, s');
    }
  }

  /** The sender's other steps do not touch what the receiver has. */
  lemma ReceiverUntouched(s: System, e: Event, s': System)
    requires Step(s, e, s') && (e.Build? || e.SenderTick? || e.Report?)
    ensures s'.rx == s.rx && s'.msgs == s.msgs && s'.handled == s.handled
  {
  }

  lemma StepUpToDate(s: System, e: Event, s': System)
    requires UpToDate(s) && Step(s, e, s') && HalfCircle(s.msgs) && s'.exact
    requires e.Arrive? ==> ArrivesCleanly(s, e, s')
    ensures UpToDate(s')
  {
    StepKeepsInv(s, e, s');
    StepConserves(s, e, s');
    StepMissesNothing(s, e, s');
  }

  lemma InitUpToDate(s: System)
    requires Init(s)
    ensures UpToDate(s)
  {
    InitGood(s);
    assert GotOf(s.handled) == {};
    forall c: byte
      ensures Here(s.msgs, {}, c) == {}
    {
    }
  }

  // ----- looking back from the end of a run -----

  lemma StepGrows(s: System, e: Event, s': System)
    requires Step(s, e, s')
    ensures s.msgs <= s'.msgs && (s'.exact ==> s.exact)
  {
  }

  lemma {:induction false} RunGrows(states: seq<System>, events: seq<Event>, i: nat, n: nat)
    requires Network.IsRun(states, events) && i <= n < |states|
    ensures states[i].msgs <= states[n].msgs && (states[n].exact ==> states[i].exact)
    decreases n
  {
    if i < n {
      var m := n - 1;
      RunGrows(states, events, i, m);
      assert Network.StepAt(states, events, m);
      StepGrows(states[m], events[m], states[n]);
    }
  }

  lemma HalfCircleBefore(msgs: seq<Message>, msgs': seq<Message>)
    requires msgs <= msgs' && HalfCircle(msgs')
    ensures HalfCircle(msgs)
  {
    assert msgs'[..|msgs|] == msgs;
    forall c: byte
      ensures |Queued(msgs, c)| <= HALF
    {
      QueuedPrefix(msgs', |msgs|, c);
    }
  }

  /** Every data datagram arrives at most once, and is handled without hindrance. */
  ghost predicate CleanRun(states: seq<System>, events: seq<Event>) {
    |states| == |events| + 1 &&
    forall i :: 0 <= i < |events| && events[i].Arrive? ==> CleanAt(states, events, i)
  }

  ghost predicate CleanAt(states: seq<System>, events: seq<Event>, i: nat)
    requires i < |events| < |states|
  {
    ArrivesCleanly(states[i], events[i], states[i + 1])
  }

  lemma CleanRunUpToDate(states: seq<System>, events: seq<Event>, n: nat)
    requires Network.IsRun(states, events) && CleanRun(states, events) && n < |states|
    requires states[n].exact && HalfCircle(states[n].msgs)
    ensures UpToDate(states[n])
  {
    InitUpToDate(states[0]);
    for k := 0 to n
      invariant UpToDate(states[k])
    {
      RunGrows(states, events, k, n);
      RunGrows(states, events, k + 1, n);
      HalfCircleBefore(states[k].msgs, states[n].msgs);
      assert Network.StepAt(states, events, k);
      assert events[k].Arrive? ==> CleanAt(states, events, k);
      StepUpToDate(states[k], events[k], states[k + 1]);
    }
  }

  /** Every position of a channel's queue is that of some message. */
  lemma {:induction false} PositionTaken(msgs: seq<Message>, n: nat, c: byte, p: nat) returns (k: nat)
    requires Consistent(msgs) && n <= |msgs| && p < |Queued(msgs[..n], c)|
    ensures k < n && OrderedOn(msgs, k, c) && PlaceOf(msgs[k]) == p
  {
    var j := n - 1;
    assert msgs[..n][..j] == msgs[..j];
    if p < |Queued(msgs[..j], c)| {
      k := PositionTaken(msgs, j, c, p);
    } else {
      k := j;
      assert CountedAt(msgs, j);
    }
  }

  /** If all that was built has been handled and nothing waits on the heap, every message has arrived. */
  lemma AllArrived(s: System, k: nat)
    requires Conserved(s) && s.tx.heap == [] && (forall d :: d in s.built ==> d in s.handled) && k < |s.msgs|
    ensures Arrived(s.msgs, k, GotOf(s.handled))
  {
    forall e | e in History.Packets(s.msgs[k])
      ensures e in GotOf(s.handled)
    {
      assert PacketOf(e, s.msgs, k);
      assert s.msgs[..|s.msgs|] == s.msgs;
      InAllPackets(s.msgs, |s.msgs|, e);
      assert e in multiset(s.tx.heap) + BuiltPackets(s.built);
      var d := SomeDatagram(s.built, e);
    }
  }

  lemma {:induction false} SomeDatagram(built: seq<Datagram>, e: Encap) returns (d: Datagram)
    requires e in BuiltPackets(built)
    ensures d in built && e in PacketsIn(d)
  {
    var init, last := built[..|built| - 1], built[|built| - 1];
    if e in PacketsIn(last) {
      d := last;
    } else {
      d := SomeDatagram(init, e);
    }
  }

  lemma AllHere(s: System, c: byte, p: nat)
    requires UpToDate(s) && s.tx.heap == [] && (forall d :: d in s.built ==> d in s.handled)
    requires p < |Queued(s.msgs, c)|
    ensures p in Here(s.msgs, GotOf(s.handled), c)
  {
    assert s.msgs[..|s.msgs|] == s.msgs;
    var k := PositionTaken(s.msgs, |s.msgs|, c, p);
    AllArrived(s, k);
    assert ArrivedOn(s.msgs, k, c, GotOf(s.handled));
  }

  lemma ReadReachesEnd(s: System, c: byte)
    requires UpToDate(s) && s.tx.heap == [] && (forall d :: d in s.built ==> d in s.handled)
    requires c < |s.rx.heaps|
    ensures |s.rx.orderRead| == |s.rx.heaps| && s.rx.orderRead[c] >= |Queued(s.msgs, c)|
  {
    forall p: nat | p < |Queued(s.msgs, c)|
      ensures p in Here(s.msgs, GotOf(s.handled), c)
    {
      AllHere(s, c, p);
    }
  }

  /** In every run in which each datagram arrives once, nothing is refused, filtered or expires, and no channel is
      full: when all that was queued has been sent and handled, all of it has been delivered, in order. */
  lemma EverythingIsDelivered(states: seq<System>, events: seq<Event>, c: byte)
    requires Network.IsRun(states, events) && CleanRun(states, events)
    requires var s := states[|events|];
             && s.exact && HalfCircle(s.msgs) && c < |s.rx.heaps|
             && s.tx.heap == [] && (forall d :: d in s.built ==> d in s.handled)
    ensures OnChannel(states[|events|].delivered, c) == Queued(states[|events|].msgs, c)
  {
    var s := states[|events|];
    CleanRunUpToDate(states, events, |events|);
    ReadReachesEnd(s, c);
    var q := Queued(s.msgs, c);
    assert ChannelGood(s.rx, c, q, OnChannel(s.delivered, c), s.exact);
    assert q[..|q|] == q;
  }
}
