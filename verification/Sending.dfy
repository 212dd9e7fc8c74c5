/**
 What the sending half of a session does (raknet/src/session/outbound.rs, inbound.rs), on values:
 queueing with fragmentation, packing datagrams, and the window of unacknowledged datagrams.
*/
module Sending {
  import opened Sequence24
  import opened Wrappers
  import opened Ranges
  import opened Protocol
  import opened Codec
  import opened DatagramCodec
  import opened Sequences
  import opened Split
  import opened SentWindow

  datatype Tx = Tx(
    mtu: nat,
    maxSent: nat,
    timeout: nat,
    splitIndex: u16,
    reliableWrite: Seq24,
    orderWrite: seq<Seq24>,
    heap: seq<Encap>,
    dgramWrite: Seq24,
    base: Seq24,
    slots: Slots,
    acks: seq<SequenceRange>,
    naks: seq<SequenceRange>)

  /** IP, UDP and datagram headers. */
  const DATAGRAM_OVERHEAD: nat := IPV4_HEADER_SIZE + UDP_HEADER_SIZE + RAKNET_DATAGRAM_HEADER_SIZE

  function MaxPayloadLen(mtu: nat, rel: Reliability, isSplit: bool): nat {
    var taken := HeaderOverhead(rel, isSplit) + DATAGRAM_OVERHEAD;
    if mtu >= taken then mtu - taken else 0
  }

  function AtLeastOne(n: nat): nat {
    if n >= 1 then n else 1
  }

  /** Fragments are always sent reliably. */
  function NormalizedForSplit(rel: Reliability): (r: Reliability)
    ensures r.IsReliable()
    ensures r.IsOrdered() == rel.IsOrdered() && r.IsSequenced() == rel.IsSequenced()
  {
    match rel
    case Unreliable => Reliable
    case UnreliableSequenced => ReliableSequenced
    case UnreliableWithAckReceipt => ReliableWithAckReceipt
    case other => other
  }

  // ----- queueing -----

  function OrderIndex(tx: Tx, rel: Reliability, channel: byte): Option<Seq24> {
    if rel.IsOrdered() && channel < |tx.orderWrite| then Some(tx.orderWrite[channel]) else None
  }

  function OrderAdvanced(tx: Tx, rel: Reliability, channel: byte): seq<Seq24> {
    if rel.IsOrdered() && channel < |tx.orderWrite| then tx.orderWrite[channel := Next(tx.orderWrite[channel])]
    else tx.orderWrite
  }

  function ChannelOf(order: Option<Seq24>, channel: byte): Option<byte> {
    if order.Some? then Some(channel) else None
  }

  function SingleEncap(tx: Tx, payload: Bytes, rel: Reliability, channel: byte): Encap {
    var order := OrderIndex(tx, rel, channel);
    Encap(Header(rel, false, false), BitLengthOf(payload),
          if rel.IsReliable() then Some(tx.reliableWrite) else None,
          None, order, ChannelOf(order, channel), None, payload)
  }

  function CastU32(n: nat): u32 {
    if n < 0x1_0000_0000 then n else n % 0x1_0000_0000
  }

  function FragmentEncap(tx: Tx, rel: Reliability, channel: byte, chunks: seq<Bytes>, i: nat): Encap
    requires i < |chunks|
  {
    var order := OrderIndex(tx, rel, channel);
    Encap(Header(rel, true, false), BitLengthOf(chunks[i]), Some(Steps(tx.reliableWrite, i)),
          None, order, ChannelOf(order, channel),
          Some(SplitInfo(CastU32(|chunks|), tx.splitIndex, CastU32(i))), chunks[i])
  }

  function Fragments(tx: Tx, rel: Reliability, channel: byte, chunks: seq<Bytes>, n: nat): seq<Encap>
    requires n <= |chunks|
  {
    seq(n, i requires 0 <= i < n => FragmentEncap(tx, rel, channel, chunks, i))
  }

  lemma FragmentsSnoc(tx: Tx, rel: Reliability, channel: byte, chunks: seq<Bytes>, n: nat)
    requires n < |chunks|
    ensures Fragments(tx, rel, channel, chunks, n + 1) ==
            Fragments(tx, rel, channel, chunks, n) + [FragmentEncap(tx, rel, channel, chunks, n)]
  {
  }

  /** The fragmentation a payload needs, if any. */
  function ChunksFor(mtu: nat, payload: Bytes, rel: Reliability): Option<seq<Bytes>> {
    if |payload| <= AtLeastOne(MaxPayloadLen(mtu, rel, false)) then None
    else Some(Chunks(payload, AtLeastOne(MaxPayloadLen(mtu, NormalizedForSplit(rel), true))))
  }

  /** The packets a payload is queued as. */
  function NewEncaps(tx: Tx, payload: Bytes, rel: Reliability, channel: byte): seq<Encap> {
    match ChunksFor(tx.mtu, payload, rel)
    case None => [SingleEncap(tx, payload, rel, channel)]
    case Some(chunks) => Fragments(tx, NormalizedForSplit(rel), channel, chunks, |chunks|)
  }

  function Enqueued(tx: Tx, payload: Bytes, rel: Reliability, channel: byte): Tx {
    match ChunksFor(tx.mtu, payload, rel)
    case None =>
      tx.(orderWrite := OrderAdvanced(tx, rel, channel),
          reliableWrite := if rel.IsReliable() then Next(tx.reliableWrite) else tx.reliableWrite,
          heap := tx.heap + NewEncaps(tx, payload, rel, channel))
    case Some(chunks) =>
      tx.(orderWrite := OrderAdvanced(tx, rel, channel),
          reliableWrite := Steps(tx.reliableWrite, |chunks|),
          splitIndex := if tx.splitIndex == 0xFFFF then 0 else tx.splitIndex + 1,
          heap := tx.heap + NewEncaps(tx, payload, rel, channel))
  }

  /** `queue_packet` with an encodable packet: a channel out of range queues nothing. */
  function AfterQueue(tx: Tx, payload: Bytes, rel: Reliability, channel: byte): Tx {
    if channel >= |tx.orderWrite| then tx else Enqueued(tx, payload, rel, channel)
  }

  // ----- byte counts -----

  function ReliableSize(e: Encap): nat {
    if e.header.reliability.IsReliable() then e.Size() else 0
  }

  function ReliableBytes(packets: seq<Encap>): nat {
    if packets == [] then 0 else ReliableBytes(packets[..|packets| - 1]) + ReliableSize(packets[|packets| - 1])
  }

  lemma {:induction false} ReliableBytesConcat(a: seq<Encap>, b: seq<Encap>)
    ensures ReliableBytes(a + b) == ReliableBytes(a) + ReliableBytes(b)
  {
    if b == [] {
      assert a + b == a;
    } else {
      ReliableBytesConcat(a, b[..|b| - 1]);
      assert (a + b)[..|a + b| - 1] == a + b[..|b| - 1];
    }
  }

  lemma ReliableBytesWithout(packets: seq<Encap>, k: nat)
    requires k < |packets|
    ensures ReliableBytes(packets) == ReliableBytes(Without(packets, k)) + ReliableSize(packets[k])
  {
    var front, e, back := packets[..k], packets[k], packets[k + 1..];
    Rejoined(packets, k);
    ReliableBytesConcat(front + [e], back);
    ReliableBytesSnoc(front, e);
    ReliableBytesConcat(front, back);
  }

  lemma ReliableBytesSnoc(front: seq<Encap>, e: Encap)
    ensures ReliableBytes(front + [e]) == ReliableBytes(front) + ReliableSize(e)
  {
    assert (front + [e])[..|front|] == front;
  }

  // ----- packing datagrams -----

  predicate FitsMore(mtu: nat, bw: nat, used: nat, e: Encap) {
    used + e.Size() <= bw && DATAGRAM_OVERHEAD + used + e.Size() <= mtu
  }

  /** The packets leave the heap one after the other, each from wherever the heap keeps its top. */
  ghost predicate Taken(heap: seq<Encap>, packets: seq<Encap>, heap': seq<Encap>)
    decreases |packets|, 0
  {
    if packets == [] then heap' == heap
    else exists heap1, k: nat :: TakenLast(heap, packets, heap1, k, heap')
  }

  ghost predicate TakenLast(heap: seq<Encap>, packets: seq<Encap>, heap1: seq<Encap>, k: nat, heap': seq<Encap>)
    requires packets != []
    decreases |packets| - 1, 1
  {
    && Taken(heap, packets[..|packets| - 1], heap1)
    && k < |heap1| && heap1[k] == packets[|packets| - 1]
    && heap' == Without(heap1, k)
  }

  lemma TakenMore(heap: seq<Encap>, packets: seq<Encap>, heap': seq<Encap>, k: nat)
    requires Taken(heap, packets, heap') && k < |heap'|
    ensures Taken(heap, packets + [heap'[k]], Without(heap', k))
    ensures TotalSize(packets + [heap'[k]]) == TotalSize(packets) + heap'[k].Size()
  {
    var more := packets + [heap'[k]];
    assert more[..|more| - 1] == packets;
    assert TakenLast(heap, more, heap', k, Without(heap', k));
  }

  /** Nothing is lost or made up on the way. */
  lemma {:induction false} TakenFacts(heap: seq<Encap>, packets: seq<Encap>, heap': seq<Encap>)
    requires Taken(heap, packets, heap')
    ensures multiset(packets) + multiset(heap') == multiset(heap)
    ensures |packets| + |heap'| == |heap|
    ensures ReliableBytes(packets) + ReliableBytes(heap') == ReliableBytes(heap)
    decreases |packets|
  {
    if packets != [] {
      var init, last := packets[..|packets| - 1], packets[|packets| - 1];
      var heap1, k: nat :| TakenLast(heap, packets, heap1, k, heap');
      TakenFacts(heap, init, heap1);
      ReliableBytesWithout(heap1, k);
      Rejoined(heap1, k);
      assert packets == init + [last];
    }
  }

  /** Some packets move from the heap to the datagram while they fit, until one on top does not. */
  ghost predicate Fills(mtu: nat, bw: nat, heap: seq<Encap>, packets: seq<Encap>, heap': seq<Encap>) {
    && Taken(heap, packets, heap')
    && TotalSize(packets) <= bw
    && (packets != [] ==> DATAGRAM_OVERHEAD + TotalSize(packets) <= mtu)
    && (heap' == [] || exists k :: 0 <= k < |heap'| && !FitsMore(mtu, bw, TotalSize(packets), heap'[k]))
  }

  predicate HasReliable(packets: seq<Encap>) {
    exists i :: 0 <= i < |packets| && packets[i].header.reliability.IsReliable()
  }

  predicate HasSplit(packets: seq<Encap>) {
    exists i :: 0 <= i < |packets| && packets[i].header.isSplit
  }

  function DataDatagram(s: Seq24, packets: seq<Encap>, more: bool): Datagram {
    Datagram(if more || HasSplit(packets) then FLAGS_CONTINUOUS else FLAGS_DEFAULT, s, Frames(packets))
  }

  function PacketsOf(out: Option<Datagram>): seq<Encap> {
    if out.Some? && out.value.payload.Frames? then out.value.payload.packets else []
  }

  /** Building one data datagram with bandwidth `bw`; a datagram with a reliable packet is tracked. */
  ghost predicate Builds(tx: Tx, now: nat, bw: nat, rto: nat, tx': Tx, out: Option<Datagram>) {
    var packets := PacketsOf(out);
    && Fills(tx.mtu, bw, tx.heap, packets, tx'.heap)
    && if out.None? then tx' == tx
       else
         && packets != []
         && out.value == DataDatagram(tx.dgramWrite, packets, tx'.heap != [])
         && tx' == tx.(heap := tx'.heap, dgramWrite := Next(tx.dgramWrite),
                       slots := if HasReliable(packets)
                                then Inserted(tx.base, tx.slots, tx.dgramWrite, Tracked(out.value, now, now + rto))
                                else tx.slots)
  }

  // ----- the tick -----

  /** The window after the queued ACKs and the cleaning. */
  function AfterAcks(tx: Tx, now: nat): Tx
    requires Numbered(tx.base, tx.slots)
  {
    var acked := AckedSlots(tx.base, tx.slots, tx.acks);
    tx.(base := CleanedBase(tx.base, acked, now, tx.timeout, tx.maxSent),
        slots := Cleaned(acked, now, tx.timeout, tx.maxSent),
        acks := [])
  }

  /** The sizes of the unacknowledged datagrams that the cleaning gives up. */
  function DroppedBy(tx: Tx, now: nat): nat
    requires Numbered(tx.base, tx.slots)
  {
    var acked := AckedSlots(tx.base, tx.slots, tx.acks);
    TrackedBytes(acked[..FrontDrop(acked, now, tx.timeout, tx.maxSent)])
  }

  /** ... and after the queued NAKs. */
  function AfterNaks(tx: Tx, now: nat): Tx
    requires |tx.slots| <= MODULO
  {
    tx.(slots := NakedSlots(tx.base, tx.slots, tx.naks, now), naks := [])
  }

  /** ... and after the retransmission of what is due. */
  function AfterResends(tx: Tx, now: nat, rto: nat): Tx {
    tx.(slots := ResentSlots(tx.slots, now, rto))
  }

  lemma SettledWindow(tx: Tx, now: nat)
    requires Numbered(tx.base, tx.slots)
    ensures Numbered(AfterAcks(tx, now).base, AfterAcks(tx, now).slots)
    ensures Numbered(AfterNaks(AfterAcks(tx, now), now).base, AfterNaks(AfterAcks(tx, now), now).slots)
  {
    var acked := AckedSlots(tx.base, tx.slots, tx.acks);
    assert Numbered(tx.base, acked);
    CleaningDropsOnlyExpiredOrOldest(tx.base, acked, now, tx.timeout, tx.maxSent, 0);
  }

  /** The window when a tick gets to retransmission. */
  function SettledTx(tx: Tx, now: nat): (tx': Tx)
    requires Numbered(tx.base, tx.slots)
    ensures Numbered(tx'.base, tx'.slots)
  {
    SettledWindow(tx, now);
    AfterNaks(AfterAcks(tx, now), now)
  }

  // ----- every queued packet fits a datagram -----

  /** MTUs for which a fragment has room for a byte and no payload reaches 8192 bytes;
      negotiation only yields 576 to 1400. */
  predicate WorkableMtu(mtu: nat) {
    56 <= mtu <= 8226
  }

  /** The packet fits an empty datagram, has the bit length of its payload, and encodes unless it is sequenced. */
  ghost predicate Sendable(mtu: nat, e: Encap) {
    && DATAGRAM_OVERHEAD + e.Size() <= mtu
    && |e.payload| == e.PayloadLen()
    && (!e.header.reliability.IsSequenced() ==> Canonical(e))
  }

  ghost predicate AllSendable(mtu: nat, packets: seq<Encap>) {
    forall e :: e in packets ==> Sendable(mtu, e)
  }

  lemma BitLengthIsExact(payload: Bytes)
    requires |payload| < 8192
    ensures (BitLengthOf(payload) + 7) / 8 == |payload|
  {
  }

  lemma FragmentIsSendable(tx: Tx, rel: Reliability, channel: byte, chunks: seq<Bytes>, i: nat)
    requires WorkableMtu(tx.mtu) && channel < |tx.orderWrite| && rel.IsReliable()
    requires i < |chunks| && |chunks[i]| <= AtLeastOne(MaxPayloadLen(tx.mtu, rel, true))
    ensures Sendable(tx.mtu, FragmentEncap(tx, rel, channel, chunks, i))
  {
    BitLengthIsExact(chunks[i]);
  }

  lemma SingleIsSendable(tx: Tx, payload: Bytes, rel: Reliability, channel: byte)
    requires WorkableMtu(tx.mtu) && channel < |tx.orderWrite|
    requires |payload| <= AtLeastOne(MaxPayloadLen(tx.mtu, rel, false))
    ensures Sendable(tx.mtu, SingleEncap(tx, payload, rel, channel))
  {
    BitLengthIsExact(payload);
  }

  /** Whatever the payload, what `queue_packet` puts on the heap fits an empty datagram. */
  lemma QueueKeepsSendable(tx: Tx, payload: Bytes, rel: Reliability, channel: byte)
    requires WorkableMtu(tx.mtu) && AllSendable(tx.mtu, tx.heap)
    ensures AllSendable(tx.mtu, AfterQueue(tx, payload, rel, channel).heap)
  {
    if channel < |tx.orderWrite| {
      var added := NewEncaps(tx, payload, rel, channel);
      match ChunksFor(tx.mtu, payload, rel)
      case None =>
        SingleIsSendable(tx, payload, rel, channel);
      case Some(chunks) =>
        var r := NormalizedForSplit(rel);
        ChunksJoin(payload, AtLeastOne(MaxPayloadLen(tx.mtu, r, true)));
        forall e | e in added
          ensures Sendable(tx.mtu, e)
        {
          var i :| 0 <= i < |added| && added[i] == e;
          FragmentIsSendable(tx, r, channel, chunks, i);
        }
    }
  }

  /** A data datagram fits the MTU with all its headers. */
  lemma BuiltDatagramFits(tx: Tx, now: nat, bw: nat, rto: nat, tx': Tx, d: Datagram)
    requires Builds(tx, now, bw, rto, tx', Some(d))
    ensures IPV4_HEADER_SIZE + UDP_HEADER_SIZE + d.Size() <= tx.mtu
    ensures d.Size() <= bw + RAKNET_DATAGRAM_HEADER_SIZE
    ensures |tx'.heap| < |tx.heap|
  {
    TakenFacts(tx.heap, PacketsOf(Some(d)), tx'.heap);
  }

  /** Without sequenced packets it encodes, to as many bytes as `Size` says, and decodes to itself. */
  lemma BuiltDatagramTravels(tx: Tx, now: nat, bw: nat, rto: nat, tx': Tx, d: Datagram)
    requires Builds(tx, now, bw, rto, tx', Some(d))
    requires AllSendable(tx.mtu, tx.heap)
    requires forall e :: e in tx.heap ==> !e.header.reliability.IsSequenced()
    ensures d.payload.Frames? && AllCanonical(d.payload.packets)
    ensures DatagramBytes(d).Ok? && |DatagramBytes(d).value| == d.Size()
    ensures ParseDatagram(DatagramBytes(d).value) == Ok(d)
    ensures forall e :: e in d.payload.packets ==> e in tx.heap
    ensures forall e :: e in tx'.heap ==> e in tx.heap
  {
    var packets, heap' := d.payload.packets, tx'.heap;
    TakenFacts(tx.heap, packets, heap');
    SubBag(packets, heap', tx.heap);
    NonSequencedAreCanonical(tx.mtu, packets);
    CanonicalPacketsTravel(tx.dgramWrite, packets, heap' != []);
  }

  // ----- sequenced packets -----

  predicate WithoutSequenceIndex(packets: seq<Encap>) {
    forall e :: e in packets ==> e.sequenceIndex.None?
  }

  /** No packet is ever queued with a sequence index, sequenced ones included. */
  lemma QueueLeavesSequenceIndexOut(tx: Tx, payload: Bytes, rel: Reliability, channel: byte)
    requires WithoutSequenceIndex(tx.heap)
    ensures WithoutSequenceIndex(AfterQueue(tx, payload, rel, channel).heap)
  {
  }

  lemma BuildKeepsSequenceIndexOut(tx: Tx, now: nat, bw: nat, rto: nat, tx': Tx, out: Option<Datagram>)
    requires WithoutSequenceIndex(tx.heap) && Builds(tx, now, bw, rto, tx', out)
    ensures WithoutSequenceIndex(PacketsOf(out)) && WithoutSequenceIndex(tx'.heap)
  {
    TakenFacts(tx.heap, PacketsOf(out), tx'.heap);
    SubBag(PacketsOf(out), tx'.heap, tx.heap);
  }

  lemma BuildKeepsSendable(tx: Tx, now: nat, bw: nat, rto: nat, tx': Tx, out: Option<Datagram>)
    requires AllSendable(tx.mtu, tx.heap) && Builds(tx, now, bw, rto, tx', out)
    ensures AllSendable(tx.mtu, PacketsOf(out)) && AllSendable(tx.mtu, tx'.heap)
  {
    TakenFacts(tx.heap, PacketsOf(out), tx'.heap);
    SubBag(PacketsOf(out), tx'.heap, tx.heap);
  }

  /** So a built datagram encodes exactly when none of its packets is sequenced. */
  lemma BuiltEncodesUnlessSequenced(tx: Tx, now: nat, bw: nat, rto: nat, tx': Tx, d: Datagram)
    requires AllSendable(tx.mtu, tx.heap) && WithoutSequenceIndex(tx.heap)
    requires Builds(tx, now, bw, rto, tx', Some(d))
    ensures DatagramBytes(d).Ok? <==> forall e :: e in PacketsOf(Some(d)) ==> !e.header.reliability.IsSequenced()
  {
    var packets := PacketsOf(Some(d));
    BuildKeepsSequenceIndexOut(tx, now, bw, rto, tx', Some(d));
    BuildKeepsSendable(tx, now, bw, rto, tx', Some(d));
    if e :| e in packets && e.header.reliability.IsSequenced() {
      var i :| 0 <= i < |packets| && packets[i] == e;
      MissingSequenceIndexFailsToEncode(packets, i);
    } else {
      NonSequencedAreCanonical(tx.mtu, packets);
      CanonicalPacketsTravel(tx.dgramWrite, packets, tx'.heap != []);
    }
  }

  lemma NonSequencedAreCanonical(mtu: nat, packets: seq<Encap>)
    requires AllSendable(mtu, packets)
    requires forall e :: e in packets ==> !e.header.reliability.IsSequenced()
    ensures AllCanonical(packets)
  {
    forall i | 0 <= i < |packets|
      ensures Canonical(packets[i])
    {
      assert packets[i] in packets;
    }
  }

  lemma CanonicalPacketsTravel(s: Seq24, packets: seq<Encap>, more: bool)
    requires AllCanonical(packets)
    ensures var d := DataDatagram(s, packets, more);
            && DatagramBytes(d).Ok? && |DatagramBytes(d).value| == d.Size()
            && ParseDatagram(DatagramBytes(d).value) == Ok(d)
  {
    CanonicalDatagramTravels(DataDatagram(s, packets, more));
  }

  lemma SubBag<T>(a: seq<T>, b: seq<T>, whole: seq<T>)
    requires multiset(a) + multiset(b) == multiset(whole)
    ensures forall e :: e in a ==> e in whole
    ensures forall e :: e in b ==> e in whole
  {
    forall e | e in a || e in b
      ensures e in whole
    {
      assert e in multiset(a) + multiset(b);
      assert e in multiset(whole);
    }
  }

  // ----- when a datagram can be built -----

  /** A fill that has begun can be brought to an end. */
  lemma FillCompletes(mtu: nat, bw: nat, heap: seq<Encap>, packets: seq<Encap>, rest: seq<Encap>)
    returns (packets': seq<Encap>, heap': seq<Encap>)
    requires Taken(heap, packets, rest)
    requires TotalSize(packets) <= bw && (packets != [] ==> DATAGRAM_OVERHEAD + TotalSize(packets) <= mtu)
    ensures Fills(mtu, bw, heap, packets', heap') && |packets'| >= |packets|
    decreases |rest|
  {
    if rest == [] {
      packets', heap' := packets, rest;
    } else if !FitsMore(mtu, bw, TotalSize(packets), rest[0]) {
      packets', heap' := packets, rest;
    } else {
      TakenMore(heap, packets, rest, 0);
      packets', heap' := FillCompletes(mtu, bw, heap, packets + [rest[0]], Without(rest, 0));
    }
  }

  ghost predicate CanBuild(tx: Tx, now: nat, bw: nat, rto: nat) {
    exists tx', d :: Builds(tx, now, bw, rto, tx', Some(d))
  }

  predicate SomeFits(tx: Tx, bw: nat) {
    exists k :: 0 <= k < |tx.heap| && FitsMore(tx.mtu, bw, 0, tx.heap[k])
  }

  lemma BuildWithFirst(tx: Tx, now: nat, bw: nat, rto: nat, k: nat) returns (tx': Tx, d: Datagram)
    requires k < |tx.heap| && FitsMore(tx.mtu, bw, 0, tx.heap[k])
    ensures Builds(tx, now, bw, rto, tx', Some(d))
  {
    TakenMore(tx.heap, [], tx.heap, k);
    assert [] + [tx.heap[k]] == [tx.heap[k]];
    var packets, heap' := FillCompletes(tx.mtu, bw, tx.heap, [tx.heap[k]], Without(tx.heap, k));
    d := DataDatagram(tx.dgramWrite, packets, heap' != []);
    tx' := tx.(heap := heap', dgramWrite := Next(tx.dgramWrite),
               slots := if HasReliable(packets)
                        then Inserted(tx.base, tx.slots, tx.dgramWrite, Tracked(d, now, now + rto)) else tx.slots);
    assert PacketsOf(Some(d)) == packets;
  }

  lemma {:induction false} FirstPacketFits(mtu: nat, bw: nat, heap: seq<Encap>, packets: seq<Encap>, heap': seq<Encap>)
    returns (k: nat)
    requires Taken(heap, packets, heap') && packets != []
    requires TotalSize(packets) <= bw && DATAGRAM_OVERHEAD + TotalSize(packets) <= mtu
    ensures k < |heap| && FitsMore(mtu, bw, 0, heap[k])
    decreases |packets|
  {
    var init := packets[..|packets| - 1];
    var heap1, j: nat :| TakenLast(heap, packets, heap1, j, heap');
    if init == [] {
      assert Taken(heap, init, heap1) && heap1 == heap;
      assert TotalSize(packets) == TotalSize(init) + heap[j].Size();
      k := j;
    } else {
      k := FirstPacketFits(mtu, bw, heap, init, heap1);
    }
  }

  /** A build can yield a datagram exactly when some queued packet fits an empty one,
      and can yield none exactly when the heap is empty or some packet does not fit. */
  lemma WhenBuilt(tx: Tx, now: nat, bw: nat, rto: nat)
    ensures CanBuild(tx, now, bw, rto) <==> SomeFits(tx, bw)
    ensures Builds(tx, now, bw, rto, tx, None) <==>
            tx.heap == [] || exists k :: 0 <= k < |tx.heap| && !FitsMore(tx.mtu, bw, 0, tx.heap[k])
  {
    if CanBuild(tx, now, bw, rto) {
      var tx', d :| Builds(tx, now, bw, rto, tx', Some(d));
      var k := FirstPacketFits(tx.mtu, bw, tx.heap, PacketsOf(Some(d)), tx'.heap);
    }
    if SomeFits(tx, bw) {
      var k :| 0 <= k < |tx.heap| && FitsMore(tx.mtu, bw, 0, tx.heap[k]);
      var tx', d := BuildWithFirst(tx, now, bw, rto, k);
    }
  }

  /** Sending the only queued packet, a reliable one that fits. */
  lemma SendOnly(tx: Tx, now: nat, bw: nat, rto: nat, e: Encap) returns (tx': Tx, d: Datagram)
    requires tx.heap == [e] && e.header.reliability.IsReliable() && FitsMore(tx.mtu, bw, 0, e)
    ensures d == DataDatagram(tx.dgramWrite, [e], false) && d.Size() == 4 + e.Size()
    ensures tx' == tx.(heap := [], dgramWrite := Next(tx.dgramWrite),
                       slots := Inserted(tx.base, tx.slots, tx.dgramWrite, Tracked(d, now, now + rto)))
    ensures Builds(tx, now, bw, rto, tx', Some(d)) && HasReliable(PacketsOf(Some(d)))
  {
    d := DataDatagram(tx.dgramWrite, [e], false);
    tx' := tx.(heap := [], dgramWrite := Next(tx.dgramWrite),
               slots := Inserted(tx.base, tx.slots, tx.dgramWrite, Tracked(d, now, now + rto)));
    TakenMore([e], [], [e], 0);
    assert [] + [e] == [e] && Without([e], 0) == [];
    assert PacketsOf(Some(d)) == [e] && [e][0] == e;
    assert [e][..0] == [];
  }

  lemma SendableFits(mtu: nat, bw: nat, e: Encap)
    requires Sendable(mtu, e) && bw + DATAGRAM_OVERHEAD >= mtu
    ensures FitsMore(mtu, bw, 0, e)
  {
  }

  /** With room for one full datagram in the congestion window, a non-empty heap always yields one. */
  lemma BuildMakesProgress(tx: Tx, now: nat, bw: nat, rto: nat, tx': Tx, out: Option<Datagram>)
    requires Builds(tx, now, bw, rto, tx', out)
    requires tx.heap != [] && AllSendable(tx.mtu, tx.heap)
    requires bw + DATAGRAM_OVERHEAD >= tx.mtu
    ensures out.Some?
  {
    if out.None? {
      var heap' := tx'.heap;
      var k :| 0 <= k < |heap'| && !FitsMore(tx.mtu, bw, 0, heap'[k]);
      SendableFits(tx.mtu, bw, heap'[k]);
      assert false;
    }
  }
}
