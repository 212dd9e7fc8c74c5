/**
 What the receiving half of a session does (raknet/src/session/inbound.rs, mod.rs, tick.rs,
 reliable_tracker.rs), on values: filtering, reassembly, ordered delivery and the numbers it reports.
*/
module Receiving {
  import opened Sequence24
  import opened Wrappers
  import opened Ranges
  import opened AckQueues
  import opened GapTracking
  import opened Protocol
  import opened Ordering
  import opened Split
  import opened Packets

  // ----- the duplicate filter -----

  datatype ReliableTracker = ReliableTracker(base: Seq24, window: seq<bool>, maxWindow: nat) {
    predicate HasSeen(ridx: Seq24) {
      if ridx == base then false
      else
        var dist := DistanceTo(base, ridx);
        if dist > maxWindow then false
        else if dist - 1 < |window| then window[dist - 1]
        else false
    }

    function Seeing(ridx: Seq24): ReliableTracker {
      if ridx == base then this.(base := Next(base)).Advanced()
      else
        var dist := DistanceTo(base, ridx);
        if dist > maxWindow then this
        else
          var grown := if |window| <= dist - 1 then window + seq(dist - |window|, _ => false) else window;
          this.(window := grown[dist - 1 := true])
    }

    function Advanced(): ReliableTracker
      decreases |window|
    {
      if window != [] && window[0] then ReliableTracker(Next(base), window[1..], maxWindow).Advanced() else this
    }
  }

  // ----- the receiving state -----

  datatype Rx = Rx(
    limits: Limits,
    ttl: nat,
    entries: Entries,
    tracker: ReliableTracker,
    orderRead: seq<Seq24>,
    heaps: seq<seq<OrderedEncap>>,
    readIndex: Seq24,
    maxAcks: nat,
    maxNaks: nat,
    acks: seq<SequenceRange>,
    naks: seq<SequenceRange>)

  // ----- one encapsulated packet -----

  /** Handing an ordered packet to its channel. */
  ghost predicate Orders(rx: Rx, pkt: Encap, rx': Rx, ready: seq<Encap>) {
    if pkt.orderingChannel.None? || pkt.orderingChannel.value >= |rx.heaps| || pkt.orderingIndex.None? then
      rx' == rx && ready == []
    else
      var ch := pkt.orderingChannel.value;
      && |rx.orderRead| == |rx.heaps| == |rx'.orderRead| == |rx'.heaps|
      && rx' == rx.(orderRead := rx.orderRead[ch := rx'.orderRead[ch]], heaps := rx.heaps[ch := rx'.heaps[ch]])
      && Offered(rx.orderRead[ch], rx.heaps[ch], pkt.orderingIndex.value, pkt, ready, rx'.orderRead[ch], rx'.heaps[ch])
  }

  function FilterIndex(enc: Encap): Option<Seq24> {
    if enc.header.reliability.IsReliable() && !enc.header.isSplit then enc.reliableIndex else None
  }

  /** `handle_encapsulated` up to the packets it passes on: `ready` in order, `accepted` unless the assembler
      refuses. */
  ghost predicate Handles(rx: Rx, enc: Encap, now: nat, rx': Rx, ready: seq<Encap>, accepted: bool) {
    var ridx := FilterIndex(enc);
    if ridx.Some? && rx.tracker.HasSeen(ridx.value) then
      rx' == rx && ready == [] && accepted
    else
      var (entries', r) := Added(rx.entries, rx.limits, enc, now);
      var rx1 := rx.(entries := entries');
      if r.Err? then rx' == rx1 && ready == [] && !accepted
      else
        var rx2 := rx1.(tracker := if ridx.Some? then rx.tracker.Seeing(ridx.value) else rx.tracker);
        accepted &&
        match r.value
        case None => rx' == rx2 && ready == []
        case Some(pkt) =>
          if pkt.header.reliability.IsOrdered() then Orders(rx2, pkt, rx', ready)
          else rx' == rx2 && ready == [pkt]
  }

  /** A list of encapsulated packets, abandoned at the first error: either the assembler refused one,
      or something it released did not decode. */
  ghost predicate HandlesAll(rx: Rx, packets: seq<Encap>, now: nat, rx': Rx, ready: seq<Encap>, ok: bool)
    decreases |packets|, 0
  {
    if packets == [] then rx' == rx && ready == [] && ok
    else HandlesOneMore(rx, packets[..|packets| - 1], packets[|packets| - 1], now, rx', ready, ok)
  }

  ghost predicate HandlesOneMore(rx: Rx, packets: seq<Encap>, last: Encap, now: nat, rx': Rx, ready: seq<Encap>,
                                 ok: bool)
    decreases |packets|, 1
  {
    exists rx1, ready1, ok1 ::
      && HandlesAll(rx, packets, now, rx1, ready1, ok1)
      && if ok1 then HandlesLast(rx1, last, now, rx', ready1, ready, ok)
         else rx' == rx1 && ready == ready1 && !ok
  }

  ghost predicate HandlesLast(rx: Rx, last: Encap, now: nat, rx': Rx, before: seq<Encap>, ready: seq<Encap>, ok: bool) {
    exists more, accepted :: Handles(rx, last, now, rx', more, accepted) && ready == before + more && (ok ==> accepted)
  }

  // ----- decoding what is passed on -----

  /** What becomes of a payload: an unknown id is user data with the id byte taken off. */
  function DecodedPayload(registry: Registry, payload: Bytes): Option<RaknetPacket> {
    match registry.decode(payload)
    case Known(pkt) => Some(pkt)
    case UnknownId(id) => Some(UserData(id, if payload != [] then payload[1..] else []))
    case Undecodable => None
  }

  datatype Stream = Stream(out: seq<IncomingPacket>, acks: seq<SequenceRange>, naks: seq<SequenceRange>, ok: bool)

  function Extended(st: Stream, registry: Registry, e: Encap): Stream {
    if !st.ok then st
    else
      match DecodedPayload(registry, e.payload)
      case None => st.(ok := false)
      case Some(EncapsulatedAck(ranges)) => st.(acks := st.acks + ranges)
      case Some(EncapsulatedNak(ranges)) => st.(naks := st.naks + ranges)
      case Some(pkt) => st.(out := st.out + [IncomingPacket(pkt, e.header.reliability, e.orderingChannel)])
  }

  /** Decoding packets one after the other, up to the first that does not decode. */
  function Decodes(st: Stream, registry: Registry, ready: seq<Encap>): Stream {
    if ready == [] then st
    else Extended(Decodes(st, registry, ready[..|ready| - 1]), registry, ready[|ready| - 1])
  }

  lemma {:induction false} DecodesConcat(st: Stream, registry: Registry, a: seq<Encap>, b: seq<Encap>)
    ensures Decodes(st, registry, a + b) == Decodes(Decodes(st, registry, a), registry, b)
  {
    if b == [] {
      assert a + b == a;
    } else {
      DecodesConcat(st, registry, a, b[..|b| - 1]);
      assert (a + b)[..|a + b| - 1] == a + b[..|b| - 1];
    }
  }

  lemma DecodesSingle(st: Stream, registry: Registry, e: Encap)
    ensures Decodes(st, registry, [e]) == Extended(st, registry, e)
  {
    assert [e][..0] == [];
  }

  lemma {:induction false} DecodesStopped(st: Stream, registry: Registry, ready: seq<Encap>)
    requires !st.ok
    ensures Decodes(st, registry, ready) == st
  {
    if ready != [] {
      DecodesStopped(st, registry, ready[..|ready| - 1]);
    }
  }

  // ----- the datagram number -----

  function AfterArrival(rx: Rx, s: Seq24): Rx {
    rx.(readIndex := ReadIndexAfter(rx.readIndex, s),
        acks := Pushed(rx.acks, rx.maxAcks, Singleton(s)),
        naks := PushedAll(rx.naks, rx.maxNaks, NakChunks(rx.readIndex, Skipped(rx.readIndex, s))))
  }

  /** One data datagram: its number is noted only after its whole payload was handled without error. */
  ghost predicate Received(rx: Rx, d: Datagram, now: nat, rx': Rx, ready: seq<Encap>, ok: bool) {
    && d.payload.Frames?
    && exists rx1 ::
         HandlesAll(rx, d.payload.packets, now, rx1, ready, ok)
         && rx' == if ok then AfterArrival(rx1, d.sequence) else rx1
  }

  // ----- the tick -----

  /** Skipping one dropped position; what that releases is discarded. */
  ghost predicate Skips(rx: Rx, pos: (Option<byte>, Option<Seq24>), rx': Rx) {
    if && pos.0.Some? && pos.1.Some? && pos.0.value < |rx.orderRead| == |rx.heaps|
       && rx.orderRead[pos.0.value] == pos.1.value
    then
      var ch := pos.0.value;
      && |rx'.orderRead| == |rx'.heaps| == |rx.heaps|
      && rx' == rx.(orderRead := rx.orderRead[ch := rx'.orderRead[ch]], heaps := rx.heaps[ch := rx'.heaps[ch]])
      && exists ready :: Drained(Next(pos.1.value), rx.heaps[ch], ready, rx'.orderRead[ch], rx'.heaps[ch])
    else rx' == rx
  }

  ghost predicate SkipsAll(rx: Rx, positions: seq<(Option<byte>, Option<Seq24>)>, rx': Rx)
    decreases |positions|, 0
  {
    if positions == [] then rx' == rx
    else SkipsOneMore(rx, positions[..|positions| - 1], positions[|positions| - 1], rx')
  }

  ghost predicate SkipsOneMore(rx: Rx, positions: seq<(Option<byte>, Option<Seq24>)>,
                               last: (Option<byte>, Option<Seq24>), rx': Rx)
    decreases |positions|, 1
  {
    exists rx1 :: SkipsAll(rx, positions, rx1) && Skips(rx1, last, rx')
  }

  /** The dropped messages `ids` stood at these ordering positions, and those are skipped. */
  ghost predicate SkipsDropped(entries: Entries, rx: Rx, rx': Rx, ids: seq<u16>,
                               positions: seq<(Option<byte>, Option<Seq24>)>)
  {
    && |positions| == |ids|
    && (forall i :: 0 <= i < |ids| ==> ids[i] in entries && positions[i] == Position(entries[ids[i]]))
    && SkipsAll(rx, positions, rx')
  }

  /** Pruning expired messages, in some order, and skipping their positions. */
  ghost predicate Prunes(rx: Rx, now: nat, rx': Rx, ids: seq<u16>) {
    && Enumerates(ids, Expired(rx.entries, rx.ttl, now))
    && exists positions ::
         SkipsDropped(rx.entries, rx.(entries := rx.entries - Expired(rx.entries, rx.ttl, now)), rx', ids, positions)
  }

  /** IP and UDP headers, the record count and the flags of an ACK datagram. */
  const ACK_OVERHEAD: nat := IPV4_HEADER_SIZE + UDP_HEADER_SIZE + 2 + 1

  /** As many ranges as fit the MTU leave the queue from the front; what is sent is sorted by start. */
  ghost predicate Reports(mtu: nat, q: seq<SequenceRange>, q': seq<SequenceRange>, sent: seq<SequenceRange>) {
    exists popped ::
      q == popped + q' && sent == SortedByStart(popped) && IsPopCount(q, mtu, ACK_OVERHEAD, |popped|)
  }

  /** The datagram a report travels in, if there is anything to report. */
  function AckDatagram(sent: seq<SequenceRange>): seq<Datagram> {
    if sent == [] then [] else [Datagram(FLAGS_ACK, 0, Ack(sent))]
  }

  function NakDatagram(sent: seq<SequenceRange>): seq<Datagram> {
    if sent == [] then [] else [Datagram(FLAGS_NAK, 0, Nak(sent))]
  }

  ghost predicate TicksRx(mtu: nat, rx: Rx, now: nat, rx': Rx, ids: seq<u16>,
                          ackSent: seq<SequenceRange>, nakSent: seq<SequenceRange>)
  {
    match rx'
    case Rx(_, _, _, _, _, _, _, _, _, acks, naks) =>
      && Prunes(rx, now, rx'.(acks := rx.acks, naks := rx.naks), ids)
      && Reports(mtu, rx.acks, acks, ackSent)
      && Reports(mtu, rx.naks, naks, nakSent)
  }

  /** What is sent and what stays queued cover what was queued, and fit one datagram. */
  lemma ReportsSplitCoverage(mtu: nat, q: seq<SequenceRange>, q': seq<SequenceRange>, sent: seq<SequenceRange>,
                             s: Seq24)
    requires Reports(mtu, q, q', sent)
    ensures Covered(sent, s) || Covered(q', s) <==> Covered(q, s)
  {
    var popped :| q == popped + q' && sent == SortedByStart(popped);
    SortingKeepsCoverage(popped, s);
    PopSplitsCoverage(popped, q', s);
  }

  lemma {:induction false} RecordBounds(rs: seq<SequenceRange>)
    ensures |rs| <= TotalRecords(rs) <= 2 * |rs|
    ensures 4 * |rs| <= TotalEncodedSize(rs)
  {
    if rs != [] {
      RecordBounds(rs[..|rs| - 1]);
    }
  }

  /** A report never exceeds the record count a peer accepts. */
  lemma ReportsAreAcceptable(mtu: nat, q: seq<SequenceRange>, q': seq<SequenceRange>, sent: seq<SequenceRange>)
    requires Reports(mtu, q, q', sent) && mtu <= 2 * MAX_ACK_SEQUENCES
    ensures TotalRecords(sent) <= MAX_ACK_SEQUENCES
  {
    var popped :| q == popped + q' && sent == SortedByStart(popped) && IsPopCount(q, mtu, ACK_OVERHEAD, |popped|);
    assert q[..|popped|] == popped;
    assert |multiset(sent)| == |multiset(popped)|;
    RecordBounds(sent);
    RecordBounds(popped);
  }
}
