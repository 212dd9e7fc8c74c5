/**
 The per-peer session (raknet/src/session/mod.rs, outbound.rs, inbound.rs, tick.rs).
 `Tx()` and `Rx()` read its two halves as values; every method is proved to take the step that
 `Sending` and `Receiving` describe, and to keep the byte count of the congestion window exact.
*/
module Sessions {
  import opened Sequence24
  import opened Wrappers
  import opened Ranges
  import opened AckQueues
  import opened GapTracking
  import opened Protocol
  import opened Sequences
  import opened Ordering
  import opened Split
  import opened Sliding
  import opened SentWindow
  import opened Congestion
  import opened Packets
  import opened Sending
  import opened Receiving

  datatype Tunables = Tunables(
    maxOrderingChannels: nat,
    ackQueueCapacity: nat,
    splitTimeout: nat,
    reliableWindow: nat,
    maxSplitParts: nat,
    maxConcurrentSplits: nat,
    maxSentDatagrams: nat,
    sentDatagramTimeout: nat)

  class Session {
    const mtu: nat
    const maxSentDatagrams: nat
    const sentDatagramTimeout: nat
    const registry: Registry
    const sliding: SlidingWindow
    const splitAssembler: SplitAssembler
    const ordering: OrderingChannels
    const outgoingAcks: AckQueue
    const outgoingNaks: AckQueue

    var splitIndex: u16
    var datagramReadIndex: Seq24
    var datagramWriteIndex: Seq24
    var reliabilityWriteIndex: Seq24
    var reliableTracker: ReliableTracker
    var outgoingHeap: seq<Encap>
    var sentDatagramsBase: Seq24
    var sentDatagrams: Slots
    var incomingAcks: seq<SequenceRange>
    var incomingNaks: seq<SequenceRange>

    /** Sizes of datagrams that left the window without being acknowledged. */
    ghost var droppedBytes: nat

    ghost function Parts(): set<object> {
      {sliding, splitAssembler, ordering, outgoingAcks, outgoingNaks}
    }

    ghost function Tx(): Tx
      reads this, ordering
    {
      Sending.Tx(mtu, maxSentDatagrams, sentDatagramTimeout, splitIndex, reliabilityWriteIndex, ordering.orderWrite,
                 outgoingHeap, datagramWriteIndex, sentDatagramsBase, sentDatagrams, incomingAcks, incomingNaks)
    }

    ghost function Rx(): Rx
      reads this, splitAssembler, ordering, outgoingAcks, outgoingNaks
    {
      Receiving.Rx(splitAssembler.limits, splitAssembler.ttl, splitAssembler.entries, reliableTracker,
                   ordering.orderRead, ordering.heaps, datagramReadIndex,
                   outgoingAcks.maxRanges, outgoingNaks.maxRanges, outgoingAcks.queue, outgoingNaks.queue)
    }

    ghost predicate ValidTx()
      reads this, sliding
    {
      && sliding.Valid() && sliding.mtu == mtu
      && Numbered(sentDatagramsBase, sentDatagrams)
      && sliding.unackedBytes == TrackedBytes(sentDatagrams) + droppedBytes
    }

    ghost predicate ValidRx()
      reads splitAssembler, ordering
    {
      && outgoingAcks != outgoingNaks
      && splitAssembler.Valid()
      && ordering.Valid()
    }

    ghost predicate Valid()
      reads this, Parts()
    {
      ValidTx() && ValidRx()
    }

    constructor (mtu: nat, tunables: Tunables, registry: Registry)
      ensures Valid() && fresh(Parts())
      ensures this.mtu == mtu && this.registry == registry
      ensures Tx() == Sending.Tx(mtu, tunables.maxSentDatagrams, tunables.sentDatagramTimeout, 0, 0,
                                 seq(tunables.maxOrderingChannels, _ => 0), [], 0, 0, [], [], [])
      ensures Rx().entries == map[] && Rx().limits == Limits(tunables.maxSplitParts, tunables.maxConcurrentSplits)
      ensures Rx().ttl == (if tunables.splitTimeout == 0 then 30_000 else tunables.splitTimeout)
      ensures Rx().tracker == ReliableTracker(0, [], tunables.reliableWindow)
      ensures Rx().heaps == seq(tunables.maxOrderingChannels, _ => [])
      ensures Rx().orderRead == seq(tunables.maxOrderingChannels, _ => 0) && Rx().readIndex == 0
      ensures Rx().acks == Rx().naks == [] && Rx().maxAcks == Rx().maxNaks == tunables.ackQueueCapacity
      ensures sliding.Model() == Fresh(mtu) && droppedBytes == 0
    {
      this.mtu := mtu;
      this.maxSentDatagrams := tunables.maxSentDatagrams;
      this.sentDatagramTimeout := tunables.sentDatagramTimeout;
      this.registry := registry;
      sliding := new SlidingWindow(mtu);
      splitAssembler := new SplitAssembler(tunables.splitTimeout, tunables.maxSplitParts, tunables.maxConcurrentSplits);
      ordering := new OrderingChannels(tunables.maxOrderingChannels);
      outgoingAcks := new AckQueue(tunables.ackQueueCapacity);
      outgoingNaks := new AckQueue(tunables.ackQueueCapacity);
      splitIndex, datagramReadIndex, datagramWriteIndex, reliabilityWriteIndex := 0, 0, 0, 0;
      reliableTracker := ReliableTracker(0, [], tunables.reliableWindow);
      outgoingHeap := [];
      sentDatagramsBase, sentDatagrams := 0, [];
      incomingAcks, incomingNaks := [], [];
      droppedBytes := 0;
      new;
      assert ValidTx() && ValidRx();
    }

    // ----- queueing -----

    method QueuePacket(pkt: RaknetPacket, rel: Reliability, channel: byte) returns (added: nat)
      requires Valid()
      modifies this`outgoingHeap, this`reliabilityWriteIndex, this`splitIndex, ordering`orderWrite
      ensures Valid() && Rx() == old(Rx()) && droppedBytes == old(droppedBytes)
      ensures Tx() == if registry.encode(pkt).Some? then AfterQueue(old(Tx()), registry.encode(pkt).value, rel, channel)
                      else old(Tx())
      ensures ReliableBytes(outgoingHeap) == ReliableBytes(old(outgoingHeap)) + added
    {
      if channel >= ordering.MaxChannels() {
        return 0;
      }
      var encoded := registry.encode(pkt);
      if encoded.None? {
        return 0;
      }
      added := QueueEncoded(encoded.value, rel, channel);
    }

    method QueueEncoded(payload: Bytes, rel: Reliability, channel: byte) returns (added: nat)
      requires Valid() && channel < |ordering.orderWrite|
      modifies this`outgoingHeap, this`reliabilityWriteIndex, this`splitIndex, ordering`orderWrite
      ensures Valid() && Rx() == old(Rx())
      ensures Tx() == Enqueued(old(Tx()), payload, rel, channel)
      ensures ReliableBytes(outgoingHeap) == ReliableBytes(old(outgoingHeap)) + added
    {
      ghost var tx, rx := Tx(), Rx();
      added := Enqueue(payload, rel, channel);
      EnqueuedBytes(tx, payload, rel, channel);
      assert Rx() == rx;
      assert ValidTx() && ValidRx();
    }

    method Enqueue(payload: Bytes, rel: Reliability, channel: byte) returns (added: nat)
      requires ordering.Valid() && channel < |ordering.orderWrite|
      modifies this`outgoingHeap, this`reliabilityWriteIndex, this`splitIndex, ordering`orderWrite
      ensures ordering.Valid()
      ensures Tx() == Enqueued(old(Tx()), payload, rel, channel)
      ensures added == ReliableBytes(NewEncaps(old(Tx()), payload, rel, channel))
    {
      var maxLen := AtLeastOne(MaxPayloadLen(mtu, rel, false));
      if |payload| <= maxLen {
        added := EnqueueSingleEncap(payload, rel, channel);
      } else {
        added := EnqueueFragmentedEncaps(payload, rel, channel);
      }
    }

    static lemma EnqueuedBytes(tx: Tx, payload: Bytes, rel: Reliability, channel: byte)
      ensures ReliableBytes(Enqueued(tx, payload, rel, channel).heap) ==
              ReliableBytes(tx.heap) + ReliableBytes(NewEncaps(tx, payload, rel, channel))
    {
      ReliableBytesConcat(tx.heap, NewEncaps(tx, payload, rel, channel));
    }

    method EnqueueSingleEncap(payload: Bytes, rel: Reliability, channel: byte) returns (added: nat)
      requires ordering.Valid() && channel < |ordering.orderWrite|
      requires ChunksFor(mtu, payload, rel).None?
      modifies this`outgoingHeap, this`reliabilityWriteIndex, ordering`orderWrite
      ensures ordering.Valid()
      ensures Tx() == Enqueued(old(Tx()), payload, rel, channel)
      ensures added == ReliableBytes(NewEncaps(old(Tx()), payload, rel, channel))
    {
      var orderingIndex := None;
      if rel.IsOrdered() {
        orderingIndex := ordering.NextOrderIndex(channel);
      }
      var reliableIndex := None;
      if rel.IsReliable() {
        reliableIndex := Some(reliabilityWriteIndex);
        reliabilityWriteIndex := Next(reliabilityWriteIndex);
      }
      var encapsulated := Encap(Header(rel, false, false), BitLengthOf(payload), reliableIndex, None,
                                orderingIndex, ChannelOf(orderingIndex, channel), None, payload);
      assert encapsulated == SingleEncap(old(Tx()), payload, rel, channel);
      outgoingHeap := outgoingHeap + [encapsulated];
      ReliableBytesSnoc([], encapsulated);
      assert [] + [encapsulated] == [encapsulated];
      added := if rel.IsReliable() then encapsulated.Size() else 0;
    }

    method EnqueueFragmentedEncaps(payload: Bytes, reliability: Reliability, channel: byte) returns (added: nat)
      requires ordering.Valid() && channel < |ordering.orderWrite|
      requires ChunksFor(mtu, payload, reliability).Some?
      modifies this`outgoingHeap, this`reliabilityWriteIndex, this`splitIndex, ordering`orderWrite
      ensures ordering.Valid()
      ensures Tx() == Enqueued(old(Tx()), payload, reliability, channel)
      ensures added == ReliableBytes(NewEncaps(old(Tx()), payload, reliability, channel))
    {
      ghost var tx := Tx();
      var rel := NormalizedForSplit(reliability);
      var maxLen := AtLeastOne(MaxPayloadLen(mtu, rel, true));
      var chunks := SplitPayload(payload, maxLen);

      var splitId := splitIndex;
      splitIndex := if splitIndex == 0xFFFF then 0 else splitIndex + 1;

      var orderingIndex := None;
      if rel.IsOrdered() {
        orderingIndex := ordering.NextOrderIndex(channel);
      }
      added := EnqueueFragments(tx, rel, channel, chunks, splitId, orderingIndex);
    }

    /** The loop over the fragments. */
    method EnqueueFragments(ghost tx: Tx, rel: Reliability, channel: byte, chunks: seq<Bytes>, splitId: u16,
                            orderingIndex: Option<Seq24>) returns (added: nat)
      requires rel.IsReliable() && splitId == tx.splitIndex && orderingIndex == OrderIndex(tx, rel, channel)
      requires outgoingHeap == tx.heap && reliabilityWriteIndex == tx.reliableWrite
      modifies this`outgoingHeap, this`reliabilityWriteIndex
      ensures reliabilityWriteIndex == Steps(tx.reliableWrite, |chunks|)
      ensures outgoingHeap == tx.heap + Fragments(tx, rel, channel, chunks, |chunks|)
      ensures added == ReliableBytes(Fragments(tx, rel, channel, chunks, |chunks|))
    {
      added := 0;
      for i := 0 to |chunks|
        invariant reliabilityWriteIndex == Steps(tx.reliableWrite, i)
        invariant outgoingHeap == tx.heap + Fragments(tx, rel, channel, chunks, i)
        invariant added == ReliableBytes(Fragments(tx, rel, channel, chunks, i))
      {
        var reliableIndex := None;
        if rel.IsReliable() {
          reliableIndex := Some(reliabilityWriteIndex);
          reliabilityWriteIndex := Next(reliabilityWriteIndex);
        }
        var encapsulated := Encap(Header(rel, true, false), BitLengthOf(chunks[i]), reliableIndex, None,
                                  orderingIndex, ChannelOf(orderingIndex, channel),
                                  Some(SplitInfo(CastU32(|chunks|), splitId, CastU32(i))), chunks[i]);
        assert encapsulated == FragmentEncap(tx, rel, channel, chunks, i);
        ghost var done := Fragments(tx, rel, channel, chunks, i);
        FragmentsSnoc(tx, rel, channel, chunks, i);
        ReliableBytesSnoc(done, encapsulated);
        Regrouped(tx.heap, done, [encapsulated]);
        outgoingHeap := outgoingHeap + [encapsulated];
        if rel.IsReliable() {
          added := added + encapsulated.Size();
        }
      }
    }

    /** Cuts the payload into the announced number of pieces and leaves nothing over. */
    static method SplitPayload(payload: Bytes, maxLen: nat) returns (chunks: seq<Bytes>)
      requires maxLen >= 1 && payload != []
      ensures chunks == Chunks(payload, maxLen)
    {
      var total := |payload|;
      var parts := ((total - 1) / maxLen) + 1;
      ChunksCount(payload, maxLen);
      var rest := payload;
      chunks := [];
      for i := 0 to parts
        invariant |chunks| == i
        invariant if i < parts then rest != [] && chunks + Chunks(rest, maxLen) == Chunks(payload, maxLen)
                  else rest == [] && chunks == Chunks(payload, maxLen)
      {
        var take := if |rest| < maxLen then |rest| else maxLen;
        ghost var before := chunks;
        chunks := chunks + [rest[..take]];
        if |rest| > maxLen {
          Regrouped(before, [rest[..take]], Chunks(rest[take..], maxLen));
        } else {
          assert rest[..take] == rest;
        }
        rest := rest[take..];
      }
    }

    // ----- building data datagrams -----

    method BuildDataDatagram(now: nat) returns (out: Option<Datagram>)
      requires ValidTx()
      modifies this`outgoingHeap, this`datagramWriteIndex, this`sentDatagrams, this`droppedBytes, sliding
      ensures ValidTx()
      ensures BuildsCharging(old(Tx()), old(sliding.Model()), now, out, Tx(), sliding.Model())
      ensures ReliableBytes(old(outgoingHeap)) == ReliableBytes(outgoingHeap) + ReliableBytes(PacketsOf(out))
      ensures Lookup(old(sentDatagramsBase), old(sentDatagrams), old(datagramWriteIndex)).None? ==>
                droppedBytes == old(droppedBytes)
    {
      ghost var tx := Tx();
      var bw := sliding.Model().TransmissionBandwidth();
      ghost var rto := sliding.Model().Rto();
      if outgoingHeap == [] || bw == 0 {
        NothingFills(mtu, bw, outgoingHeap);
        BuildsNothing(tx, now, bw, rto);
        return None;
      }
      var packets := FillDatagram(bw);
      TakenFacts(tx.heap, packets, outgoingHeap);
      if packets == [] {
        assert Tx() == tx;
        BuildsNothing(tx, now, bw, rto);
        return None;
      }
      ghost var heap := outgoingHeap;
      var dgram := EmitDatagram(packets, now, rto);
      assert outgoingHeap == heap;
      BuildsDatagram(tx, now, bw, rto, Tx(), packets, dgram);
      out := Some(dgram);
    }

    static lemma BuildsNothing(tx: Tx, now: nat, bw: nat, rto: nat)
      requires Fills(tx.mtu, bw, tx.heap, [], tx.heap)
      ensures Builds(tx, now, bw, rto, tx, None)
    {
    }

    static lemma BuildsDatagram(tx: Tx, now: nat, bw: nat, rto: nat, tx': Tx, packets: seq<Encap>, dgram: Datagram)
      requires Fills(tx.mtu, bw, tx.heap, packets, tx'.heap) && packets != []
      requires dgram == DataDatagram(tx.dgramWrite, packets, tx'.heap != [])
      requires tx' == tx.(heap := tx'.heap, dgramWrite := Next(tx.dgramWrite),
                          slots := if HasReliable(packets)
                                   then Inserted(tx.base, tx.slots, tx.dgramWrite, Tracked(dgram, now, now + rto))
                                   else tx.slots)
      ensures Builds(tx, now, bw, rto, tx', Some(dgram))
    {
      assert PacketsOf(Some(dgram)) == packets;
    }

    static lemma NothingFills(mtu: nat, bw: nat, heap: seq<Encap>)
      requires heap == [] || bw == 0
      ensures Fills(mtu, bw, heap, [], heap)
    {
      if heap != [] {
        assert !FitsMore(mtu, bw, TotalSize([]), heap[0]);
      }
    }

    /** Numbers the datagram and tracks it if it holds a reliable packet. */
    method EmitDatagram(packets: seq<Encap>, now: nat, ghost rto: nat) returns (dgram: Datagram)
      requires ValidTx() && rto == sliding.Model().Rto()
      modifies this`datagramWriteIndex, this`sentDatagrams, this`droppedBytes, sliding
      ensures ValidTx()
      ensures dgram == DataDatagram(old(datagramWriteIndex), packets, outgoingHeap != [])
      ensures datagramWriteIndex == Next(old(datagramWriteIndex))
      ensures sentDatagrams == if HasReliable(packets)
                               then Inserted(sentDatagramsBase, old(sentDatagrams), old(datagramWriteIndex),
                                             Tracked(dgram, now, now + rto))
                               else old(sentDatagrams)
      ensures sliding.Model() == if HasReliable(packets) then AfterSend(old(sliding.Model()), dgram.Size())
                                 else old(sliding.Model())
      ensures droppedBytes == old(droppedBytes) +
                              if HasReliable(packets)
                              then SlotBytes(Lookup(sentDatagramsBase, old(sentDatagrams), old(datagramWriteIndex)))
                              else 0
    {
      var s := datagramWriteIndex;
      datagramWriteIndex := Next(datagramWriteIndex);
      var flags := if outgoingHeap != [] || HasSplit(packets) then FLAGS_CONTINUOUS else FLAGS_DEFAULT;
      dgram := Datagram(flags, s, Frames(packets));
      if HasReliable(packets) {
        TrackSentDatagram(dgram, s, now, rto);
      }
    }

    /** Moves packets off the top of the heap while they fit; which packet is on top is up to the heap. */
    method FillDatagram(bandwidth: nat) returns (packets: seq<Encap>)
      modifies this`outgoingHeap
      ensures Fills(mtu, bandwidth, old(outgoingHeap), packets, outgoingHeap)
    {
      packets := [];
      var currentSize := IPV4_HEADER_SIZE + UDP_HEADER_SIZE + RAKNET_DATAGRAM_HEADER_SIZE;
      var bw := bandwidth;
      while outgoingHeap != []
        invariant Taken(old(outgoingHeap), packets, outgoingHeap)
        invariant 0 <= bw == bandwidth - TotalSize(packets) && currentSize == DATAGRAM_OVERHEAD + TotalSize(packets)
        invariant packets != [] ==> currentSize <= mtu
        decreases |outgoingHeap|
      {
        var top :| 0 <= top < |outgoingHeap|;
        var pkt := outgoingHeap[top];
        var pktSize := pkt.Size();
        if bw < pktSize {
          assert !FitsMore(mtu, bandwidth, TotalSize(packets), outgoingHeap[top]);
          break;
        }
        if currentSize + pktSize > mtu {
          assert !FitsMore(mtu, bandwidth, TotalSize(packets), outgoingHeap[top]);
          break;
        }
        TakenMore(old(outgoingHeap), packets, outgoingHeap, top);
        bw := bw - pktSize;
        currentSize := currentSize + pktSize;
        packets := packets + [pkt];
        outgoingHeap := Without(outgoingHeap, top);
      }
    }

    method TrackSentDatagram(dgram: Datagram, s: Seq24, now: nat, ghost rto: nat)
      requires ValidTx() && dgram.sequence == s && dgram.payload.Frames?
      requires rto == sliding.Model().Rto()
      modifies this`sentDatagrams, this`droppedBytes, sliding
      ensures ValidTx()
      ensures sentDatagrams == Inserted(sentDatagramsBase, old(sentDatagrams), s, Tracked(dgram, now, now + rto))
      ensures sliding.Model() == AfterSend(old(sliding.Model()), dgram.Size())
      ensures droppedBytes == old(droppedBytes) + SlotBytes(Lookup(sentDatagramsBase, old(sentDatagrams), s))
    {
      var timeout := sliding.Model().Rto();
      ghost var base, slots := sentDatagramsBase, sentDatagrams;
      sliding.OnReliableSend(dgram.Size());
      FillSlot(s, Tracked(dgram, now, now + timeout));
      assert sentDatagrams == Inserted(base, slots, s, Tracked(dgram, now, now + rto));
      TrackingAccounts(base, slots, s, Tracked(dgram, now, now + rto));
      droppedBytes := droppedBytes + SlotBytes(Lookup(base, slots, s));
    }

    static lemma TrackingAccounts(base: Seq24, slots: Slots, s: Seq24, t: Tracked)
      requires Numbered(base, slots) && t.datagram.sequence == s && t.datagram.payload.Frames?
      ensures Numbered(base, Inserted(base, slots, s, t))
      ensures TrackedBytes(Inserted(base, slots, s, t)) + SlotBytes(Lookup(base, slots, s)) ==
              TrackedBytes(slots) + t.datagram.Size()
    {
      InsertedBytes(base, slots, s, t);
      InsertedNumbered(base, slots, s, t);
    }

    /** Puts the datagram in its slot, with empty slots before it where the deque is too short. */
    method FillSlot(s: Seq24, tracked: Tracked)
      modifies this`sentDatagrams
      ensures sentDatagrams == Inserted(sentDatagramsBase, old(sentDatagrams), s, tracked)
    {
      var dist := DistanceTo(sentDatagramsBase, s);
      if dist >= |sentDatagrams| {
        sentDatagrams := sentDatagrams + seq(dist + 1 - |sentDatagrams|, _ => None);
      }
      sentDatagrams := sentDatagrams[dist := Some(tracked)];
    }

    // ----- receiving -----

    method HandleAckPayload(ranges: seq<SequenceRange>)
      modifies this`incomingAcks
      ensures incomingAcks == old(incomingAcks) + ranges
    {
      incomingAcks := incomingAcks + ranges;
    }

    method HandleNackPayload(ranges: seq<SequenceRange>)
      modifies this`incomingNaks
      ensures incomingNaks == old(incomingNaks) + ranges
    {
      incomingNaks := incomingNaks + ranges;
    }

    /** Acknowledges the number and reports the gap before it, in chunks. */
    method ProcessDatagramSequence(s: Seq24)
      requires outgoingAcks != outgoingNaks
      modifies this`datagramReadIndex, outgoingAcks, outgoingNaks
      ensures Rx() == AfterArrival(old(Rx()), s)
    {
      var prev := datagramReadIndex;
      if Gt(prev, s) {
        outgoingAcks.Push(Singleton(s));
        return;
      }
      datagramReadIndex := Next(s);
      if s == prev {
        outgoingAcks.Push(Singleton(s));
        return;
      }
      ReportGap(prev, s);
      outgoingAcks.Push(Singleton(s));
    }

    method ReportGap(prev: Seq24, s: Seq24)
      requires !Gt(prev, s) && s != prev
      modifies outgoingNaks
      ensures outgoingNaks.queue == PushedAll(old(outgoingNaks.queue), outgoingNaks.maxRanges,
                                              NakChunks(prev, DistanceTo(prev, s)))
    {
      CmpIsForwardDistance(prev, s);
      var nackStart := prev;
      var nackEndInclusive := Prev(s);
      ghost var done: seq<SequenceRange> := [];
      ghost var q, all := outgoingNaks.queue, NakChunks(prev, DistanceTo(prev, s));
      assert done + all == all;
      while true
        invariant 0 < DistanceTo(nackStart, s) <= HALF
        invariant done + NakChunks(nackStart, DistanceTo(nackStart, s)) == all
        invariant outgoingNaks.queue == PushedAll(q, outgoingNaks.maxRanges, done)
        decreases DistanceTo(nackStart, s)
      {
        GapStep(done, nackStart, s, all);
        var chunkEnd := ChunkEnd(nackStart, nackEndInclusive);
        var range := SequenceRange(nackStart, chunkEnd);
        outgoingNaks.Push(range);
        PushedOneMore(q, outgoingNaks.maxRanges, done, range);
        done := done + [range];
        if chunkEnd == nackEndInclusive {
          break;
        }
        nackStart := Next(chunkEnd);
      }
    }

    /** Taking the next chunk off the gap. */
    static lemma GapStep(done: seq<SequenceRange>, start: Seq24, s: Seq24, all: seq<SequenceRange>)
      requires 0 < DistanceTo(start, s) <= HALF
      requires done + NakChunks(start, DistanceTo(start, s)) == all
      ensures var missing := DistanceTo(start, s);
              var n := if missing <= MAX_ACK_SEQUENCES then missing else MAX_ACK_SEQUENCES;
              var last := Ahead(start, n - 1);
              && DistanceTo(start, Prev(s)) == missing - 1
              && (last == Prev(s) <==> n == missing)
              && (n == missing ==> done + [SequenceRange(start, last)] == all)
              && (n < missing ==>
                    && DistanceTo(Next(last), s) == missing - n
                    && done + [SequenceRange(start, last)] + NakChunks(Next(last), missing - n) == all)
    {
      var missing := DistanceTo(start, s);
      var n := if missing <= MAX_ACK_SEQUENCES then missing else MAX_ACK_SEQUENCES;
      var last := Ahead(start, n - 1);
      assert Next(last) == Ahead(start, n);
      Regrouped(done, [SequenceRange(start, last)], NakChunks(Next(last), missing - n));
    }

    /** The end of the next chunk: at most MAX_ACK_SEQUENCES numbers, and no further than `last`. */
    static method ChunkEnd(start: Seq24, last: Seq24) returns (chunkEnd: Seq24)
      requires DistanceTo(start, last) < HALF
      ensures var missing := DistanceTo(start, last) + 1;
              chunkEnd == Ahead(start, (if missing <= MAX_ACK_SEQUENCES then missing else MAX_ACK_SEQUENCES) - 1)
    {
      chunkEnd := start;
      var count := 0;
      while count < MAX_ACK_SEQUENCES - 1 && Lt(chunkEnd, last)
        invariant count <= MAX_ACK_SEQUENCES - 1 && count <= DistanceTo(start, last)
        invariant chunkEnd == Ahead(start, count)
        decreases MAX_ACK_SEQUENCES - count
      {
        CmpIsForwardDistance(chunkEnd, last);
        chunkEnd := Next(chunkEnd);
        count := count + 1;
      }
      CmpIsForwardDistance(chunkEnd, last);
    }

    /** A payload's encapsulated packets, abandoned at the first error. `ready` is everything passed on. */
    method HandleDataPayload(packets: seq<Encap>, now: nat)
      returns (r: Result<seq<IncomingPacket>, DecodeError>, ghost ready: seq<Encap>, ghost at: nat, ghost rxAt: Rx)
      requires ValidRx()
      modifies this`reliableTracker, this`incomingAcks, this`incomingNaks, splitAssembler, ordering`orderRead,
               ordering`heaps
      ensures ValidRx()
      ensures HandlesAll(old(Rx()), packets, now, Rx(), ready, r.Ok?)
      ensures var st := Decodes(Stream([], old(incomingAcks), old(incomingNaks), true), registry, ready);
              && incomingAcks == st.acks && incomingNaks == st.naks
              && (r.Ok? ==> st.ok && r.value == st.out)
              && (r.Err? ==> if st.ok then RefusedAt(old(Rx()), packets, now, ready, at, rxAt, r.error)
                             else r.error == BadPacket)
    {
      var out := [];
      ready, at, rxAt := [], 0, Rx();
      ghost var st0 := Stream([], incomingAcks, incomingNaks, true);
      for i := 0 to |packets|
        invariant ValidRx()
        invariant HandlesAll(old(Rx()), packets[..i], now, Rx(), ready, true)
        invariant Decodes(st0, registry, ready) == Stream(out, incomingAcks, incomingNaks, true)
      {
        ghost var rx1, ready1 := Rx(), ready;
        ghost var more;
        ghost var accepted;
        var done: Result<(), DecodeError>;
        out, done, more, accepted := HandleEncapsulated(packets[i], now, out);
        ready := ready1 + more;
        DecodesConcat(st0, registry, ready1, more);
        OneMoreHandled(old(Rx()), packets, i, now, rx1, ready1, Rx(), more, accepted, done.Ok?);
        if done.Err? {
          StopsEarly(old(Rx()), packets, i + 1, now, Rx(), ready);
          return Err(done.error), ready, i, rx1;
        }
      }
      assert packets[..|packets|] == packets;
      r := Ok(out);
    }

    /** The assembler refused packet `at`, with everything before it taken in. */
    static ghost predicate RefusedAt(rx: Rx, packets: seq<Encap>, now: nat, ready: seq<Encap>, at: nat, rxAt: Rx,
                                     error: DecodeError)
    {
      && at < |packets|
      && HandlesAll(rx, packets[..at], now, rxAt, ready, true)
      && Added(rxAt.entries, rxAt.limits, packets[at], now).1 == Err(error)
    }

    static lemma OneMoreHandled(rx: Rx, packets: seq<Encap>, i: nat, now: nat, rx1: Rx, ready1: seq<Encap>,
                                rx': Rx, more: seq<Encap>, accepted: bool, ok: bool)
      requires i < |packets|
      requires HandlesAll(rx, packets[..i], now, rx1, ready1, true)
      requires Handles(rx1, packets[i], now, rx', more, accepted) && (ok ==> accepted)
      ensures HandlesAll(rx, packets[..i + 1], now, rx', ready1 + more, ok)
    {
      assert packets[..i + 1][..i] == packets[..i];
      assert HandlesLast(rx1, packets[i], now, rx', ready1, ready1 + more, ok);
      assert HandlesOneMore(rx, packets[..i], packets[i], now, rx', ready1 + more, ok);
    }

    static lemma {:induction false} StopsEarly(rx: Rx, packets: seq<Encap>, i: nat, now: nat, rx': Rx,
                                               ready: seq<Encap>)
      requires i <= |packets|
      requires HandlesAll(rx, packets[..i], now, rx', ready, false)
      ensures HandlesAll(rx, packets, now, rx', ready, false)
      decreases |packets| - i
    {
      if i == |packets| {
        assert packets[..i] == packets;
      } else {
        assert packets[..i + 1][..i] == packets[..i];
        assert HandlesOneMore(rx, packets[..i], packets[i], now, rx', ready, false);
        StopsEarly(rx, packets, i + 1, now, rx', ready);
      }
    }

    /** One encapsulated packet: filter, reassemble, order, decode. */
    method HandleEncapsulated(enc: Encap, now: nat, out0: seq<IncomingPacket>)
      returns (out: seq<IncomingPacket>, r: Result<(), DecodeError>, ghost ready: seq<Encap>, ghost accepted: bool)
      requires ValidRx()
      modifies this`reliableTracker, this`incomingAcks, this`incomingNaks, splitAssembler, ordering`orderRead,
               ordering`heaps
      ensures ValidRx()
      ensures Handles(old(Rx()), enc, now, Rx(), ready, accepted) && (r.Ok? ==> accepted)
      ensures var st := Decodes(Stream(out0, old(incomingAcks), old(incomingNaks), true), registry, ready);
              && incomingAcks == st.acks && incomingNaks == st.naks && out == st.out
              && (r.Ok? <==> accepted && st.ok)
              && (r.Err? && accepted ==> r.error == BadPacket)
      ensures !accepted ==>
              ready == [] && r == Err(Added(old(splitAssembler.entries), splitAssembler.limits, enc, now).1.error)
    {
      out, r, ready, accepted := out0, Ok(()), [], true;
      var isSplit := enc.header.isSplit;
      var ridx := if enc.header.reliability.IsReliable() && !isSplit then enc.reliableIndex else None;
      if ridx.Some? {
        if reliableTracker.HasSeen(ridx.value) {
          return;
        }
      }
      var assembled := splitAssembler.Add(enc, now);
      if assembled.Err? {
        r, accepted := Err(assembled.error), false;
        return;
      }
      if !isSplit && ridx.Some? {
        reliableTracker := reliableTracker.Seeing(ridx.value);
      }
      if assembled.value.None? {
        return;
      }
      var pkt := assembled.value.value;
      if pkt.header.reliability.IsOrdered() {
        out, r, ready := HandleOrdered(pkt, out);
      } else {
        out, r := DecodeAndPush(pkt, out);
        ready := [pkt];
        DecodesSingle(Stream(out0, old(incomingAcks), old(incomingNaks), true), registry, pkt);
      }
    }

    method HandleOrdered(pkt: Encap, out0: seq<IncomingPacket>)
      returns (out: seq<IncomingPacket>, r: Result<(), DecodeError>, ghost ready: seq<Encap>)
      requires ordering.Valid()
      modifies this`incomingAcks, this`incomingNaks, ordering`orderRead, ordering`heaps
      ensures ordering.Valid()
      ensures Orders(old(Rx()), pkt, Rx(), ready)
      ensures var st := Decodes(Stream(out0, old(incomingAcks), old(incomingNaks), true), registry, ready);
              incomingAcks == st.acks && incomingNaks == st.naks && out == st.out && (r.Ok? <==> st.ok)
      ensures r.Err? ==> r.error == BadPacket
    {
      out, r := out0, Ok(());
      var released := ordering.HandleOrdered(pkt);
      ready := if released.Some? then released.value else [];
      if released.None? {
        return;
      }
      out, r := DecodeReady(released.value, out);
    }

    /** Decodes what a channel released; an error loses the rest. */
    method DecodeReady(ready: seq<Encap>, out0: seq<IncomingPacket>)
      returns (out: seq<IncomingPacket>, r: Result<(), DecodeError>)
      modifies this`incomingAcks, this`incomingNaks
      ensures Decodes(Stream(out0, old(incomingAcks), old(incomingNaks), true), registry, ready)
           == Stream(out, incomingAcks, incomingNaks, r.Ok?)
      ensures r.Err? ==> r.error == BadPacket
    {
      out, r := out0, Ok(());
      ghost var st0 := Stream(out0, incomingAcks, incomingNaks, true);
      for i := 0 to |ready|
        invariant Decodes(st0, registry, ready[..i]) == Stream(out, incomingAcks, incomingNaks, true)
      {
        assert ready[..i + 1][..i] == ready[..i];
        out, r := DecodeAndPush(ready[i], out);
        if r.Err? {
          StopsDecoding(st0, ready, i + 1);
          return;
        }
      }
      assert ready[..|ready|] == ready;
      r := Ok(());
    }

    lemma StopsDecoding(st: Stream, ready: seq<Encap>, i: nat)
      requires i <= |ready| && !Decodes(st, registry, ready[..i]).ok
      ensures Decodes(st, registry, ready) == Decodes(st, registry, ready[..i])
    {
      DecodesConcat(st, registry, ready[..i], ready[i..]);
      DecodesStopped(Decodes(st, registry, ready[..i]), registry, ready[i..]);
      assert ready[..i] + ready[i..] == ready;
    }

    method DecodeAndPush(enc: Encap, out0: seq<IncomingPacket>)
      returns (out: seq<IncomingPacket>, r: Result<(), DecodeError>)
      modifies this`incomingAcks, this`incomingNaks
      ensures Extended(Stream(out0, old(incomingAcks), old(incomingNaks), true), registry, enc)
           == Stream(out, incomingAcks, incomingNaks, r.Ok?)
      ensures r.Err? ==> r.error == BadPacket
    {
      out, r := out0, Ok(());
      var pkt;
      match registry.decode(enc.payload) {
        case Known(known) =>
          pkt := known;
        case UnknownId(id) =>
          var body := if enc.payload != [] then enc.payload[1..] else [];
          pkt := UserData(id, body);
        case Undecodable =>
          r := Err(BadPacket);
          return;
      }
      if pkt.EncapsulatedAck? {
        incomingAcks := incomingAcks + pkt.ranges;
        return;
      }
      if pkt.EncapsulatedNak? {
        incomingNaks := incomingNaks + pkt.ranges;
        return;
      }
      out := out + [IncomingPacket(pkt, enc.header.reliability, enc.orderingChannel)];
    }

    // ----- the tick: acknowledgements -----

    method ProcessIncomingAcks(now: nat)
      requires ValidTx()
      modifies this`incomingAcks, this`sentDatagrams, this`sentDatagramsBase, this`droppedBytes, sliding
      ensures ValidTx()
      ensures Tx() == AfterAcks(old(Tx()), now)
      ensures sliding.Model() == CreditedAll(old(sliding.Model()), old(sentDatagramsBase), old(sentDatagrams),
                                             old(incomingAcks), now)
      ensures droppedBytes == old(droppedBytes) + DroppedBy(old(Tx()), now)
    {
      ghost var slots, w, acks := sentDatagrams, sliding.Model(), incomingAcks;
      ghost var done: seq<SequenceRange> := [];
      NothingAcked(sentDatagramsBase, slots, now);
      while incomingAcks != []
        modifies this`incomingAcks, this`sentDatagrams, sliding
        invariant ValidTx() && done + incomingAcks == acks
        invariant sentDatagrams == AckedSlots(sentDatagramsBase, slots, done)
        invariant sliding.Model() == CreditedAll(w, sentDatagramsBase, slots, done, now)
        decreases |incomingAcks|
      {
        done := AcknowledgeFirst(now, w, slots, done, acks);
      }
      assert done == acks;
      CleanSentDatagrams(now);
    }

    /** Takes one range off the queue. */
    method AcknowledgeFirst(now: nat, ghost w: Window, ghost slots: Slots, ghost done: seq<SequenceRange>,
                            ghost acks: seq<SequenceRange>) returns (ghost done': seq<SequenceRange>)
      requires ValidTx() && |slots| <= MODULO && w.Sane() && incomingAcks != [] && done + incomingAcks == acks
      requires sentDatagrams == AckedSlots(sentDatagramsBase, slots, done)
      requires sliding.Model() == CreditedAll(w, sentDatagramsBase, slots, done, now)
      modifies this`incomingAcks, this`sentDatagrams, sliding
      ensures ValidTx() && done' + incomingAcks == acks && |incomingAcks| < |old(incomingAcks)|
      ensures sentDatagrams == AckedSlots(sentDatagramsBase, slots, done')
      ensures sliding.Model() == CreditedAll(w, sentDatagramsBase, slots, done', now)
    {
      var range := incomingAcks[0];
      FrontMoved(done, incomingAcks);
      incomingAcks := incomingAcks[1..];
      CreditedMore(w, sentDatagramsBase, slots, done, range, now);
      AcknowledgeRange(range, now, slots, done);
      done' := done + [range];
    }

    method AcknowledgeRange(range: SequenceRange, now: nat, ghost slots: Slots, ghost done: seq<SequenceRange>)
      requires ValidTx() && |slots| <= MODULO
      requires sentDatagrams == AckedSlots(sentDatagramsBase, slots, done)
      modifies this`sentDatagrams, sliding
      ensures ValidTx()
      ensures sentDatagrams == AckedSlots(sentDatagramsBase, slots, done + [range])
      ensures sliding.Model() == CreditedUpTo(old(sliding.Model()), sentDatagramsBase, old(sentDatagrams), range.start,
                                              DistanceTo(range.start, range.end) + 1, now)
    {
      AckedWholeRange(sentDatagramsBase, slots, done, range);
      var visited := ForEachSequenceInRange(range);
      AcknowledgeVisited(visited, now, sliding.Model(), slots, done, range.start);
    }

    /** The first `n` numbers from `start` on have been acknowledged, beside those in `done`. */
    ghost predicate Acknowledging(w: Window, slots: Slots, done: seq<SequenceRange>, start: Seq24, n: nat, now: nat)
      requires w.Sane() && |slots| <= MODULO && n <= MODULO
      reads this, sliding
    {
      match sliding.Model()
      case window =>
        && ValidTx()
        && sentDatagrams == AckedUpTo(sentDatagramsBase, slots, done, start, n)
        && window == CreditedUpTo(w, sentDatagramsBase, AckedSlots(sentDatagramsBase, slots, done), start, n, now)
    }

    /** All the numbers of a range, in order. */
    method AcknowledgeVisited(visited: seq<Seq24>, now: nat, ghost w: Window, ghost slots: Slots,
                              ghost done: seq<SequenceRange>, ghost start: Seq24)
      requires w.Sane() && |slots| <= MODULO && |visited| <= MODULO
      requires forall n :: 0 <= n < |visited| ==> visited[n] == Ahead(start, n)
      requires Acknowledging(w, slots, done, start, 0, now)
      modifies this`sentDatagrams, sliding
      ensures Acknowledging(w, slots, done, start, |visited|, now)
    {
      for n := 0 to |visited|
        modifies this`sentDatagrams, sliding
        invariant Acknowledging(w, slots, done, start, n, now)
      {
        AcknowledgeNext(visited[n], now, w, slots, done, start, n);
      }
    }

    /** One number of a range, of which the first `n` are done. */
    method AcknowledgeNext(s: Seq24, now: nat, ghost w: Window, ghost slots: Slots, ghost done: seq<SequenceRange>,
                           ghost start: Seq24, ghost n: nat)
      requires |slots| <= MODULO && w.Sane() && n < MODULO && s == Ahead(start, n)
      requires Acknowledging(w, slots, done, start, n, now)
      modifies this`sentDatagrams, sliding
      ensures Acknowledging(w, slots, done, start, n + 1, now)
    {
      AckedOneMore(sentDatagramsBase, slots, done, start, n);
      NextSlotUntouched(sentDatagramsBase, slots, done, start, n);
      AcknowledgeOne(s, now);
    }

    /** Empties the slot of `s`, if it has one, and credits the congestion window. */
    method AcknowledgeOne(s: Seq24, now: nat)
      requires ValidTx()
      modifies this`sentDatagrams, sliding
      ensures ValidTx()
      ensures sentDatagrams == Cleared(sentDatagramsBase, old(sentDatagrams), s)
      ensures var slot := Lookup(sentDatagramsBase, old(sentDatagrams), s);
              sliding.Model() == Credited(old(sliding.Model()), slot, now, s)
    {
      var dist := DistanceTo(sentDatagramsBase, s);
      if dist < |sentDatagrams| {
        var taken := sentDatagrams[dist];
        SetSlotBytes(sentDatagrams, dist, None);
        sentDatagrams := sentDatagrams[dist := None];
        if taken.Some? {
          var tracked := taken.value;
          if tracked.datagram.payload.Frames? {
            AckKeepsSane(sliding.Model(), SaturatingSub(now, tracked.sendTime), tracked.datagram.Size(), s);
            sliding.OnAck(now, tracked.datagram.Size(), s, tracked.sendTime);
          }
        }
      }
    }

    method CleanSentDatagrams(now: nat)
      requires ValidTx()
      modifies this`sentDatagrams, this`sentDatagramsBase, this`droppedBytes
      ensures ValidTx()
      ensures sentDatagramsBase == CleanedBase(old(sentDatagramsBase), old(sentDatagrams), now,
                                               sentDatagramTimeout, maxSentDatagrams)
      ensures sentDatagrams == Cleaned(old(sentDatagrams), now, sentDatagramTimeout, maxSentDatagrams)
      ensures droppedBytes == old(droppedBytes) +
                TrackedBytes(
                  old(sentDatagrams)[..FrontDrop(old(sentDatagrams), now, sentDatagramTimeout, maxSentDatagrams)])
    {
      ghost var base, slots := sentDatagramsBase, sentDatagrams;
      DropFront(now);
      ghost var k := FrontDrop(slots, now, sentDatagramTimeout, maxSentDatagrams);
      while sentDatagrams != [] && sentDatagrams[|sentDatagrams| - 1].None?
        modifies this`sentDatagrams
        invariant Trimmed(sentDatagrams) == Trimmed(slots[k..])
        decreases |sentDatagrams|
      {
        sentDatagrams := sentDatagrams[..|sentDatagrams| - 1];
      }
      CleanedBytes(slots, now, sentDatagramTimeout, maxSentDatagrams);
      CleaningDropsOnlyExpiredOrOldest(base, slots, now, sentDatagramTimeout, maxSentDatagrams, 0);
      droppedBytes := droppedBytes + TrackedBytes(slots[..k]);
    }

    /** Drops empty and expired slots from the front, and then the oldest until the rest is within capacity. */
    method DropFront(now: nat)
      requires |sentDatagrams| <= MODULO
      modifies this`sentDatagrams, this`sentDatagramsBase
      ensures sentDatagramsBase == CleanedBase(old(sentDatagramsBase), old(sentDatagrams), now,
                                               sentDatagramTimeout, maxSentDatagrams)
      ensures sentDatagrams ==
              old(sentDatagrams)[FrontDrop(old(sentDatagrams), now, sentDatagramTimeout, maxSentDatagrams)..]
    {
      ghost var base, slots := sentDatagramsBase, sentDatagrams;
      ghost var dead := DropDead(now);
      DropExcess(base, slots, dead);
    }

    method DropDead(now: nat) returns (ghost k: nat)
      requires |sentDatagrams| <= MODULO
      modifies this`sentDatagrams, this`sentDatagramsBase
      ensures k == LeadingDead(old(sentDatagrams), now, sentDatagramTimeout)
      ensures sentDatagrams == old(sentDatagrams)[k..] && sentDatagramsBase == Advanced(old(sentDatagramsBase), k)
    {
      ghost var base, slots := sentDatagramsBase, sentDatagrams;
      k := 0;
      while sentDatagrams != [] && (sentDatagrams[0].None? ||
            SaturatingSub(now, sentDatagrams[0].value.sendTime) > sentDatagramTimeout)
        invariant k <= |slots| && sentDatagrams == slots[k..] && sentDatagramsBase == Advanced(base, k)
        invariant forall i :: 0 <= i < k ==> Dead(slots[i], now, sentDatagramTimeout)
        decreases |sentDatagrams|
      {
        sentDatagrams := sentDatagrams[1..];
        sentDatagramsBase := Next(sentDatagramsBase);
        k := k + 1;
      }
      LeadingDeadUnique(slots, now, sentDatagramTimeout, k);
    }

    method DropExcess(ghost base: Seq24, ghost slots: Slots, ghost dead: nat)
      requires dead <= |slots| <= MODULO
      requires sentDatagrams == slots[dead..] && sentDatagramsBase == Advanced(base, dead)
      modifies this`sentDatagrams, this`sentDatagramsBase
      ensures var k := if |slots| - dead > maxSentDatagrams then |slots| - maxSentDatagrams else dead;
              sentDatagrams == slots[k..] && sentDatagramsBase == Advanced(base, k)
    {
      ghost var k := dead;
      while |sentDatagrams| > maxSentDatagrams
        invariant dead <= k <= |slots| && sentDatagrams == slots[k..] && sentDatagramsBase == Advanced(base, k)
        invariant k == dead || |slots| - k >= maxSentDatagrams
        decreases |sentDatagrams|
      {
        sentDatagrams := sentDatagrams[1..];
        sentDatagramsBase := Next(sentDatagramsBase);
        k := k + 1;
      }
    }

    static lemma {:induction false} LeadingDeadUnique(slots: Slots, now: nat, timeout: nat, k: nat)
      requires k <= |slots| && forall i :: 0 <= i < k ==> Dead(slots[i], now, timeout)
      requires k < |slots| ==> !Dead(slots[k], now, timeout)
      ensures k == LeadingDead(slots, now, timeout)
    {
    }

    // ----- the tick: negative acknowledgements -----

    method ProcessIncomingNaks(now: nat)
      requires ValidTx()
      modifies this`incomingNaks, this`sentDatagrams, sliding
      ensures ValidTx()
      ensures Tx() == AfterNaks(old(Tx()), now)
      ensures sliding.Model() ==
              NakIf(old(sliding.Model()), HoldsOne(sentDatagramsBase, old(sentDatagrams), old(incomingNaks)))
    {
      ghost var slots, w, naks := sentDatagrams, sliding.Model(), incomingNaks;
      ghost var done: seq<SequenceRange> := [];
      NothingAcked(sentDatagramsBase, slots, now);
      NothingHeld(sentDatagramsBase, slots);
      while incomingNaks != []
        modifies this`incomingNaks, this`sentDatagrams, sliding
        invariant ValidTx() && done + incomingNaks == naks
        invariant sentDatagrams == NakedSlots(sentDatagramsBase, slots, done, now)
        invariant sliding.Model() == NakIf(w, HoldsOne(sentDatagramsBase, slots, done))
        decreases |incomingNaks|
      {
        done := HurryFirst(now, w, slots, done, naks);
      }
      assert done == naks;
    }

    /** Takes one range off the queue. */
    method HurryFirst(now: nat, ghost w: Window, ghost slots: Slots, ghost done: seq<SequenceRange>,
                      ghost naks: seq<SequenceRange>) returns (ghost done': seq<SequenceRange>)
      requires ValidTx() && |slots| <= MODULO && incomingNaks != [] && done + incomingNaks == naks
      requires sentDatagrams == NakedSlots(sentDatagramsBase, slots, done, now)
      requires sliding.Model() == NakIf(w, HoldsOne(sentDatagramsBase, slots, done))
      modifies this`incomingNaks, this`sentDatagrams, sliding
      ensures ValidTx() && done' + incomingNaks == naks && |incomingNaks| < |old(incomingNaks)|
      ensures sentDatagrams == NakedSlots(sentDatagramsBase, slots, done', now)
      ensures sliding.Model() == NakIf(w, HoldsOne(sentDatagramsBase, slots, done'))
    {
      var range := incomingNaks[0];
      FrontMoved(done, incomingNaks);
      incomingNaks := incomingNaks[1..];
      HoldsOneMore(sentDatagramsBase, slots, done, range);
      HurryRange(range, now, slots, done);
      done' := done + [range];
    }

    method HurryRange(range: SequenceRange, now: nat, ghost slots: Slots, ghost done: seq<SequenceRange>)
      requires ValidTx() && |slots| <= MODULO
      requires sentDatagrams == NakedSlots(sentDatagramsBase, slots, done, now)
      modifies this`sentDatagrams, sliding
      ensures ValidTx()
      ensures sentDatagrams == NakedSlots(sentDatagramsBase, slots, done + [range], now)
      ensures sliding.Model() == NakIf(old(sliding.Model()),
                                       HoldsUpTo(sentDatagramsBase, slots, range.start,
                                                 DistanceTo(range.start, range.end) + 1))
    {
      ghost var base, w := sentDatagramsBase, sliding.Model();
      NakedWholeRange(base, slots, done, now, range);
      var visited := ForEachSequenceInRange(range);
      for n := 0 to |visited|
        modifies this`sentDatagrams, sliding
        invariant ValidTx()
        invariant sentDatagrams == NakedUpTo(base, slots, done, now, range.start, n)
        invariant sliding.Model() == NakIf(w, HoldsUpTo(base, slots, range.start, n))
      {
        HurryNext(visited[n], now, w, slots, done, range.start, n);
      }
    }

    /** One number of a range, of which the first `n` are done. */
    method HurryNext(s: Seq24, now: nat, ghost w: Window, ghost slots: Slots, ghost done: seq<SequenceRange>,
                     ghost start: Seq24, ghost n: nat)
      requires ValidTx() && |slots| <= MODULO
      requires n < MODULO && s == Ahead(start, n)
      requires sentDatagrams == NakedUpTo(sentDatagramsBase, slots, done, now, start, n)
      requires sliding.Model() == NakIf(w, HoldsUpTo(sentDatagramsBase, slots, start, n))
      modifies this`sentDatagrams, sliding
      ensures ValidTx()
      ensures sentDatagrams == NakedUpTo(sentDatagramsBase, slots, done, now, start, n + 1)
      ensures sliding.Model() == NakIf(w, HoldsUpTo(sentDatagramsBase, slots, start, n + 1))
    {
      NakedOneMore(sentDatagramsBase, slots, done, now, start, n);
      HoldsUpToMore(sentDatagramsBase, slots, start, n);
      HurryOne(s, now);
    }

    /** Makes the datagram numbered `s`, if it is tracked, due now. */
    method HurryOne(s: Seq24, now: nat)
      requires ValidTx()
      modifies this`sentDatagrams, sliding
      ensures ValidTx()
      ensures sentDatagrams == HurriedAt(sentDatagramsBase, old(sentDatagrams), s, now)
      ensures sliding.Model() == if Lookup(sentDatagramsBase, old(sentDatagrams), s).None? then old(sliding.Model())
                                 else AfterNak(old(sliding.Model()))
    {
      var dist := DistanceTo(sentDatagramsBase, s);
      if dist < |sentDatagrams| {
        if sentDatagrams[dist].Some? {
          var tracked := sentDatagrams[dist].value;
          if tracked.datagram.payload.Frames? {
            sliding.OnNak();
            SetSlotBytes(sentDatagrams, dist, Some(tracked.(nextSend := now)));
            sentDatagrams := sentDatagrams[dist := Some(tracked.(nextSend := now))];
          }
        }
      }
    }

    // ----- the tick: retransmission -----

    /** The numbers of the due datagrams; the budget never excludes one. */
    method CollectResendableDatagrams(now: nat, bandwidth: nat) returns (toResend: seq<Seq24>)
      requires |sentDatagrams| <= MODULO && DueBytes(sentDatagrams, now) <= bandwidth
      ensures toResend == NumbersAt(sentDatagramsBase, DueIndices(sentDatagrams, now))
    {
      toResend := [];
      var bw := bandwidth;
      for i := 0 to |sentDatagrams|
        invariant bw == bandwidth - DueBytes(sentDatagrams[..i], now)
        invariant toResend == NumbersAt(sentDatagramsBase, DueIndices(sentDatagrams[..i], now))
      {
        DueBytesPrefix(sentDatagrams, now, i);
        assert sentDatagrams[..i + 1][..i] == sentDatagrams[..i];
        if sentDatagrams[i].Some? {
          var tracked := sentDatagrams[i].value;
          var dgramSize := tracked.datagram.Size();
          if tracked.nextSend <= now && bw >= dgramSize {
            bw := bw - dgramSize;
            AddDistanceInverse(sentDatagramsBase, 0, i);
            AheadIsWrap(sentDatagramsBase, i);
            toResend := toResend + [Add(sentDatagramsBase, i)];
          }
        }
      }
      assert sentDatagrams[..|sentDatagrams|] == sentDatagrams;
    }

    method ResendDatagrams(toResend: seq<Seq24>, now: nat) returns (out: seq<Datagram>)
      requires ValidTx()
      requires toResend == NumbersAt(sentDatagramsBase, DueIndices(sentDatagrams, now))
      modifies this`sentDatagrams, sliding
      ensures ValidTx()
      ensures out == DueDatagrams(old(sentDatagrams), now)
      ensures sentDatagrams == ResentSlots(old(sentDatagrams), now, old(sliding.Model()).Rto())
      ensures sliding.Model() == if out == [] then old(sliding.Model())
                                 else AfterResend(old(sliding.Model()), datagramWriteIndex)
    {
      ghost var slots := sentDatagrams;
      var rto := sliding.Model().Rto();
      out := ResendEach(toResend, now, rto);
      SameDatagramsSameBytes(slots, sentDatagrams);
      var resentAny := out != [];
      if resentAny {
        sliding.OnResend(datagramWriteIndex);
      }
    }

    method ResendEach(toResend: seq<Seq24>, now: nat, rto: nat) returns (out: seq<Datagram>)
      requires |sentDatagrams| <= MODULO
      requires toResend == NumbersAt(sentDatagramsBase, DueIndices(sentDatagrams, now))
      modifies this`sentDatagrams
      ensures out == DueDatagrams(old(sentDatagrams), now)
      ensures sentDatagrams == ResentSlots(old(sentDatagrams), now, rto)
    {
      out := [];
      ghost var slots := sentDatagrams;
      ghost var indices := DueIndices(slots, now);
      DueDatagramsAt(slots, now);
      PartlyResentIsResent(slots, now, rto);
      for j := 0 to |toResend|
        invariant sentDatagrams == PartlyResent(slots, now, rto, indices[..j])
        invariant out == DueDatagrams(slots, now)[..j]
      {
        var dist := DistanceTo(sentDatagramsBase, toResend[j]);
        assert dist == indices[j];
        PartlyResentOneMore(slots, now, rto, indices[..j], dist);
        assert indices[..j + 1] == indices[..j] + [dist];
        if dist < |sentDatagrams| {
          if sentDatagrams[dist].Some? {
            var tracked := sentDatagrams[dist].value.(sendTime := now, nextSend := now + rto);
            sentDatagrams := sentDatagrams[dist := Some(tracked)];
            out := out + [tracked.datagram];
          }
        }
      }
      assert indices[..|indices|] == indices;
    }

    /** Retransmits everything that is due, and nothing else. */
    method Retransmit(now: nat) returns (out: seq<Datagram>)
      requires ValidTx()
      modifies this`sentDatagrams, sliding
      ensures ValidTx()
      ensures out == DueDatagrams(old(sentDatagrams), now)
      ensures sentDatagrams == ResentSlots(old(sentDatagrams), now, old(sliding.Model()).Rto())
      ensures sliding.Model() == Resending(old(sliding.Model()), out != [], datagramWriteIndex)
    {
      out := [];
      var bw := sliding.Model().RetransmissionBandwidth();
      DueWithinTracked(sentDatagrams, now);
      if bw > 0 {
        var toResend := CollectResendableDatagrams(now, bw);
        out := ResendDatagrams(toResend, now);
      } else {
        NoBytesNothingDue(sentDatagrams, now);
        PartlyResentIsResent(sentDatagrams, now, sliding.Model().Rto());
      }
    }

    // ----- the tick: pruning and reports -----

    method PruneSplits(now: nat) returns (ghost ids: seq<u16>)
      requires ValidRx()
      modifies splitAssembler, ordering`orderRead, ordering`heaps
      ensures ValidRx()
      ensures Prunes(old(Rx()), now, Rx(), ids)
    {
      ghost var rx := Rx();
      var dropped;
      dropped, ids := splitAssembler.Prune(now);
      SkipAllDropped(dropped);
      PrunesBy(rx, now, Rx(), ids, dropped);
    }

    static lemma PrunesBy(rx: Rx, now: nat, rx': Rx, ids: seq<u16>, positions: seq<(Option<byte>, Option<Seq24>)>)
      requires Enumerates(ids, Expired(rx.entries, rx.ttl, now))
      requires SkipsDropped(rx.entries, rx.(entries := rx.entries - Expired(rx.entries, rx.ttl, now)), rx', ids,
                            positions)
      ensures Prunes(rx, now, rx', ids)
    {
    }

    method SkipAllDropped(dropped: seq<(Option<byte>, Option<Seq24>)>)
      requires ordering.Valid()
      modifies ordering`orderRead, ordering`heaps
      ensures ordering.Valid()
      ensures SkipsAll(old(Rx()), dropped, Rx())
    {
      for i := 0 to |dropped|
        invariant ordering.Valid()
        invariant SkipsAll(old(Rx()), dropped[..i], Rx())
      {
        ghost var rx1 := Rx();
        SkipDropped(dropped[i]);
        assert dropped[..i + 1][..i] == dropped[..i];
        assert SkipsOneMore(old(Rx()), dropped[..i], dropped[i], Rx());
      }
      assert dropped[..|dropped|] == dropped;
    }

    /** Skips the position of a dropped message; what that releases is discarded. */
    method SkipDropped(pos: (Option<byte>, Option<Seq24>))
      requires ordering.Valid()
      modifies ordering`orderRead, ordering`heaps
      ensures ordering.Valid()
      ensures Skips(old(Rx()), pos, Rx())
    {
      if pos.0.Some? && pos.1.Some? {
        var released := ordering.SkipIndex(pos.0.value, pos.1.value);
      }
    }

    method BuildAckDatagram() returns (out: seq<Datagram>, ghost sent: seq<SequenceRange>)
      modifies outgoingAcks
      ensures Reports(mtu, old(outgoingAcks.queue), outgoingAcks.queue, sent)
      ensures out == AckDatagram(sent)
    {
      var ranges := outgoingAcks.PopForMtu(mtu, IPV4_HEADER_SIZE + UDP_HEADER_SIZE + 2 + 1);
      var sorted := SortedByStart(ranges);
      sent := sorted;
      if ranges == [] {
        return [], sent;
      }
      assert |multiset(sorted)| == |multiset(ranges)|;
      out := [Datagram(FLAGS_ACK, 0, Ack(sorted))];
    }

    method BuildNakDatagram() returns (out: seq<Datagram>, ghost sent: seq<SequenceRange>)
      modifies outgoingNaks
      ensures Reports(mtu, old(outgoingNaks.queue), outgoingNaks.queue, sent)
      ensures out == NakDatagram(sent)
    {
      var ranges := outgoingNaks.PopForMtu(mtu, IPV4_HEADER_SIZE + UDP_HEADER_SIZE + 2 + 1);
      var sorted := SortedByStart(ranges);
      sent := sorted;
      if ranges == [] {
        return [], sent;
      }
      assert |multiset(sorted)| == |multiset(ranges)|;
      out := [Datagram(FLAGS_NAK, 0, Nak(sorted))];
    }

    /** Periodic maintenance: apply ACKs and NAKs, prune, retransmit, report. */
    method OnTick(now: nat)
      returns (out: seq<Datagram>, ghost rto: nat, ghost ids: seq<u16>,
               ghost ackSent: seq<SequenceRange>, ghost nakSent: seq<SequenceRange>)
      requires Valid()
      modifies this`incomingAcks, this`incomingNaks, this`sentDatagrams, this`sentDatagramsBase, this`droppedBytes
      modifies sliding, splitAssembler, ordering, outgoingAcks, outgoingNaks
      ensures Valid()
      ensures CC_ADDITIONAL_VARIANCE <= rto <= CC_MAXIMUM_THRESHOLD
      ensures var tx := AfterNaks(AfterAcks(old(Tx()), now), now);
              var w := BeforeResends(old(sliding.Model()), old(Tx()), now);
              && rto == w.Rto()
              && Tx() == AfterResends(tx, now, rto)
              && sliding.Model() == Resending(w, DueDatagrams(tx.slots, now) != [], datagramWriteIndex)
              && out == DueDatagrams(tx.slots, now) + AckDatagram(ackSent) + NakDatagram(nakSent)
      ensures droppedBytes == old(droppedBytes) + DroppedBy(old(Tx()), now)
      ensures TicksRx(mtu, old(Rx()), now, Rx(), ids, ackSent, nakSent)
    {
      ghost var rx := Rx();
      var resent;
      resent, rto, ids := Maintain(now);
      ghost var pruned := Rx();
      var reports;
      reports, ackSent, nakSent := BuildReports();
      out := resent + reports;
      Regrouped(resent, AckDatagram(ackSent), NakDatagram(nakSent));
      TicksBy(mtu, rx, now, pruned, Rx(), ids, ackSent, nakSent);
    }

    /** The tick up to the reports. */
    method Maintain(now: nat) returns (resent: seq<Datagram>, ghost rto: nat, ghost ids: seq<u16>)
      requires Valid()
      modifies this`incomingAcks, this`incomingNaks, this`sentDatagrams, this`sentDatagramsBase, this`droppedBytes
      modifies sliding, splitAssembler, ordering`orderRead, ordering`heaps
      ensures Valid()
      ensures CC_ADDITIONAL_VARIANCE <= rto <= CC_MAXIMUM_THRESHOLD
      ensures var tx := AfterNaks(AfterAcks(old(Tx()), now), now);
              var w := BeforeResends(old(sliding.Model()), old(Tx()), now);
              && rto == w.Rto()
              && Tx() == AfterResends(tx, now, rto) && resent == DueDatagrams(tx.slots, now)
              && sliding.Model() == Resending(w, resent != [], datagramWriteIndex)
      ensures droppedBytes == old(droppedBytes) + DroppedBy(old(Tx()), now)
      ensures Prunes(old(Rx()), now, Rx(), ids)
    {
      ghost var tx, rx := AfterNaks(AfterAcks(Tx(), now), now), Rx();
      ProcessIncomingAcksNaks(now);
      assert Tx() == tx && Rx() == rx;
      ids := PruneSplits(now);
      ghost var pruned := Rx();
      assert Tx() == tx;
      rto := sliding.Model().Rto();
      RtoBounds(sliding.Model());
      resent := Retransmit(now);
      assert Rx() == pruned;
    }

    static lemma TicksBy(mtu: nat, rx: Rx, now: nat, pruned: Rx, rx': Rx, ids: seq<u16>,
                         ackSent: seq<SequenceRange>, nakSent: seq<SequenceRange>)
      requires Prunes(rx, now, pruned, ids)
      requires pruned.acks == rx.acks && pruned.naks == rx.naks
      requires rx' == pruned.(acks := rx'.acks, naks := rx'.naks)
      requires Reports(mtu, rx.acks, rx'.acks, ackSent) && Reports(mtu, rx.naks, rx'.naks, nakSent)
      ensures TicksRx(mtu, rx, now, rx', ids, ackSent, nakSent)
    {
      assert rx'.(acks := rx.acks, naks := rx.naks) == pruned;
    }

    method ProcessIncomingAcksNaks(now: nat)
      requires ValidTx()
      modifies this`incomingAcks, this`incomingNaks, this`sentDatagrams, this`sentDatagramsBase, this`droppedBytes,
               sliding
      ensures ValidTx()
      ensures Tx() == AfterNaks(AfterAcks(old(Tx()), now), now)
      ensures sliding.Model() == BeforeResends(old(sliding.Model()), old(Tx()), now)
      ensures droppedBytes == old(droppedBytes) + DroppedBy(old(Tx()), now)
    {
      ProcessIncomingAcks(now);
      ProcessIncomingNaks(now);
    }

    method BuildReports()
      returns (out: seq<Datagram>, ghost ackSent: seq<SequenceRange>, ghost nakSent: seq<SequenceRange>)
      requires outgoingAcks != outgoingNaks
      modifies outgoingAcks, outgoingNaks
      ensures out == AckDatagram(ackSent) + NakDatagram(nakSent)
      ensures Reports(mtu, old(outgoingAcks.queue), outgoingAcks.queue, ackSent)
      ensures Reports(mtu, old(outgoingNaks.queue), outgoingNaks.queue, nakSent)
    {
      var acks, naks;
      acks, ackSent := BuildAckDatagram();
      naks, nakSent := BuildNakDatagram();
      out := acks + naks;
    }
  }
}
