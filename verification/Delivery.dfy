/**
 What a receiver can deliver when everything it is handed comes from one sender's history.
 The invariant ties every buffered fragment, every heap element and every delivered packet
 to a queued message; each receiving step is shown to keep it.
*/
module Delivery {
  import opened Sequence24
  import opened Wrappers
  import opened Protocol
  import opened Sequences
  import opened Ordering
  import opened Split
  import opened Receiving
  import opened History

  /** The payloads delivered in order on channel `c`. */
  function OnChannel(pkts: seq<Encap>, c: byte): seq<Bytes> {
    if pkts == [] then []
    else
      var last := pkts[|pkts| - 1];
      OnChannel(pkts[..|pkts| - 1], c) +
      if last.header.reliability.IsOrdered() && last.orderingChannel == Some(c) then [last.payload] else []
  }

  /** `a` is `b` with some elements left out. */
  predicate Subsequence<T(==)>(a: seq<T>, b: seq<T>) {
    a == [] ||
    (b != [] &&
     ((a[|a| - 1] == b[|b| - 1] && Subsequence(a[..|a| - 1], b[..|b| - 1])) || Subsequence(a, b[..|b| - 1])))
  }

  /** An ordered packet of channel `c` that is the message at position `i` of `q`. */
  predicate AtPosition(pkt: Encap, c: byte, i: nat, q: seq<Bytes>) {
    && pkt.header.reliability.IsOrdered()
    && pkt.orderingChannel == Some(c)
    && i < |q| && pkt.payload == q[i]
  }

  ghost predicate HeapGood(h: seq<OrderedEncap>, c: byte, q: seq<Bytes>) {
    |h| <= HEAP_LIMIT && forall e :: e in h ==> AtPosition(e.pkt, c, e.index, q)
  }

  /** Channel `c` has delivered `out`, out of the queue `q`. Its read index is the position reached in `q`. */
  ghost predicate ChannelGood(rx: Rx, c: byte, q: seq<Bytes>, out: seq<Bytes>, exact: bool)
    requires |rx.orderRead| == |rx.heaps|
  {
    if c < |rx.orderRead| then
      && rx.orderRead[c] <= |q|
      && HeapGood(rx.heaps[c], c, q)
      && Subsequence(out, q[..rx.orderRead[c]])
      && (exact ==> out == q[..rx.orderRead[c]])
    else out == []
  }

  ghost predicate EntryGood(id: u16, entry: SplitEntry, msgs: seq<Message>) {
    exists k: nat, seen: set<nat> :: EntryFor(id, entry, msgs, k, seen)
  }

  ghost predicate EntryFor(id: u16, entry: SplitEntry, msgs: seq<Message>, k: nat, seen: set<nat>) {
    && k < |msgs| && IsFragmented(msgs[k])
    && msgs[k].before.splitIndex == id
    && seen != {} && !Complete(FragmentsOf(msgs[k]), seen)
    && EntryOf(entry, FragmentsOf(msgs[k]), seen)
  }

  ghost predicate EntriesGood(entries: Entries, msgs: seq<Message>) {
    forall id :: id in entries ==> EntryGood(id, entries[id], msgs)
  }

  ghost predicate AllGenuine(pkts: seq<Encap>, msgs: seq<Message>) {
    forall e :: e in pkts ==> Genuine(e, msgs)
  }

  ghost predicate HeapGenuine(h: seq<OrderedEncap>, msgs: seq<Message>) {
    forall e :: e in h ==> Genuine(e.pkt, msgs)
  }

  ghost predicate HeapsGenuine(heaps: seq<seq<OrderedEncap>>, msgs: seq<Message>) {
    forall c :: 0 <= c < |heaps| ==> HeapGenuine(heaps[c], msgs)
  }

  ghost predicate ChannelsGood(rx: Rx, msgs: seq<Message>, delivered: seq<Encap>, exact: bool)
    requires |rx.orderRead| == |rx.heaps|
  {
    forall c: byte :: ChannelGood(rx, c, Queued(msgs, c), OnChannel(delivered, c), exact)
  }

  /** Everything the receiver holds and has delivered comes from `msgs`;
      `exact` holds as long as no message has been pruned. */
  ghost predicate ReceiverGood(rx: Rx, msgs: seq<Message>, delivered: seq<Encap>, exact: bool) {
    && |rx.orderRead| == |rx.heaps|
    && Sound(rx.entries, rx.limits)
    && EntriesGood(rx.entries, msgs)
    && HeapsGenuine(rx.heaps, msgs)
    && AllGenuine(delivered, msgs)
    && ChannelsGood(rx, msgs, delivered, exact)
  }

  // ----- subsequences -----

  lemma {:induction false} SubsequenceOfLonger<T>(a: seq<T>, b: seq<T>, n: nat)
    requires n <= |b| && Subsequence(a, b[..n])
    ensures Subsequence(a, b)
    decreases |b|
  {
    if n < |b| {
      assert b[..|b| - 1][..n] == b[..n];
      SubsequenceOfLonger(a, b[..|b| - 1], n);
    } else {
      assert b[..n] == b;
    }
  }

  lemma {:induction false} OnChannelConcat(a: seq<Encap>, b: seq<Encap>, c: byte)
    ensures OnChannel(a + b, c) == OnChannel(a, c) + OnChannel(b, c)
  {
    if b == [] {
      assert a + b == a;
    } else {
      OnChannelConcat(a, b[..|b| - 1], c);
      assert (a + b)[..|a + b| - 1] == a + b[..|b| - 1];
      Regrouped(OnChannel(a, c), OnChannel(b[..|b| - 1], c), OnChannel(b[|b| - 1..], c));
    }
  }

  lemma SubsequenceSnoc<T>(a: seq<T>, b: seq<T>, x: T)
    requires Subsequence(a, b)
    ensures Subsequence(a + [x], b + [x])
  {
    assert (a + [x])[..|a|] == a && (b + [x])[..|b|] == b;
  }

  ghost predicate AllAt(ready: seq<Encap>, c: byte, start: nat, q: seq<Bytes>) {
    forall i :: 0 <= i < |ready| ==> AtPosition(ready[i], c, start + i, q)
  }

  /** Packets of one channel are delivered on no other. */
  lemma {:induction false} OneChannelOnly(ready: seq<Encap>, c: byte, start: nat, q: seq<Bytes>, d: byte)
    requires AllAt(ready, c, start, q) && d != c
    ensures OnChannel(ready, d) == []
  {
    if ready != [] {
      var init, last := ready[..|ready| - 1], ready[|ready| - 1];
      assert AtPosition(last, c, start + |init|, q);
      OneChannelOnly(init, c, start, q, d);
    }
  }

  /** Packets that are the messages at `start`, `start + 1`, ... are delivered as just those. */
  lemma {:induction false} ChannelSlice(ready: seq<Encap>, c: byte, start: nat, q: seq<Bytes>)
    requires start + |ready| <= |q| && AllAt(ready, c, start, q)
    ensures OnChannel(ready, c) == q[start..start + |ready|]
  {
    if ready != [] {
      var init, last := ready[..|ready| - 1], ready[|ready| - 1];
      var n := start + |init|;
      assert AtPosition(last, c, n, q);
      ChannelSlice(init, c, start, q);
      assert q[start..n + 1] == q[start..n] + [q[n]];
    }
  }

  lemma {:induction false} SubsequenceAppend<T>(a: seq<T>, b: seq<T>, more: seq<T>)
    requires Subsequence(a, b)
    ensures Subsequence(a + more, b + more)
  {
    if more == [] {
      assert a + more == a && b + more == b;
    } else {
      var init, last := more[..|more| - 1], more[|more| - 1];
      SubsequenceAppend(a, b, init);
      SubsequenceSnoc(a + init, b + init, last);
      assert a + more == (a + init) + [last] && b + more == (b + init) + [last];
    }
  }

  /** ... and so extend a delivery that has reached `start`. */
  lemma DeliveryExtends(out: seq<Bytes>, ready: seq<Encap>, c: byte, start: nat, q: seq<Bytes>)
    requires start + |ready| <= |q| && AllAt(ready, c, start, q)
    requires Subsequence(out, q[..start])
    ensures Subsequence(out + OnChannel(ready, c), q[..start + |ready|])
    ensures out == q[..start] ==> out + OnChannel(ready, c) == q[..start + |ready|]
  {
    ChannelSlice(ready, c, start, q);
    SubsequenceAppend(out, q[..start], OnChannel(ready, c));
    assert q[..start + |ready|] == q[..start] + q[start..start + |ready|];
  }

  // ----- the heap of a channel -----

  /** With a read index that is a position of `q`, what is drained are the messages at the next positions. */
  lemma DrainDelivers(read: Seq24, h: seq<OrderedEncap>, ready: seq<Encap>, read': Seq24, h': seq<OrderedEncap>,
                      c: byte, q: seq<Bytes>)
    requires Popped(read, h, ready, read', h')
    requires HeapGood(h, c, q) && read <= |q| < MODULO
    ensures read' == read + |ready| <= |q|
    ensures forall i :: 0 <= i < |ready| ==> AtPosition(ready[i], c, read + i, q)
    ensures HeapGood(h', c, q)
  {
    PoppedIsConsecutive(read, h, ready, read', h');
    forall i | 0 <= i < |ready|
      ensures read + i < |q| && AtPosition(ready[i], c, read + i, q)
    {
      ReadyInRange(read, h, ready, c, q, i);
    }
    if ready != [] {
      ReadyInRange(read, h, ready, c, q, |ready| - 1);
    }
  }

  lemma {:induction false} ReadyInRange(read: Seq24, h: seq<OrderedEncap>, ready: seq<Encap>, c: byte, q: seq<Bytes>,
                                        i: nat)
    requires HeapGood(h, c, q) && read <= |q| < MODULO && i < |ready|
    requires forall j :: 0 <= j < |ready| ==> HoldsAt(read, h, j, ready[j])
    ensures read + i < |q| && AtPosition(ready[i], c, read + i, q)
  {
    if i > 0 {
      ReadyInRange(read, h, ready, c, q, i - 1);
    }
    assert HoldsAt(read, h, i, ready[i]);
    var k :| 0 <= k < |h| && h[k].pkt == ready[i] && DistanceTo(read, h[k].index) == i;
    assert h[k] in h;
  }

  // ----- an ordered packet reaches its channel -----

  lemma OrderedDelivery(rx: Rx, pkt: Encap, rx': Rx, ready: seq<Encap>, msgs: seq<Message>, delivered: seq<Encap>,
                        exact: bool)
    requires Consistent(msgs) && ReceiverGood(rx, msgs, delivered, exact)
    requires Genuine(pkt, msgs) && pkt.header.reliability.IsOrdered()
    requires Orders(rx, pkt, rx', ready)
    ensures |rx'.orderRead| == |rx'.heaps| && ChannelsGood(rx', msgs, delivered + ready, exact)
    ensures rx'.entries == rx.entries && rx'.limits == rx.limits
  {
    if pkt.orderingChannel.None? || pkt.orderingChannel.value >= |rx.heaps| || pkt.orderingIndex.None? {
      assert delivered + ready == delivered;
    } else {
      var c, idx := pkt.orderingChannel.value, pkt.orderingIndex.value;
      var q := Queued(msgs, c);
      GenuineAtPosition(pkt, msgs, c, idx);
      assert ChannelGood(rx, c, q, OnChannel(delivered, c), exact);
      ChannelStep(rx.orderRead[c], rx.heaps[c], idx, pkt, ready, rx'.orderRead[c], rx'.heaps[c], c, q,
                  OnChannel(delivered, c));
      forall d: byte
        ensures ChannelGood(rx', d, Queued(msgs, d), OnChannel(delivered + ready, d), exact)
      {
        OnChannelConcat(delivered, ready, d);
        assert OnChannel(delivered, d) + [] == OnChannel(delivered, d);
        assert ChannelGood(rx, d, Queued(msgs, d), OnChannel(delivered, d), exact);
      }
    }
  }

  lemma GenuineAtPosition(pkt: Encap, msgs: seq<Message>, c: byte, idx: Seq24)
    requires Consistent(msgs) && Genuine(pkt, msgs) && pkt.header.reliability.IsOrdered()
    requires pkt.orderingChannel == Some(c) && pkt.orderingIndex == Some(idx)
    ensures AtPosition(pkt, c, idx, Queued(msgs, c))
    ensures |Queued(msgs, c)| < MODULO
  {
    var k: nat :| Carried(pkt, msgs, k);
    QueuedAt(msgs, k);
  }

  /** One channel takes in the message at position `idx`: nothing comes out, or the messages from `idx` on. */
  lemma ChannelStep(read: Seq24, h: seq<OrderedEncap>, idx: Seq24, pkt: Encap, ready: seq<Encap>,
                    read': Seq24, h': seq<OrderedEncap>, c: byte, q: seq<Bytes>, out: seq<Bytes>)
    requires Offered(read, h, idx, pkt, ready, read', h')
    requires AtPosition(pkt, c, idx, q) && HeapGood(h, c, q) && read <= |q| < MODULO
    requires Subsequence(out, q[..read])
    ensures read' <= |q| && HeapGood(h', c, q)
    ensures Subsequence(out + OnChannel(ready, c), q[..read'])
    ensures out == q[..read] ==> out + OnChannel(ready, c) == q[..read']
    ensures forall d: byte :: d != c ==> OnChannel(ready, d) == []
  {
    CmpIsForwardDistance(read, idx);
    if Lt(read, idx) || Gt(read, idx) {
      assert ready == [] && OnChannel(ready, c) == [] && out + [] == out;
      HeapGrows(h, OrderedEncap(idx, pkt), c, q);
    } else {
      ReleaseDelivers(read, h, pkt, ready, read', h', c, q);
      DeliveryExtends(out, ready, c, read, q);
      forall d: byte | d != c
        ensures OnChannel(ready, d) == []
      {
        OneChannelOnly(ready, c, read, q, d);
      }
    }
  }

  lemma HeapGrows(h: seq<OrderedEncap>, e: OrderedEncap, c: byte, q: seq<Bytes>)
    requires HeapGood(h, c, q) && AtPosition(e.pkt, c, e.index, q)
    ensures |h| < HEAP_LIMIT ==> HeapGood(h + [e], c, q)
  {
  }

  /** The packet waited for is released, and the messages right after it that wait on the heap. */
  lemma ReleaseDelivers(read: Seq24, h: seq<OrderedEncap>, pkt: Encap, ready: seq<Encap>,
                        read': Seq24, h': seq<OrderedEncap>, c: byte, q: seq<Bytes>)
    requires ready != [] && ready[0] == pkt && Drained(Next(read), h, ready[1..], read', h')
    requires AtPosition(pkt, c, read, q) && HeapGood(h, c, q) && |q| < MODULO
    ensures read' == read + |ready| <= |q| && HeapGood(h', c, q) && AllAt(ready, c, read, q)
  {
    var rest := ready[1..];
    DrainDelivers(Next(read), h, rest, read', h', c, q);
    forall i | 0 <= i < |ready|
      ensures AtPosition(ready[i], c, read + i, q)
    {
      if i > 0 {
        assert ready[i] == rest[i - 1];
        assert AtPosition(rest[i - 1], c, Next(read) + (i - 1), q);
      }
    }
  }

  // ----- the assembler -----

  lemma AddedTouchesOneEntry(entries: Entries, limits: Limits, pkt: Encap, now: nat, id: u16)
    requires !Carries(pkt, id)
    ensures id in Added(entries, limits, pkt, now).0 <==> id in entries
    ensures id in entries ==> Added(entries, limits, pkt, now).0[id] == entries[id]
  {
  }

  /** A fragment of message `k` meets either no entry or the entry of that same message. */
  lemma PartsSeen(entries: Entries, msgs: seq<Message>, k: nat) returns (seen: set<nat>)
    requires Consistent(msgs) && EntriesGood(entries, msgs)
    requires k < |msgs| && IsFragmented(msgs[k])
    ensures InFlight(entries, FragmentsOf(msgs[k]), seen) && !Complete(FragmentsOf(msgs[k]), seen)
    ensures seen == {} <==> FragmentsOf(msgs[k]).id !in entries
  {
    var f := FragmentsOf(msgs[k]);
    if f.id in entries {
      assert EntryGood(f.id, entries[f.id], msgs);
      var j: nat, s: set<nat> :| EntryFor(f.id, entries[f.id], msgs, j, s);
      if j < k {
        SplitIdsDistinct(msgs, j, k);
      } else if k < j {
        SplitIdsDistinct(msgs, k, j);
      }
      seen := s;
    } else {
      seen := {};
      SomeChunk(msgs[k]);
    }
  }

  lemma SomeChunk(m: Message)
    requires IsFragmented(m)
    ensures FragmentsOf(m).chunks != [] && !Complete(FragmentsOf(m), {})
  {
    var maxLen := AtLeastOneFragment(m);
    ChunksNumber(m.payload, maxLen);
    var none: set<nat> := {};
    assert 0 < |FragmentsOf(m).chunks| && 0 !in none;
  }

  function AtLeastOneFragment(m: Message): (n: nat)
    requires IsFragmented(m)
    ensures n >= 1 && FragmentsOf(m).chunks == Chunks(m.payload, n)
  {
    Sending.AtLeastOne(Sending.MaxPayloadLen(m.before.mtu, Sending.NormalizedForSplit(m.reliability), true))
  }

  /** The assembler only ever holds parts of queued messages and only ever yields queued messages. */
  lemma AddedGood(entries: Entries, limits: Limits, enc: Encap, now: nat, msgs: seq<Message>)
    requires Consistent(msgs) && Sound(entries, limits) && EntriesGood(entries, msgs)
    requires FromHistory(enc, msgs)
    ensures var (entries', r) := Added(entries, limits, enc, now);
            && Sound(entries', limits) && EntriesGood(entries', msgs)
            && (r.Ok? && r.value.Some? ==> Genuine(r.value.value, msgs))
  {
    AddedKeepsSound(entries, limits, enc, now);
    var k: nat :| PacketOf(enc, msgs, k);
    if IsFragmented(msgs[k]) {
      FragmentGood(entries, limits, enc, now, msgs, k);
    } else {
      SingleCarries(msgs, k, enc);
    }
  }

  lemma FragmentGood(entries: Entries, limits: Limits, enc: Encap, now: nat, msgs: seq<Message>, k: nat)
    requires Consistent(msgs) && Sound(entries, limits) && EntriesGood(entries, msgs)
    requires PacketOf(enc, msgs, k) && IsFragmented(msgs[k])
    ensures var (entries', r) := Added(entries, limits, enc, now);
            && EntriesGood(entries', msgs)
            && (r.Ok? && r.value.Some? ==> Genuine(r.value.value, msgs))
  {
    var f := FragmentsOf(msgs[k]);
    var i := FragmentOfMessage(msgs, k, enc);
    var seen := PartsSeen(entries, msgs, k);
    if |f.chunks| <= limits.maxParts && (f.id in entries || |entries| < limits.maxConcurrent) {
      AcceptedFragment(entries, limits, enc, now, msgs, k, i, seen);
      OtherEntriesGood(entries, limits, enc, now, msgs, f.id);
    } else {
      RefusedChangesNothing(entries, limits, enc, now);
    }
  }

  lemma AcceptedFragment(entries: Entries, limits: Limits, enc: Encap, now: nat, msgs: seq<Message>, k: nat,
                         i: nat, seen: set<nat>)
    requires Sound(entries, limits) && k < |msgs| && IsFragmented(msgs[k])
    requires var f := FragmentsOf(msgs[k]);
             && InFlight(entries, f, seen) && !Complete(f, seen) && IsFragment(enc, f, i)
             && |f.chunks| <= limits.maxParts && (seen == {} ==> |entries| < limits.maxConcurrent)
    ensures var (entries', r) := Added(entries, limits, enc, now);
            var id := FragmentsOf(msgs[k]).id;
            && (id in entries' ==> EntryGood(id, entries'[id], msgs))
            && (r.Ok? && r.value.Some? ==> Genuine(r.value.value, msgs))
  {
    var f := FragmentsOf(msgs[k]);
    var (entries', r) := Added(entries, limits, enc, now);
    FragmentStep(entries, limits, f, seen, enc, i, now);
    if Complete(f, seen + {i}) {
      WholeCarries(msgs, k, r.value.value);
      assert Carried(r.value.value, msgs, k);
    } else {
      assert EntryFor(f.id, entries'[f.id], msgs, k, seen + {i});
    }
  }

  /** A packet of another message does not disturb an entry. */
  lemma OtherEntriesGood(entries: Entries, limits: Limits, enc: Encap, now: nat, msgs: seq<Message>, id: u16)
    requires EntriesGood(entries, msgs) && Carries(enc, id)
    requires var entries' := Added(entries, limits, enc, now).0; id in entries' ==> EntryGood(id, entries'[id], msgs)
    ensures EntriesGood(Added(entries, limits, enc, now).0, msgs)
  {
    var entries' := Added(entries, limits, enc, now).0;
    forall other | other in entries'
      ensures EntryGood(other, entries'[other], msgs)
    {
      if other != id {
        AddedTouchesOneEntry(entries, limits, enc, now, other);
        assert EntryGood(other, entries[other], msgs);
      }
    }
  }

  lemma RefusedChangesNothing(entries: Entries, limits: Limits, enc: Encap, now: nat)
    requires enc.header.isSplit && enc.split.Some?
    requires enc.split.value.count > limits.maxParts ||
             (enc.split.value.id !in entries && |entries| >= limits.maxConcurrent)
    ensures Added(entries, limits, enc, now).0 == entries && Added(entries, limits, enc, now).1.Err?
  {
  }

  // ----- the steps of a receiver -----

  lemma EntriesChange(rx: Rx, entries: Entries, tracker: ReliableTracker, msgs: seq<Message>, delivered: seq<Encap>,
                      exact: bool)
    requires ReceiverGood(rx, msgs, delivered, exact)
    requires Sound(entries, rx.limits) && EntriesGood(entries, msgs)
    ensures ReceiverGood(rx.(entries := entries, tracker := tracker), msgs, delivered, exact)
  {
    var rx' := rx.(entries := entries, tracker := tracker);
    forall c: byte
      ensures ChannelGood(rx', c, Queued(msgs, c), OnChannel(delivered, c), exact)
    {
      assert ChannelGood(rx, c, Queued(msgs, c), OnChannel(delivered, c), exact);
    }
  }

  lemma PassesOn(rx: Rx, pkt: Encap, rx': Rx, ready: seq<Encap>, msgs: seq<Message>, delivered: seq<Encap>, exact: bool)
    requires Consistent(msgs) && ReceiverGood(rx, msgs, delivered, exact) && Genuine(pkt, msgs)
    requires if pkt.header.reliability.IsOrdered() then Orders(rx, pkt, rx', ready) else rx' == rx && ready == [pkt]
    ensures ReceiverGood(rx', msgs, delivered + ready, exact)
  {
    if pkt.header.reliability.IsOrdered() {
      OrderedDelivery(rx, pkt, rx', ready, msgs, delivered, exact);
      OrdersGenuine(rx, pkt, rx', ready, msgs, delivered, exact);
    } else {
      UnorderedDelivery(rx, pkt, msgs, delivered, exact);
    }
  }

  lemma HandlesKeepsGood(rx: Rx, enc: Encap, now: nat, rx': Rx, ready: seq<Encap>, accepted: bool,
                         msgs: seq<Message>, delivered: seq<Encap>, exact: bool)
    requires Consistent(msgs) && ReceiverGood(rx, msgs, delivered, exact)
    requires FromHistory(enc, msgs)
    requires Handles(rx, enc, now, rx', ready, accepted)
    ensures ReceiverGood(rx', msgs, delivered + ready, exact)
  {
    AddedGood(rx.entries, rx.limits, enc, now, msgs);
    assert delivered + [] == delivered;
    var ridx := FilterIndex(enc);
    if !(ridx.Some? && rx.tracker.HasSeen(ridx.value)) {
      var (entries', r) := Added(rx.entries, rx.limits, enc, now);
      EntriesChange(rx, entries', rx.tracker, msgs, delivered, exact);
      if r.Ok? {
        var tracker' := if ridx.Some? then rx.tracker.Seeing(ridx.value) else rx.tracker;
        EntriesChange(rx, entries', tracker', msgs, delivered, exact);
        if r.value.Some? {
          PassesOn(rx.(entries := entries', tracker := tracker'), r.value.value, rx', ready, msgs, delivered, exact);
        }
      }
    }
  }

  lemma OrdersGenuine(rx: Rx, pkt: Encap, rx': Rx, ready: seq<Encap>, msgs: seq<Message>, delivered: seq<Encap>,
                      exact: bool)
    requires ReceiverGood(rx, msgs, delivered, exact) && Genuine(pkt, msgs)
    requires Orders(rx, pkt, rx', ready)
    ensures AllGenuine(ready, msgs) && HeapsGenuine(rx'.heaps, msgs)
  {
    if pkt.orderingChannel.Some? && pkt.orderingChannel.value < |rx.heaps| && pkt.orderingIndex.Some? {
      var c, idx := pkt.orderingChannel.value, pkt.orderingIndex.value;
      assert ChannelGood(rx, c, Queued(msgs, c), OnChannel(delivered, c), exact);
      assert HeapGenuine(rx.heaps[c], msgs);
      OfferedGenuine(rx.orderRead[c], rx.heaps[c], idx, pkt, ready, rx'.orderRead[c], rx'.heaps[c], msgs);
    }
  }

  lemma OfferedGenuine(read: Seq24, h: seq<OrderedEncap>, idx: Seq24, pkt: Encap, ready: seq<Encap>,
                       read': Seq24, h': seq<OrderedEncap>, msgs: seq<Message>)
    requires Offered(read, h, idx, pkt, ready, read', h')
    requires |h| <= HEAP_LIMIT && HeapGenuine(h, msgs) && Genuine(pkt, msgs)
    ensures AllGenuine(ready, msgs) && HeapGenuine(h', msgs)
  {
    if !Lt(read, idx) && !Gt(read, idx) {
      var rest := ready[1..];
      PoppedIsConsecutive(Next(read), h, rest, read', h');
      forall e | e in ready
        ensures Genuine(e, msgs)
      {
        var i :| 0 <= i < |ready| && ready[i] == e;
        if i > 0 {
          assert HoldsAt(Next(read), h, i - 1, rest[i - 1]);
          var k :| 0 <= k < |h| && h[k].pkt == rest[i - 1];
          assert h[k] in h;
        }
      }
    }
  }

  lemma UnorderedDelivery(rx: Rx, pkt: Encap, msgs: seq<Message>, delivered: seq<Encap>, exact: bool)
    requires ReceiverGood(rx, msgs, delivered, exact) && Genuine(pkt, msgs) && !pkt.header.reliability.IsOrdered()
    ensures ReceiverGood(rx, msgs, delivered + [pkt], exact)
  {
    assert (delivered + [pkt])[..|delivered|] == delivered;
    forall c: byte
      ensures OnChannel(delivered + [pkt], c) == OnChannel(delivered, c)
    {
    }
    forall c: byte
      ensures ChannelGood(rx, c, Queued(msgs, c), OnChannel(delivered + [pkt], c), exact)
    {
      assert ChannelGood(rx, c, Queued(msgs, c), OnChannel(delivered, c), exact);
    }
  }

  lemma {:induction false} HandlesAllKeepsGood(rx: Rx, packets: seq<Encap>, now: nat, rx': Rx, ready: seq<Encap>,
                                               ok: bool, msgs: seq<Message>, delivered: seq<Encap>, exact: bool)
    requires Consistent(msgs) && ReceiverGood(rx, msgs, delivered, exact)
    requires forall e :: e in packets ==> FromHistory(e, msgs)
    requires HandlesAll(rx, packets, now, rx', ready, ok)
    ensures ReceiverGood(rx', msgs, delivered + ready, exact)
    decreases |packets|
  {
    if packets == [] {
      assert delivered + ready == delivered;
    } else {
      var init, last := packets[..|packets| - 1], packets[|packets| - 1];
      assert HandlesOneMore(rx, init, last, now, rx', ready, ok);
      var rx1, ready1, ok1 :|
        HandlesAll(rx, init, now, rx1, ready1, ok1)
        && if ok1 then HandlesLast(rx1, last, now, rx', ready1, ready, ok) else rx' == rx1 && ready == ready1 && !ok;
      HandlesAllKeepsGood(rx, init, now, rx1, ready1, ok1, msgs, delivered, exact);
      if ok1 {
        var more, accepted :| Handles(rx1, last, now, rx', more, accepted) && ready == ready1 + more;
        HandlesKeepsGood(rx1, last, now, rx', more, accepted, msgs, delivered + ready1, exact);
        Regrouped(delivered, ready1, more);
      }
    }
  }

  /** The sequence bookkeeping does not touch what is delivered. */
  lemma BookkeepingKeepsGood(rx: Rx, rx': Rx, msgs: seq<Message>, delivered: seq<Encap>, exact: bool)
    requires ReceiverGood(rx, msgs, delivered, exact)
    requires rx' == rx.(readIndex := rx'.readIndex, acks := rx'.acks, naks := rx'.naks)
    ensures ReceiverGood(rx', msgs, delivered, exact)
  {
    forall c: byte
      ensures ChannelGood(rx', c, Queued(msgs, c), OnChannel(delivered, c), exact)
    {
      assert ChannelGood(rx, c, Queued(msgs, c), OnChannel(delivered, c), exact);
    }
  }

  lemma ReceivedKeepsGood(rx: Rx, d: Datagram, now: nat, rx': Rx, ready: seq<Encap>, ok: bool,
                          msgs: seq<Message>, delivered: seq<Encap>, exact: bool)
    requires Consistent(msgs) && ReceiverGood(rx, msgs, delivered, exact)
    requires d.payload.Frames? && forall e :: e in d.payload.packets ==> FromHistory(e, msgs)
    requires Received(rx, d, now, rx', ready, ok)
    ensures ReceiverGood(rx', msgs, delivered + ready, exact)
  {
    var rx1 :| HandlesAll(rx, d.payload.packets, now, rx1, ready, ok)
               && rx' == if ok then AfterArrival(rx1, d.sequence) else rx1;
    HandlesAllKeepsGood(rx, d.payload.packets, now, rx1, ready, ok, msgs, delivered, exact);
    BookkeepingKeepsGood(rx1, rx', msgs, delivered + ready, exact);
  }

  // ----- pruning -----

  predicate PositionGood(pos: (Option<byte>, Option<Seq24>), msgs: seq<Message>) {
    pos.0.Some? && pos.1.Some? ==> pos.1.value < |Queued(msgs, pos.0.value)|
  }

  lemma EntryPositionGood(id: u16, entry: SplitEntry, msgs: seq<Message>)
    requires Consistent(msgs) && EntryGood(id, entry, msgs)
    ensures PositionGood(Split.Position(entry), msgs)
  {
    var k: nat, seen: set<nat> :| EntryFor(id, entry, msgs, k, seen);
    if msgs[k].reliability.IsOrdered() {
      QueuedAt(msgs, k);
    }
  }

  /** Skipping a dropped message may lose messages, but never reorders or repeats any. */
  lemma SkipsKeepsGood(rx: Rx, pos: (Option<byte>, Option<Seq24>), rx': Rx, msgs: seq<Message>, delivered: seq<Encap>)
    requires Consistent(msgs) && ReceiverGood(rx, msgs, delivered, false) && PositionGood(pos, msgs)
    requires Skips(rx, pos, rx')
    ensures ReceiverGood(rx', msgs, delivered, false)
  {
    if pos.0.Some? && pos.1.Some? && pos.0.value < |rx.orderRead| && rx.orderRead[pos.0.value] == pos.1.value {
      var c, idx := pos.0.value, pos.1.value;
      var q := Queued(msgs, c);
      assert ChannelGood(rx, c, q, OnChannel(delivered, c), false);
      var ready :| Drained(Next(idx), rx.heaps[c], ready, rx'.orderRead[c], rx'.heaps[c]);
      assert |q| < MODULO;
      DrainDelivers(Next(idx), rx.heaps[c], ready, rx'.orderRead[c], rx'.heaps[c], c, q);
      PoppedIsConsecutive(Next(idx), rx.heaps[c], ready, rx'.orderRead[c], rx'.heaps[c]);
      assert q[..rx'.orderRead[c]][..rx.orderRead[c]] == q[..rx.orderRead[c]];
      SubsequenceOfLonger(OnChannel(delivered, c), q[..rx'.orderRead[c]], rx.orderRead[c]);
      assert HeapGenuine(rx.heaps[c], msgs);
      forall d: byte
        ensures ChannelGood(rx', d, Queued(msgs, d), OnChannel(delivered, d), false)
      {
        assert ChannelGood(rx, d, Queued(msgs, d), OnChannel(delivered, d), false);
      }
    }
  }

  lemma {:induction false} SkipsAllKeepsGood(rx: Rx, positions: seq<(Option<byte>, Option<Seq24>)>, rx': Rx,
                                             msgs: seq<Message>, delivered: seq<Encap>)
    requires Consistent(msgs) && ReceiverGood(rx, msgs, delivered, false)
    requires forall i :: 0 <= i < |positions| ==> PositionGood(positions[i], msgs)
    requires SkipsAll(rx, positions, rx')
    ensures ReceiverGood(rx', msgs, delivered, false)
    decreases |positions|
  {
    if positions != [] {
      var init, last := positions[..|positions| - 1], positions[|positions| - 1];
      assert SkipsOneMore(rx, init, last, rx');
      var rx1 :| SkipsAll(rx, init, rx1) && Skips(rx1, last, rx');
      SkipsAllKeepsGood(rx, init, rx1, msgs, delivered);
      SkipsKeepsGood(rx1, last, rx', msgs, delivered);
    }
  }

  lemma Inexact(rx: Rx, msgs: seq<Message>, delivered: seq<Encap>, exact: bool)
    requires ReceiverGood(rx, msgs, delivered, exact)
    ensures ReceiverGood(rx, msgs, delivered, false)
  {
    forall c: byte
      ensures ChannelGood(rx, c, Queued(msgs, c), OnChannel(delivered, c), false)
    {
      assert ChannelGood(rx, c, Queued(msgs, c), OnChannel(delivered, c), exact);
    }
  }

  lemma RemovalKeepsGood(rx: Rx, gone: set<u16>, msgs: seq<Message>, delivered: seq<Encap>, exact: bool)
    requires ReceiverGood(rx, msgs, delivered, exact)
    ensures ReceiverGood(rx.(entries := rx.entries - gone), msgs, delivered, exact)
  {
    RemovalKeepsSound(rx.entries, rx.limits, gone);
    var rx' := rx.(entries := rx.entries - gone);
    forall id | id in rx'.entries
      ensures EntryGood(id, rx'.entries[id], msgs)
    {
      assert EntryGood(id, rx.entries[id], msgs);
    }
    forall c: byte
      ensures ChannelGood(rx', c, Queued(msgs, c), OnChannel(delivered, c), exact)
    {
      assert ChannelGood(rx, c, Queued(msgs, c), OnChannel(delivered, c), exact);
    }
  }

  lemma NothingPrunedKeepsGood(rx: Rx, rx': Rx, positions: seq<(Option<byte>, Option<Seq24>)>,
                               msgs: seq<Message>, delivered: seq<Encap>, exact: bool)
    requires ReceiverGood(rx, msgs, delivered, exact)
    requires positions == [] && SkipsAll(rx, positions, rx')
    ensures ReceiverGood(rx', msgs, delivered, exact)
  {
  }

  lemma PrunedPositionsGood(entries: Entries, ids: seq<u16>, positions: seq<(Option<byte>, Option<Seq24>)>,
                            msgs: seq<Message>)
    requires Consistent(msgs) && EntriesGood(entries, msgs)
    requires |positions| == |ids|
    requires forall i :: 0 <= i < |ids| ==> ids[i] in entries && positions[i] == Split.Position(entries[ids[i]])
    ensures forall i :: 0 <= i < |positions| ==> PositionGood(positions[i], msgs)
  {
    forall i | 0 <= i < |positions|
      ensures PositionGood(positions[i], msgs)
    {
      assert EntryGood(ids[i], entries[ids[i]], msgs);
      EntryPositionGood(ids[i], entries[ids[i]], msgs);
    }
  }

  lemma PrunedKeepsGood(rx: Rx, gone: set<u16>, rx': Rx, ids: seq<u16>, positions: seq<(Option<byte>, Option<Seq24>)>,
                        msgs: seq<Message>, delivered: seq<Encap>, exact: bool)
    requires Consistent(msgs) && ReceiverGood(rx, msgs, delivered, exact)
    requires SkipsDropped(rx.entries, rx.(entries := rx.entries - gone), rx', ids, positions)
    ensures ReceiverGood(rx', msgs, delivered, exact && ids == [])
  {
    var rx1 := rx.(entries := rx.entries - gone);
    RemovalKeepsGood(rx, gone, msgs, delivered, exact);
    if ids == [] {
      NothingPrunedKeepsGood(rx1, rx', positions, msgs, delivered, exact);
    } else {
      PrunedPositionsGood(rx.entries, ids, positions, msgs);
      Inexact(rx1, msgs, delivered, exact);
      SkipsAllKeepsGood(rx1, positions, rx', msgs, delivered);
    }
  }

  /** Pruning keeps the invariant; delivery stays exact as long as nothing expires. */
  lemma PrunesKeepsGood(rx: Rx, now: nat, rx': Rx, ids: seq<u16>, msgs: seq<Message>, delivered: seq<Encap>,
                        exact: bool)
    requires Consistent(msgs) && ReceiverGood(rx, msgs, delivered, exact)
    requires Prunes(rx, now, rx', ids)
    ensures ReceiverGood(rx', msgs, delivered, exact && ids == [])
  {
    var gone := Expired(rx.entries, rx.ttl, now);
    var positions :| SkipsDropped(rx.entries, rx.(entries := rx.entries - gone), rx', ids, positions);
    PrunedKeepsGood(rx, gone, rx', ids, positions, msgs, delivered, exact);
  }

  // ----- the history grows -----

  lemma GrowthKeepsGood(rx: Rx, msgs: seq<Message>, m: Message, delivered: seq<Encap>, exact: bool)
    requires ReceiverGood(rx, msgs, delivered, exact)
    ensures ReceiverGood(rx, msgs + [m], delivered, exact)
  {
    var msgs' := msgs + [m];
    HistoryGrows(msgs, m);
    forall id | id in rx.entries
      ensures EntryGood(id, rx.entries[id], msgs')
    {
      assert EntryGood(id, rx.entries[id], msgs);
      var k: nat, seen: set<nat> :| EntryFor(id, rx.entries[id], msgs, k, seen);
      assert msgs'[k] == msgs[k];
      assert EntryFor(id, rx.entries[id], msgs', k, seen);
    }
    forall c | 0 <= c < |rx.heaps|
      ensures HeapGenuine(rx.heaps[c], msgs')
    {
      assert HeapGenuine(rx.heaps[c], msgs);
    }
    forall c: byte
      ensures ChannelGood(rx, c, Queued(msgs', c), OnChannel(delivered, c), exact)
    {
      ChannelGrows(rx, c, Queued(msgs, c), Queued(msgs', c), OnChannel(delivered, c), exact);
    }
  }

  lemma ChannelGrows(rx: Rx, c: byte, q: seq<Bytes>, q': seq<Bytes>, out: seq<Bytes>, exact: bool)
    requires |rx.orderRead| == |rx.heaps|
    requires ChannelGood(rx, c, q, out, exact) && q <= q'
    ensures ChannelGood(rx, c, q', out, exact)
  {
    if c < |rx.orderRead| {
      assert q'[..rx.orderRead[c]] == q[..rx.orderRead[c]];
    }
  }
}
