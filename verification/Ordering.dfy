/** Per-channel ordered delivery (raknet/src/session/ordering_channels.rs). */
module Ordering {
  import opened Sequence24
  import opened Wrappers
  import opened Protocol
  import opened Sequences

  datatype OrderedEncap = OrderedEncap(index: Seq24, pkt: Encap)

  const HEAP_LIMIT: nat := 2048

  // ----- the heap of one channel -----

  /** All indices lie in the half circle that begins at `b`; there the comparison is a linear order. */
  ghost predicate Linear(h: seq<OrderedEncap>, b: Seq24) {
    forall i :: 0 <= i < |h| ==> DistanceTo(b, h[i].index) < HALF
  }

  /** What a binary min-heap promises of its top: least, provided the order is linear on its elements. */
  ghost predicate IsTop(h: seq<OrderedEncap>, k: nat) {
    k < |h| && forall b: Seq24 :: Linear(h, b) ==> forall j :: 0 <= j < |h| ==> !Gt(h[k].index, h[j].index)
  }

  method PeekTop(h: seq<OrderedEncap>) returns (k: nat)
    requires h != []
    ensures IsTop(h, k)
  {
    k := 0;
    for j := 1 to |h|
      invariant k < j
      invariant forall b: Seq24 :: Linear(h, b) ==> forall i :: 0 <= i < j ==> !Gt(h[k].index, h[i].index)
    {
      var better := Gt(h[k].index, h[j].index);
      forall b: Seq24, i | Linear(h, b) && 0 <= i <= j
        ensures !Gt(h[if better then j else k].index, h[i].index)
      {
        WindowOrder(b, h[k].index, h[j].index);
        WindowOrder(b, h[k].index, h[i].index);
        WindowOrder(b, h[j].index, h[i].index);
      }
      if better {
        k := j;
      }
    }
  }

  // ----- specification of one channel -----

  /** Popping the packets `ready` off the heap, each one while its index is the read index. */
  ghost predicate Popped(read: Seq24, h: seq<OrderedEncap>, ready: seq<Encap>, read': Seq24, h': seq<OrderedEncap>)
    decreases |ready|
  {
    if ready == [] then read' == read && h' == h
    else
      exists read1, h1, k: nat ::
        && Popped(read, h, ready[..|ready| - 1], read1, h1)
        && IsTop(h1, k)
        && h1[k] == OrderedEncap(read1, ready[|ready| - 1])
        && h' == Without(h1, k)
        && read' == Next(read1)
  }

  /** The drain loop: pop until the top is not the packet waited for. */
  ghost predicate Drained(read: Seq24, h: seq<OrderedEncap>, ready: seq<Encap>, read': Seq24, h': seq<OrderedEncap>) {
    && Popped(read, h, ready, read', h')
    && (h' == [] || exists k: nat :: IsTop(h', k) && h'[k].index != read')
  }

  /** Offering the packet `enc` with ordering index `idx` to a channel. */
  ghost predicate Offered(read: Seq24, h: seq<OrderedEncap>, idx: Seq24, enc: Encap,
                          ready: seq<Encap>, read': Seq24, h': seq<OrderedEncap>)
  {
    if Lt(read, idx) then
      && ready == []
      && read' == read
      && h' == if |h| >= HEAP_LIMIT then h else h + [OrderedEncap(idx, enc)]
    else if Gt(read, idx) then
      ready == [] && read' == read && h' == h
    else
      ready != [] && ready[0] == enc && Drained(Next(read), h, ready[1..], read', h')
  }

  // ----- the channels object -----

  class OrderingChannels {
    var orderRead: seq<Seq24>
    var orderWrite: seq<Seq24>
    var heaps: seq<seq<OrderedEncap>>

    ghost predicate Valid()
      reads this
    {
      |orderRead| == |orderWrite| == |heaps|
    }

    constructor (maxChannels: nat)
      ensures Valid()
      ensures |orderRead| == maxChannels
      ensures forall c :: 0 <= c < maxChannels ==> orderRead[c] == orderWrite[c] == 0 && heaps[c] == []
    {
      orderRead := seq(maxChannels, _ => 0);
      orderWrite := seq(maxChannels, _ => 0);
      heaps := seq(maxChannels, _ => []);
    }

    function MaxChannels(): nat
      reads this
    {
      |orderRead|
    }

    method NextOrderIndex(channel: byte) returns (idx: Option<Seq24>)
      requires Valid()
      modifies this`orderWrite
      ensures Valid()
      ensures channel >= |orderWrite| ==> idx == None && orderWrite == old(orderWrite)
      ensures channel < |orderWrite| ==>
                && idx == Some(old(orderWrite[channel]))
                && orderWrite == old(orderWrite)[channel := Next(old(orderWrite[channel]))]
    {
      if channel >= |orderWrite| {
        return None;
      }
      idx := Some(orderWrite[channel]);
      orderWrite := orderWrite[channel := Next(orderWrite[channel])];
    }

    /** The loop shared by `HandleOrdered` and `SkipIndex`. */
    method Drain(ch: nat) returns (ready: seq<Encap>)
      requires Valid() && ch < |heaps|
      modifies this`orderRead, this`heaps
      ensures Valid()
      ensures orderRead == old(orderRead)[ch := orderRead[ch]] && heaps == old(heaps)[ch := heaps[ch]]
      ensures Drained(old(orderRead[ch]), old(heaps[ch]), ready, orderRead[ch], heaps[ch])
    {
      ready := [];
      while heaps[ch] != []
        invariant Valid() && |heaps| == |old(heaps)|
        invariant orderRead == old(orderRead)[ch := orderRead[ch]] && heaps == old(heaps)[ch := heaps[ch]]
        invariant Popped(old(orderRead[ch]), old(heaps[ch]), ready, orderRead[ch], heaps[ch])
        decreases |heaps[ch]|
      {
        var k := PeekTop(heaps[ch]);
        if heaps[ch][k].index != orderRead[ch] {
          break;
        }
        var pkt := heaps[ch][k].pkt;
        PoppedMore(old(orderRead[ch]), old(heaps[ch]), ready, orderRead[ch], heaps[ch], k);
        heaps := heaps[ch := Without(heaps[ch], k)];
        orderRead := orderRead[ch := Next(orderRead[ch])];
        ready := ready + [pkt];
      }
    }

    method SkipIndex(channel: byte, index: Seq24) returns (ready: Option<seq<Encap>>)
      requires Valid()
      modifies this`orderRead, this`heaps
      ensures Valid()
      ensures ready.None? <==> channel >= |orderRead| || old(orderRead[channel]) != index
      ensures ready.None? ==> orderRead == old(orderRead) && heaps == old(heaps)
      ensures ready.Some? ==>
                && orderRead == old(orderRead)[channel := orderRead[channel]]
                && heaps == old(heaps)[channel := heaps[channel]]
                && Drained(Next(index), old(heaps[channel]), ready.value, orderRead[channel], heaps[channel])
    {
      if channel >= |orderRead| {
        return None;
      }
      if orderRead[channel] != index {
        return None;
      }
      orderRead := orderRead[channel := Next(orderRead[channel])];
      var drained := Drain(channel);
      ready := Some(drained);
    }

    method HandleOrdered(enc: Encap) returns (ready: Option<seq<Encap>>)
      requires Valid()
      modifies this`orderRead, this`heaps
      ensures Valid()
      ensures ready.None? <==>
              enc.orderingChannel.None? || enc.orderingChannel.value >= |heaps| || enc.orderingIndex.None?
      ensures ready.None? ==> orderRead == old(orderRead) && heaps == old(heaps)
      ensures ready.Some? ==>
                var ch := enc.orderingChannel.value;
                && orderRead == old(orderRead)[ch := orderRead[ch]]
                && heaps == old(heaps)[ch := heaps[ch]]
                && Offered(old(orderRead[ch]), old(heaps[ch]), enc.orderingIndex.value, enc,
                           ready.value, orderRead[ch], heaps[ch])
    {
      if enc.orderingChannel.None? {
        return None;
      }
      var ch := enc.orderingChannel.value;
      if ch >= |heaps| || enc.orderingIndex.None? {
        return None;
      }
      var idx := enc.orderingIndex.value;
      if Lt(orderRead[ch], idx) {
        if |heaps[ch]| >= HEAP_LIMIT {
          return Some([]);
        }
        heaps := heaps[ch := heaps[ch] + [OrderedEncap(idx, enc)]];
        return Some([]);
      } else if Gt(orderRead[ch], idx) {
        return Some([]);
      }
      orderRead := orderRead[ch := Next(orderRead[ch])];
      var drained := Drain(ch);
      assert ([enc] + drained)[1..] == drained;
      ready := Some([enc] + drained);
    }
  }

  /** A packet ahead of the one waited for is buffered, if there is room. */
  lemma BufferedAhead(read: Seq24, h: seq<OrderedEncap>, idx: Seq24, enc: Encap,
                      ready: seq<Encap>, read': Seq24, h': seq<OrderedEncap>)
    requires Offered(read, h, idx, enc, ready, read', h') && Lt(read, idx) && |h| < HEAP_LIMIT
    ensures ready == [] && read' == read && h' == h + [OrderedEncap(idx, enc)]
  {
  }

  // ----- safety: what is released carries consecutive indices -----

  /** `h` holds `pkt` with the index `i` steps after `read`. */
  ghost predicate HoldsAt(read: Seq24, h: seq<OrderedEncap>, i: nat, pkt: Encap) {
    exists k :: 0 <= k < |h| && h[k].pkt == pkt && DistanceTo(read, h[k].index) == i
  }

  lemma PoppedMore(read: Seq24, h: seq<OrderedEncap>, ready: seq<Encap>, read1: Seq24, h1: seq<OrderedEncap>, k: nat)
    requires Popped(read, h, ready, read1, h1) && IsTop(h1, k) && h1[k].index == read1
    ensures Popped(read, h, ready + [h1[k].pkt], Next(read1), Without(h1, k))
  {
    var more := ready + [h1[k].pkt];
    assert more[..|more| - 1] == ready;
    assert h1[k] == OrderedEncap(read1, more[|more| - 1]);
  }

  /** The state before the last pop. */
  lemma LastPopped(read: Seq24, h: seq<OrderedEncap>, ready: seq<Encap>, read': Seq24, h': seq<OrderedEncap>)
    returns (read1: Seq24, h1: seq<OrderedEncap>, k: nat)
    requires Popped(read, h, ready, read', h') && ready != []
    ensures Popped(read, h, ready[..|ready| - 1], read1, h1)
    ensures IsTop(h1, k) && h1[k] == OrderedEncap(read1, ready[|ready| - 1])
    ensures h' == Without(h1, k) && read' == Next(read1)
  {
    read1, h1, k :|
      Popped(read, h, ready[..|ready| - 1], read1, h1) && IsTop(h1, k)
      && h1[k] == OrderedEncap(read1, ready[|ready| - 1]) && h' == Without(h1, k) && read' == Next(read1);
  }

  /** The last pop takes one element out, whichever it is. */
  lemma LastRemoval(read: Seq24, h: seq<OrderedEncap>, ready: seq<Encap>, read': Seq24, h': seq<OrderedEncap>)
    returns (read1: Seq24, h1: seq<OrderedEncap>, k: nat)
    requires Popped(read, h, ready, read', h') && ready != []
    ensures Popped(read, h, ready[..|ready| - 1], read1, h1)
    ensures k < |h1| && h1[k] == OrderedEncap(read1, ready[|ready| - 1])
    ensures h' == Without(h1, k) && read' == Next(read1)
    ensures |h'| + 1 == |h1| && h1[k] in h1
    ensures forall e :: e in h' ==> e in h1
  {
    read1, h1, k := LastPopped(read, h, ready, read', h');
    WithoutMembers(h1, k);
  }

  /** Element `e` of the heap is still there, or it is the packet popped at its index. */
  ghost predicate AccountedFor(read: Seq24, ready: seq<Encap>, h': seq<OrderedEncap>, e: OrderedEncap) {
    e in h' || (DistanceTo(read, e.index) < |ready| && ready[DistanceTo(read, e.index)] == e.pkt)
  }

  lemma {:induction false} PoppedCounts(read: Seq24, h: seq<OrderedEncap>, ready: seq<Encap>,
                                        read': Seq24, h': seq<OrderedEncap>)
    requires Popped(read, h, ready, read', h') && |h| < MODULO
    ensures |h'| + |ready| == |h|
    ensures DistanceTo(read, read') == |ready|
    ensures forall e :: e in h' ==> e in h
    decreases |ready|
  {
    if ready != [] {
      var read1, h1, k := LastRemoval(read, h, ready, read', h');
      PoppedCounts(read, h, ready[..|ready| - 1], read1, h1);
      NextDistance(read, read1);
    }
  }

  lemma {:induction false} PoppedWasHeld(read: Seq24, h: seq<OrderedEncap>, ready: seq<Encap>,
                                         read': Seq24, h': seq<OrderedEncap>, i: nat)
    requires Popped(read, h, ready, read', h') && |h| < MODULO && i < |ready|
    ensures HoldsAt(read, h, i, ready[i])
    decreases |ready|
  {
    var init := ready[..|ready| - 1];
    var read1, h1, k := LastRemoval(read, h, ready, read', h');
    if i < |init| {
      PoppedWasHeld(read, h, init, read1, h1, i);
    } else {
      PoppedCounts(read, h, init, read1, h1);
      assert h1[k] in h;
    }
  }

  lemma {:induction false} PoppedAccounts(read: Seq24, h: seq<OrderedEncap>, ready: seq<Encap>,
                                          read': Seq24, h': seq<OrderedEncap>, e: OrderedEncap)
    requires Popped(read, h, ready, read', h') && |h| < MODULO && e in h
    ensures AccountedFor(read, ready, h', e)
    decreases |ready|
  {
    if ready != [] {
      var init := ready[..|ready| - 1];
      var read1, h1, k := LastRemoval(read, h, ready, read', h');
      PoppedAccounts(read, h, init, read1, h1, e);
      PoppedCounts(read, h, init, read1, h1);
      WithoutMembers(h1, k);
    }
  }

  /** Popped packets carry consecutive indices from the read index on and come from the heap;
      every other element stays. No hypothesis on the indices is needed. */
  lemma PoppedIsConsecutive(read: Seq24, h: seq<OrderedEncap>, ready: seq<Encap>, read': Seq24, h': seq<OrderedEncap>)
    requires Popped(read, h, ready, read', h')
    requires |h| < MODULO
    ensures |h'| + |ready| == |h|
    ensures DistanceTo(read, read') == |ready|
    ensures forall i :: 0 <= i < |ready| ==> HoldsAt(read, h, i, ready[i])
    ensures forall e :: e in h' ==> e in h
    ensures forall e :: e in h ==> AccountedFor(read, ready, h', e)
  {
    PoppedCounts(read, h, ready, read', h');
    forall i | 0 <= i < |ready|
      ensures HoldsAt(read, h, i, ready[i])
    {
      PoppedWasHeld(read, h, ready, read', h', i);
    }
    forall e | e in h
      ensures AccountedFor(read, ready, h', e)
    {
      PoppedAccounts(read, h, ready, read', h', e);
    }
  }

  ghost predicate DistinctIndices(h: seq<OrderedEncap>) {
    forall i, j :: 0 <= i < j < |h| ==> h[i].index != h[j].index
  }

  /** With distinct indices, nothing that was popped is left behind. */
  lemma {:induction false} PoppedLeavesNoCopy(read: Seq24, h: seq<OrderedEncap>, ready: seq<Encap>,
                                              read': Seq24, h': seq<OrderedEncap>)
    requires Popped(read, h, ready, read', h')
    requires DistinctIndices(h) && |h| < MODULO
    ensures DistinctIndices(h')
    ensures forall i :: 0 <= i < |h'| ==> DistanceTo(read, h'[i].index) >= |ready|
    decreases |ready|
  {
    if ready != [] {
      var init, last := ready[..|ready| - 1], ready[|ready| - 1];
      var read1, h1, k := LastRemoval(read, h, ready, read', h');
      PoppedLeavesNoCopy(read, h, init, read1, h1);
      PoppedIsConsecutive(read, h, init, read1, h1);
      RemovalLeavesNoCopy(read, h1, k, |init|);
    }
  }

  lemma RemovalLeavesNoCopy(read: Seq24, h: seq<OrderedEncap>, k: nat, n: nat)
    requires DistinctIndices(h) && k < |h| && DistanceTo(read, h[k].index) == n
    requires forall i :: 0 <= i < |h| ==> DistanceTo(read, h[i].index) >= n
    ensures DistinctIndices(Without(h, k))
    ensures forall i :: 0 <= i < |Without(h, k)| ==> DistanceTo(read, Without(h, k)[i].index) >= n + 1
  {
    var h' := Without(h, k);
    forall i | 0 <= i < |h'|
      ensures DistanceTo(read, h'[i].index) >= n + 1
    {
      var p := if i < k then i else i + 1;
      assert h'[i] == h[p] && h[p].index != h[k].index;
      DistanceDetermines(read, h[p].index);
      DistanceDetermines(read, h[k].index);
    }
  }

  /** A packet left in the heap with an index already released is the top from then on,
      and stops every later drain of that channel. */
  lemma {:induction false} StaleTopStopsDraining(stale: OrderedEncap, read: Seq24, h: seq<OrderedEncap>,
                                                 ready: seq<Encap>, read': Seq24, h': seq<OrderedEncap>)
    requires stale in h && Linear(h, stale.index)
    requires 0 < DistanceTo(stale.index, read) < HALF
    requires Popped(read, h, ready, read', h')
    ensures ready == []
    decreases |ready|
  {
    if ready != [] {
      var init := ready[..|ready| - 1];
      var read1, h1, k := LastPopped(read, h, ready, read', h');
      StaleTopStopsDraining(stale, read, h, init, read1, h1);
      TopIsBelow(stale, read, h, k);
      assert false;
    }
  }

  lemma TopIsBelow(stale: OrderedEncap, read: Seq24, h: seq<OrderedEncap>, k: nat)
    requires stale in h && Linear(h, stale.index)
    requires 0 < DistanceTo(stale.index, read) < HALF
    requires IsTop(h, k)
    ensures h[k].index != read
  {
    var j :| 0 <= j < |h| && h[j] == stale;
    assert !Gt(h[k].index, h[j].index);
    CmpIsForwardDistance(read, stale.index);
  }

  // ----- completeness: every permutation comes out in order -----

  /** One channel fed with packets `encs`, the i-th carrying the index `us[i]` steps after `b`. */
  ghost predicate IsRun(b: Seq24, us: seq<nat>, encs: seq<Encap>,
                        readAt: seq<Seq24>, heapAt: seq<seq<OrderedEncap>>, outs: seq<seq<Encap>>)
  {
    && |us| == |encs| == |outs|
    && |readAt| == |heapAt| == |us| + 1
    && readAt[0] == b && heapAt[0] == []
    && forall i :: 0 <= i < |us| ==> StepAt(b, us, encs, readAt, heapAt, outs, i)
  }

  ghost predicate StepAt(b: Seq24, us: seq<nat>, encs: seq<Encap>,
                         readAt: seq<Seq24>, heapAt: seq<seq<OrderedEncap>>, outs: seq<seq<Encap>>, i: nat)
    requires i < |us| == |encs| == |outs| && |readAt| == |heapAt| == |us| + 1
  {
    Offered(readAt[i], heapAt[i], Wrap(b + us[i]), encs[i], outs[i], readAt[i + 1], heapAt[i + 1])
  }

  /** The heap element `k` is an arrival before `i`, at position `m + DistanceTo(read, h[k].index)`. */
  ghost predicate Sourced(us: seq<nat>, encs: seq<Encap>, i: nat, m: nat, read: Seq24, h: seq<OrderedEncap>, k: nat)
    requires i <= |us| == |encs| && k < |h|
  {
    exists j :: 0 <= j < i && us[j] == m + DistanceTo(read, h[k].index) && h[k].pkt == encs[j]
  }

  /** If arrival `j` is at position `m` or beyond, it waits in the heap. */
  ghost predicate Waiting(us: seq<nat>, encs: seq<Encap>, m: nat, read: Seq24, h: seq<OrderedEncap>, j: nat)
    requires j < |us| == |encs|
  {
    us[j] >= m ==> HoldsAt(read, h, us[j] - m, encs[j])
  }

  /** The packet at position `u` arrived before `i` and is `pkt`. */
  ghost predicate Holds(us: seq<nat>, encs: seq<Encap>, i: nat, u: nat, pkt: Encap)
    requires i <= |us| == |encs|
  {
    exists j :: 0 <= j < i && us[j] == u && pkt == encs[j]
  }

  /** The heap holds exactly the arrivals before `i` at positions `m` and beyond; `read` stands for position `m`. */
  ghost predicate Buffered(us: seq<nat>, encs: seq<Encap>, i: nat, m: nat, read: Seq24, h: seq<OrderedEncap>)
    requires i <= |us| == |encs|
  {
    && (forall j :: 0 <= j < i ==> Waiting(us, encs, m, read, h, j))
    && (forall k :: 0 <= k < |h| ==> Sourced(us, encs, i, m, read, h, k))
  }

  /** The first packets are out in order; every other arrived packet waits in the heap, once. */
  ghost predicate Settled(us: seq<nat>, encs: seq<Encap>, i: nat, read: Seq24, h: seq<OrderedEncap>, out: seq<Encap>) {
    var m := |out|;
    && i <= |us| == |encs|
    && |h| + m == i
    && |h| <= HEAP_LIMIT
    && m !in us[..i]
    && (forall u :: 0 <= u < m ==> Holds(us, encs, i, u, out[u]))
    && (forall j :: 0 <= j < i ==> us[j] < m + HALF)
    && DistinctIndices(h)
    && (forall k :: 0 <= k < |h| ==> h[k].index != read)
    && Buffered(us, encs, i, m, read, h)
  }

  ghost predicate Distinct(us: seq<nat>) {
    forall i, j :: 0 <= i < j < |us| ==> us[i] != us[j]
  }

  /** A packet ahead of the read index is buffered. */
  lemma SettledBuffers(us: seq<nat>, encs: seq<Encap>, i: nat, m: nat, read: Seq24, h: seq<OrderedEncap>,
                       out: seq<Encap>, idx: Seq24, ready: seq<Encap>, read': Seq24, h': seq<OrderedEncap>)
    requires Settled(us, encs, i, read, h, out) && m == |out| && i < |us| && Distinct(us)
    requires m < us[i] < m + HALF && DistanceTo(read, idx) == us[i] - m
    requires Offered(read, h, idx, encs[i], ready, read', h')
    requires |h| < HEAP_LIMIT
    ensures Settled(us, encs, i + 1, read', h', out + ready)
  {
    CmpIsForwardDistance(read, idx);
    assert h' == h + [OrderedEncap(idx, encs[i])];
    assert us[..i + 1] == us[..i] + [us[i]];
    forall p | 0 <= p < |h|
      ensures h[p].index != idx
    {
      assert Sourced(us, encs, i, m, read, h, p);
    }
    BufferedPush(us, encs, i, m, read, h, idx);
    assert out + ready == out;
    HoldsLater(us, encs, i, out, m);
  }

  lemma BufferedPush(us: seq<nat>, encs: seq<Encap>, i: nat, m: nat, read: Seq24, h: seq<OrderedEncap>, idx: Seq24)
    requires i < |us| == |encs| && Buffered(us, encs, i, m, read, h)
    requires us[i] == m + DistanceTo(read, idx)
    ensures Buffered(us, encs, i + 1, m, read, h + [OrderedEncap(idx, encs[i])])
  {
    var h', i' := h + [OrderedEncap(idx, encs[i])], i + 1;
    forall k | 0 <= k < |h'|
      ensures Sourced(us, encs, i', m, read, h', k)
    {
      if k < |h| {
        assert Sourced(us, encs, i, m, read, h, k);
      }
    }
    forall j | 0 <= j < i + 1
      ensures Waiting(us, encs, m, read, h', j)
    {
      if j < i {
        assert Waiting(us, encs, m, read, h, j);
        if us[j] >= m {
          var k :| 0 <= k < |h| && h[k].pkt == encs[j] && DistanceTo(read, h[k].index) == us[j] - m;
          assert h'[k] == h[k];
        }
      } else {
        assert h'[|h|] == OrderedEncap(idx, encs[i]);
      }
    }
  }

  lemma HoldsLater(us: seq<nat>, encs: seq<Encap>, i: nat, out: seq<Encap>, m: nat)
    requires i < |us| == |encs| && m <= |out|
    requires forall u :: 0 <= u < m ==> Holds(us, encs, i, u, out[u])
    ensures forall u :: 0 <= u < m ==> Holds(us, encs, i + 1, u, out[u])
  {
    forall u | 0 <= u < m
      ensures Holds(us, encs, i + 1, u, out[u])
    {
      assert Holds(us, encs, i, u, out[u]);
    }
  }

  /** The packet waited for is released, and with it every packet that follows without a gap. */
  lemma SettledDrains(us: seq<nat>, encs: seq<Encap>, i: nat, m: nat, read: Seq24, h: seq<OrderedEncap>,
                      out: seq<Encap>, ready: seq<Encap>, read': Seq24, h': seq<OrderedEncap>)
    requires Settled(us, encs, i, read, h, out) && m == |out| && i < |us| && Distinct(us)
    requires us[i] == m
    requires Offered(read, h, read, encs[i], ready, read', h')
    ensures DistanceTo(read, read') == |ready|
    ensures Settled(us, encs, i + 1, read', h', out + ready)
  {
    var next, rest := Next(read), ready[1..];
    var m' := m + |ready|;
    DrainedHeap(us, encs, i, m, read, h, rest, read', h');
    DrainOutputs(us, encs, i, m, next, h, out, ready);
    BufferedLater(us, encs, i, m', read', h');
    assert |out + ready| == m';
    assert us[..i + 1] == us[..i] + [us[i]];
  }

  /** The heap before and after the drain that follows the release of position `m`. */
  lemma DrainedHeap(us: seq<nat>, encs: seq<Encap>, i: nat, m: nat, read: Seq24, h: seq<OrderedEncap>,
                    rest: seq<Encap>, read': Seq24, h': seq<OrderedEncap>)
    requires i <= |us| == |encs| && Buffered(us, encs, i, m, read, h)
    requires |h| <= HEAP_LIMIT && DistinctIndices(h)
    requires forall k :: 0 <= k < |h| ==> h[k].index != read
    requires forall j :: 0 <= j < i ==> us[j] < m + HALF
    requires Drained(Next(read), h, rest, read', h')
    ensures Buffered(us, encs, i, m + 1, Next(read), h)
    ensures forall t :: 0 <= t < |rest| ==> HoldsAt(Next(read), h, t, rest[t])
    ensures DistanceTo(read, read') == |rest| + 1 && |h'| + |rest| == |h|
    ensures DistinctIndices(h')
    ensures Buffered(us, encs, i, m + 1 + |rest|, read', h')
    ensures m + 1 + |rest| !in us[..i]
    ensures forall k :: 0 <= k < |h'| ==> h'[k].index != read'
  {
    var next := Next(read);
    PoppedIsConsecutive(next, h, rest, read', h');
    PoppedLeavesNoCopy(next, h, rest, read', h');
    NextDistance(read, read');
    BufferedNext(us, encs, i, m, read, h);
    BufferedDrained(us, encs, i, m + 1, next, h, rest, read', h');
    NextNotArrived(us, encs, i, m + 1 + |rest|, read', h');
  }

  lemma BufferedLater(us: seq<nat>, encs: seq<Encap>, i: nat, m: nat, read: Seq24, h: seq<OrderedEncap>)
    requires i < |us| == |encs| && us[i] < m && Buffered(us, encs, i, m, read, h)
    ensures Buffered(us, encs, i + 1, m, read, h)
  {
    var i' := i + 1;
    forall k | 0 <= k < |h|
      ensures Sourced(us, encs, i', m, read, h, k)
    {
      assert Sourced(us, encs, i, m, read, h, k);
    }
    forall j | 0 <= j < i + 1
      ensures Waiting(us, encs, m, read, h, j)
    {
      assert j < i ==> Waiting(us, encs, m, read, h, j);
    }
  }

  /** The heap seen from the index after the one just released. */
  lemma BufferedNext(us: seq<nat>, encs: seq<Encap>, i: nat, m: nat, read: Seq24, h: seq<OrderedEncap>)
    requires i <= |us| == |encs| && Buffered(us, encs, i, m, read, h)
    requires forall k :: 0 <= k < |h| ==> h[k].index != read
    ensures Buffered(us, encs, i, m + 1, Next(read), h)
  {
    var m' := m + 1;
    forall k | 0 <= k < |h|
      ensures DistanceTo(Next(read), h[k].index) == DistanceTo(read, h[k].index) - 1
      ensures Sourced(us, encs, i, m', Next(read), h, k)
    {
      NextDistance(read, h[k].index);
      assert Sourced(us, encs, i, m, read, h, k);
    }
    forall j | 0 <= j < i
      ensures Waiting(us, encs, m', Next(read), h, j)
    {
      assert Waiting(us, encs, m, read, h, j);
    }
  }

  /** What a drain leaves, seen from the new read index. */
  lemma BufferedDrained(us: seq<nat>, encs: seq<Encap>, i: nat, m: nat, read: Seq24, h: seq<OrderedEncap>,
                        rest: seq<Encap>, read': Seq24, h': seq<OrderedEncap>)
    requires i <= |us| == |encs| && Buffered(us, encs, i, m, read, h)
    requires forall e :: e in h' ==> e in h
    requires forall e :: e in h ==>
               e in h' || (DistanceTo(read, e.index) < |rest| && rest[DistanceTo(read, e.index)] == e.pkt)
    requires forall k :: 0 <= k < |h'| ==> DistanceTo(read, h'[k].index) >= |rest|
    requires DistanceTo(read, read') == |rest|
    ensures Buffered(us, encs, i, m + |rest|, read', h')
  {
    var m' := m + |rest|;
    forall j | 0 <= j < i
      ensures Waiting(us, encs, m', read', h', j)
    {
      assert Waiting(us, encs, m, read, h, j);
      if us[j] >= m + |rest| {
        var k :| 0 <= k < |h| && h[k].pkt == encs[j] && DistanceTo(read, h[k].index) == us[j] - m;
        assert h[k] in h';
        var p :| 0 <= p < |h'| && h'[p] == h[k];
        ShiftDistance(read, read', h'[p].index);
      }
    }
    forall k | 0 <= k < |h'|
      ensures Sourced(us, encs, i, m', read', h', k)
    {
      assert h'[k] in h;
      var p :| 0 <= p < |h| && h[p] == h'[k];
      assert Sourced(us, encs, i, m, read, h, p);
      ShiftDistance(read, read', h'[k].index);
    }
  }

  lemma ShiftDistance(x: Seq24, y: Seq24, z: Seq24)
    requires DistanceTo(x, y) <= DistanceTo(x, z)
    ensures DistanceTo(y, z) == DistanceTo(x, z) - DistanceTo(x, y)
  {
  }

  /** After a drain the packet waited for has not arrived: were it in the heap, it would be the top. */
  lemma NextNotArrived(us: seq<nat>, encs: seq<Encap>, i: nat, m: nat, read: Seq24, h: seq<OrderedEncap>)
    requires i <= |us| == |encs| && Buffered(us, encs, i, m, read, h)
    requires forall j :: 0 <= j < i ==> us[j] < m + HALF
    requires h == [] || exists k: nat :: IsTop(h, k) && h[k].index != read
    ensures m !in us[..i]
    ensures forall k :: 0 <= k < |h| ==> h[k].index != read
  {
    forall k | 0 <= k < |h|
      ensures h[k].index != read
    {
      var top: nat :| IsTop(h, top) && h[top].index != read;
      forall p | 0 <= p < |h|
        ensures DistanceTo(read, h[p].index) < HALF
      {
        assert Sourced(us, encs, i, m, read, h, p);
      }
      assert Linear(h, read);
      WindowOrder(read, h[top].index, h[k].index);
    }
    forall j | 0 <= j < i
      ensures us[j] != m
    {
      assert Waiting(us, encs, m, read, h, j);
    }
  }

  lemma DrainOutputs(us: seq<nat>, encs: seq<Encap>, i: nat, m: nat, next: Seq24, h: seq<OrderedEncap>,
                     out: seq<Encap>, ready: seq<Encap>)
    requires i < |us| == |encs| && us[i] == m == |out|
    requires ready != [] && ready[0] == encs[i]
    requires forall u :: 0 <= u < m ==> Holds(us, encs, i, u, out[u])
    requires Buffered(us, encs, i, m + 1, next, h)
    requires forall t :: 0 <= t < |ready[1..]| ==> HoldsAt(next, h, t, ready[1..][t])
    ensures forall u :: 0 <= u < m + |ready| ==> Holds(us, encs, i + 1, u, (out + ready)[u])
  {
    HoldsLater(us, encs, i, out, m);
    forall u | 0 <= u < m + |ready|
      ensures Holds(us, encs, i + 1, u, (out + ready)[u])
    {
      if u > m {
        var t := u - m - 1;
        assert (out + ready)[u] == ready[1..][t];
        assert HoldsAt(next, h, t, ready[1..][t]);
        var k :| 0 <= k < |h| && h[k].pkt == ready[1..][t] && DistanceTo(next, h[k].index) == t;
        assert Sourced(us, encs, i, m + 1, next, h, k);
      } else if u == m {
        assert (out + ready)[u] == encs[i];
      } else {
        assert (out + ready)[u] == out[u];
      }
    }
  }

  lemma PositionDistance(b: Seq24, m: nat, u: nat)
    requires m <= u < m + MODULO
    ensures DistanceTo(Wrap(b + m), Wrap(b + u)) == u - m
  {
    DistanceIsDifference(b + m, b + u);
  }

  lemma PositionAdvance(b: Seq24, m: nat, r: nat, read: Seq24, read': Seq24)
    requires read == Wrap(b + m) && DistanceTo(read, read') == r
    ensures read' == Wrap(b + m + r)
  {
    PositionDistance(b, m, m + r);
    DistanceDetermines(read, read');
    DistanceDetermines(read, Wrap(b + m + r));
  }

  /** Arrival `j` is the packet waited for, or finds room in the heap. */
  predicate Accepted(us: seq<nat>, heapAt: seq<seq<OrderedEncap>>, outs: seq<seq<Encap>>, j: nat)
    requires j < |us| == |outs| < |heapAt|
  {
    |heapAt[j]| < HEAP_LIMIT || us[j] == |Concat(outs[..j])|
  }

  /** Distinct packets, each within half the number space and never finding the heap full,
      leave the channel settled after any number of arrivals, however often the numbers wrap. */
  lemma {:induction false} RunSettles(b: Seq24, us: seq<nat>, encs: seq<Encap>, readAt: seq<Seq24>,
                                      heapAt: seq<seq<OrderedEncap>>, outs: seq<seq<Encap>>, i: nat)
    requires IsRun(b, us, encs, readAt, heapAt, outs) && Distinct(us) && i <= |us|
    requires forall j :: 0 <= j < i ==> us[j] < |Concat(outs[..j])| + HALF
    requires forall j :: 0 <= j < i ==> Accepted(us, heapAt, outs, j)
    ensures readAt[i] == Wrap(b + |Concat(outs[..i])|)
    ensures Settled(us, encs, i, readAt[i], heapAt[i], Concat(outs[..i]))
  {
    if i > 0 {
      var j := i - 1;
      RunSettles(b, us, encs, readAt, heapAt, outs, j);
      assert Accepted(us, heapAt, outs, j);
      ConcatPrefix(outs, j);
      assert StepAt(b, us, encs, readAt, heapAt, outs, j);
      SettledStep(b, us, encs, j, readAt[j], heapAt[j], Concat(outs[..j]), outs[j], readAt[i], heapAt[i]);
    }
  }

  lemma SettledStep(b: Seq24, us: seq<nat>, encs: seq<Encap>, i: nat, read: Seq24, h: seq<OrderedEncap>,
                    out: seq<Encap>, ready: seq<Encap>, read': Seq24, h': seq<OrderedEncap>)
    requires i < |us| == |encs| && Distinct(us)
    requires read == Wrap(b + |out|) && Settled(us, encs, i, read, h, out)
    requires Offered(read, h, Wrap(b + us[i]), encs[i], ready, read', h')
    requires us[i] < |out| + HALF
    requires |h| < HEAP_LIMIT || us[i] == |out|
    ensures read' == Wrap(b + |out + ready|)
    ensures Settled(us, encs, i + 1, read', h', out + ready)
  {
    var m := |out|;
    NotReleasedYet(us, encs, i, out);
    PositionDistance(b, m, us[i]);
    if us[i] == m {
      SettledDrains(us, encs, i, m, read, h, out, ready, read', h');
      PositionAdvance(b, m, |ready|, read, read');
    } else {
      CmpIsForwardDistance(read, Wrap(b + us[i]));
      SettledBuffers(us, encs, i, m, read, h, out, Wrap(b + us[i]), ready, read', h');
    }
  }

  lemma NotReleasedYet(us: seq<nat>, encs: seq<Encap>, i: nat, out: seq<Encap>)
    requires i < |us| == |encs| && Distinct(us)
    requires forall u :: 0 <= u < |out| ==> Holds(us, encs, i, u, out[u])
    ensures us[i] >= |out|
  {
    if us[i] < |out| {
      HoldsElsewhere(us, encs, i, us[i], out[us[i]]);
    }
  }

  lemma HoldsElsewhere(us: seq<nat>, encs: seq<Encap>, i: nat, u: nat, pkt: Encap)
    requires i < |us| == |encs| && Distinct(us)
    requires Holds(us, encs, i, u, pkt)
    ensures us[i] != u
  {
  }

  /** `us` lists every position below its length exactly once. */
  ghost predicate IsPermutation(us: seq<nat>) {
    && Distinct(us)
    && (forall i :: 0 <= i < |us| ==> us[i] < |us|)
    && (forall u :: 0 <= u < |us| ==> u in us)
  }

  lemma {:induction false} PermutationFits(b: Seq24, us: seq<nat>, encs: seq<Encap>, readAt: seq<Seq24>,
                                           heapAt: seq<seq<OrderedEncap>>, outs: seq<seq<Encap>>, i: nat)
    requires IsRun(b, us, encs, readAt, heapAt, outs) && IsPermutation(us) && i <= |us|
    requires |us| <= HEAP_LIMIT + 1
    ensures forall j :: 0 <= j < i ==> Accepted(us, heapAt, outs, j)
  {
    if i > 0 {
      var j := i - 1;
      PermutationFits(b, us, encs, readAt, heapAt, outs, j);
      RunSettles(b, us, encs, readAt, heapAt, outs, j);
      var m := |Concat(outs[..j])|;
      if |heapAt[j]| >= HEAP_LIMIT {
        // every other packet has arrived, so this one is the packet waited for
        assert m == 0 && m in us;
        var p :| 0 <= p < |us| && us[p] == m;
      }
    }
  }

  /** When all positions have arrived, all have been released in order. */
  lemma SettledAtTheEnd(us: seq<nat>, encs: seq<Encap>, read: Seq24, h: seq<OrderedEncap>, out: seq<Encap>)
    requires IsPermutation(us) && Settled(us, encs, |us|, read, h, out)
    ensures |out| == |us| && h == []
    ensures forall j :: 0 <= j < |us| ==> out[us[j]] == encs[j]
  {
    var n := |us|;
    assert |out| !in us && (|out| < n ==> |out| in us);
    forall j | 0 <= j < n
      ensures out[us[j]] == encs[j]
    {
      assert Holds(us, encs, n, us[j], out[us[j]]);
    }
  }

  /** Any permutation of up to 2049 consecutive indices, from any read index and across the wrap,
      comes out exactly in index order, with an empty heap and the read index past the last. */
  lemma PermutationComesOutInOrder(b: Seq24, us: seq<nat>, encs: seq<Encap>, readAt: seq<Seq24>,
                                   heapAt: seq<seq<OrderedEncap>>, outs: seq<seq<Encap>>)
    requires IsRun(b, us, encs, readAt, heapAt, outs) && IsPermutation(us)
    requires |us| <= HEAP_LIMIT + 1
    ensures var n := |us|; var out := Concat(outs);
            && |out| == n && readAt[n] == Wrap(b + n) && heapAt[n] == []
            && forall j :: 0 <= j < n ==> out[us[j]] == encs[j]
  {
    var n := |us|;
    PermutationFits(b, us, encs, readAt, heapAt, outs, n);
    assert outs[..n] == outs;
    RunSettles(b, us, encs, readAt, heapAt, outs, n);
    SettledAtTheEnd(us, encs, readAt[n], heapAt[n], Concat(outs));
  }

  // ----- exactly when a permutation comes out whole -----

  ghost predicate Lacks(h: seq<OrderedEncap>, idx: Seq24) {
    |h| <= HEAP_LIMIT && forall k :: 0 <= k < |h| ==> h[k].index != idx
  }

  /** An index that is neither on the heap nor offered is not passed. */
  lemma LackingStep(missing: Seq24, read: Seq24, h: seq<OrderedEncap>, idx: Seq24, enc: Encap,
                    ready: seq<Encap>, read': Seq24, h': seq<OrderedEncap>)
    requires Offered(read, h, idx, enc, ready, read', h') && Lacks(h, missing) && idx != missing
    ensures Lacks(h', missing)
    ensures |ready| <= DistanceTo(read, missing) && DistanceTo(read, read') == |ready|
  {
    if idx == read {
      var next, rest := Next(read), ready[1..];
      PoppedIsConsecutive(next, h, rest, read', h');
      NextDistance(read, missing);
      NextDistance(read, read');
      LackingEndsRun(next, h, missing, rest);
      forall k | 0 <= k < |h'|
        ensures h'[k].index != missing
      {
        assert h'[k] in h;
      }
    }
  }

  lemma LackingEndsRun(read: Seq24, h: seq<OrderedEncap>, idx: Seq24, rest: seq<Encap>)
    requires forall i :: 0 <= i < |rest| ==> HoldsAt(read, h, i, rest[i])
    requires Lacks(h, idx)
    ensures |rest| <= DistanceTo(read, idx)
  {
    var i := DistanceTo(read, idx);
    if i < |rest| {
      assert HoldsAt(read, h, i, rest[i]);
      var k :| 0 <= k < |h| && DistanceTo(read, h[k].index) == i;
      DistanceDetermines(read, idx);
      DistanceDetermines(read, h[k].index);
    }
  }

  lemma OffersOther(b: Seq24, us: seq<nat>, j: nat, i: nat)
    requires IsPermutation(us) && |us| <= HALF && j < i < |us|
    ensures Wrap(b + us[i]) != Wrap(b + us[j])
  {
    if us[i] > us[j] {
      PositionDistance(b, us[j], us[i]);
    } else {
      PositionDistance(b, us[i], us[j]);
    }
  }

  lemma PositionNotPassed(b: Seq24, m: nat, u: nat, read: Seq24, h: seq<OrderedEncap>, idx: Seq24, enc: Encap,
                          ready: seq<Encap>, read': Seq24, h': seq<OrderedEncap>)
    requires read == Wrap(b + m) && m <= u < m + HALF
    requires Offered(read, h, idx, enc, ready, read', h') && Lacks(h, Wrap(b + u)) && idx != Wrap(b + u)
    ensures m + |ready| <= u && read' == Wrap(b + m + |ready|) && Lacks(h', Wrap(b + u))
  {
    LackingStep(Wrap(b + u), read, h, idx, enc, ready, read', h');
    PositionDistance(b, m, u);
    PositionAdvance(b, m, |ready|, read, read');
  }

  /** Before arrival `i` the channel has not come to the position of arrival `j`, and does not hold it. */
  ghost predicate NotPassed(b: Seq24, us: seq<nat>, readAt: seq<Seq24>, heapAt: seq<seq<OrderedEncap>>,
                            outs: seq<seq<Encap>>, j: nat, i: nat)
    requires j < |us| == |outs| && i <= |us| && |readAt| == |heapAt| == |us| + 1
  {
    match Concat(outs[..i])
    case out => |out| <= us[j] && readAt[i] == Wrap(b + |out|) && Lacks(heapAt[i], Wrap(b + us[j]))
  }

  lemma NotPassedStep(b: Seq24, us: seq<nat>, encs: seq<Encap>, readAt: seq<Seq24>,
                      heapAt: seq<seq<OrderedEncap>>, outs: seq<seq<Encap>>, j: nat, k: nat)
    requires IsRun(b, us, encs, readAt, heapAt, outs) && IsPermutation(us) && |us| <= HALF
    requires j < k < |us| && NotPassed(b, us, readAt, heapAt, outs, j, k)
    ensures NotPassed(b, us, readAt, heapAt, outs, j, k + 1)
  {
    assert StepAt(b, us, encs, readAt, heapAt, outs, k);
    OffersOther(b, us, j, k);
    ConcatPrefix(outs, k);
    PositionNotPassed(b, |Concat(outs[..k])|, us[j], readAt[k], heapAt[k], Wrap(b + us[k]), encs[k], outs[k],
                      readAt[k + 1], heapAt[k + 1]);
  }

  /** A packet that was not accepted is never passed. */
  lemma {:induction false} DroppedIsNeverPassed(b: Seq24, us: seq<nat>, encs: seq<Encap>, readAt: seq<Seq24>,
                                                heapAt: seq<seq<OrderedEncap>>, outs: seq<seq<Encap>>, j: nat, i: nat)
    requires IsRun(b, us, encs, readAt, heapAt, outs) && IsPermutation(us) && |us| <= HALF
    requires j < i <= |us| && NotPassed(b, us, readAt, heapAt, outs, j, j + 1)
    ensures NotPassed(b, us, readAt, heapAt, outs, j, i)
    decreases i
  {
    if i > j + 1 {
      DroppedIsNeverPassed(b, us, encs, readAt, heapAt, outs, j, i - 1);
      NotPassedStep(b, us, encs, readAt, heapAt, outs, j, i - 1);
    }
  }

  /** The first packet that is not accepted is gone. */
  lemma DropLeavesGap(b: Seq24, us: seq<nat>, encs: seq<Encap>, readAt: seq<Seq24>,
                      heapAt: seq<seq<OrderedEncap>>, outs: seq<seq<Encap>>, j: nat)
    requires IsRun(b, us, encs, readAt, heapAt, outs) && IsPermutation(us) && |us| <= HALF && j < |us|
    requires forall i :: 0 <= i < j ==> Accepted(us, heapAt, outs, i)
    requires !Accepted(us, heapAt, outs, j)
    ensures NotPassed(b, us, readAt, heapAt, outs, j, j + 1)
  {
    RunSettles(b, us, encs, readAt, heapAt, outs, j);
    assert StepAt(b, us, encs, readAt, heapAt, outs, j);
    var out := Concat(outs[..j]);
    NotReleasedYet(us, encs, j, out);
    PositionDistance(b, |out|, us[j]);
    CmpIsForwardDistance(readAt[j], Wrap(b + us[j]));
    ConcatPrefix(outs, j);
    SettledLacks(b, us, encs, j, readAt[j], heapAt[j], out);
  }

  lemma SettledLacks(b: Seq24, us: seq<nat>, encs: seq<Encap>, j: nat, read: Seq24, h: seq<OrderedEncap>,
                     out: seq<Encap>)
    requires j < |us| && Distinct(us) && Settled(us, encs, j, read, h, out) && read == Wrap(b + |out|)
    requires |out| <= us[j] < |out| + HALF
    ensures Lacks(h, Wrap(b + us[j]))
  {
    PositionDistance(b, |out|, us[j]);
    forall k | 0 <= k < |h|
      ensures h[k].index != Wrap(b + us[j])
    {
      assert Sourced(us, encs, j, |out|, read, h, k);
    }
  }

  /** A permutation of up to half the number space comes out whole, in order, if and only if no packet
      ahead of the one waited for finds the heap full. */
  lemma ComesOutWholeExactly(b: Seq24, us: seq<nat>, encs: seq<Encap>, readAt: seq<Seq24>,
                             heapAt: seq<seq<OrderedEncap>>, outs: seq<seq<Encap>>)
    requires IsRun(b, us, encs, readAt, heapAt, outs) && IsPermutation(us) && |us| <= HALF
    ensures |Concat(outs)| == |us| <==> forall j :: 0 <= j < |us| ==> Accepted(us, heapAt, outs, j)
    ensures |Concat(outs)| == |us| ==> forall j :: 0 <= j < |us| ==> Concat(outs)[us[j]] == encs[j]
  {
    var n := |us|;
    assert outs[..n] == outs;
    if forall j :: 0 <= j < n ==> Accepted(us, heapAt, outs, j) {
      AllAcceptedSettles(b, us, encs, readAt, heapAt, outs);
    } else {
      var j := FirstNotAccepted(us, heapAt, outs);
      DropLeavesGap(b, us, encs, readAt, heapAt, outs, j);
      DroppedIsNeverPassed(b, us, encs, readAt, heapAt, outs, j, n);
    }
  }

  lemma AllAcceptedSettles(b: Seq24, us: seq<nat>, encs: seq<Encap>, readAt: seq<Seq24>,
                           heapAt: seq<seq<OrderedEncap>>, outs: seq<seq<Encap>>)
    requires IsRun(b, us, encs, readAt, heapAt, outs) && IsPermutation(us) && |us| <= HALF
    requires forall j :: 0 <= j < |us| ==> Accepted(us, heapAt, outs, j)
    ensures |Concat(outs)| == |us|
    ensures forall j :: 0 <= j < |us| ==> Concat(outs)[us[j]] == encs[j]
  {
    var n := |us|;
    assert outs[..n] == outs;
    RunSettles(b, us, encs, readAt, heapAt, outs, n);
    SettledAtTheEnd(us, encs, readAt[n], heapAt[n], Concat(outs));
  }

  lemma FirstNotAccepted(us: seq<nat>, heapAt: seq<seq<OrderedEncap>>, outs: seq<seq<Encap>>) returns (j: nat)
    requires |us| == |outs| < |heapAt|
    requires exists j :: 0 <= j < |us| && !Accepted(us, heapAt, outs, j)
    ensures j < |us| && !Accepted(us, heapAt, outs, j)
    ensures forall i :: 0 <= i < j ==> Accepted(us, heapAt, outs, i)
  {
    j := 0;
    while Accepted(us, heapAt, outs, j)
      invariant j < |us|
      invariant forall i :: 0 <= i < j ==> Accepted(us, heapAt, outs, i)
      decreases |us| - j
    {
      assert exists i :: j < i < |us| && !Accepted(us, heapAt, outs, i);
      j := j + 1;
    }
  }

  // ----- the limit of 2049 is exact -----

  /** `n - 1` down to 0. */
  function Countdown(n: nat): seq<nat> {
    seq(n, i requires 0 <= i < n => n - 1 - i)
  }

  /** Every element of the heap is at least two positions past `b`. */
  ghost predicate AllBeyondNext(b: Seq24, h: seq<OrderedEncap>) {
    forall k :: 0 <= k < |h| ==> DistanceTo(b, h[k].index) >= 2
  }

  /** Until the last two packets the heap only fills. */
  lemma CountdownStep(n: nat, b: Seq24, encs: seq<Encap>, readAt: seq<Seq24>,
                      heapAt: seq<seq<OrderedEncap>>, outs: seq<seq<Encap>>, j: nat)
    requires HEAP_LIMIT + 1 < n < HALF
    requires IsRun(b, Countdown(n), encs, readAt, heapAt, outs) && j < n - 1
    requires readAt[j] == b && AllBeyondNext(b, heapAt[j])
    requires |heapAt[j]| == if j <= HEAP_LIMIT then j else HEAP_LIMIT
    ensures readAt[j + 1] == b && outs[j] == [] && AllBeyondNext(b, heapAt[j + 1])
    ensures |heapAt[j + 1]| == if j + 1 <= HEAP_LIMIT then j + 1 else HEAP_LIMIT
  {
    var u := Countdown(n)[j];
    var idx := Wrap(b + u);
    assert StepAt(b, Countdown(n), encs, readAt, heapAt, outs, j);
    PositionDistance(b, 0, u);
    CmpIsForwardDistance(b, idx);
    if |heapAt[j]| < HEAP_LIMIT {
      BufferedAhead(b, heapAt[j], idx, encs[j], outs[j], readAt[j + 1], heapAt[j + 1]);
    }
  }

  lemma {:induction false} CountdownFillsHeap(n: nat, b: Seq24, encs: seq<Encap>, readAt: seq<Seq24>,
                                              heapAt: seq<seq<OrderedEncap>>, outs: seq<seq<Encap>>, i: nat)
    requires HEAP_LIMIT + 1 < n < HALF
    requires IsRun(b, Countdown(n), encs, readAt, heapAt, outs) && i < n
    ensures readAt[i] == b && Concat(outs[..i]) == [] && AllBeyondNext(b, heapAt[i])
    ensures |heapAt[i]| == if i <= HEAP_LIMIT then i else HEAP_LIMIT
  {
    if i > 0 {
      CountdownFillsHeap(n, b, encs, readAt, heapAt, outs, i - 1);
      CountdownStep(n, b, encs, readAt, heapAt, outs, i - 1);
      assert outs[..i][..i - 1] == outs[..i - 1];
    }
  }

  /** From 2050 packets on, the reversed order finds the heap full: only one packet comes out. */
  lemma LongerCountdownLosesPackets(n: nat, b: Seq24, encs: seq<Encap>, readAt: seq<Seq24>,
                                    heapAt: seq<seq<OrderedEncap>>, outs: seq<seq<Encap>>)
    requires HEAP_LIMIT + 1 < n < HALF
    requires IsRun(b, Countdown(n), encs, readAt, heapAt, outs)
    ensures |Concat(outs)| == 1 && readAt[n] == Next(b)
  {
    var i := n - 1;
    CountdownFillsHeap(n, b, encs, readAt, heapAt, outs, i);
    assert outs[..n] == outs && outs[..n][..i] == outs[..i];
    assert Countdown(n)[i] == 0;
    assert StepAt(b, Countdown(n), encs, readAt, heapAt, outs, i);
    var rest := outs[i][1..];
    PoppedIsConsecutive(Next(b), heapAt[i], rest, readAt[n], heapAt[n]);
    if rest != [] {
      assert HoldsAt(Next(b), heapAt[i], 0, rest[0]);
      var k :| 0 <= k < |heapAt[i]| && DistanceTo(Next(b), heapAt[i][k].index) == 0;
      NextDistance(b, heapAt[i][k].index);
    }
  }
}
