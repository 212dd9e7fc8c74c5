/**
 When a drain stops although the packet it waits for is there (raknet/src/session/ordering_channels.rs):
 exactly when the heap holds an index already released, left over from before or released just now.
*/
module Draining {
  import opened Sequence24
  import opened Protocol
  import opened Sequences
  import opened Ordering

  /** How many elements of the heap carry the index `x`. */
  function Copies(h: seq<OrderedEncap>, x: Seq24): nat {
    if h == [] then 0 else Copies(h[..|h| - 1], x) + if h[|h| - 1].index == x then 1 else 0
  }

  /** The heap and the indices a drain can reach lie in the half circle that begins at `b`. */
  ghost predicate Reaches(b: Seq24, read: Seq24, h: seq<OrderedEncap>) {
    Linear(h, b) && DistanceTo(b, read) + |h| < HALF
  }

  /** Nothing in the heap lies before the position `p`. */
  ghost predicate NoneBefore(h: seq<OrderedEncap>, b: Seq24, p: nat) {
    forall x: Seq24 :: DistanceTo(b, x) < p ==> Copies(h, x) == 0
  }

  ghost predicate Link(h: seq<OrderedEncap>, read: Seq24, n: nat, i: nat)
    requires i < MODULO
  {
    Copies(h, Ahead(read, i)) >= 1 && (i + 1 < n ==> Copies(h, Ahead(read, i)) == 1)
  }

  /** The `n` indices from `read` on are on the heap, all but the last once, and nothing lies before them. */
  ghost predicate Chain(h: seq<OrderedEncap>, b: Seq24, read: Seq24, n: nat) {
    && n < MODULO
    && (n > 0 ==> NoneBefore(h, b, DistanceTo(b, read)))
    && forall i :: 0 <= i < n ==> Link(h, read, n, i)
  }

  /** After `n` packets the top is an index already released: one from before `read`, or a second copy. */
  ghost predicate Obstructed(h: seq<OrderedEncap>, b: Seq24, read: Seq24, n: nat) {
    n < MODULO &&
    if n == 0 then !NoneBefore(h, b, DistanceTo(b, read)) else Copies(h, Ahead(read, n - 1)) >= 2
  }

  /** The drain releases `n` packets, meets an obstacle, and leaves the next packet waiting. */
  ghost predicate StopsShort(h: seq<OrderedEncap>, b: Seq24, read: Seq24, n: nat) {
    Chain(h, b, read, n) && Obstructed(h, b, read, n) && Copies(h, Ahead(read, n)) >= 1
  }

  // ----- counting copies -----

  lemma {:induction false} CopiesConcat(g: seq<OrderedEncap>, h: seq<OrderedEncap>, x: Seq24)
    ensures Copies(g + h, x) == Copies(g, x) + Copies(h, x)
  {
    if h == [] {
      assert g + h == g;
    } else {
      CopiesConcat(g, h[..|h| - 1], x);
      assert (g + h)[..|g + h| - 1] == g + h[..|h| - 1];
    }
  }

  lemma CopiesWithout(h: seq<OrderedEncap>, k: nat, x: Seq24)
    requires k < |h|
    ensures Copies(h, x) == Copies(Without(h, k), x) + if h[k].index == x then 1 else 0
  {
    var front, back := h[..k], h[k + 1..];
    assert h == front + ([h[k]] + back);
    CopiesConcat(front, [h[k]] + back, x);
    CopiesConcat([h[k]], back, x);
    CopiesConcat(front, back, x);
    assert [h[k]][..0] == [];
  }

  lemma {:induction false} CopiesMember(h: seq<OrderedEncap>, x: Seq24)
    ensures Copies(h, x) > 0 <==> exists k :: 0 <= k < |h| && h[k].index == x
  {
    if h != [] {
      var init := h[..|h| - 1];
      CopiesMember(init, x);
      if k :| 0 <= k < |init| && init[k].index == x {
        assert h[k].index == x;
      }
      if k :| 0 <= k < |h| && h[k].index == x {
        assert k < |init| ==> init[k].index == x;
      }
    }
  }

  /** A pop takes one copy of each index it releases, and nothing else. */
  lemma {:induction false} PoppedCopies(read: Seq24, h: seq<OrderedEncap>, ready: seq<Encap>,
                                        read': Seq24, h': seq<OrderedEncap>, x: Seq24)
    requires Popped(read, h, ready, read', h') && |h| < MODULO
    ensures Copies(h, x) == Copies(h', x) + if DistanceTo(read, x) < |ready| then 1 else 0
    decreases |ready|
  {
    if ready != [] {
      var init := ready[..|ready| - 1];
      var read1, h1, k := LastRemoval(read, h, ready, read', h');
      PoppedCopies(read, h, init, read1, h1, x);
      PoppedCounts(read, h, init, read1, h1);
      CopiesWithout(h1, k, x);
      DistanceDetermines(read, x);
      DistanceDetermines(read, read1);
    }
  }

  // ----- the top -----

  /** The top of a heap in a half circle lies before everything else. */
  lemma NoneBeforeTop(b: Seq24, h: seq<OrderedEncap>, k: nat)
    requires Linear(h, b) && IsTop(h, k)
    ensures NoneBefore(h, b, DistanceTo(b, h[k].index))
  {
    forall x: Seq24 | DistanceTo(b, x) < DistanceTo(b, h[k].index)
      ensures Copies(h, x) == 0
    {
      CopiesMember(h, x);
      if Copies(h, x) > 0 {
        var j :| 0 <= j < |h| && h[j].index == x;
        assert !Gt(h[k].index, h[j].index);
        WindowOrder(b, h[k].index, x);
      }
    }
  }

  lemma StillLinear(b: Seq24, h: seq<OrderedEncap>, h1: seq<OrderedEncap>)
    requires Linear(h, b) && forall e :: e in h1 ==> e in h
    ensures Linear(h1, b)
  {
    forall i | 0 <= i < |h1|
      ensures DistanceTo(b, h1[i].index) < HALF
    {
      assert h1[i] in h;
    }
  }

  lemma ReadPosition(b: Seq24, read: Seq24, i: nat)
    requires DistanceTo(b, read) + i < MODULO
    ensures DistanceTo(b, Ahead(read, i)) == DistanceTo(b, read) + i
  {
  }

  // ----- what a drain has gone through -----

  lemma ExtendChain(h: seq<OrderedEncap>, b: Seq24, read: Seq24, n: nat, m: nat)
    requires m == n + 1 < MODULO && Chain(h, b, read, n)
    requires Copies(h, Ahead(read, n)) >= 1
    requires if n == 0 then NoneBefore(h, b, DistanceTo(b, read)) else Copies(h, Ahead(read, n - 1)) <= 1
    ensures Chain(h, b, read, m)
  {
    forall i | 0 <= i < m
      ensures Link(h, read, m, i)
    {
      if i < n {
        assert Link(h, read, n, i);
      }
    }
  }

  /** What has been popped was a chain. */
  lemma {:induction false} PoppedChain(b: Seq24, read: Seq24, h: seq<OrderedEncap>, ready: seq<Encap>,
                                       read': Seq24, h': seq<OrderedEncap>)
    requires Popped(read, h, ready, read', h') && Reaches(b, read, h)
    ensures Chain(h, b, read, |ready|)
    decreases |ready|
  {
    if ready != [] {
      var init := ready[..|ready| - 1];
      var read1, h1, k := LastPopped(read, h, ready, read', h');
      PoppedChain(b, read, h, init, read1, h1);
      TopExtends(b, read, h, init, read1, h1, k);
      ExtendChain(h, b, read, |init|, |ready|);
    }
  }

  /** If the index waited for is on top, the chain goes on without an obstacle. */
  lemma TopExtends(b: Seq24, read: Seq24, h: seq<OrderedEncap>, init: seq<Encap>,
                   read1: Seq24, h1: seq<OrderedEncap>, k: nat)
    requires Popped(read, h, init, read1, h1) && Reaches(b, read, h)
    requires IsTop(h1, k) && h1[k].index == read1
    ensures |init| < |h|
    ensures read1 == Ahead(read, |init|) && Copies(h, read1) >= 1
    ensures if |init| == 0 then NoneBefore(h, b, DistanceTo(b, read)) else Copies(h, Ahead(read, |init| - 1)) <= 1
  {
    var n := |init|;
    PoppedCounts(read, h, init, read1, h1);
    DistanceDetermines(read, read1);
    StillLinear(b, h, h1);
    NoneBeforeTop(b, h1, k);
    CopiesMember(h1, read1);
    PoppedCopies(read, h, init, read1, h1, read1);
    if n > 0 {
      var last := Ahead(read, n - 1);
      ReadPosition(b, read, n - 1);
      ReadPosition(b, read, n);
      PoppedCopies(read, h, init, read1, h1, last);
    }
  }

  // ----- where a drain stops -----

  /** The top a drain stops at lies before the packet it waits for. */
  lemma StopsBelow(b: Seq24, read: Seq24, h: seq<OrderedEncap>, ready: seq<Encap>,
                   read': Seq24, h': seq<OrderedEncap>) returns (top: Seq24)
    requires Drained(read, h, ready, read', h') && Reaches(b, read, h)
    requires Copies(h', read') >= 1
    ensures Copies(h', top) >= 1 && DistanceTo(b, top) < DistanceTo(b, read) + |ready|
  {
    PoppedCounts(read, h, ready, read', h');
    DistanceDetermines(read, read');
    ReadPosition(b, read, |ready|);
    assert h' != [];
    var k: nat :| IsTop(h', k) && h'[k].index != read';
    top := h'[k].index;
    StillLinear(b, h, h');
    NoneBeforeTop(b, h', k);
    CopiesMember(h', top);
    DistanceDetermines(b, top);
    DistanceDetermines(b, read');
  }

  /** Everything released is a chain; if the next packet is still there, an obstacle lies on top of it. */
  lemma WaitingIsObstructed(b: Seq24, read: Seq24, h: seq<OrderedEncap>, ready: seq<Encap>,
                            read': Seq24, h': seq<OrderedEncap>)
    requires Drained(read, h, ready, read', h') && Reaches(b, read, h)
    requires Copies(h', read') >= 1
    ensures StopsShort(h, b, read, |ready|)
  {
    PoppedChain(b, read, h, ready, read', h');
    PoppedCounts(read, h, ready, read', h');
    var top := StopsBelow(b, read, h, ready, read', h');
    PoppedCopies(read, h, ready, read', h', read');
    PoppedCopies(read, h, ready, read', h', top);
    if ready != [] {
      SecondCopy(b, read, h, |ready|, top);
    }
  }

  /** Before the end of a chain and still there after it: the second copy of its last index. */
  lemma SecondCopy(b: Seq24, read: Seq24, h: seq<OrderedEncap>, n: nat, top: Seq24)
    requires Chain(h, b, read, n) && n > 0 && DistanceTo(b, read) + n < HALF
    requires DistanceTo(b, top) < DistanceTo(b, read) + n
    requires Copies(h, top) >= if DistanceTo(read, top) < n then 2 else 1
    ensures Copies(h, Ahead(read, n - 1)) >= 2
  {
    assert DistanceTo(b, top) >= DistanceTo(b, read);
    WindowOrder(b, read, top);
    var i := DistanceTo(read, top);
    DistanceDetermines(read, top);
    assert Link(h, read, n, i);
  }

  lemma InnerLink(b: Seq24, read: Seq24, h: seq<OrderedEncap>, m: nat, i: nat)
    requires Chain(h, b, read, m) && i + 1 < m
    ensures Copies(h, Ahead(read, i)) == 1
  {
    assert Link(h, read, m, i);
  }

  /** No chain goes past an obstacle. */
  lemma ChainEndsAtObstacle(b: Seq24, read: Seq24, h: seq<OrderedEncap>, n: nat, m: nat)
    requires Chain(h, b, read, m) && Obstructed(h, b, read, n)
    ensures m <= n
  {
    if 0 < n < m {
      InnerLink(b, read, h, m, n - 1);
    }
  }

  /** A chain that ends in an obstacle is as far as a drain gets. */
  lemma ObstacleStopsDrain(b: Seq24, read: Seq24, h: seq<OrderedEncap>, ready: seq<Encap>,
                           read': Seq24, h': seq<OrderedEncap>, n: nat)
    requires Drained(read, h, ready, read', h') && Reaches(b, read, h)
    requires StopsShort(h, b, read, n)
    ensures |ready| == n && Copies(h', read') >= 1
  {
    var m := |ready|;
    PoppedChain(b, read, h, ready, read', h');
    PoppedCounts(read, h, ready, read', h');
    DistanceDetermines(read, read');
    PoppedCopies(read, h, ready, read', h', read');
    ChainEndsAtObstacle(b, read, h, n, m);
    if m < n {
      assert Link(h, read, n, m);
      WaitingIsObstructed(b, read, h, ready, read', h');
      ChainEndsAtObstacle(b, read, h, m, n);
    }
  }

  /** A drain leaves the packet it waits for on the heap if and only if the packets before it form a chain
      that ends in an index already released. */
  lemma DrainStopsShort(b: Seq24, read: Seq24, h: seq<OrderedEncap>, ready: seq<Encap>,
                        read': Seq24, h': seq<OrderedEncap>)
    requires Drained(read, h, ready, read', h') && Reaches(b, read, h)
    ensures Copies(h', read') >= 1 <==> exists n :: StopsShort(h, b, read, n)
  {
    if Copies(h', read') >= 1 {
      WaitingIsObstructed(b, read, h, ready, read', h');
    }
    if n :| StopsShort(h, b, read, n) {
      ObstacleStopsDrain(b, read, h, ready, read', h', n);
    }
  }

  /** With distinct indices, none of them already released, a drain always releases everything that follows. */
  lemma DistinctDrainsFully(b: Seq24, read: Seq24, h: seq<OrderedEncap>, ready: seq<Encap>,
                            read': Seq24, h': seq<OrderedEncap>)
    requires Drained(read, h, ready, read', h') && Reaches(b, read, h)
    requires DistinctIndices(h) && NoneBefore(h, b, DistanceTo(b, read))
    ensures Copies(h', read') == 0
  {
    if Copies(h', read') >= 1 {
      WaitingIsObstructed(b, read, h, ready, read', h');
      PoppedCounts(read, h, ready, read', h');
      if ready != [] {
        DistinctCopies(h, Ahead(read, |ready| - 1));
      }
    }
  }

  lemma {:induction false} DistinctCopies(h: seq<OrderedEncap>, x: Seq24)
    requires DistinctIndices(h)
    ensures Copies(h, x) <= 1
  {
    if h != [] {
      var init := h[..|h| - 1];
      DistinctCopies(init, x);
      CopiesMember(init, x);
    }
  }

  // ----- a repeated packet does block a channel -----

  /** Indices 1, 1, 0, 3, 2 from the read index on, so every packet up to 3 arrives, and 1 arrives twice. */
  const REPEATED: seq<nat> := [1, 1, 0, 3, 2]

  lemma CopiesOfTwo(h: seq<OrderedEncap>, x: Seq24)
    requires |h| == 2
    ensures Copies(h, x) == (if h[0].index == x then 1 else 0) + (if h[1].index == x then 1 else 0)
  {
    var front := h[..1];
    assert front[..0] == [];
    assert Copies(front, x) == if h[0].index == x then 1 else 0;
  }

  lemma DrainOfCopies(read: Seq24, h: seq<OrderedEncap>, ready: seq<Encap>, read': Seq24, h': seq<OrderedEncap>)
    requires Drained(read, h, ready, read', h') && |h| == 2 && h[0].index == h[1].index == read
    ensures |ready| == 1 && read' == Next(read) && |h'| == 1 && h'[0].index == read
  {
    PoppedCounts(read, h, ready, read', h');
    PoppedChain(read, read, h, ready, read', h');
    CopiesOfTwo(h, read);
    DistanceDetermines(read, read);
    DistanceDetermines(read, read');
    if |ready| == 2 {
      InnerLink(read, read, h, 2, 0);
    }
    forall e | e in h'
      ensures e.index == read
    {
      assert e in h;
    }
  }

  lemma StepsAhead(b: Seq24, i: nat, j: nat)
    requires i <= 3 && j <= 3
    ensures Wrap(b + i) == Ahead(b, i)
    ensures Lt(Ahead(b, i), Ahead(b, j)) <==> i < j
    ensures Gt(Ahead(b, i), Ahead(b, j)) <==> i > j
    ensures Next(Ahead(b, i)) == Ahead(b, i + 1)
  {
    AheadIsWrap(b, i);
    WindowOrder(b, Ahead(b, i), Ahead(b, j));
  }

  /** The second copy of packet 1 stays on top, so packet 3 is never released although it is the next one. */
  lemma RepeatedPacketBlocksChannel(b: Seq24, encs: seq<Encap>, readAt: seq<Seq24>,
                                    heapAt: seq<seq<OrderedEncap>>, outs: seq<seq<Encap>>)
    requires IsRun(b, REPEATED, encs, readAt, heapAt, outs)
    ensures |outs[0]| == |outs[1]| == 0 && |outs[2]| == 2 && |outs[3]| == 0 && |outs[4]| == 1
    ensures readAt[5] == Ahead(b, 3) && Copies(heapAt[5], Ahead(b, 3)) == 1 && Copies(heapAt[5], Ahead(b, 1)) == 1
  {
    FirstTwoArrivals(b, encs, readAt, heapAt, outs);
    assert StepAt(b, REPEATED, encs, readAt, heapAt, outs, 2);
    StepsAhead(b, 0, 0);
    StepsAhead(b, 1, 1);
    DistanceDetermines(b, b);
    DrainOfCopies(Ahead(b, 1), heapAt[2], outs[2][1..], readAt[3], heapAt[3]);
    FourthArrival(b, encs, readAt, heapAt, outs);
    FifthArrival(b, encs, readAt, heapAt, outs);
  }

  lemma FirstTwoArrivals(b: Seq24, encs: seq<Encap>, readAt: seq<Seq24>,
                         heapAt: seq<seq<OrderedEncap>>, outs: seq<seq<Encap>>)
    requires IsRun(b, REPEATED, encs, readAt, heapAt, outs)
    ensures outs[0] == outs[1] == [] && readAt[2] == b
    ensures |heapAt[2]| == 2 && heapAt[2][0].index == heapAt[2][1].index == Ahead(b, 1)
  {
    StepsAhead(b, 0, 1);
    StepsAhead(b, 1, 1);
    DistanceDetermines(b, b);
    assert StepAt(b, REPEATED, encs, readAt, heapAt, outs, 0);
    assert StepAt(b, REPEATED, encs, readAt, heapAt, outs, 1);
  }

  lemma FourthArrival(b: Seq24, encs: seq<Encap>, readAt: seq<Seq24>,
                      heapAt: seq<seq<OrderedEncap>>, outs: seq<seq<Encap>>)
    requires IsRun(b, REPEATED, encs, readAt, heapAt, outs)
    requires readAt[3] == Ahead(b, 2) && |heapAt[3]| == 1 && heapAt[3][0].index == Ahead(b, 1)
    ensures outs[3] == [] && readAt[4] == Ahead(b, 2)
    ensures |heapAt[4]| == 2 && heapAt[4][0].index == Ahead(b, 1) && heapAt[4][1].index == Ahead(b, 3)
  {
    StepsAhead(b, 2, 3);
    assert StepAt(b, REPEATED, encs, readAt, heapAt, outs, 3);
    AheadIsWrap(b, 3);
    BufferedAhead(readAt[3], heapAt[3], Ahead(b, 3), encs[3], outs[3], readAt[4], heapAt[4]);
  }

  lemma FifthArrival(b: Seq24, encs: seq<Encap>, readAt: seq<Seq24>,
                     heapAt: seq<seq<OrderedEncap>>, outs: seq<seq<Encap>>)
    requires IsRun(b, REPEATED, encs, readAt, heapAt, outs)
    requires readAt[4] == Ahead(b, 2)
    requires |heapAt[4]| == 2 && heapAt[4][0].index == Ahead(b, 1) && heapAt[4][1].index == Ahead(b, 3)
    ensures |outs[4]| == 1 && readAt[5] == Ahead(b, 3)
    ensures Copies(heapAt[5], Ahead(b, 3)) == 1 && Copies(heapAt[5], Ahead(b, 1)) == 1
  {
    var h := heapAt[4];
    StepsAhead(b, 2, 2);
    assert StepAt(b, REPEATED, encs, readAt, heapAt, outs, 4);
    StepsAhead(b, 1, 3);
    WindowOrder(b, Ahead(b, 1), Ahead(b, 3));
    StaleTopStopsDraining(h[0], Ahead(b, 3), h, outs[4][1..], readAt[5], heapAt[5]);
    CopiesOfTwo(h, Ahead(b, 1));
    CopiesOfTwo(h, Ahead(b, 3));
  }

  // ----- and for how long -----

  /** A channel in any state, offered packets with the indices `idxs` one after the other. */
  ghost predicate IsFeed(idxs: seq<Seq24>, encs: seq<Encap>, readAt: seq<Seq24>,
                         heapAt: seq<seq<OrderedEncap>>, outs: seq<seq<Encap>>)
  {
    && |idxs| == |encs| == |outs|
    && |readAt| == |heapAt| == |idxs| + 1
    && forall i :: 0 <= i < |idxs| ==> FedAt(idxs, encs, readAt, heapAt, outs, i)
  }

  ghost predicate FedAt(idxs: seq<Seq24>, encs: seq<Encap>, readAt: seq<Seq24>,
                        heapAt: seq<seq<OrderedEncap>>, outs: seq<seq<Encap>>, i: nat)
    requires i < |idxs| == |encs| == |outs| && |readAt| == |heapAt| == |idxs| + 1
  {
    Offered(readAt[i], heapAt[i], idxs[i], encs[i], outs[i], readAt[i + 1], heapAt[i + 1])
  }

  /** `stale` is on the heap although its index has been released, and everything lies in the half circle after it. */
  ghost predicate Blocked(stale: OrderedEncap, read: Seq24, h: seq<OrderedEncap>) {
    stale in h && Linear(h, stale.index) && 0 < DistanceTo(stale.index, read) < HALF
  }

  /** A blocked channel passes on the packet it waits for, and nothing from its heap, which only grows. */
  lemma BlockedStep(stale: OrderedEncap, read: Seq24, h: seq<OrderedEncap>, idx: Seq24, enc: Encap,
                    ready: seq<Encap>, read': Seq24, h': seq<OrderedEncap>)
    requires Blocked(stale, read, h) && DistanceTo(stale.index, read) + 1 < HALF
    requires DistanceTo(stale.index, idx) < HALF
    requires Offered(read, h, idx, enc, ready, read', h')
    ensures Blocked(stale, read', h') && h <= h'
    ensures ready == (if idx == read then [enc] else []) && read' == (if idx == read then Next(read) else read)
    ensures idx != read && Gt(idx, read) && |h| < HEAP_LIMIT ==> h' == h + [OrderedEncap(idx, enc)]
  {
    WindowOrder(stale.index, read, idx);
    NextDistance(stale.index, read);
    if idx == read {
      StaleTopStopsDraining(stale, Next(read), h, ready[1..], read', h');
      assert ready == [ready[0]];
    }
  }

  /** What a drain leaves behind lies no earlier than the last packet it released. */
  lemma LeftFromLast(b: Seq24, read: Seq24, h: seq<OrderedEncap>, ready: seq<Encap>,
                     read': Seq24, h': seq<OrderedEncap>, x: Seq24)
    requires Drained(read, h, ready, read', h') && Reaches(b, read, h) && ready != []
    requires Copies(h', x) >= 1
    ensures DistanceTo(b, x) + 1 >= DistanceTo(b, read) + |ready|
  {
    PoppedChain(b, read, h, ready, read', h');
    PoppedCounts(read, h, ready, read', h');
    PoppedCopies(read, h, ready, read', h', x);
    if DistanceTo(b, x) + 1 < DistanceTo(b, read) + |ready| {
      assert DistanceTo(b, x) >= DistanceTo(b, read);
      WindowOrder(b, read, x);
      DistanceDetermines(read, x);
      InnerLink(b, read, h, |ready|, DistanceTo(read, x));
    }
  }

  /** A packet that is on the heap twice when a drain reaches it blocks the channel. */
  lemma SecondCopyBlocks(b: Seq24, read: Seq24, h: seq<OrderedEncap>, ready: seq<Encap>,
                         read': Seq24, h': seq<OrderedEncap>, x: Seq24) returns (stale: OrderedEncap)
    requires Drained(read, h, ready, read', h') && Reaches(b, read, h)
    requires Copies(h, x) >= 2 && DistanceTo(read, x) < |ready|
    ensures stale.index == x && Blocked(stale, read', h')
  {
    PoppedCounts(read, h, ready, read', h');
    PoppedCopies(read, h, ready, read', h', x);
    CopiesMember(h', x);
    var k :| 0 <= k < |h'| && h'[k].index == x;
    stale := h'[k];
    LeftFromLast(b, read, h, ready, read', h', x);
    ReadPosition(b, read, DistanceTo(read, x));
    DistanceDetermines(read, x);
    ReadPosition(b, read, |ready|);
    DistanceDetermines(read, read');
    WindowOrder(b, x, read');
    forall i | 0 <= i < |h'|
      ensures DistanceTo(x, h'[i].index) < HALF
    {
      CopiesMember(h', h'[i].index);
      LeftFromLast(b, read, h, ready, read', h', h'[i].index);
      assert h'[i] in h;
      WindowOrder(b, x, h'[i].index);
    }
  }

  /** How many of the first `i` packets arrived just when the channel waited for them. */
  function OnTime(idxs: seq<Seq24>, readAt: seq<Seq24>, i: nat): nat
    requires i <= |idxs| < |readAt|
  {
    if i == 0 then 0 else OnTime(idxs, readAt, i - 1) + if idxs[i - 1] == readAt[i - 1] then 1 else 0
  }

  lemma {:induction false} StaysBlocked(stale: OrderedEncap, idxs: seq<Seq24>, encs: seq<Encap>, readAt: seq<Seq24>,
                                        heapAt: seq<seq<OrderedEncap>>, outs: seq<seq<Encap>>, i: nat)
    requires IsFeed(idxs, encs, readAt, heapAt, outs) && Blocked(stale, readAt[0], heapAt[0])
    requires DistanceTo(stale.index, readAt[0]) + |idxs| < HALF
    requires forall j :: 0 <= j < |idxs| ==> DistanceTo(stale.index, idxs[j]) < HALF
    requires i <= |idxs|
    ensures Blocked(stale, readAt[i], heapAt[i]) && heapAt[0] <= heapAt[i]
    ensures DistanceTo(stale.index, readAt[i]) == DistanceTo(stale.index, readAt[0]) + OnTime(idxs, readAt, i)
    ensures OnTime(idxs, readAt, i) <= i
  {
    if i > 0 {
      var j := i - 1;
      StaysBlocked(stale, idxs, encs, readAt, heapAt, outs, j);
      assert FedAt(idxs, encs, readAt, heapAt, outs, j);
      BlockedStep(stale, readAt[j], heapAt[j], idxs[j], encs[j], outs[j], readAt[i], heapAt[i]);
      NextDistance(stale.index, readAt[j]);
    }
  }

  /** As long as all numbers stay in the half circle after a stale element, nothing that is or comes on the heap
      is ever released: the channel passes on exactly the packets that arrive when it waits for them. */
  lemma BlockedForGood(stale: OrderedEncap, idxs: seq<Seq24>, encs: seq<Encap>, readAt: seq<Seq24>,
                       heapAt: seq<seq<OrderedEncap>>, outs: seq<seq<Encap>>, i: nat)
    requires IsFeed(idxs, encs, readAt, heapAt, outs) && Blocked(stale, readAt[0], heapAt[0])
    requires DistanceTo(stale.index, readAt[0]) + |idxs| < HALF
    requires forall j :: 0 <= j < |idxs| ==> DistanceTo(stale.index, idxs[j]) < HALF
    requires i < |idxs|
    ensures outs[i] == (if idxs[i] == readAt[i] then [encs[i]] else [])
    ensures stale in heapAt[i + 1] && heapAt[0] <= heapAt[i] <= heapAt[i + 1]
    ensures DistanceTo(stale.index, readAt[i + 1]) ==
            DistanceTo(stale.index, readAt[0]) + OnTime(idxs, readAt, i + 1)
  {
    StaysBlocked(stale, idxs, encs, readAt, heapAt, outs, i);
    StaysBlocked(stale, idxs, encs, readAt, heapAt, outs, i + 1);
    assert FedAt(idxs, encs, readAt, heapAt, outs, i);
    BlockedStep(stale, readAt[i], heapAt[i], idxs[i], encs[i], outs[i], readAt[i + 1], heapAt[i + 1]);
  }
}
