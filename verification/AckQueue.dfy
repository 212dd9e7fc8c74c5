/** The bounded, merging queue of ACK and NACK ranges (raknet/src/session/ack_queue.rs). */
module AckQueues {
  import opened Sequence24
  import opened Wrappers
  import opened Ranges
  import opened Sequences

  // ----- specification -----

  /** The queue after offering `r` to a queue `q` bounded by `max` ranges. */
  function Pushed(q: seq<SequenceRange>, max: nat, r: SequenceRange): seq<SequenceRange>
    decreases RecordCount(r)
  {
    if |q| >= max then q
    else if q != [] && Next(q[|q| - 1].end) == r.start then
      q[|q| - 1 := SequenceRange(q[|q| - 1].start, r.end)]
    else if q != [] && Ge(q[|q| - 1].end, r.start) && Ge(r.end, q[|q| - 1].start) then
      q[|q| - 1 := SequenceRange(Min(q[|q| - 1].start, r.start), Max(q[|q| - 1].end, r.end))]
    else if Wraps(r) then
      var (tail, head) := SplitWrapping(r).value;
      Pushed(Pushed(q, max, tail), max, head)
    else q + [r]
  }

  function PushedAll(q: seq<SequenceRange>, max: nat, rs: seq<SequenceRange>): seq<SequenceRange> {
    if rs == [] then q
    else Pushed(PushedAll(q, max, rs[..|rs| - 1]), max, rs[|rs| - 1])
  }

  lemma PushedOneMore(q: seq<SequenceRange>, max: nat, rs: seq<SequenceRange>, r: SequenceRange)
    ensures PushedAll(q, max, rs + [r]) == Pushed(PushedAll(q, max, rs), max, r)
  {
    assert (rs + [r])[..|rs|] == rs;
  }

  /** `k` is the longest prefix whose encoding fits the MTU, but at least one range if there is one. */
  ghost predicate IsPopCount(q: seq<SequenceRange>, mtu: nat, overhead: nat, k: nat) {
    && k <= |q|
    && (q != [] ==> k >= 1)
    && (k >= 2 ==> overhead + TotalEncodedSize(q[..k]) <= mtu)
    && (k == |q| || overhead + TotalEncodedSize(q[..k + 1]) > mtu)
  }

  // ----- the queue object -----

  class AckQueue {
    const maxRanges: nat
    var queue: seq<SequenceRange>

    constructor (maxRanges: nat)
      ensures this.maxRanges == maxRanges && queue == []
    {
      this.maxRanges := maxRanges;
      queue := [];
    }

    method Push(range: SequenceRange)
      modifies this
      ensures queue == Pushed(old(queue), maxRanges, range)
      decreases RecordCount(range)
    {
      if |queue| >= maxRanges {
        return;
      }
      if queue != [] {
        var last := queue[|queue| - 1];
        if Next(last.end) == range.start {
          queue := queue[|queue| - 1 := last.(end := range.end)];
          return;
        }
        if Ge(last.end, range.start) && Ge(range.end, last.start) {
          last := last.(end := Max(last.end, range.end));
          last := last.(start := Min(last.start, range.start));
          queue := queue[|queue| - 1 := last];
          return;
        }
      }
      match SplitWrapping(range)
      case Some((tail, head)) =>
        Push(tail);
        Push(head);
      case None =>
        queue := queue + [range];
    }

    method PopForMtu(mtu: nat, baseOverhead: nat) returns (ranges: seq<SequenceRange>)
      modifies this
      ensures old(queue) == ranges + queue
      ensures IsPopCount(old(queue), mtu, baseOverhead, |ranges|)
    {
      ranges := [];
      var used := baseOverhead;
      ghost var all := queue;
      while queue != []
        invariant all == ranges + queue
        invariant used == baseOverhead + TotalEncodedSize(ranges)
        invariant |ranges| >= 2 ==> used <= mtu
        decreases |queue|
      {
        var size := EncodedSize(queue[0]);
        OneMoreFits(all, ranges, queue);
        if ranges != [] && used + size > mtu {
          break;
        }
        used := used + size;
        ranges, queue := ranges + [queue[0]], queue[1..];
      }
      assert all[..|ranges|] == ranges;
    }
  }

  /** The front of the queue added to what has been taken. */
  lemma OneMoreFits(all: seq<SequenceRange>, ranges: seq<SequenceRange>, queue: seq<SequenceRange>)
    requires all == ranges + queue && queue != []
    ensures all[..|ranges|] == ranges && all == (ranges + [queue[0]]) + queue[1..]
    ensures all[..|ranges| + 1] == ranges + [queue[0]]
    ensures TotalEncodedSize(ranges + [queue[0]]) == TotalEncodedSize(ranges) + EncodedSize(queue[0])
  {
    FrontMoved(ranges, queue);
    var more := ranges + [queue[0]];
    assert more[..|ranges|] == ranges && |more| == |ranges| + 1;
    assert all[..|ranges| + 1] == more;
  }

  predicate AscendingStarts(rs: seq<SequenceRange>) {
    forall i :: 0 <= i < |rs| - 1 ==> rs[i].start <= rs[i + 1].start
  }

  /** `sort_by_key` on the start value. */
  function SortedByStart(rs: seq<SequenceRange>): (sorted: seq<SequenceRange>)
    ensures multiset(sorted) == multiset(rs)
    ensures AscendingStarts(sorted)
  {
    if rs == [] then []
    else
      assert rs == rs[..|rs| - 1] + [rs[|rs| - 1]];
      InsertedByStart(SortedByStart(rs[..|rs| - 1]), rs[|rs| - 1])
  }

  function InsertedByStart(sorted: seq<SequenceRange>, r: SequenceRange): (out: seq<SequenceRange>)
    requires AscendingStarts(sorted)
    ensures multiset(out) == multiset(sorted) + multiset{r}
    ensures AscendingStarts(out)
    ensures out != [] && (out[|out| - 1] == r || (sorted != [] && out[|out| - 1] == sorted[|sorted| - 1]))
  {
    if sorted == [] || sorted[|sorted| - 1].start <= r.start then sorted + [r]
    else
      assert sorted == sorted[..|sorted| - 1] + [sorted[|sorted| - 1]];
      InsertedByStart(sorted[..|sorted| - 1], r) + [sorted[|sorted| - 1]]
  }

  lemma SortingKeepsCoverage(rs: seq<SequenceRange>, s: Seq24)
    ensures Covered(SortedByStart(rs), s) <==> Covered(rs, s)
  {
    var sorted := SortedByStart(rs);
    if Covered(rs, s) {
      var i :| 0 <= i < |rs| && InRange(rs[i], s);
      assert rs[i] in multiset(sorted);
      var j :| 0 <= j < |sorted| && sorted[j] == rs[i];
    }
    if Covered(sorted, s) {
      var i :| 0 <= i < |sorted| && InRange(sorted[i], s);
      assert sorted[i] in multiset(rs);
      var j :| 0 <= j < |rs| && rs[j] == sorted[i];
    }
  }

  // ----- agreement with a set of numbers -----

  /** `r` runs forward inside the half circle that begins at `b`. */
  predicate InWindow(b: Seq24, r: SequenceRange) {
    DistanceTo(b, r.start) <= DistanceTo(b, r.end) < HALF
  }

  ghost predicate AllInWindow(b: Seq24, q: seq<SequenceRange>) {
    forall i :: 0 <= i < |q| ==> InWindow(b, q[i])
  }

  lemma WindowMembership(b: Seq24, r: SequenceRange, s: Seq24)
    requires InWindow(b, r)
    ensures InRange(r, s) <==> DistanceTo(b, r.start) <= DistanceTo(b, s) <= DistanceTo(b, r.end)
  {
  }

  /** Changing the last range changes coverage only through that range. */
  lemma ReplaceLast(q: seq<SequenceRange>, r: SequenceRange, s: Seq24)
    requires q != []
    ensures Covered(q[|q| - 1 := r], s) <==> Covered(q[..|q| - 1], s) || InRange(r, s)
    ensures Covered(q, s) <==> Covered(q[..|q| - 1], s) || InRange(q[|q| - 1], s)
  {
    CoveredConcat(q[..|q| - 1], [r], s);
    CoveredConcat(q[..|q| - 1], [q[|q| - 1]], s);
    assert q[|q| - 1 := r] == q[..|q| - 1] + [r];
    assert q == q[..|q| - 1] + [q[|q| - 1]];
    CoveredSingle(r, s);
    CoveredSingle(q[|q| - 1], s);
  }

  lemma CoveredSingle(r: SequenceRange, s: Seq24)
    ensures Covered([r], s) <==> InRange(r, s)
  {
    assert [r][0] == r;
  }

  /** Merging with the last range, by adjacency or by overlap, joins the two member sets exactly. */
  lemma MergeIsUnion(b: Seq24, last: SequenceRange, r: SequenceRange, s: Seq24)
    requires InWindow(b, last) && InWindow(b, r)
    ensures Next(last.end) == r.start ==>
              var m := SequenceRange(last.start, r.end);
              InWindow(b, m) && (InRange(m, s) <==> InRange(last, s) || InRange(r, s))
    ensures Ge(last.end, r.start) && Ge(r.end, last.start) ==>
              var m := SequenceRange(Min(last.start, r.start), Max(last.end, r.end));
              InWindow(b, m) && (InRange(m, s) <==> InRange(last, s) || InRange(r, s))
  {
    WindowMembership(b, last, s);
    WindowMembership(b, r, s);
    NextDistance(b, last.end);
    WindowOrder(b, last.end, r.start);
    WindowOrder(b, r.end, last.start);
    WindowOrder(b, last.end, r.end);
    WindowOrder(b, last.start, r.start);
    if Next(last.end) == r.start {
      WindowMembership(b, SequenceRange(last.start, r.end), s);
    }
    if Ge(last.end, r.start) && Ge(r.end, last.start) {
      WindowMembership(b, SequenceRange(Min(last.start, r.start), Max(last.end, r.end)), s);
    }
  }

  /** The new range is merged into the last one. */
  predicate Merges(q: seq<SequenceRange>, r: SequenceRange) {
    && q != []
    && (Next(q[|q| - 1].end) == r.start || (Ge(q[|q| - 1].end, r.start) && Ge(r.end, q[|q| - 1].start)))
  }

  /** A merging range needs one free slot, any other one slot a record. */
  predicate HasRoom(q: seq<SequenceRange>, max: nat, r: SequenceRange) {
    |q| < max && (Merges(q, r) || |q| + RecordCount(r) <= max)
  }

  /** With room a push adds exactly the members of `r`. */
  lemma PushWithRoom(b: Seq24, q: seq<SequenceRange>, max: nat, r: SequenceRange)
    requires AllInWindow(b, q) && InWindow(b, r)
    requires HasRoom(q, max, r)
    ensures AllInWindow(b, Pushed(q, max, r))
    ensures |Pushed(q, max, r)| <= |q| + RecordCount(r)
    ensures forall s: Seq24 :: Covered(Pushed(q, max, r), s) <==> Covered(q, s) || InRange(r, s)
    decreases RecordCount(r)
  {
    var q' := Pushed(q, max, r);
    if Merges(q, r) {
      var last, m := q[|q| - 1], q'[|q| - 1];
      forall s: Seq24
        ensures Covered(q', s) <==> Covered(q, s) || InRange(r, s)
        ensures InWindow(b, m)
      {
        MergeIsUnion(b, last, r, s);
        ReplaceLast(q, m, s);
      }
      MergeIsUnion(b, last, r, 0);
    } else if Wraps(r) {
      PushWrapping(b, q, max, r);
    } else {
      forall s: Seq24
        ensures Covered(q', s) <==> Covered(q, s) || InRange(r, s)
      {
        CoveredConcat(q, [r], s);
        CoveredSingle(r, s);
      }
    }
  }

  /** A wrapping range is pushed as its two records. */
  lemma PushWrapping(b: Seq24, q: seq<SequenceRange>, max: nat, r: SequenceRange)
    requires AllInWindow(b, q) && InWindow(b, r) && Wraps(r)
    requires |q| + 2 <= max
    ensures var (tail, head) := SplitWrapping(r).value;
            var q' := Pushed(Pushed(q, max, tail), max, head);
            && AllInWindow(b, q')
            && |q'| <= |q| + 2
            && forall s: Seq24 :: Covered(q', s) <==> Covered(q, s) || InRange(r, s)
    decreases RecordCount(r), 0
  {
    var (tail, head) := SplitWrapping(r).value;
    PushWithRoom(b, q, max, tail);
    PushWithRoom(b, Pushed(q, max, tail), max, head);
    forall s: Seq24
      ensures InRange(r, s) <==> InRange(tail, s) || InRange(head, s)
    {
      SplitPartitions(r, s);
    }
  }

  /** The queue never invents a number: wherever its endpoints lie, full or not,
      pushing a single number covers nothing beyond that number. */
  lemma PushSingletonIsSound(q: seq<SequenceRange>, max: nat, n: Seq24, s: Seq24)
    ensures Covered(Pushed(q, max, Singleton(n)), s) ==> Covered(q, s) || s == n
  {
    var r := Singleton(n);
    var q' := Pushed(q, max, r);
    if |q| >= max {
    } else if q != [] && Next(q[|q| - 1].end) == r.start {
      var last := q[|q| - 1];
      ReplaceLast(q, SequenceRange(last.start, n), s);
      NextDistance(last.start, last.end);
    } else if q != [] && Ge(q[|q| - 1].end, r.start) && Ge(r.end, q[|q| - 1].start) {
      var last := q[|q| - 1];
      ReplaceLast(q, SequenceRange(Min(last.start, n), Max(last.end, n)), s);
    } else {
      CoveredConcat(q, [r], s);
      CoveredSingle(r, s);
    }
  }

  /** Popping splits coverage between what leaves and what stays. */
  lemma PopSplitsCoverage(ranges: seq<SequenceRange>, rest: seq<SequenceRange>, s: Seq24)
    ensures Covered(ranges + rest, s) <==> Covered(ranges, s) || Covered(rest, s)
  {
    CoveredConcat(ranges, rest, s);
  }

  /** With a single free slot, a wrapping range that does not merge loses every number past the wrap. */
  lemma OneSlotKeepsOnlyTheTail(b: Seq24, q: seq<SequenceRange>, max: nat, r: SequenceRange)
    requires AllInWindow(b, q) && InWindow(b, r) && Wraps(r)
    requires |q| + 1 == max && !Merges(q, r)
    ensures Pushed(q, max, r) == q + [SplitWrapping(r).value.0]
    ensures AllInWindow(b, Pushed(q, max, r))
    ensures forall s: Seq24 :: Covered(Pushed(q, max, r), s) <==> Covered(q, s) || InRange(SplitWrapping(r).value.0, s)
  {
    var (tail, head) := SplitWrapping(r).value;
    assert Pushed(q, max, tail) == q + [tail] by {
      if q != [] {
        var last := q[|q| - 1];
        WindowOrder(b, last.end, r.start);
        WindowOrder(b, r.end, last.start);
        WindowOrder(b, tail.end, last.start);
      }
    }
    PushWithRoom(b, q, max, tail);
  }

  /** What a push loses: everything if the queue is full, the part past the wrap if that finds no slot. */
  function Lost(q: seq<SequenceRange>, max: nat, r: SequenceRange): Option<SequenceRange> {
    if HasRoom(q, max, r) then None
    else if |q| >= max || !Wraps(r) then Some(r)
    else Some(SplitWrapping(r).value.1)
  }

  predicate IsLost(q: seq<SequenceRange>, max: nat, r: SequenceRange, s: Seq24) {
    Lost(q, max, r).Some? && InRange(Lost(q, max, r).value, s)
  }

  /** Whatever the room, a push covers exactly the old numbers and those of `r` that are not lost. */
  lemma PushCovers(b: Seq24, q: seq<SequenceRange>, max: nat, r: SequenceRange, s: Seq24)
    requires AllInWindow(b, q) && InWindow(b, r)
    ensures AllInWindow(b, Pushed(q, max, r))
    ensures Covered(Pushed(q, max, r), s) <==> Covered(q, s) || (InRange(r, s) && !IsLost(q, max, r, s))
  {
    if HasRoom(q, max, r) {
      PushWithRoom(b, q, max, r);
    } else if |q| < max {
      OneSlotKeepsOnlyTheTail(b, q, max, r);
      SplitPartitions(r, s);
    }
  }

  /** A push is exact precisely when what it loses was covered already; with room it loses nothing. */
  lemma PushIsUnion(b: Seq24, q: seq<SequenceRange>, max: nat, r: SequenceRange)
    requires AllInWindow(b, q) && InWindow(b, r)
    ensures (forall s: Seq24 :: Covered(Pushed(q, max, r), s) <==> Covered(q, s) || InRange(r, s)) <==>
            HasRoom(q, max, r) || (forall s: Seq24 :: IsLost(q, max, r, s) ==> Covered(q, s))
  {
    forall s: Seq24
      ensures Covered(Pushed(q, max, r), s) <==> Covered(q, s) || (InRange(r, s) && !IsLost(q, max, r, s))
      ensures IsLost(q, max, r, s) ==> InRange(r, s)
    {
      PushCovers(b, q, max, r, s);
      if Wraps(r) {
        SplitPartitions(r, s);
      }
    }
  }
}
