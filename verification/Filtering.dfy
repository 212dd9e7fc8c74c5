/**
 What the duplicate filter of a receiver (raknet/src/session/reliable_tracker.rs) takes for a duplicate.
 Each time the index waited for arrives, the marks of the indices ahead of it come to stand for the index
 one further on; so the filter can let a repetition pass and drop an index that never came. When it does is
 stated exactly, for every sequence of arrivals.
*/
module Filtering {
  import opened Sequence24
  import opened Wrappers
  import opened Protocol
  import opened Ordering
  import opened Receiving

  function Fresh(max: nat): ReliableTracker {
    ReliableTracker(0, [], max)
  }

  /** An index is dropped when the filter has seen it, and marked otherwise. */
  function Filtered(t: ReliableTracker, ridx: Seq24): ReliableTracker {
    if t.HasSeen(ridx) then t else t.Seeing(ridx)
  }

  /** The filter after the first `n` arrivals. */
  function After(max: nat, arrivals: seq<Seq24>, n: nat): ReliableTracker
    requires n <= |arrivals|
  {
    if n == 0 then Fresh(max) else Filtered(After(max, arrivals, n - 1), arrivals[n - 1])
  }

  /** Arrival `j` is the index the filter waits for. */
  predicate Expected(max: nat, arrivals: seq<Seq24>, j: nat)
    requires j < |arrivals|
  {
    arrivals[j] == After(max, arrivals, j).base
  }

  /** Arrival `j` is ahead of the index waited for, within the window, and not taken for a duplicate. */
  predicate MarkedAhead(max: nat, arrivals: seq<Seq24>, j: nat)
    requires j < |arrivals|
  {
    var t := After(max, arrivals, j);
    0 < DistanceTo(t.base, arrivals[j]) <= max && !t.HasSeen(arrivals[j])
  }

  /** How many of the arrivals from `from` up to `n` were the index waited for. */
  function Hits(max: nat, arrivals: seq<Seq24>, from: nat, n: nat): nat
    requires n <= |arrivals|
    decreases n
  {
    if n <= from then 0
    else Hits(max, arrivals, from, n - 1) + if Expected(max, arrivals, n - 1) then 1 else 0
  }

  function Leading(window: seq<bool>): nat {
    if window != [] && window[0] then 1 + Leading(window[1..]) else 0
  }

  /** How far an arrival moves the index waited for. */
  function Advance(t: ReliableTracker, ridx: Seq24): nat {
    if ridx == t.base then 1 + Leading(t.window) else 0
  }

  /** How far the index waited for has moved in `n` arrivals, not reduced modulo 2^24. */
  function Moved(max: nat, arrivals: seq<Seq24>, n: nat): nat
    requires n <= |arrivals|
  {
    if n == 0 then 0
    else Moved(max, arrivals, n - 1) + Advance(After(max, arrivals, n - 1), arrivals[n - 1])
  }

  /** The unwrapped number that `ridx` stands for after `n` arrivals, counting on from the index waited for. */
  function Place(max: nat, arrivals: seq<Seq24>, n: nat, ridx: Seq24): nat
    requires n <= |arrivals|
  {
    Moved(max, arrivals, n) + DistanceTo(After(max, arrivals, n).base, ridx)
  }

  /** After `n` arrivals the mark of arrival `j` stands for `place`: one further for each hit since. */
  predicate StandsFor(max: nat, arrivals: seq<Seq24>, j: nat, n: nat, place: nat)
    requires j < n <= |arrivals|
  {
    MarkedAhead(max, arrivals, j) && Place(max, arrivals, j, arrivals[j]) + Hits(max, arrivals, j + 1, n) == place
  }

  ghost predicate SomeStandsFor(max: nat, arrivals: seq<Seq24>, n: nat, place: nat)
    requires n <= |arrivals|
  {
    exists j: nat :: j < n && StandsFor(max, arrivals, j, n, place)
  }

  // ----- the window and what it marks -----

  lemma {:induction false} AdvancedShape(t: ReliableTracker)
    ensures Leading(t.window) <= |t.window|
    ensures t.Advanced() ==
            ReliableTracker(Wrap(t.base + Leading(t.window)), t.window[Leading(t.window)..], t.maxWindow)
    decreases |t.window|
  {
    if t.window != [] && t.window[0] {
      AdvancedShape(ReliableTracker(Next(t.base), t.window[1..], t.maxWindow));
      WrapAdds(t.base + 1, Leading(t.window[1..]));
      WrapSteps(t.base);
    }
  }

  lemma WrapAdds(u: int, n: nat)
    ensures Wrap(Wrap(u) + n) == Wrap(u + n)
  {
    var q := u / MODULO;
    assert u == q * MODULO + Wrap(u);
    WrapShift(Wrap(u) + n, q);
  }

  lemma WrapShift(u: int, q: int)
    ensures Wrap(u + q * MODULO) == Wrap(u)
  {
  }

  lemma SeveralMoves(base: Seq24, moved: nat, n: nat)
    requires base == Wrap(moved)
    ensures Wrap(Next(base) + n) == Wrap(moved + 1 + n)
  {
    WrapSteps(moved);
    WrapAdds(moved + 1, n);
  }

  lemma FilteredBase(t: ReliableTracker, ridx: Seq24, moved: nat)
    requires t.base == Wrap(moved)
    ensures Filtered(t, ridx).base == Wrap(moved + Advance(t, ridx))
  {
    if ridx == t.base {
      AdvancedShape(t.(base := Next(t.base)));
      SeveralMoves(t.base, moved, Leading(t.window));
    }
  }

  /** The index waited for is the count of moves, reduced. */
  lemma {:induction false} BaseIsMoved(max: nat, arrivals: seq<Seq24>, n: nat)
    requires n <= |arrivals|
    ensures After(max, arrivals, n).base == Wrap(Moved(max, arrivals, n))
  {
    if n > 0 {
      BaseIsMoved(max, arrivals, n - 1);
      FilteredBase(After(max, arrivals, n - 1), arrivals[n - 1], Moved(max, arrivals, n - 1));
    }
  }

  /** One more arrival: every mark stands for one further after a hit, and the arrival may be marked itself. */
  lemma OneMore(max: nat, arrivals: seq<Seq24>, n: nat, place: nat)
    requires 0 < n <= |arrivals|
    ensures var hit := if Expected(max, arrivals, n - 1) then 1 else 0;
            SomeStandsFor(max, arrivals, n, place) <==>
            || (place >= hit && SomeStandsFor(max, arrivals, n - 1, place - hit))
            || (MarkedAhead(max, arrivals, n - 1) && Place(max, arrivals, n - 1, arrivals[n - 1]) == place)
  {
    var hit := if Expected(max, arrivals, n - 1) then 1 else 0;
    if SomeStandsFor(max, arrivals, n, place) {
      var j: nat :| j < n && StandsFor(max, arrivals, j, n, place);
      if j < n - 1 {
        assert StandsFor(max, arrivals, j, n - 1, place - hit);
      }
    }
    if place >= hit && SomeStandsFor(max, arrivals, n - 1, place - hit) {
      var j: nat :| j < n - 1 && StandsFor(max, arrivals, j, n - 1, place - hit);
      assert StandsFor(max, arrivals, j, n, place);
    }
    if MarkedAhead(max, arrivals, n - 1) && Place(max, arrivals, n - 1, arrivals[n - 1]) == place {
      assert StandsFor(max, arrivals, n - 1, n, place);
    }
  }

  predicate Marks(t: ReliableTracker, i: nat) {
    match t
    case ReliableTracker(_, window, _) => i < |window| && window[i]
  }

  /** Taking the index waited for moves the window by the slots it frees, and by one more. */
  lemma AfterHit(t: ReliableTracker, i: nat)
    ensures Marks(t.Seeing(t.base), i) <==> Marks(t, Leading(t.window) + i)
  {
    AdvancedShape(t.(base := Next(t.base)));
  }

  lemma AfterOther(t: ReliableTracker, ridx: Seq24, i: nat)
    requires ridx != t.base
    ensures var d := DistanceTo(t.base, ridx);
            && Filtered(t, ridx).base == t.base
            && (Marks(Filtered(t, ridx), i) <==> Marks(t, i) || (d <= t.maxWindow && !t.HasSeen(ridx) && d == i + 1))
  {
  }

  lemma {:induction false} KeepsMax(max: nat, arrivals: seq<Seq24>, n: nat)
    requires n <= |arrivals|
    ensures After(max, arrivals, n).maxWindow == max
  {
    if n > 0 {
      var t := After(max, arrivals, n - 1);
      KeepsMax(max, arrivals, n - 1);
      AdvancedShape(t.(base := Next(t.base)));
    }
  }

  /** Slot `i` is set exactly when some mark stands for the index `i + 1` past the one waited for. */
  ghost predicate SlotMatches(max: nat, arrivals: seq<Seq24>, n: nat, i: nat)
    requires n <= |arrivals|
  {
    match After(max, arrivals, n)
    case t => Marks(t, i) <==> SomeStandsFor(max, arrivals, n, Moved(max, arrivals, n) + 1 + i)
  }

  lemma SlotAfterHit(max: nat, arrivals: seq<Seq24>, n: nat, i: nat)
    requires 0 < n <= |arrivals| && Expected(max, arrivals, n - 1)
    requires SlotMatches(max, arrivals, n - 1, Leading(After(max, arrivals, n - 1).window) + i)
    ensures SlotMatches(max, arrivals, n, i)
  {
    OneMore(max, arrivals, n, Moved(max, arrivals, n) + 1 + i);
    AfterHit(After(max, arrivals, n - 1), i);
  }

  lemma SlotAfterOther(max: nat, arrivals: seq<Seq24>, n: nat, i: nat)
    requires 0 < n <= |arrivals| && !Expected(max, arrivals, n - 1)
    requires SlotMatches(max, arrivals, n - 1, i)
    ensures SlotMatches(max, arrivals, n, i)
  {
    OneMore(max, arrivals, n, Moved(max, arrivals, n) + 1 + i);
    KeepsMax(max, arrivals, n - 1);
    AfterOther(After(max, arrivals, n - 1), arrivals[n - 1], i);
  }

  lemma {:induction false} SlotIsMark(max: nat, arrivals: seq<Seq24>, n: nat, i: nat)
    requires n <= |arrivals|
    ensures SlotMatches(max, arrivals, n, i)
    decreases n
  {
    if n > 0 {
      if Expected(max, arrivals, n - 1) {
        SlotIsMark(max, arrivals, n - 1, Leading(After(max, arrivals, n - 1).window) + i);
        SlotAfterHit(max, arrivals, n, i);
      } else {
        SlotIsMark(max, arrivals, n - 1, i);
        SlotAfterOther(max, arrivals, n, i);
      }
    }
  }

  // ----- when an index is dropped -----

  /** An index is taken for a duplicate exactly when it lies ahead within the window and some earlier arrival,
      marked ahead, is as many indices before it as expected indices have arrived since. */
  lemma SeenExactly(max: nat, arrivals: seq<Seq24>, n: nat, ridx: Seq24)
    requires n <= |arrivals|
    ensures var t := After(max, arrivals, n);
            t.HasSeen(ridx) <==>
            0 < DistanceTo(t.base, ridx) <= max && SomeStandsFor(max, arrivals, n, Place(max, arrivals, n, ridx))
  {
    var t := After(max, arrivals, n);
    KeepsMax(max, arrivals, n);
    if ridx != t.base {
      SlotIsMark(max, arrivals, n, DistanceTo(t.base, ridx) - 1);
      SeenFromSlot(t, ridx, SomeStandsFor(max, arrivals, n, Place(max, arrivals, n, ridx)));
    }
  }

  lemma SeenFromSlot(t: ReliableTracker, ridx: Seq24, marked: bool)
    requires ridx != t.base && (Marks(t, DistanceTo(t.base, ridx) - 1) <==> marked)
    ensures t.HasSeen(ridx) <==> 0 < DistanceTo(t.base, ridx) <= t.maxWindow && marked
  {
  }

  lemma PlaceWraps(max: nat, arrivals: seq<Seq24>, n: nat, ridx: Seq24)
    requires n <= |arrivals|
    ensures Wrap(Place(max, arrivals, n, ridx)) == ridx
  {
    BaseIsMoved(max, arrivals, n);
    WalkWraps(After(max, arrivals, n).base, Moved(max, arrivals, n), ridx);
  }

  lemma WalkWraps(base: Seq24, moved: nat, ridx: Seq24)
    requires base == Wrap(moved)
    ensures Wrap(moved + DistanceTo(base, ridx)) == ridx
  {
    WrapAdds(moved, DistanceTo(base, ridx));
    AheadIsWrap(base, DistanceTo(base, ridx));
    DistanceDetermines(base, ridx);
  }

  /** An index that never arrived is dropped just when, besides, at least one expected index arrived since the mark. */
  lemma NewIndexIsDropped(max: nat, arrivals: seq<Seq24>, n: nat, ridx: Seq24)
    requires n <= |arrivals| && forall j :: 0 <= j < n ==> arrivals[j] != ridx
    ensures var t := After(max, arrivals, n);
            t.HasSeen(ridx) <==>
            0 < DistanceTo(t.base, ridx) <= max && SomeShiftedTo(max, arrivals, n, Place(max, arrivals, n, ridx))
  {
    SeenExactly(max, arrivals, n, ridx);
    var place := Place(max, arrivals, n, ridx);
    if SomeStandsFor(max, arrivals, n, place) {
      var j: nat :| j < n && StandsFor(max, arrivals, j, n, place);
      MarkOfAnother(max, arrivals, n, j, ridx);
      assert SomeShiftedTo(max, arrivals, n, place);
    }
  }

  lemma MarkOfAnother(max: nat, arrivals: seq<Seq24>, n: nat, j: nat, ridx: Seq24)
    requires j < n <= |arrivals|
    requires StandsFor(max, arrivals, j, n, Place(max, arrivals, n, ridx))
    ensures arrivals[j] == ridx || Hits(max, arrivals, j + 1, n) > 0
  {
    PlaceWraps(max, arrivals, j, arrivals[j]);
    PlaceWraps(max, arrivals, n, ridx);
  }

  ghost predicate SomeShiftedTo(max: nat, arrivals: seq<Seq24>, n: nat, place: nat)
    requires n <= |arrivals|
  {
    exists j: nat :: j < n && StandsFor(max, arrivals, j, n, place) && Hits(max, arrivals, j + 1, n) > 0
  }

  /** After arrivals in order the filter marks nothing: every index passes, each repetition among them. */
  lemma {:induction false} InOrderFiltersNothing(max: nat, arrivals: seq<Seq24>, n: nat)
    requires n <= |arrivals| && forall k :: 0 <= k < n ==> arrivals[k] == Wrap(k)
    ensures After(max, arrivals, n) == ReliableTracker(Wrap(n), [], max)
    ensures forall ridx: Seq24 :: !After(max, arrivals, n).HasSeen(ridx)
  {
    if n > 0 {
      InOrderFiltersNothing(max, arrivals, n - 1);
      WrapSteps(n - 1);
    }
  }

  lemma {:induction false} WindowIsBounded(max: nat, arrivals: seq<Seq24>, n: nat)
    requires n <= |arrivals|
    ensures |After(max, arrivals, n).window| <= max
  {
    if n > 0 {
      var t := After(max, arrivals, n - 1);
      WindowIsBounded(max, arrivals, n - 1);
      KeepsMax(max, arrivals, n - 1);
      AdvancedShape(t.(base := Next(t.base)));
    }
  }

  /** An index let through is dropped when it comes again at once, if and only if it was ahead within the window. */
  lemma ImmediateRepetition(max: nat, arrivals: seq<Seq24>, n: nat)
    requires n < |arrivals| && max < HALF
    requires !After(max, arrivals, n).HasSeen(arrivals[n])
    ensures After(max, arrivals, n + 1).HasSeen(arrivals[n]) <==> MarkedAhead(max, arrivals, n)
  {
    WindowIsBounded(max, arrivals, n);
    KeepsMax(max, arrivals, n);
    SeenAgain(After(max, arrivals, n), arrivals[n]);
  }

  lemma SeenAgain(t: ReliableTracker, ridx: Seq24)
    requires |t.window| <= t.maxWindow < HALF && !t.HasSeen(ridx)
    ensures t.Seeing(ridx).HasSeen(ridx) <==> 0 < DistanceTo(t.base, ridx) <= t.maxWindow
  {
    if ridx == t.base {
      AdvancedShape(t.(base := Next(t.base)));
      SeveralMoves(t.base, t.base, Leading(t.window));
      var gone := 1 + Leading(t.window);
      AheadIsWrap(t.base, gone);
      assert DistanceTo(Ahead(t.base, gone), t.base) == MODULO - gone;
    }
  }

  // ----- a reliable packet that is lost -----

  /** Reliable ordered packet `k` of a channel, when nothing else was sent. */
  predicate IsPacket(enc: Encap, channel: byte, k: Seq24) {
    && enc.header == Header(ReliableOrdered, false, enc.header.needsBas)
    && enc.reliableIndex == Some(k) && enc.orderingIndex == Some(k)
    && enc.orderingChannel == Some(channel)
  }

  predicate IsFreshReceiver(rx: Rx, channel: byte) {
    && rx.tracker == Fresh(rx.tracker.maxWindow) && rx.tracker.maxWindow >= 2
    && channel < |rx.heaps| == |rx.orderRead|
    && rx.orderRead[channel] == 0 && rx.heaps[channel] == []
  }

  /** Packets 2, 0 and 3 arrive at a new receiver, each once: the third is dropped as a duplicate, and accepted. */
  lemma NewPacketIsLost(rx: Rx, channel: byte, pkts: seq<Encap>, now: nat, rxs: seq<Rx>, readies: seq<seq<Encap>>,
                        accepted: seq<bool>)
    requires |pkts| == |readies| == |accepted| == 3 && |rxs| == 4 && rxs[0] == rx
    requires IsFreshReceiver(rx, channel)
    requires IsPacket(pkts[0], channel, 2) && IsPacket(pkts[1], channel, 0) && IsPacket(pkts[2], channel, 3)
    requires forall i :: 0 <= i < 3 ==> Handles(rxs[i], pkts[i], now, rxs[i + 1], readies[i], accepted[i])
    ensures readies == [[], [pkts[1]], []] && accepted == [true, true, true]
    ensures rxs[3] == rxs[2]
    ensures channel < |rxs[3].heaps| == |rxs[3].orderRead|
    ensures rxs[3].orderRead[channel] == 1 && rxs[3].heaps[channel] == [OrderedEncap(2, pkts[0])]
  {
    FirstTwoPackets(rx, channel, pkts[0], pkts[1], now, rxs[1], readies[0], accepted[0], rxs[2], readies[1],
                    accepted[1]);
    assert Handles(rxs[2], pkts[2], now, rxs[3], readies[2], accepted[2]);
  }

  lemma FirstTwoPackets(rx: Rx, channel: byte, pkt2: Encap, pkt0: Encap, now: nat,
                        rx1: Rx, ready1: seq<Encap>, accepted1: bool, rx2: Rx, ready2: seq<Encap>, accepted2: bool)
    requires IsFreshReceiver(rx, channel) && IsPacket(pkt2, channel, 2) && IsPacket(pkt0, channel, 0)
    requires Handles(rx, pkt2, now, rx1, ready1, accepted1)
    requires Handles(rx1, pkt0, now, rx2, ready2, accepted2)
    ensures ready1 == [] && accepted1 && ready2 == [pkt0] && accepted2
    ensures channel < |rx2.heaps| == |rx2.orderRead|
    ensures rx2.orderRead[channel] == 1 && rx2.heaps[channel] == [OrderedEncap(2, pkt2)]
    ensures rx2.tracker == ReliableTracker(1, [false, true], rx.tracker.maxWindow)
  {
    assert rx1.tracker.window == [false, true];
    NothingToDrain(rx1.heaps[channel], pkt2, ready2[1..], rx2.orderRead[channel], rx2.heaps[channel]);
  }

  lemma NothingToDrain(h: seq<OrderedEncap>, pkt2: Encap, ready: seq<Encap>, read': Seq24, h': seq<OrderedEncap>)
    requires h == [OrderedEncap(2, pkt2)] && Drained(1, h, ready, read', h')
    ensures ready == [] && read' == 1 && h' == h
  {
    PoppedIsConsecutive(1, h, ready, read', h');
    HeldAtOne(h, pkt2);
  }

  lemma HeldAtOne(h: seq<OrderedEncap>, pkt2: Encap)
    requires h == [OrderedEncap(2, pkt2)]
    ensures forall i: nat, pkt :: HoldsAt(1, h, i, pkt) ==> i == 1
  {
  }
}
