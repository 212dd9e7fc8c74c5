/**
 Runs of a sending session with its congestion window. Bytes of datagrams given up by age or capacity
 (raknet/src/session/inbound.rs) are never taken off the in-flight count, so a sender can be stuck:
 when exactly it is, that it then stays so for good, and a run that gets there.
*/
module Stall {
  import opened Sequence24
  import opened Wrappers
  import opened Ranges
  import opened Protocol
  import opened Sliding
  import opened SentWindow
  import opened Sending
  import opened Congestion
  import opened SenderRuns

  // ----- stuck for good -----

  /** Nothing is tracked, and not even the smallest packet fits the window. */
  predicate Stuck(s: Sender) {
    s.tx.slots == [] && s.w.TransmissionBandwidth() < SMALLEST_PACKET
  }

  lemma StuckStep(s: Sender, e: SenderEvent, s': Sender)
    requires SenderStep(s, e, s') && Stuck(s)
    ensures Stuck(s') && s'.w == s.w
    ensures e.Built? ==> e.out.None?
  {
    if e.Built? {
      StuckBuild(s, e.now, e.out, s');
    } else if e.Ticked? {
      StuckTick(s, e.now);
    }
  }

  lemma StuckTick(s: Sender, now: nat)
    requires Kept(s) && Stuck(s)
    ensures AfterTick(s, now).tx.slots == [] && AfterTick(s, now).w == s.w
  {
    TickOfEmptyWindow(s.w, s.tx, now);
  }

  lemma StuckBuild(s: Sender, now: nat, out: Option<Datagram>, s': Sender)
    requires Kept(s) && Stuck(s) && BuildsCharging(s.tx, s.w, now, out, s'.tx, s'.w)
    ensures out.None? && s' == s
  {
    if out.Some? {
      PacketsWeigh(PacketsOf(out));
    }
  }

  /** From a stuck state on, over any run, no datagram is built, nothing is tracked and the window never changes. */
  lemma StuckForGood(start: Sender, states: seq<Sender>, events: seq<SenderEvent>, i: nat)
    requires IsSenderRun(start, states, events) && Stuck(start) && i < |states|
    ensures Stuck(states[i]) && states[i].w == start.w
    ensures NeverBuilds(events[..i])
  {
    for k := 0 to i
      invariant Stuck(states[k]) && states[k].w == start.w
      invariant NeverBuilds(events[..k])
    {
      assert StepAt(states, events, k);
      StuckStep(states[k], events[k], states[k + 1]);
    }
  }

  // ----- the most the window can ever leave -----

  function Live(slots: Slots): nat {
    if slots == [] then 0 else Live(slots[..|slots| - 1]) + if slots[|slots| - 1].Some? then 1 else 0
  }

  /** One MTU for each of `live` acknowledgements. */
  function Growth(mtu: nat, live: nat): real {
    mtu as real * live as real
  }

  /** `live` acknowledgements of slow start cannot reach the threshold. */
  predicate Growing(w: Window, live: nat) {
    live == 0 || w.ssThresh == 0.0 || w.cwnd + Growth(w.mtu, live) <= w.ssThresh
  }

  /** What crossing the slow-start threshold can add on top of one MTU an acknowledgement. */
  function Crossing(w: Window, live: nat): real {
    if Growing(w, live) || w.cwnd > w.ssThresh then 0.0 else w.mtu as real / 2.0
  }

  /** The bytes in flight that no tracked datagram accounts for: those of datagrams given up. */
  function Lost(w: Window, slots: Slots): int {
    w.unackedBytes - TrackedBytes(slots)
  }

  /** No acknowledgement, negative acknowledgement, retransmission or clean-up can leave more of the window free. */
  function Ceiling(w: Window, slots: Slots): real {
    w.cwnd + Growth(w.mtu, Live(slots)) + Crossing(w, Live(slots)) - Lost(w, slots) as real
  }

  ghost predicate Exhausted(s: Sender) {
    s.w.Sane() && Lost(s.w, s.tx.slots) >= 0 && Ceiling(s.w, s.tx.slots) < SMALLEST_PACKET as real
  }

  /** The ceiling has not risen; and while the window only grows by whole MTUs it has stayed. */
  ghost predicate Lowers(w: Window, slots: Slots, w': Window, slots': Slots) {
    && w'.mtu == w.mtu && Lost(w', slots') >= Lost(w, slots)
    && Ceiling(w', slots') <= Ceiling(w, slots)
  }

  ghost predicate KeepsCeiling(w: Window, slots: Slots, w': Window, slots': Slots) {
    && w'.mtu == w.mtu && Lost(w', slots') == Lost(w, slots)
    && (Growing(w, Live(slots)) ==> Growing(w', Live(slots')) && Ceiling(w', slots') == Ceiling(w, slots))
  }

  /** What acknowledgements do: both. */
  ghost predicate Credits(w: Window, slots: Slots, w': Window, slots': Slots) {
    match w'
    case Window(_, _, _, _, _, _, _, _, _) => Lowers(w, slots, w', slots') && KeepsCeiling(w, slots, w', slots')
  }

  lemma CreditsCompose(w: Window, slots: Slots, w1: Window, slots1: Slots, w2: Window, slots2: Slots)
    requires Credits(w, slots, w1, slots1) && Credits(w1, slots1, w2, slots2)
    ensures Credits(w, slots, w2, slots2)
  {
  }

  // ----- counting live slots -----

  lemma {:induction false} LiveCleared(slots: Slots, i: nat)
    requires i < |slots| && slots[i].Some?
    ensures Live(slots) == Live(slots[i := None]) + 1
  {
    var init := slots[..|slots| - 1];
    if i < |init| {
      LiveCleared(init, i);
      assert slots[i := None][..|slots| - 1] == init[i := None];
    } else {
      assert slots[i := None][..|slots| - 1] == init;
    }
  }

  lemma {:induction false} LiveOfSuffix(slots: Slots, k: nat)
    requires k <= |slots|
    ensures Live(slots[k..]) <= Live(slots)
  {
    if k < |slots| {
      LiveOfSuffix(slots[..|slots| - 1], k);
      assert slots[k..][..|slots| - k - 1] == slots[..|slots| - 1][k..];
    }
  }

  lemma {:induction false} LiveOfTrimmed(slots: Slots)
    ensures Live(Trimmed(slots)) == Live(slots)
  {
    if slots != [] && slots[|slots| - 1].None? {
      LiveOfTrimmed(slots[..|slots| - 1]);
    }
  }

  lemma {:induction false} SameDatagramsSameLive(slots: Slots, slots': Slots)
    requires SameDatagrams(slots, slots')
    ensures Live(slots') == Live(slots)
  {
    if slots != [] {
      SameDatagramsSameLive(slots[..|slots| - 1], slots'[..|slots| - 1]);
    }
  }

  lemma {:induction false} NoneLive(slots: Slots)
    requires forall i :: 0 <= i < |slots| ==> slots[i].None?
    ensures Live(slots) == 0 && TrackedBytes(slots) == 0
  {
    if slots != [] {
      NoneLive(slots[..|slots| - 1]);
    }
  }

  // ----- one acknowledgement -----

  lemma GrowthStep(mtu: nat, live: nat)
    ensures Growth(mtu, live + 1) == Growth(mtu, live) + mtu as real
    ensures Growth(mtu, live) >= 0.0
  {
  }

  lemma GrowthMonotone(mtu: nat, live: nat, live': nat)
    requires live' <= live
    ensures Growth(mtu, live') <= Growth(mtu, live)
  {
    assert mtu as real * live as real - mtu as real * live' as real == mtu as real * (live - live') as real;
    assert mtu as real * (live - live') as real >= 0.0;
  }

  lemma IncrementBound(mtu: nat, cwnd: real, factor: real)
    requires cwnd > 0.0 && factor > 0.0 && cwnd >= factor * mtu as real
    ensures Increment(mtu, cwnd) <= mtu as real / factor
  {
    var m := mtu as real;
    assert m * m <= (cwnd / factor) * m by {
      assert m <= cwnd / factor;
    }
    assert m * m <= cwnd * (m / factor);
  }

  /** An acknowledgement adds at most one MTU to the window, and half of one more on crossing the threshold. */
  lemma AckGrowth(w: Window, isNewBlock: bool, live: nat)
    requires w.Sane()
    ensures var grown := GrownCwnd(w, isNewBlock);
            && grown + Crossing(w.(cwnd := grown), live) <= w.cwnd + w.mtu as real + Crossing(w, live + 1)
            && (Growing(w, live + 1) ==> Growing(w.(cwnd := grown), live) && grown == w.cwnd + w.mtu as real)
  {
    GrowthStep(w.mtu, live);
    var m := w.mtu as real;
    if w.InSlowStart() {
      var grown := w.cwnd + m;
      if w.ssThresh != 0.0 && grown > w.ssThresh {
        IncrementBound(w.mtu, grown, 2.0);
        IncrementNonNegative(w.mtu, grown);
      }
    } else {
      IncrementBound(w.mtu, w.cwnd, 1.0);
      IncrementNonNegative(w.mtu, w.cwnd);
    }
  }

  lemma CreditKeepsCeiling(w: Window, base: Seq24, slots: Slots, n: Seq24, now: nat)
    requires w.Sane() && |slots| <= MODULO && Lost(w, slots) >= 0
    ensures var w', slots' := Credited(w, Lookup(base, slots, n), now, n), Cleared(base, slots, n);
            Credits(w, slots, w', slots') && Lost(w', slots') >= 0
  {
    var slot, i := Lookup(base, slots, n), DistanceTo(base, n);
    if slot.Some? {
      LiveCleared(slots, i);
      SetSlotBytes(slots, i, None);
      AckGrowth(w, Gt(n, w.nextCongestionBlock), Live(slots[i := None]));
      GrowthStep(w.mtu, Live(slots[i := None]));
      WindowAfterAck(w, SaturatingSub(now, slot.value.sendTime), slot.value.datagram.Size(), n);
    } else {
      assert Cleared(base, slots, n) == slots;
    }
  }

  /** What matters here of the window after an acknowledgement. */
  lemma WindowAfterAck(w: Window, rtt: nat, size: nat, n: Seq24)
    requires w.Sane() && w.unackedBytes >= size
    ensures var w' := AfterAck(w, rtt, size, n);
            && w'.mtu == w.mtu && w'.ssThresh == w.ssThresh && w'.unackedBytes == w.unackedBytes - size
            && w'.cwnd == GrownCwnd(w, Gt(n, w.nextCongestionBlock))
  {
  }

  lemma {:induction false} CreditUpToKeepsCeiling(w: Window, base: Seq24, slots: Slots, acks: seq<SequenceRange>,
                                                  start: Seq24, n: nat, now: nat)
    requires w.Sane() && |slots| <= MODULO && n <= MODULO
    requires Lost(w, AckedSlots(base, slots, acks)) >= 0
    ensures var slots0 := AckedSlots(base, slots, acks);
            var w', slots' := CreditedUpTo(w, base, slots0, start, n, now), AckedUpTo(base, slots, acks, start, n);
            Credits(w, slots0, w', slots')
  {
    var slots0 := AckedSlots(base, slots, acks);
    if n == 0 {
      assert AckedUpTo(base, slots, acks, start, 0) == slots0;
    } else {
      var k := n - 1;
      CreditUpToKeepsCeiling(w, base, slots, acks, start, k, now);
      NextSlotUntouched(base, slots, acks, start, k);
      AckedOneMore(base, slots, acks, start, k);
      var w1, slots1 := CreditedUpTo(w, base, slots0, start, k, now), AckedUpTo(base, slots, acks, start, k);
      CreditKeepsCeiling(w1, base, slots1, Ahead(start, k), now);
      CreditsCompose(w, slots0, w1, slots1, CreditedUpTo(w, base, slots0, start, n, now),
                     AckedUpTo(base, slots, acks, start, n));
    }
  }

  lemma CreditRangeKeepsCeiling(w: Window, base: Seq24, slots: Slots, init: seq<SequenceRange>, last: SequenceRange,
                                now: nat)
    requires w.Sane() && |slots| <= MODULO && Lost(w, slots) >= 0
    requires Credits(w, slots, CreditedAll(w, base, slots, init, now), AckedSlots(base, slots, init))
    ensures Credits(w, slots, CreditedAll(w, base, slots, init + [last], now), AckedSlots(base, slots, init + [last]))
  {
    var w1, n := CreditedAll(w, base, slots, init, now), DistanceTo(last.start, last.end) + 1;
    CreditUpToKeepsCeiling(w1, base, slots, init, last.start, n, now);
    AckedWholeRange(base, slots, init, last);
    CreditedMore(w, base, slots, init, last, now);
    CreditsCompose(w, slots, w1, AckedSlots(base, slots, init),
                   CreditedUpTo(w1, base, AckedSlots(base, slots, init), last.start, n, now),
                   AckedUpTo(base, slots, init, last.start, n));
  }

  lemma {:induction false} CreditAllKeepsCeiling(w: Window, base: Seq24, slots: Slots, acks: seq<SequenceRange>,
                                                 now: nat)
    requires w.Sane() && |slots| <= MODULO && Lost(w, slots) >= 0
    ensures Credits(w, slots, CreditedAll(w, base, slots, acks, now), AckedSlots(base, slots, acks))
  {
    if acks == [] {
      NothingAcked(base, slots, now);
    } else {
      var init, last := acks[..|acks| - 1], acks[|acks| - 1];
      CreditAllKeepsCeiling(w, base, slots, init, now);
      CreditRangeKeepsCeiling(w, base, slots, init, last, now);
      assert acks == init + [last];
    }
  }

  // ----- the rest of a tick -----

  lemma FewerLiveLower(w: Window, slots: Slots, slots': Slots)
    requires w.Sane() && Live(slots') <= Live(slots) && TrackedBytes(slots') <= TrackedBytes(slots)
    ensures Lowers(w, slots, w, slots')
  {
    GrowthMonotone(w.mtu, Live(slots), Live(slots'));
  }

  lemma CleaningLowers(w: Window, slots: Slots, now: nat, timeout: nat, max: nat)
    requires w.Sane()
    ensures Lowers(w, slots, w, Cleaned(slots, now, timeout, max))
  {
    var k := FrontDrop(slots, now, timeout, max);
    CleanedBytes(slots, now, timeout, max);
    LiveOfSuffix(slots, k);
    LiveOfTrimmed(slots[k..]);
    FewerLiveLower(w, slots, Cleaned(slots, now, timeout, max));
  }

  lemma NakLowers(w: Window, slots: Slots, any: bool)
    requires w.Sane()
    ensures Lowers(w, slots, NakIf(w, any), slots)
  {
  }

  lemma ResendLowers(w: Window, slots: Slots, any: bool, current: Seq24)
    requires w.Sane()
    ensures Lowers(w, slots, Resending(w, any, current), slots)
  {
  }

  lemma RetimingLowers(w: Window, slots: Slots, slots': Slots)
    requires SameDatagrams(slots, slots')
    ensures Lowers(w, slots, w, slots') && Lowers(w, slots', w, slots)
  {
    SameDatagramsSameLive(slots, slots');
    SameDatagramsSameBytes(slots, slots');
  }

  /** Up to the negative acknowledgements. */
  lemma BeforeResendsLowers(w: Window, tx: Tx, now: nat)
    requires w.Sane() && Numbered(tx.base, tx.slots) && Lost(w, tx.slots) >= 0
    ensures Lowers(w, tx.slots, BeforeResends(w, tx, now), SettledTx(tx, now).slots)
  {
    var tx1 := AfterAcks(tx, now);
    var w1, acked := CreditedAll(w, tx.base, tx.slots, tx.acks, now), AckedSlots(tx.base, tx.slots, tx.acks);
    CreditAllKeepsCeiling(w, tx.base, tx.slots, tx.acks, now);
    CleaningLowers(w1, acked, now, tx.timeout, tx.maxSent);
    SettledWindow(tx, now);
    assert SameDatagrams(tx1.slots, NakedSlots(tx1.base, tx1.slots, tx1.naks, now));
    RetimingLowers(w1, tx1.slots, SettledTx(tx, now).slots);
    NakLowers(w1, SettledTx(tx, now).slots, HoldsOne(tx1.base, tx1.slots, tx1.naks));
  }

  lemma TickLowers(s: Sender, now: nat)
    requires Kept(s) && Lost(s.w, s.tx.slots) >= 0
    ensures Lowers(s.w, s.tx.slots, AfterTick(s, now).w, AfterTick(s, now).tx.slots)
  {
    var w, tx := BeforeResends(s.w, s.tx, now), SettledTx(s.tx, now);
    BeforeResendsLowers(s.w, s.tx, now);
    var resent := ResentSlots(tx.slots, now, w.Rto());
    assert SameDatagrams(tx.slots, resent);
    RetimingLowers(w, tx.slots, resent);
    ResendLowers(w, resent, DueDatagrams(tx.slots, now) != [], tx.dgramWrite);
  }

  /** Bytes given up stay in flight for ever. */
  lemma StepKeepsLost(s: Sender, e: SenderEvent, s': Sender)
    requires SenderStep(s, e, s') && Lost(s.w, s.tx.slots) >= 0
    ensures Lost(s'.w, s'.tx.slots) >= Lost(s.w, s.tx.slots)
  {
    if e.Built? {
      BuildKeepsLost(s, e.now, e.out, s');
    } else if e.Ticked? {
      TickLowers(s, e.now);
    }
  }

  lemma BuildKeepsLost(s: Sender, now: nat, out: Option<Datagram>, s': Sender)
    requires s.w.Sane() && BuildsCharging(s.tx, s.w, now, out, s'.tx, s'.w)
    ensures Lost(s'.w, s'.tx.slots) >= Lost(s.w, s.tx.slots)
  {
    if HasReliable(PacketsOf(out)) {
      InsertedBytes(s.tx.base, s.tx.slots, s.tx.dgramWrite, Tracked(out.value, now, now + s.w.Rto()));
    }
  }

  /** Over every run the lost bytes never become fewer; a new session has none. */
  lemma LostForGood(start: Sender, states: seq<Sender>, events: seq<SenderEvent>, i: nat)
    requires IsSenderRun(start, states, events) && Lost(start.w, start.tx.slots) >= 0 && i < |states|
    ensures Lost(states[i].w, states[i].tx.slots) >= Lost(start.w, start.tx.slots)
  {
    for k := 0 to i
      invariant Lost(states[k].w, states[k].tx.slots) >= Lost(start.w, start.tx.slots)
    {
      assert StepAt(states, events, k);
      StepKeepsLost(states[k], events[k], states[k + 1]);
    }
  }

  // ----- exhausted for good -----

  lemma ExhaustedBuild(s: Sender, now: nat, out: Option<Datagram>, s': Sender)
    requires Kept(s) && Exhausted(s) && BuildsCharging(s.tx, s.w, now, out, s'.tx, s'.w)
    ensures out.None? && s' == s
  {
    GrowthMonotone(s.w.mtu, Live(s.tx.slots), 0);
    assert s.w.TransmissionBandwidth() < SMALLEST_PACKET;
    if out.Some? {
      PacketsWeigh(PacketsOf(out));
    }
  }

  lemma ExhaustedStep(s: Sender, e: SenderEvent, s': Sender)
    requires SenderStep(s, e, s') && Exhausted(s)
    ensures Exhausted(s') && Ceiling(s'.w, s'.tx.slots) <= Ceiling(s.w, s.tx.slots)
    ensures e.Built? ==> e.out.None?
  {
    StepKeeps(s, e, s');
    if e.Built? {
      ExhaustedBuild(s, e.now, e.out, s');
    } else if e.Ticked? {
      TickLowers(s, e.now);
    }
  }

  /** From an exhausted state on, over any run and whatever the peer reports, no datagram is built. */
  lemma ExhaustedForGood(start: Sender, states: seq<Sender>, events: seq<SenderEvent>, i: nat)
    requires IsSenderRun(start, states, events) && Exhausted(start) && i < |states|
    ensures Exhausted(states[i]) && NeverBuilds(events[..i])
  {
    for k := 0 to i
      invariant Exhausted(states[k])
      invariant NeverBuilds(events[..k])
    {
      assert StepAt(states, events, k);
      ExhaustedStep(states[k], events[k], states[k + 1]);
    }
  }

  lemma ExhaustedNeverBuilds(s: Sender)
    requires Exhausted(s)
    ensures NeverBuildsAgain(s)
  {
    forall states, events | IsSenderRun(s, states, events)
      ensures NeverBuilds(events)
    {
      ExhaustedForGood(s, states, events, |events|);
      assert events[..|events|] == events;
    }
  }

  // ----- and only then -----

  lemma SmallPacketFits(tx: Tx, bw: nat)
    requires WorkableMtu(tx.mtu) && tx.orderWrite != [] && bw >= SMALLEST_PACKET
    ensures SomeFits(AfterQueue(tx, [], Unreliable, 0), bw)
  {
    var heap := AfterQueue(tx, [], Unreliable, 0).heap;
    assert heap == tx.heap + [SingleEncap(tx, [], Unreliable, 0)];
    assert heap[|tx.heap|].Size() == 3;
    assert FitsMore(tx.mtu, bw, 0, heap[|tx.heap|]);
  }

  /** With room for the smallest packet an empty message can be queued and sent. */
  lemma RoomIsEnough(s: Sender) returns (states: seq<Sender>, events: seq<SenderEvent>)
    requires Kept(s) && WorkableMtu(s.tx.mtu) && s.tx.orderWrite != []
    requires s.w.TransmissionBandwidth() >= SMALLEST_PACKET
    ensures IsSenderRun(s, states, events) && !NeverBuilds(events)
  {
    var bw, rto := s.w.TransmissionBandwidth(), s.w.Rto();
    var s1 := s.(tx := AfterQueue(s.tx, [], Unreliable, 0));
    SmallPacketFits(s.tx, bw);
    WhenBuilt(s1.tx, 0, bw, rto);
    var tx', d :| Builds(s1.tx, 0, bw, rto, tx', Some(d));
    var s2 := Sender(tx', if HasReliable(PacketsOf(Some(d))) then AfterSend(s.w, d.Size()) else s.w);
    states, events := [s, s1, s2], [Queued([], Unreliable, 0), Built(0, Some(d))];
    assert StepAt(states, events, 0) && StepAt(states, events, 1);
    assert events[1].Built?;
  }

  /** One range that covers the whole window. */
  lemma AllCovered(base: Seq24, slots: Slots, acks: seq<SequenceRange>) returns (range: SequenceRange)
    requires |slots| <= MODULO
    ensures var slots' := AckedSlots(base, slots, acks + [range]);
            forall i :: 0 <= i < |slots'| ==> slots'[i].None?
  {
    range := SequenceRange(base, if slots == [] then base else Ahead(base, |slots| - 1));
    forall i | 0 <= i < |slots|
      ensures Covered(acks + [range], Ahead(base, i))
    {
      CoveredMore(acks, range, Ahead(base, i));
    }
  }

  /** A tick at time 0 after every tracked datagram has been acknowledged. */
  lemma TickWithAllAcked(s: Sender) returns (s': Sender)
    requires Kept(s) && Lost(s.w, s.tx.slots) >= 0
    requires forall i :: 0 <= i < |s.tx.slots| ==> AckedSlots(s.tx.base, s.tx.slots, s.tx.acks)[i].None?
    ensures SenderStep(s, Ticked(0), s') && Kept(s') && s'.tx.slots == []
    ensures s'.tx.mtu == s.tx.mtu && s'.tx.orderWrite == s.tx.orderWrite
    ensures s'.w.cwnd >= s.w.cwnd && KeepsCeiling(s.w, s.tx.slots, s'.w, s'.tx.slots)
  {
    var acked := AckedSlots(s.tx.base, s.tx.slots, s.tx.acks);
    CreditAllKeepsCeiling(s.w, s.tx.base, s.tx.slots, s.tx.acks, 0);
    NoneLive(acked);
    assert FrontDrop(acked, 0, s.tx.timeout, s.tx.maxSent) == |acked|;
    assert acked[|acked|..] == [];
    assert SettledTx(s.tx, 0).slots == [];
    s' := AfterTick(s, 0);
    TickKeeps(s, 0);
  }

  lemma AcknowledgeAll(s: Sender) returns (e: SenderEvent, s1: Sender, s2: Sender)
    requires Kept(s) && Lost(s.w, s.tx.slots) >= 0
    ensures SenderStep(s, e, s1) && SenderStep(s1, Ticked(0), s2) && Kept(s2) && s2.tx.slots == []
    ensures s2.tx.mtu == s.tx.mtu && s2.tx.orderWrite == s.tx.orderWrite
    ensures s2.w.cwnd >= s.w.cwnd && KeepsCeiling(s.w, s.tx.slots, s2.w, s2.tx.slots)
  {
    var range := AllCovered(s.tx.base, s.tx.slots, s.tx.acks);
    e := AcksCame([range]);
    s1 := s.(tx := s.tx.(acks := s.tx.acks + [range]));
    s2 := TickWithAllAcked(s1);
  }

  /** If everything tracked is acknowledged and that leaves room, something is built. */
  lemma RoomOnceAcknowledged(s: Sender)
    requires Kept(s) && WorkableMtu(s.tx.mtu) && s.tx.orderWrite != [] && Lost(s.w, s.tx.slots) >= 0
    requires || s.w.cwnd >= Lost(s.w, s.tx.slots) as real + SMALLEST_PACKET as real
             || (Growing(s.w, Live(s.tx.slots)) && Ceiling(s.w, s.tx.slots) >= SMALLEST_PACKET as real)
    ensures !NeverBuildsAgain(s)
  {
    var e, s1, s2 := AcknowledgeAll(s);
    var states, events := RoomIsEnough(s2);
    assert !NeverBuildsAgain(s2);
    if NeverBuildsAgain(s) {
      NeverBuildsStep(s, e, s1);
      NeverBuildsStep(s1, Ticked(0), s2);
    }
  }

  /** While no acknowledgement can reach the slow-start threshold, a session never builds a datagram again if and
      only if one more MTU for each tracked datagram would not make room for the smallest packet. */
  lemma NeverBuildsAgainExactly(s: Sender)
    requires Kept(s) && WorkableMtu(s.tx.mtu) && s.tx.orderWrite != []
    requires Lost(s.w, s.tx.slots) >= 0 && Growing(s.w, Live(s.tx.slots))
    ensures NeverBuildsAgain(s) <==>
            s.w.cwnd + Growth(s.w.mtu, Live(s.tx.slots)) <
            Lost(s.w, s.tx.slots) as real + SMALLEST_PACKET as real
  {
    if Exhausted(s) {
      ExhaustedNeverBuilds(s);
    } else {
      RoomOnceAcknowledged(s);
    }
  }

  /** Wherever the threshold is: below the ceiling's bound never, and never only below what is lost already. */
  lemma NeverBuildsAgainBounds(s: Sender)
    requires Kept(s) && WorkableMtu(s.tx.mtu) && s.tx.orderWrite != [] && Lost(s.w, s.tx.slots) >= 0
    ensures Ceiling(s.w, s.tx.slots) < SMALLEST_PACKET as real ==> NeverBuildsAgain(s)
    ensures NeverBuildsAgain(s) ==> s.w.cwnd < Lost(s.w, s.tx.slots) as real + SMALLEST_PACKET as real
  {
    if Exhausted(s) {
      ExhaustedNeverBuilds(s);
    }
    if s.w.cwnd >= Lost(s.w, s.tx.slots) as real + SMALLEST_PACKET as real {
      RoomOnceAcknowledged(s);
    }
  }

  // ----- a fresh session can get there -----

  function FreshSender(mtu: nat, maxSent: nat, timeout: nat, channels: nat): Sender {
    Sender(Tx(mtu, maxSent, timeout, 0, 0, seq(channels, _ => 0), [], 0, 0, [], [], []), Fresh(mtu))
  }

  function Zeros(n: nat): Bytes {
    seq(n, _ => 0)
  }

  /** A session with nothing queued and nothing reported. */
  ghost predicate Quiet(s: Sender) {
    && Kept(s) && WorkableMtu(s.tx.mtu) && s.tx.orderWrite != []
    && s.tx.heap == [] && s.tx.acks == [] && s.tx.naks == []
  }

  /** Queueing one reliable message of `n` bytes. */
  lemma QueueOne(s: Sender, n: nat) returns (s1: Sender, e: Encap)
    requires Quiet(s) && n + 38 <= s.tx.mtu
    ensures SenderStep(s, Queued(Zeros(n), Reliable, 0), s1)
    ensures e.Size() == n + 6 && e.header.reliability == Reliable
    ensures s1.w == s.w && s1.tx.heap == [e]
    ensures s1.tx.(heap := [], reliableWrite := s.tx.reliableWrite) == s.tx
  {
    e := SingleEncap(s.tx, Zeros(n), Reliable, 0);
    BitLengthIsExact(Zeros(n));
    s1 := s.(tx := AfterQueue(s.tx, Zeros(n), Reliable, 0));
    assert s1.tx.heap == [] + [e] == [e];
  }

  /** ... and sending it at time 0. */
  lemma QueueAndSend(s: Sender, n: nat) returns (s1: Sender, s2: Sender, d: Datagram)
    requires Quiet(s) && n + 38 <= s.tx.mtu && n + 6 <= s.w.TransmissionBandwidth()
    ensures SenderStep(s, Queued(Zeros(n), Reliable, 0), s1)
    ensures SenderStep(s1, Built(0, Some(d)), s2)
    ensures Quiet(s2) && s2.w == AfterSend(s.w, n + 10)
    ensures s2.tx.mtu == s.tx.mtu && s2.tx.timeout == s.tx.timeout && s2.tx.base == s.tx.base
    ensures s2.tx.dgramWrite == Next(s.tx.dgramWrite)
    ensures s2.tx.slots == Inserted(s.tx.base, s.tx.slots, s.tx.dgramWrite, Tracked(d, 0, s.w.Rto()))
  {
    var e, tx';
    s1, e := QueueOne(s, n);
    tx', d := SendOnly(s1.tx, 0, s.w.TransmissionBandwidth(), s.w.Rto(), e);
    s2 := Sender(tx', AfterSend(s.w, d.Size()));
    assert BuildsCharging(s1.tx, s1.w, 0, Some(d), s2.tx, s2.w);
    BuildKeeps(s1, 0, Some(d), s2);
  }

  /** A run goes on by queueing and sending one more message. */
  lemma SendMore(start: Sender, states: seq<Sender>, events: seq<SenderEvent>, s: Sender, n: nat)
    returns (states': seq<Sender>, events': seq<SenderEvent>, s': Sender, t: Tracked)
    requires IsSenderRun(start, states, events) && states[|events|] == s
    requires Quiet(s) && n + 38 <= s.tx.mtu && n + 6 <= s.w.TransmissionBandwidth()
    ensures IsSenderRun(start, states', events') && states'[|events'|] == s'
    ensures Quiet(s') && s'.w == AfterSend(s.w, n + 10)
    ensures s'.tx.mtu == s.tx.mtu && s'.tx.timeout == s.tx.timeout && s'.tx.base == s.tx.base
    ensures s'.tx.dgramWrite == Next(s.tx.dgramWrite)
    ensures s'.tx.slots == Inserted(s.tx.base, s.tx.slots, s.tx.dgramWrite, t) && t.sendTime == 0
  {
    var s1, d;
    s1, s', d := QueueAndSend(s, n);
    t := Tracked(d, 0, s.w.Rto());
    states', events' := RunExtended(start, states, events, Queued(Zeros(n), Reliable, 0), s1);
    states', events' := RunExtended(start, states', events', Built(0, Some(d)), s');
  }

  lemma FirstSlots(t1: Tracked, t2: Tracked)
    ensures Inserted(0, [], 0, t1) == [Some(t1)]
    ensures Inserted(0, [Some(t1)], 1, t2) == [Some(t1), Some(t2)]
  {
  }

  /** A tick past the timeout empties a window of two datagrams sent at time 0. */
  lemma TwoTimeOut(s: Sender, t1: Tracked, t2: Tracked) returns (s': Sender)
    requires Quiet(s) && s.tx.slots == [Some(t1), Some(t2)] && t1.sendTime == t2.sendTime == 0
    ensures SenderStep(s, Ticked(s.tx.timeout + 1), s')
    ensures Quiet(s') && s'.tx.slots == [] && s'.w == s.w
  {
    var now := s.tx.timeout + 1;
    NothingAcked(s.tx.base, s.tx.slots, now);
    assert s.tx.slots[1..][1..] == [];
    assert LeadingDead(s.tx.slots[1..], now, s.tx.timeout) == 1;
    assert LeadingDead(s.tx.slots, now, s.tx.timeout) == 2;
    assert SettledTx(s.tx, now).slots == [];
    s' := AfterTick(s, now);
  }

  lemma BandwidthLeft(mtu: nat, n: nat)
    requires n <= mtu
    ensures AfterSend(Fresh(mtu), n).TransmissionBandwidth() == mtu - n
  {
  }

  /** Two datagrams, of `mtu + 4` bytes together, and both time out. */
  lemma TwoSendsTimeOut(s0: Sender) returns (states: seq<Sender>, events: seq<SenderEvent>, s': Sender)
    requires Quiet(s0) && 60 <= s0.tx.mtu && s0.w == Fresh(s0.tx.mtu)
    requires s0.tx.slots == [] && s0.tx.base == s0.tx.dgramWrite == 0
    ensures IsSenderRun(s0, states, events) && states[|events|] == s'
    ensures Quiet(s') && s'.tx.slots == []
    ensures s'.w == AfterSend(AfterSend(s0.w, s0.tx.mtu - 28), 32)
  {
    var s2, s4, t1, t2;
    states, events, s2, t1 := SendMore(s0, [s0], [], s0, s0.tx.mtu - 38);
    BandwidthLeft(s0.tx.mtu, s0.tx.mtu - 28);
    states, events, s4, t2 := SendMore(s0, states, events, s2, 22);
    FirstSlots(t1, t2);
    s' := TwoTimeOut(s4, t1, t2);
    states, events := RunExtended(s0, states, events, Ticked(s4.tx.timeout + 1), s');
  }

  /** For every negotiable MTU: a full datagram, one of 32 bytes, and no tick until both are past the timeout.
      The window is one MTU, and four bytes more than that are in flight for ever. */
  lemma FreshSessionCanStall(mtu: nat, maxSent: nat, timeout: nat, channels: nat)
    returns (states: seq<Sender>, events: seq<SenderEvent>)
    requires 60 <= mtu && WorkableMtu(mtu) && channels > 0
    ensures IsSenderRun(FreshSender(mtu, maxSent, timeout, channels), states, events)
    ensures Stuck(states[|events|]) && NeverBuildsAgain(states[|events|])
    ensures states[|events|].w.unackedBytes == mtu + 4 && states[|events|].w.cwnd == mtu as real
  {
    var s5;
    states, events, s5 := TwoSendsTimeOut(FreshSender(mtu, maxSent, timeout, channels));
    NeverBuildsAgainExactly(s5);
  }
}
