/**
 What a tick does to the congestion window (raknet/src/session/inbound.rs, outbound.rs): every tracked
 datagram that is acknowledged is credited once, in range order; NACKs and retransmissions back off once.
*/
module Congestion {
  import opened Sequence24
  import opened Wrappers
  import opened Ranges
  import opened Protocol
  import opened Sliding
  import opened SentWindow
  import opened Sending

  /** The acknowledgement of what slot `s` holds, if anything. */
  function Credited(w: Window, slot: Option<Tracked>, now: nat, s: Seq24): (w': Window)
    requires w.Sane()
    ensures w'.Sane() && w'.cwnd >= w.cwnd
  {
    if slot.None? then w
    else
      AckKeepsSane(w, SaturatingSub(now, slot.value.sendTime), slot.value.datagram.Size(), s);
      AfterAck(w, SaturatingSub(now, slot.value.sendTime), slot.value.datagram.Size(), s)
  }

  /** The first `n` numbers from `start` on. */
  function CreditedUpTo(w: Window, base: Seq24, slots: Slots, start: Seq24, n: nat, now: nat): (w': Window)
    requires w.Sane() && n <= MODULO
    ensures w'.Sane() && w'.cwnd >= w.cwnd
  {
    if n == 0 then w
    else
      var s := Ahead(start, n - 1);
      Credited(CreditedUpTo(w, base, slots, start, n - 1, now), Lookup(base, slots, s), now, s)
  }

  function CreditedAll(w: Window, base: Seq24, slots: Slots, acks: seq<SequenceRange>, now: nat): (w': Window)
    requires w.Sane() && |slots| <= MODULO
    ensures w'.Sane() && w'.cwnd >= w.cwnd
  {
    if acks == [] then w
    else
      var init, last := acks[..|acks| - 1], acks[|acks| - 1];
      CreditedUpTo(CreditedAll(w, base, slots, init, now), base, AckedSlots(base, slots, init),
                   last.start, DistanceTo(last.start, last.end) + 1, now)
  }

  lemma CreditedMore(w: Window, base: Seq24, slots: Slots, acks: seq<SequenceRange>, range: SequenceRange, now: nat)
    requires w.Sane() && |slots| <= MODULO
    ensures CreditedAll(w, base, slots, acks + [range], now) ==
            CreditedUpTo(CreditedAll(w, base, slots, acks, now), base, AckedSlots(base, slots, acks),
                         range.start, DistanceTo(range.start, range.end) + 1, now)
  {
    assert (acks + [range])[..|acks|] == acks;
  }

  /** Part way through a range the next number's slot is still as it was before the range. */
  lemma NextSlotUntouched(base: Seq24, slots: Slots, acks: seq<SequenceRange>, start: Seq24, n: nat)
    requires |slots| <= MODULO && n < MODULO
    ensures Lookup(base, AckedUpTo(base, slots, acks, start, n), Ahead(start, n)) ==
            Lookup(base, AckedSlots(base, slots, acks), Ahead(start, n))
  {
    DistanceDetermines(base, Ahead(start, n));
  }

  // ----- negative acknowledgements -----

  ghost predicate HoldsOne(base: Seq24, slots: Slots, naks: seq<SequenceRange>) {
    |slots| <= MODULO && exists i :: 0 <= i < |slots| && slots[i].Some? && Covered(naks, Ahead(base, i))
  }

  /** However many NACKed datagrams a tick finds, it backs off once. */
  function NakIf(w: Window, any: bool): Window {
    if any then AfterNak(w) else w
  }

  lemma NothingHeld(base: Seq24, slots: Slots)
    ensures !HoldsOne(base, slots, [])
  {
  }

  lemma HoldsOneMore(base: Seq24, slots: Slots, naks: seq<SequenceRange>, range: SequenceRange)
    requires |slots| <= MODULO
    ensures HoldsOne(base, slots, naks + [range]) <==>
            HoldsOne(base, slots, naks) || HoldsUpTo(base, slots, range.start, DistanceTo(range.start, range.end) + 1)
  {
    forall i | 0 <= i < |slots|
      ensures Covered(naks + [range], Ahead(base, i)) <==>
              Covered(naks, Ahead(base, i)) || InRange(range, Ahead(base, i))
    {
      CoveredMore(naks, range, Ahead(base, i));
    }
  }

  ghost predicate HoldsUpTo(base: Seq24, slots: Slots, start: Seq24, n: nat) {
    |slots| <= MODULO && exists i :: 0 <= i < |slots| && slots[i].Some? && DistanceTo(start, Ahead(base, i)) < n
  }

  lemma HoldsUpToMore(base: Seq24, slots: Slots, start: Seq24, n: nat)
    requires |slots| <= MODULO && n < MODULO
    ensures HoldsUpTo(base, slots, start, n + 1) <==>
            HoldsUpTo(base, slots, start, n) || Lookup(base, slots, Ahead(start, n)).Some?
  {
    var s := Ahead(start, n);
    DistanceDetermines(base, s);
    forall i | 0 <= i < |slots|
      ensures DistanceTo(start, Ahead(base, i)) == n <==> i == DistanceTo(base, s)
    {
      DistanceDetermines(start, Ahead(base, i));
    }
    if Lookup(base, slots, s).Some? {
      assert slots[DistanceTo(base, s)].Some?;
    }
  }

  // ----- the whole tick -----

  /** The window when a tick gets to retransmission. */
  ghost function BeforeResends(w: Window, tx: Tx, now: nat): (w': Window)
    requires w.Sane() && Numbered(tx.base, tx.slots)
    ensures w'.Sane()
  {
    var tx1 := AfterAcks(tx, now);
    NakIf(CreditedAll(w, tx.base, tx.slots, tx.acks, now), HoldsOne(tx1.base, tx1.slots, tx1.naks))
  }

  /** ... and after it. */
  function Resending(w: Window, anyDue: bool, current: Seq24): Window {
    if anyDue then AfterResend(w, current) else w
  }

  // ----- what the window lets out -----

  /** Building with the bandwidth and timeout of the window, which is charged for a tracked datagram. */
  ghost predicate BuildsCharging(tx: Tx, w: Window, now: nat, out: Option<Datagram>, tx': Tx, w': Window)
    requires w.Sane()
  {
    && Builds(tx, now, w.TransmissionBandwidth(), w.Rto(), tx', out)
    && w' == if HasReliable(PacketsOf(out)) then AfterSend(w, out.value.Size()) else w
  }

  /** Building one datagram after the other. */
  ghost predicate Flushes(tx: Tx, w: Window, now: nat, out: seq<Datagram>, tx': Tx, w': Window)
    requires w.Sane()
    decreases |out|, 0
  {
    if out == [] then tx' == tx && w' == w
    else exists tx1, w1 :: FlushesLast(tx, w, now, out, tx1, w1, tx', w')
  }

  ghost predicate FlushesLast(tx: Tx, w: Window, now: nat, out: seq<Datagram>, tx1: Tx, w1: Window, tx': Tx, w': Window)
    requires w.Sane() && out != []
    decreases |out| - 1, 1
  {
    && w1.Sane()
    && Flushes(tx, w, now, out[..|out| - 1], tx1, w1)
    && BuildsCharging(tx1, w1, now, Some(out[|out| - 1]), tx', w')
  }

  lemma FlushesMore(tx: Tx, w: Window, now: nat, out: seq<Datagram>, tx1: Tx, w1: Window, d: Datagram, tx': Tx,
                    w': Window)
    requires w.Sane() && w1.Sane() && Flushes(tx, w, now, out, tx1, w1)
    requires BuildsCharging(tx1, w1, now, Some(d), tx', w')
    ensures Flushes(tx, w, now, out + [d], tx', w')
  {
    assert (out + [d])[..|out|] == out;
    assert FlushesLast(tx, w, now, out + [d], tx1, w1, tx', w');
  }

  /** Flags and bit length: no packet is smaller. */
  const SMALLEST_PACKET: nat := 3

  lemma {:induction false} PacketsWeigh(packets: seq<Encap>)
    requires packets != []
    ensures TotalSize(packets) >= SMALLEST_PACKET
  {
    if |packets| > 1 {
      PacketsWeigh(packets[..|packets| - 1]);
    }
  }

  /** Sending a tracked datagram leaves at most the window in flight, plus the datagram's own header. */
  lemma SendStaysWithinWindow(w: Window, tx: Tx, now: nat, rto: nat, tx': Tx, d: Datagram)
    requires w.Sane() && Builds(tx, now, w.TransmissionBandwidth(), rto, tx', Some(d))
    ensures AfterSend(w, d.Size()).unackedBytes as real <= w.cwnd + RAKNET_DATAGRAM_HEADER_SIZE as real
  {
    BuiltDatagramFits(tx, now, w.TransmissionBandwidth(), rto, tx', d);
    PacketsWeigh(PacketsOf(Some(d)));
  }

  lemma {:induction false} NothingToCreditUpTo(w: Window, base: Seq24, start: Seq24, n: nat, now: nat)
    requires w.Sane() && n <= MODULO
    ensures CreditedUpTo(w, base, [], start, n, now) == w
  {
    if n > 0 {
      NothingToCreditUpTo(w, base, start, n - 1, now);
    }
  }

  lemma {:induction false} NothingToCredit(w: Window, base: Seq24, acks: seq<SequenceRange>, now: nat)
    requires w.Sane()
    ensures CreditedAll(w, base, [], acks, now) == w
  {
    if acks != [] {
      var init, last := acks[..|acks| - 1], acks[|acks| - 1];
      NothingToCredit(w, base, init, now);
      assert AckedSlots(base, [], init) == [];
      NothingToCreditUpTo(w, base, last.start, DistanceTo(last.start, last.end) + 1, now);
    }
  }

  /** With nothing tracked a tick leaves the window as it is, whatever the peer reports. */
  lemma TickOfEmptyWindow(w: Window, tx: Tx, now: nat)
    requires w.Sane() && tx.slots == []
    ensures BeforeResends(w, tx, now) == w
    ensures SettledTx(tx, now).slots == []
    ensures DueDatagrams(SettledTx(tx, now).slots, now) == []
  {
    NothingToCredit(w, tx.base, tx.acks, now);
    assert AckedSlots(tx.base, [], tx.acks) == [];
  }
}
