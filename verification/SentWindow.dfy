/**
 The window of sent, unacknowledged datagrams (raknet/src/session/outbound.rs, inbound.rs):
 a base number and a deque of optional slots. `Lookup` reads it as a finite map from
 sequence numbers to tracked datagrams, and every operation is characterised on that map.
*/
module SentWindow {
  import opened Sequence24
  import opened Wrappers
  import opened Ranges
  import opened Protocol

  datatype Tracked = Tracked(datagram: Datagram, sendTime: nat, nextSend: nat)

  type Slots = seq<Option<Tracked>>

  function Lookup(base: Seq24, slots: Slots, s: Seq24): Option<Tracked> {
    if DistanceTo(base, s) < |slots| then slots[DistanceTo(base, s)] else None
  }

  /** Slot `i` holds the data datagram numbered `base + i`. */
  ghost predicate Numbered(base: Seq24, slots: Slots) {
    && |slots| <= MODULO
    && forall i :: 0 <= i < |slots| && slots[i].Some? ==>
         slots[i].value.datagram.sequence == Ahead(base, i) && slots[i].value.datagram.payload.Frames?
  }

  function TrackedBytes(slots: Slots): nat {
    if slots == [] then 0
    else TrackedBytes(slots[..|slots| - 1]) + SlotBytes(slots[|slots| - 1])
  }

  function SlotBytes(slot: Option<Tracked>): nat {
    if slot.Some? then slot.value.datagram.Size() else 0
  }

  // ----- tracking -----

  function Grown(slots: Slots, len: nat): Slots {
    if |slots| < len then slots + seq(len - |slots|, _ => None) else slots
  }

  function Inserted(base: Seq24, slots: Slots, s: Seq24, t: Tracked): Slots {
    var dist := DistanceTo(base, s);
    Grown(slots, dist + 1)[dist := Some(t)]
  }

  /** Tracking is map insertion. */
  lemma InsertedIsMapUpdate(base: Seq24, slots: Slots, s: Seq24, t: Tracked, x: Seq24)
    ensures Lookup(base, Inserted(base, slots, s, t), x) == if x == s then Some(t) else Lookup(base, slots, x)
  {
    DistanceDetermines(base, x);
    DistanceDetermines(base, s);
  }

  lemma InsertedNumbered(base: Seq24, slots: Slots, s: Seq24, t: Tracked)
    requires Numbered(base, slots)
    requires t.datagram.sequence == s && t.datagram.payload.Frames?
    ensures Numbered(base, Inserted(base, slots, s, t))
  {
    DistanceDetermines(base, s);
  }

  lemma InsertedBytes(base: Seq24, slots: Slots, s: Seq24, t: Tracked)
    ensures TrackedBytes(Inserted(base, slots, s, t)) ==
            TrackedBytes(slots) + t.datagram.Size() - SlotBytes(Lookup(base, slots, s))
  {
    var dist := DistanceTo(base, s);
    var grown := Grown(slots, dist + 1);
    if |slots| < dist + 1 {
      EmptySlotsWeighNothing(slots, dist + 1 - |slots|);
    }
    SetSlotBytes(grown, dist, Some(t));
  }

  lemma {:induction false} EmptySlotsWeighNothing(slots: Slots, n: nat)
    ensures TrackedBytes(slots + seq(n, _ => None)) == TrackedBytes(slots)
  {
    var empty: Slots := seq(n, _ => None);
    if n == 0 {
      assert slots + empty == slots;
    } else {
      EmptySlotsWeighNothing(slots, n - 1);
      assert (slots + empty)[..|slots| + n - 1] == slots + seq(n - 1, _ => None);
    }
  }

  lemma {:induction false} SetSlotBytes(slots: Slots, i: nat, slot: Option<Tracked>)
    requires i < |slots|
    ensures TrackedBytes(slots[i := slot]) == TrackedBytes(slots) + SlotBytes(slot) - SlotBytes(slots[i])
    ensures TrackedBytes(slots) >= SlotBytes(slots[i])
  {
    var init := slots[..|slots| - 1];
    if i < |init| {
      SetSlotBytes(init, i, slot);
      assert slots[i := slot][..|slots| - 1] == init[i := slot];
    } else {
      assert slots[i := slot][..|slots| - 1] == init;
    }
  }

  // ----- acknowledgement -----

  /** Exactly the slots numbered in `acks` are emptied. */
  function AckedSlots(base: Seq24, slots: Slots, acks: seq<SequenceRange>): Slots
    requires |slots| <= MODULO
  {
    seq(|slots|, i requires 0 <= i < |slots| => if Covered(acks, Ahead(base, i)) then None else slots[i])
  }

  /** Part way through a range: its first `n` numbers are done too. */
  function AckedUpTo(base: Seq24, slots: Slots, acks: seq<SequenceRange>, start: Seq24, n: nat): Slots
    requires |slots| <= MODULO
  {
    seq(|slots|, i requires 0 <= i < |slots| =>
          if Covered(acks, Ahead(base, i)) || DistanceTo(start, Ahead(base, i)) < n then None else slots[i])
  }

  function Cleared(base: Seq24, slots: Slots, s: Seq24): Slots {
    if DistanceTo(base, s) < |slots| then slots[DistanceTo(base, s) := None] else slots
  }

  lemma AckedOneMore(base: Seq24, slots: Slots, acks: seq<SequenceRange>, start: Seq24, n: nat)
    requires |slots| <= MODULO && n < MODULO
    ensures AckedUpTo(base, slots, acks, start, n + 1) ==
            Cleared(base, AckedUpTo(base, slots, acks, start, n), Ahead(start, n))
  {
    var s := Ahead(start, n);
    DistanceDetermines(base, s);
    forall i | 0 <= i < |slots|
      ensures DistanceTo(start, Ahead(base, i)) == n <==> i == DistanceTo(base, s)
    {
      DistanceDetermines(start, Ahead(base, i));
    }
  }

  lemma AckedWholeRange(base: Seq24, slots: Slots, acks: seq<SequenceRange>, range: SequenceRange)
    requires |slots| <= MODULO
    ensures AckedUpTo(base, slots, acks, range.start, 0) == AckedSlots(base, slots, acks)
    ensures AckedUpTo(base, slots, acks, range.start, DistanceTo(range.start, range.end) + 1) ==
            AckedSlots(base, slots, acks + [range])
  {
    forall i | 0 <= i < |slots|
      ensures Covered(acks + [range], Ahead(base, i)) <==>
              Covered(acks, Ahead(base, i)) || InRange(range, Ahead(base, i))
    {
      CoveredMore(acks, range, Ahead(base, i));
    }
  }

  lemma CoveredMore(acks: seq<SequenceRange>, range: SequenceRange, s: Seq24)
    ensures Covered(acks + [range], s) <==> Covered(acks, s) || InRange(range, s)
  {
    CoveredConcat(acks, [range], s);
    assert [range][0] == range;
  }

  lemma NothingAcked(base: Seq24, slots: Slots, now: nat)
    requires |slots| <= MODULO
    ensures AckedSlots(base, slots, []) == slots
    ensures NakedSlots(base, slots, [], now) == slots
  {
  }

  /** Acknowledgement removes exactly the members of the ranges from the map; numbers outside the window,
      late ones included, change nothing. */
  lemma AckedIsMapRemoval(base: Seq24, slots: Slots, acks: seq<SequenceRange>, s: Seq24)
    requires |slots| <= MODULO
    ensures Lookup(base, AckedSlots(base, slots, acks), s) == if Covered(acks, s) then None else Lookup(base, slots, s)
  {
    DistanceDetermines(base, s);
  }

  // ----- cleaning -----

  predicate Dead(slot: Option<Tracked>, now: nat, timeout: nat) {
    slot.None? || SaturatingSub(now, slot.value.sendTime) > timeout
  }

  function LeadingDead(slots: Slots, now: nat, timeout: nat): (k: nat)
    ensures k <= |slots|
    ensures forall i :: 0 <= i < k ==> Dead(slots[i], now, timeout)
    ensures k < |slots| ==> !Dead(slots[k], now, timeout)
  {
    if slots == [] || !Dead(slots[0], now, timeout) then 0
    else 1 + LeadingDead(slots[1..], now, timeout)
  }

  function Trimmed(slots: Slots): (r: Slots)
    ensures r <= slots
    ensures forall i :: |r| <= i < |slots| ==> slots[i].None?
    ensures r != [] ==> r[|r| - 1].Some?
  {
    if slots == [] || slots[|slots| - 1].Some? then slots else Trimmed(slots[..|slots| - 1])
  }

  /** How many slots cleaning drops from the front: the dead ones, and more if the rest is over capacity. */
  function FrontDrop(slots: Slots, now: nat, timeout: nat, max: nat): (k: nat)
    ensures k <= |slots|
  {
    var dead := LeadingDead(slots, now, timeout);
    if |slots| - dead > max then |slots| - max else dead
  }

  function CleanedBase(base: Seq24, slots: Slots, now: nat, timeout: nat, max: nat): Seq24
    requires |slots| <= MODULO
  {
    Advanced(base, FrontDrop(slots, now, timeout, max))
  }

  /** `k` steps of `next`; a whole turn leads back to the start. */
  function Advanced(base: Seq24, k: nat): Seq24
    requires k <= MODULO
  {
    if k == MODULO then base else Ahead(base, k)
  }

  /** Dropping `k` slots from the front and advancing the base forgets exactly the first `k` numbers. */
  lemma ShiftedLookup(base: Seq24, slots: Slots, k: nat, s: Seq24)
    requires k <= |slots| <= MODULO
    ensures Lookup(Advanced(base, k), slots[k..], s) ==
            if DistanceTo(base, s) < k then None else Lookup(base, slots, s)
  {
  }

  lemma ShiftedNumbered(base: Seq24, slots: Slots, k: nat)
    requires k <= |slots| && Numbered(base, slots)
    ensures Numbered(Advanced(base, k), slots[k..])
  {
    forall i | 0 <= i < |slots| - k
      ensures Ahead(Advanced(base, k), i) == Ahead(base, k + i)
    {
    }
  }

  lemma TrimmedLookup(base: Seq24, slots: Slots, s: Seq24)
    ensures Lookup(base, Trimmed(slots), s) == Lookup(base, slots, s)
    ensures Numbered(base, slots) ==> Numbered(base, Trimmed(slots))
  {
  }

  function Cleaned(slots: Slots, now: nat, timeout: nat, max: nat): Slots {
    Trimmed(slots[FrontDrop(slots, now, timeout, max)..])
  }

  /** Cleaning keeps every entry but the dropped ones, and those are expired or the oldest over capacity;
      afterwards the window is within capacity and ends in a live slot. */
  lemma CleaningDropsOnlyExpiredOrOldest(base: Seq24, slots: Slots, now: nat, timeout: nat, max: nat, s: Seq24)
    requires Numbered(base, slots)
    ensures var base', slots' := CleanedBase(base, slots, now, timeout, max), Cleaned(slots, now, timeout, max);
            && Numbered(base', slots')
            && |slots'| <= max
            && (slots' != [] ==> slots'[|slots'| - 1].Some?)
            && Lookup(base', slots', s) ==
               if DistanceTo(base, s) < FrontDrop(slots, now, timeout, max) then None else Lookup(base, slots, s)
    ensures DistanceTo(base, s) < FrontDrop(slots, now, timeout, max) && Lookup(base, slots, s).Some? ==>
              || SaturatingSub(now, Lookup(base, slots, s).value.sendTime) > timeout
              || |slots| - DistanceTo(base, s) > max
  {
    var k := FrontDrop(slots, now, timeout, max);
    ShiftedLookup(base, slots, k, s);
    ShiftedNumbered(base, slots, k);
    TrimmedLookup(Advanced(base, k), slots[k..], s);
  }

  lemma {:induction false} SplitBytesAt(slots: Slots, k: nat)
    requires k <= |slots|
    ensures TrackedBytes(slots) == TrackedBytes(slots[..k]) + TrackedBytes(slots[k..])
  {
    if k == |slots| {
      assert slots[..k] == slots;
    } else {
      var init := slots[..|slots| - 1];
      SplitBytesAt(init, k);
      assert init[..k] == slots[..k];
      assert slots[k..][..|slots| - k - 1] == init[k..];
    }
  }

  lemma {:induction false} TrimmingDropsNoBytes(slots: Slots)
    ensures TrackedBytes(Trimmed(slots)) == TrackedBytes(slots)
  {
    if slots != [] && slots[|slots| - 1].None? {
      TrimmingDropsNoBytes(slots[..|slots| - 1]);
    }
  }

  lemma CleanedBytes(slots: Slots, now: nat, timeout: nat, max: nat)
    ensures var k := FrontDrop(slots, now, timeout, max);
            TrackedBytes(slots) == TrackedBytes(slots[..k]) + TrackedBytes(Cleaned(slots, now, timeout, max))
  {
    var k := FrontDrop(slots, now, timeout, max);
    SplitBytesAt(slots, k);
    TrimmingDropsNoBytes(slots[k..]);
  }

  // ----- negative acknowledgement and retransmission -----

  function Hurried(slot: Option<Tracked>, now: nat): Option<Tracked> {
    if slot.Some? then Some(slot.value.(nextSend := now)) else None
  }

  /** Exactly the tracked datagrams numbered in `naks` become due now. */
  function NakedSlots(base: Seq24, slots: Slots, naks: seq<SequenceRange>, now: nat): Slots
    requires |slots| <= MODULO
  {
    seq(|slots|, i requires 0 <= i < |slots| =>
          if Covered(naks, Ahead(base, i)) then Hurried(slots[i], now) else slots[i])
  }

  function NakedUpTo(base: Seq24, slots: Slots, naks: seq<SequenceRange>, now: nat, start: Seq24, n: nat): Slots
    requires |slots| <= MODULO
  {
    seq(|slots|, i requires 0 <= i < |slots| =>
          if Covered(naks, Ahead(base, i)) || DistanceTo(start, Ahead(base, i)) < n then Hurried(slots[i], now)
          else slots[i])
  }

  function HurriedAt(base: Seq24, slots: Slots, s: Seq24, now: nat): Slots {
    if DistanceTo(base, s) < |slots| then slots[DistanceTo(base, s) := Hurried(slots[DistanceTo(base, s)], now)]
    else slots
  }

  lemma NakedOneMore(base: Seq24, slots: Slots, naks: seq<SequenceRange>, now: nat, start: Seq24, n: nat)
    requires |slots| <= MODULO && n < MODULO
    ensures NakedUpTo(base, slots, naks, now, start, n + 1) ==
            HurriedAt(base, NakedUpTo(base, slots, naks, now, start, n), Ahead(start, n), now)
  {
    var s := Ahead(start, n);
    DistanceDetermines(base, s);
    forall i | 0 <= i < |slots|
      ensures DistanceTo(start, Ahead(base, i)) == n <==> i == DistanceTo(base, s)
    {
      DistanceDetermines(start, Ahead(base, i));
    }
  }

  lemma NakedWholeRange(base: Seq24, slots: Slots, naks: seq<SequenceRange>, now: nat, range: SequenceRange)
    requires |slots| <= MODULO
    ensures NakedUpTo(base, slots, naks, now, range.start, 0) == NakedSlots(base, slots, naks, now)
    ensures NakedUpTo(base, slots, naks, now, range.start, DistanceTo(range.start, range.end) + 1) ==
            NakedSlots(base, slots, naks + [range], now)
  {
    forall i | 0 <= i < |slots|
      ensures Covered(naks + [range], Ahead(base, i)) <==>
              Covered(naks, Ahead(base, i)) || InRange(range, Ahead(base, i))
    {
      CoveredMore(naks, range, Ahead(base, i));
    }
  }

  /** After a NAK is applied its datagram is due. */
  lemma NakedIsDue(base: Seq24, slots: Slots, naks: seq<SequenceRange>, now: nat, s: Seq24)
    requires |slots| <= MODULO && Lookup(base, slots, s).Some? && Covered(naks, s)
    ensures Lookup(base, NakedSlots(base, slots, naks, now), s).Some?
    ensures Lookup(base, NakedSlots(base, slots, naks, now), s).value.datagram == Lookup(base, slots, s).value.datagram
    ensures IsDue(Lookup(base, NakedSlots(base, slots, naks, now), s), now)
  {
    DistanceDetermines(base, s);
  }

  predicate IsDue(slot: Option<Tracked>, now: nat) {
    slot.Some? && slot.value.nextSend <= now
  }

  /** The due datagrams, in slot order. */
  function DueDatagrams(slots: Slots, now: nat): seq<Datagram> {
    if slots == [] then []
    else
      var last := slots[|slots| - 1];
      DueDatagrams(slots[..|slots| - 1], now) + if IsDue(last, now) then [last.value.datagram] else []
  }

  /** The positions of the due datagrams, in order. */
  function DueIndices(slots: Slots, now: nat): (r: seq<nat>)
    ensures forall j :: 0 <= j < |r| ==> r[j] < |slots| && IsDue(slots[r[j]], now)
  {
    if slots == [] then []
    else
      DueIndices(slots[..|slots| - 1], now) + if IsDue(slots[|slots| - 1], now) then [|slots| - 1] else []
  }

  lemma {:induction false} DueIndicesComplete(slots: Slots, now: nat, i: nat)
    requires i < |slots| && IsDue(slots[i], now)
    ensures i in DueIndices(slots, now)
  {
    if i < |slots| - 1 {
      DueIndicesComplete(slots[..|slots| - 1], now, i);
    }
  }

  lemma {:induction false} DueDatagramsAt(slots: Slots, now: nat)
    ensures |DueDatagrams(slots, now)| == |DueIndices(slots, now)|
    ensures forall j :: 0 <= j < |DueIndices(slots, now)| ==>
              DueDatagrams(slots, now)[j] == slots[DueIndices(slots, now)[j]].value.datagram
  {
    if slots != [] {
      DueDatagramsAt(slots[..|slots| - 1], now);
    }
  }

  lemma {:induction false} NoBytesNothingDue(slots: Slots, now: nat)
    requires DueBytes(slots, now) == 0
    ensures DueIndices(slots, now) == [] && DueDatagrams(slots, now) == []
  {
    if slots != [] {
      NoBytesNothingDue(slots[..|slots| - 1], now);
    }
  }

  function NumbersAt(base: Seq24, indices: seq<nat>): seq<Seq24>
    requires forall j :: 0 <= j < |indices| ==> indices[j] < MODULO
  {
    seq(|indices|, j requires 0 <= j < |indices| => Ahead(base, indices[j]))
  }

  function DueBytes(slots: Slots, now: nat): nat {
    if slots == [] then 0
    else
      var last := slots[|slots| - 1];
      DueBytes(slots[..|slots| - 1], now) + if IsDue(last, now) then last.value.datagram.Size() else 0
  }

  lemma {:induction false} DueWithinTracked(slots: Slots, now: nat)
    ensures DueBytes(slots, now) <= TrackedBytes(slots)
  {
    if slots != [] {
      DueWithinTracked(slots[..|slots| - 1], now);
    }
  }

  lemma {:induction false} DueBytesPrefix(slots: Slots, now: nat, i: nat)
    requires i < |slots|
    ensures DueBytes(slots[..i + 1], now) ==
            DueBytes(slots[..i], now) + if IsDue(slots[i], now) then slots[i].value.datagram.Size() else 0
    ensures DueBytes(slots[..i + 1], now) <= DueBytes(slots, now)
  {
    assert slots[..i + 1][..i] == slots[..i];
    if i + 1 < |slots| {
      DueBytesPrefix(slots[..|slots| - 1], now, i);
      assert slots[..|slots| - 1][..i + 1] == slots[..i + 1];
    } else {
      assert slots[..i + 1] == slots;
    }
  }

  function Rescheduled(slot: Option<Tracked>, now: nat, rto: nat): Option<Tracked> {
    if IsDue(slot, now) then Some(slot.value.(sendTime := now, nextSend := now + rto)) else slot
  }

  function ResentSlots(slots: Slots, now: nat, rto: nat): Slots {
    seq(|slots|, i requires 0 <= i < |slots| => Rescheduled(slots[i], now, rto))
  }

  /** Part way through the retransmission: only the listed slots are rescheduled. */
  function PartlyResent(slots: Slots, now: nat, rto: nat, indices: seq<nat>): Slots {
    seq(|slots|, i requires 0 <= i < |slots| => if i in indices then Rescheduled(slots[i], now, rto) else slots[i])
  }

  lemma PartlyResentOneMore(slots: Slots, now: nat, rto: nat, indices: seq<nat>, i: nat)
    requires i < |slots|
    ensures PartlyResent(slots, now, rto, indices + [i]) ==
            PartlyResent(slots, now, rto, indices)[i := Rescheduled(slots[i], now, rto)]
  {
  }

  lemma PartlyResentIsResent(slots: Slots, now: nat, rto: nat)
    ensures PartlyResent(slots, now, rto, []) == slots
    ensures PartlyResent(slots, now, rto, DueIndices(slots, now)) == ResentSlots(slots, now, rto)
  {
    forall i | 0 <= i < |slots| && i !in DueIndices(slots, now)
      ensures !IsDue(slots[i], now)
    {
      if IsDue(slots[i], now) {
        DueIndicesComplete(slots, now, i);
      }
    }
  }

  /** A datagram is due exactly when some live slot holds it with its time reached. */
  lemma {:induction false} DueMembers(slots: Slots, now: nat, d: Datagram)
    ensures d in DueDatagrams(slots, now) <==>
            exists i :: 0 <= i < |slots| && IsDue(slots[i], now) && slots[i].value.datagram == d
  {
    if slots != [] {
      var init := slots[..|slots| - 1];
      DueMembers(init, now, d);
      if i :| 0 <= i < |init| && IsDue(init[i], now) && init[i].value.datagram == d {
        assert slots[i] == init[i];
      }
      if i :| 0 <= i < |slots| && IsDue(slots[i], now) && slots[i].value.datagram == d {
        assert i < |init| ==> init[i] == slots[i];
      }
    }
  }

  /** Changing times only leaves the map's datagrams in place. */
  ghost predicate SameDatagrams(slots: Slots, slots': Slots) {
    && |slots'| == |slots|
    && forall i :: 0 <= i < |slots| ==>
         slots'[i].Some? == slots[i].Some? && (slots[i].Some? ==> slots'[i].value.datagram == slots[i].value.datagram)
  }

  lemma {:induction false} SameDatagramsSameBytes(slots: Slots, slots': Slots)
    requires SameDatagrams(slots, slots')
    ensures TrackedBytes(slots') == TrackedBytes(slots)
  {
    if slots != [] {
      SameDatagramsSameBytes(slots[..|slots| - 1], slots'[..|slots| - 1]);
    }
  }
}
