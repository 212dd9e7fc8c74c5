/** The congestion window (raknet/src/session/sliding_window.rs), with `f64` idealised as `real`. */
module Sliding {
  import opened Sequence24
  import opened Wrappers

  const CC_MAXIMUM_THRESHOLD: nat := 2000
  const CC_ADDITIONAL_VARIANCE: nat := 30

  // ----- specification -----

  datatype Window = Window(
    mtu: nat,
    cwnd: real,
    ssThresh: real,
    estimatedRtt: real,   // -1 = uninitialized
    lastRtt: real,        // -1 = none
    deviationRtt: real,   // -1 = none
    nextCongestionBlock: Seq24,
    backoffThisBlock: bool,
    unackedBytes: int)
  {
    predicate Sane() {
      && cwnd >= mtu as real
      && ssThresh >= 0.0
      && unackedBytes >= 0
      && (estimatedRtt == -1.0 || (estimatedRtt >= 0.0 && deviationRtt >= 0.0))
    }

    predicate InSlowStart() {
      ssThresh == 0.0 || cwnd <= ssThresh
    }

    function RetransmissionBandwidth(): nat {
      if unackedBytes > 0 then unackedBytes else 0
    }

    function TransmissionBandwidth(): nat {
      if unackedBytes as real <= cwnd then (cwnd - unackedBytes as real).Floor else 0
    }

    /** The retransmission timeout in milliseconds. */
    function Rto(): nat
      requires Sane()
    {
      if estimatedRtt < 0.0 then CC_MAXIMUM_THRESHOLD
      else
        var threshold := (2.0 * estimatedRtt + 4.0 * deviationRtt) + CC_ADDITIONAL_VARIANCE as real;
        if threshold > CC_MAXIMUM_THRESHOLD as real then CC_MAXIMUM_THRESHOLD else threshold.Floor
    }
  }

  function Fresh(mtu: nat): Window {
    Window(mtu, mtu as real, 0.0, -1.0, -1.0, -1.0, 0, false, 0)
  }

  function Magnitude(x: real): real {
    if x < 0.0 then -x else x
  }

  function WithSample(w: Window, rtt: real): Window {
    if w.estimatedRtt < 0.0 then w.(lastRtt := rtt, estimatedRtt := rtt, deviationRtt := rtt / 2.0)
    else
      var diff := rtt - w.estimatedRtt;
      w.(lastRtt := rtt, estimatedRtt := w.estimatedRtt + 0.125 * diff,
         deviationRtt := (1.0 - 0.25) * w.deviationRtt + 0.25 * Magnitude(diff))
  }

  function WithLessInFlight(w: Window, size: nat): Window {
    w.(unackedBytes := if w.unackedBytes - size < 0 then 0 else w.unackedBytes - size)
  }

  /** MTU squared over the window: one MTU per window's worth of acknowledgements. */
  function Increment(mtu: nat, cwnd: real): real
    requires cwnd > 0.0
  {
    (mtu as real * mtu as real) / cwnd
  }

  /** The congestion window after an acknowledgement, given whether it opens a new block. */
  function GrownCwnd(w: Window, isNewBlock: bool): real
    requires w.cwnd >= w.mtu as real && w.ssThresh >= 0.0
  {
    if w.InSlowStart() then
      var grown := w.cwnd + w.mtu as real;
      if w.ssThresh != 0.0 && grown > w.ssThresh then w.ssThresh + Increment(w.mtu, grown) else grown
    else if isNewBlock then w.cwnd + Increment(w.mtu, w.cwnd)
    else w.cwnd
  }

  function AfterAck(w: Window, rtt: nat, size: nat, ackedSeq: Seq24): Window
    requires w.Sane()
  {
    var isNewBlock := Gt(ackedSeq, w.nextCongestionBlock);
    var w1 := WithSample(WithLessInFlight(w, size), rtt as real);
    w1.(cwnd := GrownCwnd(w, isNewBlock),
        backoffThisBlock := w.backoffThisBlock && !isNewBlock,
        nextCongestionBlock := if isNewBlock then ackedSeq else w.nextCongestionBlock)
  }

  function AfterNak(w: Window): Window {
    if w.backoffThisBlock then w else w.(ssThresh := w.cwnd * 0.75)
  }

  function AfterResend(w: Window, curSeq: Seq24): Window {
    var mtu := w.mtu as real;
    if !w.backoffThisBlock && w.cwnd > mtu * 2.0 then
      w.(ssThresh := if w.cwnd * 0.5 > mtu then w.cwnd * 0.5 else mtu,
         cwnd := mtu, nextCongestionBlock := curSeq, backoffThisBlock := true)
    else w
  }

  function AfterSend(w: Window, size: nat): Window {
    w.(unackedBytes := w.unackedBytes + size)
  }

  // ----- the window object -----

  class SlidingWindow {
    const mtu: nat
    var cwnd: real
    var ssThresh: real
    var estimatedRtt: real
    var lastRtt: real
    var deviationRtt: real
    var nextCongestionBlock: Seq24
    var backoffThisBlock: bool
    var unackedBytes: int

    function Model(): Window
      reads this
    {
      Window(mtu, cwnd, ssThresh, estimatedRtt, lastRtt, deviationRtt, nextCongestionBlock, backoffThisBlock,
             unackedBytes)
    }

    ghost predicate Valid()
      reads this
    {
      Model().Sane()
    }

    constructor (mtu: nat)
      ensures Valid() && Model() == Fresh(mtu)
    {
      this.mtu := mtu;
      cwnd := mtu as real;
      ssThresh := 0.0;
      estimatedRtt, lastRtt, deviationRtt := -1.0, -1.0, -1.0;
      nextCongestionBlock := 0;
      backoffThisBlock := false;
      unackedBytes := 0;
    }

    method OnReliableSend(size: nat)
      requires Valid()
      modifies this
      ensures Valid() && Model() == AfterSend(old(Model()), size)
    {
      unackedBytes := unackedBytes + size;
    }

    method OnAck(now: nat, size: nat, ackedSeq: Seq24, sendTime: nat)
      requires Valid()
      modifies this
      ensures Valid()
      ensures Model() == AfterAck(old(Model()), SaturatingSub(now, sendTime), size, ackedSeq)
    {
      var rtt := SaturatingSub(now, sendTime);
      ghost var before := Model();
      AckKeepsSane(before, rtt, size, ackedSeq);
      unackedBytes := unackedBytes - size;
      if unackedBytes < 0 {
        unackedBytes := 0;
      }
      TakeSample(rtt as real);
      var isNewBlock := Gt(ackedSeq, nextCongestionBlock);
      if isNewBlock {
        backoffThisBlock := false;
        nextCongestionBlock := ackedSeq;
      }
      GrowWindow(isNewBlock);
    }

    method TakeSample(rttMs: real)
      modifies this`estimatedRtt, this`lastRtt, this`deviationRtt
      ensures Model() == WithSample(old(Model()), rttMs)
    {
      lastRtt := rttMs;
      if estimatedRtt < 0.0 {
        estimatedRtt := rttMs;
        deviationRtt := rttMs / 2.0;
      } else {
        var diff := rttMs - estimatedRtt;
        estimatedRtt := estimatedRtt + 0.125 * diff;
        deviationRtt := (1.0 - 0.25) * deviationRtt + 0.25 * Magnitude(diff);
      }
    }

    method GrowWindow(isNewBlock: bool)
      requires cwnd >= mtu as real && ssThresh >= 0.0
      modifies this`cwnd
      ensures cwnd == GrownCwnd(old(Model()), isNewBlock)
    {
      if Model().InSlowStart() {
        cwnd := cwnd + mtu as real;
        if ssThresh != 0.0 && cwnd > ssThresh {
          cwnd := ssThresh + Increment(mtu, cwnd);
        }
      } else if isNewBlock {
        cwnd := cwnd + Increment(mtu, cwnd);
      }
    }

    method OnNak()
      requires Valid()
      modifies this
      ensures Valid() && Model() == AfterNak(old(Model()))
    {
      if !backoffThisBlock {
        ssThresh := cwnd * 0.75;
      }
    }

    method OnResend(curSeq: Seq24)
      requires Valid()
      modifies this
      ensures Valid() && Model() == AfterResend(old(Model()), curSeq)
    {
      if !backoffThisBlock && cwnd > mtu as real * 2.0 {
        ssThresh := if cwnd * 0.5 > mtu as real then cwnd * 0.5 else mtu as real;
        cwnd := mtu as real;
        nextCongestionBlock := curSeq;
        backoffThisBlock := true;
      }
    }
  }

  // ----- every run of events -----

  lemma IncrementNonNegative(mtu: nat, cwnd: real)
    requires cwnd > 0.0
    ensures Increment(mtu, cwnd) >= 0.0
  {
    assert mtu as real * mtu as real >= 0.0;
  }

  /** An acknowledgement never shrinks the window, not even when it crosses the slow-start threshold. */
  lemma AckNeverShrinks(w: Window, isNewBlock: bool)
    requires w.Sane()
    ensures GrownCwnd(w, isNewBlock) >= w.cwnd
  {
    if w.InSlowStart() {
      var grown := w.cwnd + w.mtu as real;
      if w.ssThresh != 0.0 && grown > w.ssThresh {
        IncrementNonNegative(w.mtu, grown);
      }
    } else if isNewBlock {
      IncrementNonNegative(w.mtu, w.cwnd);
    }
  }

  lemma AckKeepsSane(w: Window, rtt: nat, size: nat, ackedSeq: Seq24)
    requires w.Sane()
    ensures AfterAck(w, rtt, size, ackedSeq).Sane()
    ensures AfterAck(w, rtt, size, ackedSeq).cwnd >= w.cwnd
    ensures AfterAck(w, rtt, size, ackedSeq).estimatedRtt >= 0.0
  {
    AckNeverShrinks(w, Gt(ackedSeq, w.nextCongestionBlock));
  }

  datatype Event =
    | Send(size: nat)
    | Acked(rtt: nat, size: nat, seq24: Seq24)
    | Naked
    | Resent(cur: Seq24)

  function Step(w: Window, e: Event): (w': Window)
    requires w.Sane()
    ensures w'.Sane()
  {
    match e
    case Send(size) => AfterSend(w, size)
    case Acked(rtt, size, s) => AckKeepsSane(w, rtt, size, s); AfterAck(w, rtt, size, s)
    case Naked => AfterNak(w)
    case Resent(cur) => AfterResend(w, cur)
  }

  function Run(mtu: nat, events: seq<Event>): (w: Window)
    ensures w.Sane()
  {
    if events == [] then Fresh(mtu)
    else Step(Run(mtu, events[..|events| - 1]), events[|events| - 1])
  }

  /** Over every run the congestion window is at least one MTU and acknowledgements never shrink it;
      the timeout is 2000 ms until the first sample and between 30 and 2000 ms from then on. */
  lemma {:induction false} RunBounds(mtu: nat, events: seq<Event>)
    ensures Run(mtu, events).mtu == mtu
    ensures Run(mtu, events).cwnd >= mtu as real
    ensures events != [] && events[|events| - 1].Acked? ==>
              Run(mtu, events).cwnd >= Run(mtu, events[..|events| - 1]).cwnd
    ensures CC_ADDITIONAL_VARIANCE <= Run(mtu, events).Rto() <= CC_MAXIMUM_THRESHOLD
    ensures (forall e :: e in events ==> !e.Acked?) <==> Run(mtu, events).estimatedRtt < 0.0
    ensures (forall e :: e in events ==> !e.Acked?) ==> Run(mtu, events).Rto() == CC_MAXIMUM_THRESHOLD
  {
    var w := Run(mtu, events);
    if events != [] {
      var init, last := events[..|events| - 1], events[|events| - 1];
      RunBounds(mtu, init);
      assert events == init + [last];
      if last.Acked? {
        AckKeepsSane(Run(mtu, init), last.rtt, last.size, last.seq24);
      }
    }
    RtoBounds(w);
  }

  lemma RtoBounds(w: Window)
    requires w.Sane()
    ensures CC_ADDITIONAL_VARIANCE <= w.Rto() <= CC_MAXIMUM_THRESHOLD
  {
    if w.estimatedRtt >= 0.0 {
      var threshold := (2.0 * w.estimatedRtt + 4.0 * w.deviationRtt) + CC_ADDITIONAL_VARIANCE as real;
      assert threshold >= 30.0;
    }
  }

  /** With nothing in flight the window admits a full MTU. */
  lemma IdleWindowAdmitsMtu(w: Window)
    requires w.Sane() && w.unackedBytes == 0
    ensures w.TransmissionBandwidth() >= w.mtu
  {
  }
}
