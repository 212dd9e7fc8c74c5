/**
 Which numbers `process_datagram_sequence` reports as missing (raknet/src/session/mod.rs).
 The method itself is `Sessions.Session.ProcessDatagramSequence`; it is proved to queue
 exactly `NakChunks` and to move the read index as `ReadIndexAfter` says.
*/
module GapTracking {
  import opened Sequence24
  import opened Ranges

  /** Everything from `start` on for `missing` numbers, in chunks of at most MAX_ACK_SEQUENCES. */
  function NakChunks(start: Seq24, missing: nat): seq<SequenceRange>
    decreases missing
  {
    if missing == 0 then []
    else
      var n := if missing <= MAX_ACK_SEQUENCES then missing else MAX_ACK_SEQUENCES;
      [SequenceRange(start, Ahead(start, n - 1))] + NakChunks(Ahead(start, n), missing - n)
  }

  function ReadIndexAfter(read: Seq24, arrival: Seq24): Seq24 {
    if Gt(read, arrival) then read else Next(arrival)
  }

  /** How many numbers an arrival skips. */
  function Skipped(read: Seq24, arrival: Seq24): nat {
    if Gt(read, arrival) then 0 else DistanceTo(read, arrival)
  }

  // ----- the chunks cover the gap -----

  ghost predicate Members(r: SequenceRange, start: Seq24, from: nat, to: nat) {
    forall s: Seq24 :: InRange(r, s) <==> from <= DistanceTo(start, s) < to
  }

  /** The chunks cover exactly the gap. */
  lemma {:induction false} ChunksCoverGap(start: Seq24, missing: nat, s: Seq24)
    requires missing < MODULO
    ensures Covered(NakChunks(start, missing), s) <==> DistanceTo(start, s) < missing
    decreases missing
  {
    if missing > 0 {
      var n := if missing <= MAX_ACK_SEQUENCES then missing else MAX_ACK_SEQUENCES;
      var first := SequenceRange(start, Ahead(start, n - 1));
      var rest := NakChunks(Ahead(start, n), missing - n);
      ChunksCoverGap(Ahead(start, n), missing - n, s);
      CoveredConcat([first], rest, s);
      assert [first][0] == first;
      assert Covered([first], s) <==> InRange(first, s);
      ShiftedDistance(start, n, s);
    }
  }

  /** Chunk `i` is the `i`-th stretch of the gap. */
  lemma {:induction false} ChunkMembers(start: Seq24, missing: nat, i: nat)
    requires missing < MODULO && i < |NakChunks(start, missing)|
    ensures Members(NakChunks(start, missing)[i], start, i * MAX_ACK_SEQUENCES,
                    if missing <= (i + 1) * MAX_ACK_SEQUENCES then missing else (i + 1) * MAX_ACK_SEQUENCES)
    decreases missing
  {
    var n := if missing <= MAX_ACK_SEQUENCES then missing else MAX_ACK_SEQUENCES;
    if i > 0 {
      var rest := NakChunks(Ahead(start, n), missing - n);
      assert NakChunks(start, missing)[i] == rest[i - 1];
      ChunkMembers(Ahead(start, n), missing - n, i - 1);
      forall s: Seq24
        ensures InRange(rest[i - 1], s) <==>
                i * MAX_ACK_SEQUENCES <= DistanceTo(start, s) <
                if missing <= (i + 1) * MAX_ACK_SEQUENCES then missing else (i + 1) * MAX_ACK_SEQUENCES
      {
        ShiftedDistance(start, n, s);
      }
    }
  }

  /** The chunks are contiguous, disjoint, no larger than a record may be, and cover exactly the gap. */
  lemma ChunksPartitionGap(start: Seq24, missing: nat)
    requires missing < MODULO
    ensures forall s: Seq24 :: Covered(NakChunks(start, missing), s) <==> DistanceTo(start, s) < missing
    ensures forall i :: 0 <= i < |NakChunks(start, missing)| ==>
              Members(NakChunks(start, missing)[i], start, i * MAX_ACK_SEQUENCES,
                      if missing <= (i + 1) * MAX_ACK_SEQUENCES then missing else (i + 1) * MAX_ACK_SEQUENCES)
  {
    forall s: Seq24
      ensures Covered(NakChunks(start, missing), s) <==> DistanceTo(start, s) < missing
    {
      ChunksCoverGap(start, missing, s);
    }
    forall i | 0 <= i < |NakChunks(start, missing)|
      ensures Members(NakChunks(start, missing)[i], start, i * MAX_ACK_SEQUENCES,
                      if missing <= (i + 1) * MAX_ACK_SEQUENCES then missing else (i + 1) * MAX_ACK_SEQUENCES)
    {
      ChunkMembers(start, missing, i);
    }
  }

  lemma ShiftedDistance(start: Seq24, n: nat, s: Seq24)
    requires n < MODULO
    ensures DistanceTo(Ahead(start, n), s) ==
            if DistanceTo(start, s) >= n then DistanceTo(start, s) - n else DistanceTo(start, s) + MODULO - n
  {
  }

  // ----- whole arrival histories, unwrapped -----

  /** The unwrapped read index after the arrivals `us`. */
  function ReadIndex(us: seq<nat>): nat {
    if us == [] then 0
    else
      var r := ReadIndex(us[..|us| - 1]);
      if us[|us| - 1] < r then r else us[|us| - 1] + 1
  }

  /** The wrapped read index the session holds after the same arrivals. */
  function WrappedReadIndex(us: seq<nat>): Seq24 {
    if us == [] then 0
    else ReadIndexAfter(WrappedReadIndex(us[..|us| - 1]), Wrap(us[|us| - 1]))
  }

  /** Every arrival lies within half the number space of the read index at its time. */
  ghost predicate WithinHalf(us: seq<nat>) {
    forall i :: 0 <= i < |us| ==> ReadIndex(us[..i]) - HALF < us[i] <= ReadIndex(us[..i]) + HALF
  }

  /** The ranges queued as NACKs when arrival `i` came in. */
  function NaksAt(us: seq<nat>, i: nat): seq<SequenceRange>
    requires i < |us|
  {
    var read := WrappedReadIndex(us[..i]);
    NakChunks(read, Skipped(read, Wrap(us[i])))
  }

  /** Arrival `i` skipped `n`. */
  predicate SkippedAt(us: seq<nat>, i: nat, n: nat)
    requires i < |us|
  {
    ReadIndex(us[..i]) <= n < us[i]
  }

  /** Arrival `i` is the first that carried the number `n` and was not behind the read index. */
  predicate AcceptedAt(us: seq<nat>, i: nat, n: nat)
    requires i < |us|
  {
    ReadIndex(us[..i]) <= n == us[i]
  }

  lemma {:induction false} WrappedFollowsUnwrapped(us: seq<nat>)
    requires WithinHalf(us)
    ensures WrappedReadIndex(us) == Wrap(ReadIndex(us))
  {
    if us != [] {
      var init := us[..|us| - 1];
      assert forall i :: 0 <= i < |init| ==> init[..i] == us[..i];
      WrappedFollowsUnwrapped(init);
      IndexFollows(ReadIndex(init), us[|us| - 1]);
    }
  }

  lemma IndexFollows(r: nat, u: nat)
    requires r - HALF < u <= r + HALF
    ensures ReadIndexAfter(Wrap(r), Wrap(u)) == Wrap(if u < r then r else u + 1)
  {
    SkipMatchesIntegers(r, u);
    WrapSteps(u);
  }

  /** On one arrival the wrapped comparison and distance give the integer answers. */
  lemma SkipMatchesIntegers(r: nat, u: nat)
    requires r - HALF < u <= r + HALF
    ensures Gt(Wrap(r), Wrap(u)) <==> u < r
    ensures Skipped(Wrap(r), Wrap(u)) == if u < r then 0 else u - r
  {
    CmpIsForwardDistance(Wrap(r), Wrap(u));
    DistanceIsDifference(r, u);
    DistanceIsDifference(u, r);
  }

  /** The queued chunks are exactly the numbers skipped by the arrival. */
  lemma NaksAreTheSkipped(us: seq<nat>, i: nat, s: Seq24)
    requires WithinHalf(us) && i < |us|
    ensures Covered(NaksAt(us, i), s) <==> exists n: nat :: SkippedAt(us, i, n) && Wrap(n) == s
  {
    var r := ReadIndex(us[..i]);
    assert WrappedReadIndex(us[..i]) == Wrap(r) by {
      assert forall j :: 0 <= j < i ==> us[..i][..j] == us[..j];
      WrappedFollowsUnwrapped(us[..i]);
    }
    SkipMatchesIntegers(r, us[i]);
    var missing := Skipped(Wrap(r), Wrap(us[i]));
    assert Covered(NaksAt(us, i), s) <==> DistanceTo(Wrap(r), s) < missing by {
      ChunksPartitionGap(Wrap(r), missing);
    }
    GapMembers(r, missing, s);
    if Covered(NaksAt(us, i), s) {
      assert SkippedAt(us, i, r + DistanceTo(Wrap(r), s));
    }
  }

  lemma GapMembers(r: nat, missing: nat, s: Seq24)
    requires missing < MODULO
    ensures Wrap(r + DistanceTo(Wrap(r), s)) == s
    ensures forall n: nat :: r <= n < r + missing && Wrap(n) == s ==> DistanceTo(Wrap(r), s) < missing
  {
    forall n: nat | r <= n < r + missing && Wrap(n) == s
      ensures DistanceTo(Wrap(r), s) < missing
    {
      DistanceIsDifference(r, n);
    }
  }

  lemma {:induction false} ReadIndexNeverMovesBack(us: seq<nat>, i: nat, j: nat)
    requires i <= j <= |us|
    ensures ReadIndex(us[..i]) <= ReadIndex(us[..j])
    ensures forall k :: i <= k < j ==> us[k] < ReadIndex(us[..j])
    decreases j
  {
    if i < j {
      ReadIndexNeverMovesBack(us, i, j - 1);
      assert us[..j][..j - 1] == us[..j - 1];
    }
  }

  /** Every number below the read index was settled by exactly one arrival: either accepted when
      it came in, or reported missing once, and then it had not arrived before. */
  lemma {:induction false} HistoryIsPartitioned(us: seq<nat>, n: nat) returns (i: nat)
    requires n < ReadIndex(us)
    ensures i < |us|
    ensures AcceptedAt(us, i, n) != SkippedAt(us, i, n)
    ensures n !in us[..i]
    ensures forall j :: 0 <= j < |us| && j != i ==> !AcceptedAt(us, j, n) && !SkippedAt(us, j, n)
  {
    var last := |us| - 1;
    if n >= ReadIndex(us[..last]) {
      i := last;
      forall j | 0 <= j < last
        ensures us[j] != n && !AcceptedAt(us, j, n) && !SkippedAt(us, j, n)
      {
        ReadIndexNeverMovesBack(us, j, last);
      }
    } else {
      i := HistoryIsPartitioned(us[..last], n);
      assert us[..last][..i] == us[..i];
      forall j | 0 <= j < last
        ensures AcceptedAt(us, j, n) == AcceptedAt(us[..last], j, n)
        ensures SkippedAt(us, j, n) == SkippedAt(us[..last], j, n)
      {
        assert us[..last][..j] == us[..j];
      }
    }
  }
}
