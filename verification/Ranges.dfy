/** Ranges of sequence numbers as they travel in ACK and NACK records (raknet/src/protocol/ack.rs). */
module Ranges {
  import opened Sequence24
  import opened Wrappers

  const MAX_ACK_SEQUENCES: nat := 8192

  datatype SequenceRange = SequenceRange(start: Seq24, end: Seq24)

  /** The members are the numbers met when walking forward from `start` to `end`. */
  predicate InRange(r: SequenceRange, s: Seq24) {
    DistanceTo(r.start, s) <= DistanceTo(r.start, r.end)
  }

  predicate Covered(rs: seq<SequenceRange>, s: Seq24) {
    exists i :: 0 <= i < |rs| && InRange(rs[i], s)
  }

  predicate Wraps(r: SequenceRange) {
    r.start != r.end && r.start > r.end
  }

  function SplitWrapping(r: SequenceRange): Option<(SequenceRange, SequenceRange)> {
    if !Wraps(r) then None
    else Some((SequenceRange(r.start, 0xFF_FFFF), SequenceRange(0, r.end)))
  }

  function RecordCount(r: SequenceRange): nat {
    if Wraps(r) then 2 else 1
  }

  function Size(r: SequenceRange): nat {
    4 + if r.start != r.end then 3 else 0
  }

  function EncodedSize(r: SequenceRange): nat {
    match SplitWrapping(r)
    case Some((tail, head)) => Size(tail) + Size(head)
    case None => Size(r)
  }

  function TotalEncodedSize(rs: seq<SequenceRange>): nat {
    if rs == [] then 0 else TotalEncodedSize(rs[..|rs| - 1]) + EncodedSize(rs[|rs| - 1])
  }

  function TotalRecords(rs: seq<SequenceRange>): nat {
    if rs == [] then 0 else TotalRecords(rs[..|rs| - 1]) + RecordCount(rs[|rs| - 1])
  }

  function Singleton(s: Seq24): SequenceRange {
    SequenceRange(s, s)
  }

  /** The records a range is sent as. */
  function Records(r: SequenceRange): seq<SequenceRange> {
    match SplitWrapping(r)
    case Some((tail, head)) => [tail, head]
    case None => [r]
  }

  function AllRecords(rs: seq<SequenceRange>): seq<SequenceRange> {
    if rs == [] then [] else AllRecords(rs[..|rs| - 1]) + Records(rs[|rs| - 1])
  }

  // ----- splitting at the wrap -----

  lemma SplitPartitions(r: SequenceRange, s: Seq24)
    requires Wraps(r)
    ensures var (tail, head) := SplitWrapping(r).value;
            && !Wraps(tail) && !Wraps(head)
            && (InRange(r, s) <==> InRange(tail, s) || InRange(head, s))
            && !(InRange(tail, s) && InRange(head, s))
  {
  }

  lemma {:induction false} AllRecordsCover(rs: seq<SequenceRange>, s: Seq24)
    ensures Covered(AllRecords(rs), s) <==> Covered(rs, s)
  {
    if rs != [] {
      var init, last := rs[..|rs| - 1], rs[|rs| - 1];
      AllRecordsCover(init, s);
      CoveredConcat(AllRecords(init), Records(last), s);
      CoveredConcat(init, [last], s);
      assert rs == init + [last];
      if Wraps(last) {
        SplitPartitions(last, s);
        var (tail, head) := SplitWrapping(last).value;
        assert Records(last)[0] == tail && Records(last)[1] == head;
        assert Covered(Records(last), s) <==> InRange(tail, s) || InRange(head, s);
      }
      assert Covered([last], s) <==> InRange([last][0], s);
    }
  }

  lemma CoveredConcat(a: seq<SequenceRange>, b: seq<SequenceRange>, s: Seq24)
    ensures Covered(a + b, s) <==> Covered(a, s) || Covered(b, s)
  {
    var c := a + b;
    if Covered(a, s) {
      var i :| 0 <= i < |a| && InRange(a[i], s);
      assert c[i] == a[i];
    }
    if Covered(b, s) {
      var i :| 0 <= i < |b| && InRange(b[i], s);
      assert c[|a| + i] == b[i];
    }
  }

  // ----- the visitor -----

  /** `for_each_sequence_in_range`: walks from `start` to `end` and visits each member once. */
  method ForEachSequenceInRange(range: SequenceRange) returns (visited: seq<Seq24>)
    ensures forall s: Seq24 :: s in visited <==> InRange(range, s)
    ensures forall i, j :: 0 <= i < j < |visited| ==> visited[i] != visited[j]
    ensures |visited| == DistanceTo(range.start, range.end) + 1
    ensures forall i :: 0 <= i < |visited| ==> visited[i] == Ahead(range.start, i)
  {
    visited := [];
    var s := range.start;
    while true
      invariant |visited| == DistanceTo(range.start, s) <= DistanceTo(range.start, range.end)
      invariant forall i :: 0 <= i < |visited| ==> visited[i] == Ahead(range.start, i)
      invariant forall t: Seq24 :: DistanceTo(range.start, t) < |visited| ==> t in visited
      decreases DistanceTo(range.start, range.end) - DistanceTo(range.start, s)
    {
      DistanceDetermines(range.start, s);
      visited := visited + [s];
      if s == range.end {
        break;
      }
      NextDistance(range.start, s);
      s := Next(s);
    }
  }
}
