/** NetherNet message segmentation (nethernet/src/protocol/message.rs). */
module Nethernet {
  import opened Wrappers
  import opened Protocol
  import opened Sequences
  import Split

  const MAX_MESSAGE_SIZE: nat := 10000
  const MAX_SEGMENTS: nat := 255

  datatype Segment = Segment(remaining: byte, data: Bytes)

  datatype MessageError = MessageParse | MessageTooLarge(len: nat)

  function Encode(s: Segment): Bytes {
    [s.remaining] + s.data
  }

  function Decode(b: Bytes): Result<Segment, MessageError> {
    if |b| < 2 then Err(MessageParse) else Ok(Segment(b[0], b[1..]))
  }

  // ----- the accumulator -----

  datatype Accumulator = Accumulator(expected: byte, data: Bytes)

  const FRESH := Accumulator(0, [])

  /** `u8` addition as release builds do it. */
  function Incremented(n: byte): byte {
    if n == 255 then 0 else n + 1
  }

  function Added(a: Accumulator, s: Segment): (Accumulator, Result<Option<Bytes>, MessageError>) {
    var expected := if a.expected == 0 && s.remaining > 0 then Incremented(s.remaining) else a.expected;
    if expected > 0 && expected - 1 != s.remaining then (FRESH, Err(MessageParse))
    else
      var data := a.data + s.data;
      if s.remaining == 0 then (FRESH, Ok(Some(data)))
      else (Accumulator(if expected > 0 then expected - 1 else 0, data), Ok(None))
  }

  // ----- splitting -----

  /** `usize::div_ceil`. */
  function DivCeil(n: nat, d: nat): nat
    requires d > 0
  {
    if n % d == 0 then n / d else n / d + 1
  }

  /** The pieces count down to zero. */
  function CountedDown(chunks: seq<Bytes>): seq<Segment>
    requires |chunks| <= MAX_SEGMENTS
  {
    seq(|chunks|, i requires 0 <= i < |chunks| => Segment(|chunks| - 1 - i, chunks[i]))
  }

  function SegmentsOf(data: Bytes): Result<seq<Segment>, MessageError> {
    var chunks := Split.Chunks(data, MAX_MESSAGE_SIZE);
    if |chunks| > MAX_SEGMENTS then Err(MessageTooLarge(|data|)) else Ok(CountedDown(chunks))
  }

  lemma SegmentCount(data: Bytes)
    requires data != []
    ensures |Split.Chunks(data, MAX_MESSAGE_SIZE)| == DivCeil(|data|, MAX_MESSAGE_SIZE)
  {
    Split.ChunksCount(data, MAX_MESSAGE_SIZE);
  }

  class Message {
    var expectedSegments: byte
    var data: Bytes

    function Model(): Accumulator
      reads this
    {
      Accumulator(expectedSegments, data)
    }

    constructor ()
      ensures Model() == FRESH
    {
      expectedSegments, data := 0, [];
    }

    method AddSegment(segment: Segment) returns (r: Result<Option<Bytes>, MessageError>)
      modifies this
      ensures (Model(), r) == Added(old(Model()), segment)
    {
      if expectedSegments == 0 && segment.remaining > 0 {
        expectedSegments := Incremented(segment.remaining);
      }
      if expectedSegments > 0 {
        var expectedRemaining := expectedSegments - 1;
        if expectedRemaining != segment.remaining {
          data := [];
          expectedSegments := 0;
          return Err(MessageParse);
        }
        expectedSegments := expectedSegments - 1;
      }
      data := data + segment.data;
      if segment.remaining == 0 {
        var complete := data;
        data := [];
        expectedSegments := 0;
        return Ok(Some(complete));
      }
      return Ok(None);
    }

    /** The countdown is a byte: it never goes below zero, and it ends at zero. */
    static method SplitIntoSegments(data: Bytes) returns (r: Result<seq<Segment>, MessageError>)
      ensures r == SegmentsOf(data)
    {
      if |data| <= MAX_MESSAGE_SIZE {
        assert CountedDown(Split.Chunks(data, MAX_MESSAGE_SIZE)) == [Segment(0, data)];
        return Ok([Segment(0, data)]);
      }
      var segmentCount := DivCeil(|data|, MAX_MESSAGE_SIZE);
      SegmentCount(data);
      if segmentCount > MAX_SEGMENTS {
        return Err(MessageTooLarge(|data|));
      }
      ghost var chunks := Split.Chunks(data, MAX_MESSAGE_SIZE);
      var segments := [];
      var rest := data;
      var left: byte := segmentCount;
      while |rest| > MAX_MESSAGE_SIZE
        invariant rest != []
        invariant |segments| + left == |chunks| && left > 0
        invariant Split.Chunks(rest, MAX_MESSAGE_SIZE) == chunks[|segments|..]
        invariant segments == CountedDown(chunks)[..|segments|]
      {
        var k := |segments|;
        left := left - 1;
        var chunk := rest[..MAX_MESSAGE_SIZE];
        rest := rest[MAX_MESSAGE_SIZE..];
        assert chunks[k] == chunk && chunks[k + 1..] == chunks[k..][1..];
        segments := segments + [Segment(left, chunk)];
      }
      if rest != [] {
        var k := |segments|;
        left := left - 1;
        assert chunks[k..] == [rest] && chunks[k] == rest;
        segments := segments + [Segment(left, rest)];
      }
      assert left == 0;
      assert segments == CountedDown(chunks);
      r := Ok(segments);
    }
  }

  // ----- arbitrary streams -----

  /** The accumulator after a stream of segments. */
  function After(segs: seq<Segment>): Accumulator {
    if segs == [] then FRESH else Added(After(segs[..|segs| - 1]), segs[|segs| - 1]).0
  }

  function OutcomeAt(segs: seq<Segment>, i: nat): Result<Option<Bytes>, MessageError>
    requires i < |segs|
  {
    Added(After(segs[..i]), segs[i]).1
  }

  /** The payloads from `a` up to but not including `n`. */
  function Joined(segs: seq<Segment>, a: nat, n: nat): Bytes
    requires n <= |segs|
  {
    if a >= n then [] else Joined(segs, a, n - 1) + segs[n - 1].data
  }

  /** From `a` to `n` the counts go down by one. */
  predicate Descends(segs: seq<Segment>, a: nat, n: nat)
    requires n <= |segs|
  {
    forall j :: a < j < n ==> segs[j].remaining + 1 == segs[j - 1].remaining
  }

  /** A message in progress: some segments of count 255, whose increment wraps to zero,
      and then a run that has not reached zero. */
  predicate InProgress(segs: seq<Segment>, a: nat, b: nat, n: nat)
    requires n <= |segs|
  {
    && a <= b <= n
    && (forall j :: a <= j < b ==> segs[j].remaining == 255)
    && Descends(segs, b, n)
    && (b < n ==> segs[b].remaining < 255 && segs[n - 1].remaining > 0)
  }

  lemma {:induction false} StateIsInProgress(segs: seq<Segment>, n: nat) returns (a: nat, b: nat)
    requires n <= |segs|
    ensures InProgress(segs, a, b, n)
    ensures After(segs[..n]) == Accumulator(if b == n then 0 else segs[n - 1].remaining, Joined(segs, a, n))
  {
    if n == 0 {
      a, b := 0, 0;
    } else {
      var s := segs[n - 1];
      assert segs[..n][..n - 1] == segs[..n - 1];
      a, b := StateIsInProgress(segs, n - 1);
      var state := After(segs[..n - 1]);
      if b == n - 1 && s.remaining == 255 {
        b := n;
      } else if Added(state, s).1 != Ok(None) {
        a, b := n, n;
      }
    }
  }

  /** Whatever the stream, an error or a completed message leaves the accumulator as new. */
  lemma ResetAfterOutcome(a: Accumulator, s: Segment)
    ensures Added(a, s).1 != Ok(None) ==> Added(a, s).0 == FRESH
    ensures Added(a, s).1.Ok? && Added(a, s).1.value.Some? <==> Added(a, s).1.Ok? && s.remaining == 0
  {
  }

  /** Whatever the stream, a returned message is the payloads of the latest segments, whose counts run
      down to zero, after some segments of count 255. */
  lemma MessagesAreRuns(segs: seq<Segment>, i: nat) returns (a: nat, b: nat)
    requires i < |segs| && OutcomeAt(segs, i).Ok? && OutcomeAt(segs, i).value.Some?
    ensures a <= b <= i && segs[i].remaining == 0
    ensures forall j :: a <= j < b ==> segs[j].remaining == 255
    ensures Descends(segs, b, i + 1) && segs[b].remaining < 255
    ensures OutcomeAt(segs, i).value.value == Joined(segs, a, i + 1)
  {
    a, b := StateIsInProgress(segs, i);
  }

  /** With no count of 255 a returned message is exactly a contiguous run of counts k, k-1, ..., 0. */
  lemma MessageIsContiguousRun(segs: seq<Segment>, i: nat) returns (a: nat)
    requires i < |segs| && OutcomeAt(segs, i).Ok? && OutcomeAt(segs, i).value.Some?
    requires forall j :: 0 <= j <= i ==> segs[j].remaining <= 254
    ensures a <= i && segs[i].remaining == 0 && Descends(segs, a, i + 1)
    ensures OutcomeAt(segs, i).value.value == Joined(segs, a, i + 1)
  {
    var b;
    a, b := MessagesAreRuns(segs, i);
  }

  ghost predicate IsRunMessage(segs: seq<Segment>, i: nat, m: Bytes)
    requires i < |segs|
  {
    exists a: nat :: RunFrom(segs, a, i, m)
  }

  predicate RunFrom(segs: seq<Segment>, a: nat, i: nat, m: Bytes)
    requires i < |segs|
  {
    a <= i && segs[i].remaining == 0 && Descends(segs, a, i + 1) && m == Joined(segs, a, i + 1)
  }

  lemma {:induction false} JoinedGrows(segs: seq<Segment>, a: nat, b: nat, n: nat)
    requires a <= b <= n <= |segs| && forall j :: 0 <= j < |segs| ==> segs[j].data != []
    ensures |Joined(segs, a, n)| >= |Joined(segs, b, n)| + (b - a)
    decreases n
  {
    if b < n {
      JoinedGrows(segs, a, b, n - 1);
    } else if a < n {
      JoinedGrows(segs, a, n - 1, n - 1);
    }
  }

  /** For segments as the decoder yields them, never empty, a returned message is a contiguous run if and
      only if it does not begin with a count of 255, or begins with a single one that 254 follows. */
  lemma RunUnlessWrapped(segs: seq<Segment>, i: nat) returns (a: nat, b: nat)
    requires i < |segs| && OutcomeAt(segs, i).Ok? && OutcomeAt(segs, i).value.Some?
    requires forall j :: 0 <= j < |segs| ==> segs[j].data != []
    ensures a <= b <= i && (forall j :: a <= j < b ==> segs[j].remaining == 255) && segs[b].remaining < 255
    ensures IsRunMessage(segs, i, OutcomeAt(segs, i).value.value) <==>
            a == b || (a + 1 == b && segs[b].remaining == 254)
  {
    a, b := MessagesAreRuns(segs, i);
    var m := OutcomeAt(segs, i).value.value;
    if IsRunMessage(segs, i, m) {
      var c: nat :| RunFrom(segs, c, i, m);
      if c <= a {
        JoinedGrows(segs, c, a, i + 1);
      } else {
        JoinedGrows(segs, a, c, i + 1);
      }
      assert c == a;
      assert a < b ==> segs[a].remaining == 255;
      assert a < b ==> segs[a + 1].remaining == 254;
    }
    if a == b || (a + 1 == b && segs[b].remaining == 254) {
      assert RunFrom(segs, a, i, m);
    }
  }

  /** A count of 255 on a new message is forgotten, and its payload ends up in front of the next message. */
  lemma WrappedCountCorruptsNextMessage()
    ensures OutcomeAt([Segment(255, [1]), Segment(0, [2])], 1) == Ok(Some([1, 2]))
    ensures !IsRunMessage([Segment(255, [1]), Segment(0, [2])], 1, [1, 2])
  {
    var segs := [Segment(255, [1]), Segment(0, [2])];
    assert segs[..1][..0] == [];
    assert segs[..1][0] == segs[0];
    assert After(segs[..1]) == Added(FRESH, segs[0]).0 == Accumulator(0, [1]);
    assert [1] + [2] == [1, 2];
    assert Joined(segs, 1, 2) == [] + [2];
    assert Joined(segs, 0, 1) == [] + [1];
    forall a: nat
      ensures !RunFrom(segs, a, 1, [1, 2])
    {
      if a == 0 {
        assert segs[1].remaining + 1 != segs[1 - 1].remaining;
      }
    }
  }

  // ----- the round trip -----

  /** What the receiving end of a data channel passes on, given the bytes it is handed. */
  function Receives(a: Accumulator, wires: seq<Bytes>): (Accumulator, seq<Bytes>) {
    if wires == [] then (a, [])
    else
      var (a1, out) := Receives(a, wires[..|wires| - 1]);
      match Decode(wires[|wires| - 1])
      case Err(_) => (a1, out)
      case Ok(s) =>
        var (a2, r) := Added(a1, s);
        (a2, if r.Ok? && r.value.Some? then out + [r.value.value] else out)
  }

  function WiresOf(segs: seq<Segment>): seq<Bytes> {
    seq(|segs|, i requires 0 <= i < |segs| => Encode(segs[i]))
  }

  /** The bytes of all messages in turn; one that is too large sends nothing. */
  function Stream(msgs: seq<Bytes>): seq<Bytes> {
    if msgs == [] then []
    else
      var last := SegmentsOf(msgs[|msgs| - 1]);
      Stream(msgs[..|msgs| - 1]) + if last.Ok? then WiresOf(last.value) else []
  }

  lemma {:induction false} ReceivesConcat(a: Accumulator, w: seq<Bytes>, v: seq<Bytes>)
    ensures var (a1, out1) := Receives(a, w);
            var (a2, out2) := Receives(a1, v);
            Receives(a, w + v) == (a2, out1 + out2)
  {
    var out1 := Receives(a, w).1;
    if v == [] {
      assert w + v == w;
      assert out1 + [] == out1;
    } else {
      ReceivesConcat(a, w, v[..|v| - 1]);
      assert (w + v)[..|w + v| - 1] == w + v[..|v| - 1];
      var (a1, o1) := Receives(a, w);
      var (b, o2) := Receives(a1, v[..|v| - 1]);
      match Decode(v[|v| - 1])
      case Err(_) =>
      case Ok(s) =>
        var r := Added(b, s).1;
        if r.Ok? && r.value.Some? {
          Regrouped(o1, o2, [r.value.value]);
        }
    }
  }

  lemma EncodeDecode(s: Segment)
    ensures Decode(Encode(s)) == if s.data == [] then Err(MessageParse) else Ok(s)
  {
  }

  /** Part way through a message: the first `k` of its pieces are in. */
  lemma {:induction false} PartReceived(chunks: seq<Bytes>, k: nat)
    requires 1 <= |chunks| <= MAX_SEGMENTS && k <= |chunks|
    requires forall i :: 0 <= i < |chunks| ==> chunks[i] != []
    ensures Receives(FRESH, WiresOf(CountedDown(chunks))[..k]) ==
            if k == 0 then (FRESH, [])
            else if k < |chunks| then (Accumulator(|chunks| - k, Concat(chunks[..k])), [])
            else (FRESH, [Concat(chunks)])
  {
    if k > 0 {
      PartReceived(chunks, k - 1);
      NextReceived(chunks, k - 1);
      NextAdded(chunks, k - 1);
      assert [] + [Concat(chunks)] == [Concat(chunks)];
    }
  }

  /** The next segment off the wire. */
  lemma NextReceived(chunks: seq<Bytes>, k: nat)
    requires k < |chunks| <= MAX_SEGMENTS && forall i :: 0 <= i < |chunks| ==> chunks[i] != []
    ensures var wires := WiresOf(CountedDown(chunks));
            var (a, out) := Receives(FRESH, wires[..k]);
            var (a', r) := Added(a, CountedDown(chunks)[k]);
            Receives(FRESH, wires[..k + 1]) == (a', if r.Ok? && r.value.Some? then out + [r.value.value] else out)
  {
    var wires := WiresOf(CountedDown(chunks));
    assert wires[..k + 1][..k] == wires[..k];
    EncodeDecode(CountedDown(chunks)[k]);
  }

  /** ... and what the accumulator makes of it. */
  lemma NextAdded(chunks: seq<Bytes>, k: nat)
    requires k < |chunks| <= MAX_SEGMENTS && forall i :: 0 <= i < |chunks| ==> chunks[i] != []
    ensures var a := if k == 0 then FRESH else Accumulator(|chunks| - k, Concat(chunks[..k]));
            Added(a, CountedDown(chunks)[k]) ==
            if k + 1 < |chunks| then (Accumulator(|chunks| - (k + 1), Concat(chunks[..k + 1])), Ok(None))
            else (FRESH, Ok(Some(Concat(chunks))))
  {
    ConcatPrefix(chunks, k);
    assert chunks[..0] == [] && Concat(chunks[..0]) == [];
    assert chunks[..|chunks|] == chunks;
    NextCounted(|chunks|, k, Concat(chunks[..k]), chunks[k]);
  }

  lemma NextCounted(n: nat, k: nat, data: Bytes, more: Bytes)
    requires k < n <= MAX_SEGMENTS && (k == 0 ==> data == [])
    ensures Added(if k == 0 then FRESH else Accumulator(n - k, data), Segment(n - 1 - k, more)) ==
            if k + 1 < n then (Accumulator(n - (k + 1), data + more), Ok(None)) else (FRESH, Ok(Some(data + more)))
  {
  }

  /** A message survives splitting, encoding, decoding and reassembly exactly when it is
      not empty and not longer than 255 full segments. */
  lemma MessageRoundTrip(m: Bytes)
    ensures SegmentsOf(m).Ok? && Receives(FRESH, WiresOf(SegmentsOf(m).value)) == (FRESH, [m]) <==>
            1 <= |m| <= MAX_SEGMENTS * MAX_MESSAGE_SIZE
    ensures SegmentsOf(m).Err? <==> |m| > MAX_SEGMENTS * MAX_MESSAGE_SIZE
  {
    if m == [] {
      var wires := WiresOf(SegmentsOf(m).value);
      assert wires == [Encode(Segment(0, []))];
      assert wires[..0] == [];
      EncodeDecode(Segment(0, []));
      assert Receives(FRESH, wires) == (FRESH, []);
    } else {
      var chunks := Split.Chunks(m, MAX_MESSAGE_SIZE);
      Split.ChunksJoin(m, MAX_MESSAGE_SIZE);
      SegmentCount(m);
      if |chunks| <= MAX_SEGMENTS {
        PartReceived(chunks, |chunks|);
        var wires := WiresOf(CountedDown(chunks));
        assert wires[..|chunks|] == wires;
      }
    }
  }

  /** Any list of such messages, sent one after the other, comes out as it went in. */
  lemma {:induction false} StreamRoundTrip(msgs: seq<Bytes>)
    requires forall i :: 0 <= i < |msgs| ==> 1 <= |msgs[i]| <= MAX_SEGMENTS * MAX_MESSAGE_SIZE
    ensures Receives(FRESH, Stream(msgs)) == (FRESH, msgs)
  {
    if msgs != [] {
      var init, last := msgs[..|msgs| - 1], msgs[|msgs| - 1];
      StreamRoundTrip(init);
      MessageRoundTrip(last);
      ReceivesConcat(FRESH, Stream(init), WiresOf(SegmentsOf(last).value));
      assert init + [last] == msgs;
    }
  }
}
