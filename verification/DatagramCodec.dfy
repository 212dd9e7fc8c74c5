/** ACK payloads and whole datagrams, as byte strings (raknet/src/protocol/ack.rs, datagram.rs). */
module DatagramCodec {
  import opened Sequence24
  import opened Wrappers
  import opened Ranges
  import opened Protocol
  import opened Codec
  import opened Sequences

  // ----- ACK and NACK payloads -----

  function RangeBytes(r: SequenceRange): Bytes {
    if r.start == r.end then [1] + U24LeBytes(r.start)
    else [0] + U24LeBytes(r.start) + U24LeBytes(r.end)
  }

  function RecordBytes(records: seq<SequenceRange>): Bytes {
    if records == [] then [] else RecordBytes(records[..|records| - 1]) + RangeBytes(records[|records| - 1])
  }

  /** The record count is cast to 16 bits; wrapping ranges are written as two records. */
  function AckBytes(ranges: seq<SequenceRange>): Bytes {
    CountedRecordBytes(CastU16(TotalRecords(ranges)), AllRecords(ranges))
  }

  function CountedRecordBytes(count: u16, records: seq<SequenceRange>): Bytes {
    U16Bytes(count) + RecordBytes(records)
  }

  function ParseRange(src: Bytes): (r: Parsed<SequenceRange>)
    ensures r.Ok? ==> |r.value.1| < |src|
  {
    var (singleton, s1) :- ParseU8(src);
    var (start, s2) :- ParseU24Le(s1);
    if singleton == 1 then Ok((SequenceRange(start, start), s2))
    else
      var (end, s3) :- ParseU24Le(s2);
      Ok((SequenceRange(start, end), s3))
  }

  function ParseRanges(n: nat, src: Bytes): Parsed<seq<SequenceRange>> {
    if n == 0 then Ok(([], src))
    else
      var (r, s1) :- ParseRange(src);
      var (rs, s2) :- ParseRanges(n - 1, s1);
      Ok(([r] + rs, s2))
  }

  function ParseAck(src: Bytes): Parsed<seq<SequenceRange>> {
    var (len, s1) :- ParseU16(src);
    if len > MAX_ACK_SEQUENCES then Err(InvalidAckPacket)
    else ParseRanges(len, s1)
  }

  lemma RangeRoundTrip(r: SequenceRange, tail: Bytes)
    ensures ParseRange(RangeBytes(r) + tail) == Ok((r, tail))
  {
    if r.start == r.end {
      assert (RangeBytes(r) + tail)[1..] == U24LeBytes(r.start) + tail;
      U24LeRoundTrip(r.start, tail);
    } else {
      assert (RangeBytes(r) + tail)[1..] == U24LeBytes(r.start) + (U24LeBytes(r.end) + tail);
      U24LeRoundTrip(r.start, U24LeBytes(r.end) + tail);
      U24LeRoundTrip(r.end, tail);
    }
  }

  lemma ParseRangesStep(r: SequenceRange, rs: seq<SequenceRange>, src: Bytes, rest: Bytes, tail: Bytes)
    requires ParseRange(src) == Ok((r, rest))
    requires ParseRanges(|rs|, rest) == Ok((rs, tail))
    ensures ParseRanges(|[r] + rs|, src) == Ok(([r] + rs, tail))
  {
  }

  lemma RecordsShift(init: seq<SequenceRange>, last: SequenceRange, more: seq<SequenceRange>, src: Bytes)
    ensures RecordBytes(init + [last]) + src == RecordBytes(init) + (RangeBytes(last) + src)
    ensures (init + [last]) + more == init + ([last] + more)
  {
    assert (init + [last])[..|init|] == init;
    Regrouped(RecordBytes(init), RangeBytes(last), src);
    Regrouped(init, [last], more);
  }

  lemma {:induction false} RecordsRoundTrip(records: seq<SequenceRange>, more: seq<SequenceRange>, src: Bytes,
                                            tail: Bytes)
    requires ParseRanges(|more|, src) == Ok((more, tail))
    ensures ParseRanges(|records + more|, RecordBytes(records) + src) == Ok((records + more, tail))
  {
    if records == [] {
      assert RecordBytes(records) + src == src;
      assert records + more == more;
    } else {
      var init, last := records[..|records| - 1], records[|records| - 1];
      assert records == init + [last];
      RangeRoundTrip(last, src);
      ParseRangesStep(last, more, RangeBytes(last) + src, src, tail);
      RecordsRoundTrip(init, [last] + more, RangeBytes(last) + src, tail);
      RecordsShift(init, last, more, src);
    }
  }

  lemma RecordBytesSnoc(records: seq<SequenceRange>, r: SequenceRange)
    ensures RecordBytes(records + [r]) == RecordBytes(records) + RangeBytes(r)
    ensures |RangeBytes(r)| == Ranges.Size(r)
  {
    assert (records + [r])[..|records|] == records;
  }

  lemma {:induction false} AllRecordsCount(ranges: seq<SequenceRange>)
    ensures |AllRecords(ranges)| == TotalRecords(ranges)
  {
    if ranges != [] {
      AllRecordsCount(ranges[..|ranges| - 1]);
    }
  }

  lemma RecordBytesOfLast(front: seq<SequenceRange>, r: SequenceRange)
    ensures |RecordBytes(front + Records(r))| == |RecordBytes(front)| + EncodedSize(r)
  {
    match SplitWrapping(r)
    case None =>
      RecordBytesSnoc(front, r);
    case Some((tail, head)) =>
      RecordBytesSnoc(front, tail);
      RecordBytesSnoc(front + [tail], head);
      assert front + Records(r) == (front + [tail]) + [head];
  }

  lemma {:induction false} AllRecordsLength(ranges: seq<SequenceRange>)
    ensures |RecordBytes(AllRecords(ranges))| == TotalEncodedSize(ranges)
  {
    if ranges != [] {
      AllRecordsLength(ranges[..|ranges| - 1]);
      RecordBytesOfLast(AllRecords(ranges[..|ranges| - 1]), ranges[|ranges| - 1]);
    }
  }

  lemma AckHead(count: u16, records: seq<SequenceRange>, tail: Bytes)
    ensures ParseAck(CountedRecordBytes(count, records) + tail)
         == if count > MAX_ACK_SEQUENCES then Err(InvalidAckPacket) else ParseRanges(count, RecordBytes(records) + tail)
    ensures |CountedRecordBytes(count, records)| == 2 + |RecordBytes(records)|
  {
    U16RoundTrip(count, RecordBytes(records) + tail);
    Regrouped(U16Bytes(count), RecordBytes(records), tail);
  }

  /** An ACK payload of at most 8192 records decodes to its wrap-split records,
      which cover the same numbers, and is as long as `AckPayloadSize` says. */
  lemma AckRoundTrip(ranges: seq<SequenceRange>, tail: Bytes)
    requires TotalRecords(ranges) <= MAX_ACK_SEQUENCES
    ensures ParseAck(AckBytes(ranges) + tail) == Ok((AllRecords(ranges), tail))
    ensures forall s: Seq24 :: Covered(AllRecords(ranges), s) <==> Covered(ranges, s)
    ensures |AckBytes(ranges)| == AckPayloadSize(ranges)
  {
    var records := AllRecords(ranges);
    AllRecordsCount(ranges);
    AllRecordsLength(ranges);
    assert ParseRanges(|records|, RecordBytes(records) + tail) == Ok((records, tail)) by {
      RecordsRoundTrip(records, [], tail, tail);
      assert records + [] == records;
    }
    AckHead(|records|, records, tail);
    forall s: Seq24
      ensures Covered(records, s) <==> Covered(ranges, s)
    {
      AllRecordsCover(ranges, s);
    }
  }

  lemma {:induction false} ParsedCount(n: nat, src: Bytes)
    requires ParseRanges(n, src).Ok?
    ensures |ParseRanges(n, src).value.0| == n
  {
    if n > 0 {
      ParsedCount(n - 1, ParseRange(src).value.1);
    }
  }

  /** The limit of 8192 records is exact: with more the decoder refuses the payload, or, from 65536 on, where
      the count is truncated, may take it for a shorter one. */
  lemma AckArrivesWhole(ranges: seq<SequenceRange>, tail: Bytes)
    ensures ParseAck(AckBytes(ranges) + tail) == Ok((AllRecords(ranges), tail)) <==>
            TotalRecords(ranges) <= MAX_ACK_SEQUENCES
    ensures CastU16(TotalRecords(ranges)) > MAX_ACK_SEQUENCES <==>
            ParseAck(AckBytes(ranges) + tail) == Err(InvalidAckPacket)
  {
    var total := TotalRecords(ranges);
    var count := CastU16(total);
    var body := RecordBytes(AllRecords(ranges)) + tail;
    AckHead(count, AllRecords(ranges), tail);
    AllRecordsCount(ranges);
    if total <= MAX_ACK_SEQUENCES {
      AckRoundTrip(ranges, tail);
    } else if count <= MAX_ACK_SEQUENCES && ParseRanges(count, body).Ok? {
      ParsedCount(count, body);
    }
    if count <= MAX_ACK_SEQUENCES {
      ParseRangesError(count, body);
    }
  }

  /** Short input is the only way to fail once the count is accepted. */
  lemma {:induction false} ParseRangesError(n: nat, src: Bytes)
    ensures ParseRanges(n, src).Err? ==> ParseRanges(n, src).error == UnexpectedEof
  {
    if n > 0 && ParseRange(src).Ok? {
      ParseRangesError(n - 1, ParseRange(src).value.1);
    }
  }

  /** With 65536 records the count is truncated to zero and none of them arrives. */
  lemma TruncatedCountDropsRecords(ranges: seq<SequenceRange>, tail: Bytes)
    requires TotalRecords(ranges) == 0x1_0000
    ensures ParseAck(AckBytes(ranges) + tail).Ok? && ParseAck(AckBytes(ranges) + tail).value.0 == []
  {
    AckHead(0, AllRecords(ranges), tail);
  }

  // ----- datagrams -----

  function FramesBytes(packets: seq<Encap>): Result<Bytes, EncodeError> {
    if packets == [] then Ok([])
    else
      var front :- FramesBytes(packets[..|packets| - 1]);
      var last :- EncapBytes(packets[|packets| - 1]);
      Ok(front + last)
  }

  function DatagramBytes(d: Datagram): Result<Bytes, EncodeError> {
    match d.payload
    case Frames(packets) =>
      var frames :- FramesBytes(packets);
      Ok([d.flags] + U24LeBytes(d.sequence) + frames)
    case Nak(ranges) => Ok([d.flags] + AckBytes(ranges))
    case Ack(ranges) => Ok([d.flags] + AckBytes(ranges))
  }

  function ParseFrames(src: Bytes): Result<seq<Encap>, DecodeError>
    decreases |src|
  {
    if src == [] then Ok([])
    else
      var (e, rest) :- ParseEncap(src);
      var es :- ParseFrames(rest);
      Ok([e] + es)
  }

  // `from_bits_truncate` drops the two undefined low bits; ACK is 0x40 and NACK is 0x20.
  function TruncateFlags(b: byte): byte {
    b - b % 4
  }

  predicate HasAck(flags: byte) {
    flags % 0x80 >= 0x40
  }

  predicate HasNack(flags: byte) {
    flags % 0x40 >= 0x20
  }

  function ParseDatagram(src: Bytes): Result<Datagram, DecodeError> {
    var (raw, s1) :- ParseU8(src);
    var flags := TruncateFlags(raw);
    if HasAck(flags) then
      var (ranges, _) :- ParseAck(s1);
      Ok(Datagram(flags, 0, Ack(ranges)))
    else if HasNack(flags) then
      var (ranges, _) :- ParseAck(s1);
      Ok(Datagram(flags, 0, Nak(ranges)))
    else
      var (sequence, s2) :- ParseU24Le(s1);
      var packets :- ParseFrames(s2);
      Ok(Datagram(flags, sequence, Frames(packets)))
  }

  ghost predicate AllCanonical(packets: seq<Encap>) {
    forall i :: 0 <= i < |packets| ==> Canonical(packets[i])
  }

  lemma ParseFramesStep(e: Encap, b: Bytes, es: seq<Encap>, rest: Bytes)
    requires ParseEncap(b + rest) == Ok((e, rest))
    requires ParseFrames(rest) == Ok(es)
    ensures ParseFrames(b + rest) == Ok([e] + es)
  {
  }

  lemma FramesSnoc(packets: seq<Encap>, front: Bytes, last: Bytes)
    requires packets != []
    requires FramesBytes(packets[..|packets| - 1]) == Ok(front)
    requires EncapBytes(packets[|packets| - 1]) == Ok(last)
    ensures FramesBytes(packets) == Ok(front + last)
  {
  }

  lemma FramesStep(init: seq<Encap>, last: Encap, more: seq<Encap>, front: Bytes, b: Bytes, src: Bytes)
    requires FramesBytes(init) == Ok(front) && EncapBytes(last) == Ok(b)
    requires ParseFrames(front + (b + src)) == Ok(init + ([last] + more))
    ensures FramesBytes(init + [last]) == Ok(front + b)
    ensures ParseFrames((front + b) + src) == Ok((init + [last]) + more)
  {
    assert (init + [last])[..|init|] == init;
    FramesSnoc(init + [last], front, b);
    Regrouped(front, b, src);
    Regrouped(init, [last], more);
  }

  lemma {:induction false} FramesRoundTrip(packets: seq<Encap>, more: seq<Encap>, src: Bytes)
    requires AllCanonical(packets)
    requires ParseFrames(src) == Ok(more)
    ensures FramesBytes(packets).Ok?
    ensures ParseFrames(FramesBytes(packets).value + src) == Ok(packets + more)
  {
    if packets == [] {
      assert [] + src == src;
      assert packets + more == more;
    } else {
      var init, last := packets[..|packets| - 1], packets[|packets| - 1];
      var b := LastFrame(last, more, src);
      FramesRoundTrip(init, [last] + more, b + src);
      FramesStep(init, last, more, FramesBytes(init).value, b, src);
      assert packets == init + [last];
    }
  }

  lemma LastFrame(last: Encap, more: seq<Encap>, src: Bytes) returns (b: Bytes)
    requires Canonical(last)
    requires ParseFrames(src) == Ok(more)
    ensures EncapBytes(last) == Ok(b)
    ensures ParseFrames(b + src) == Ok([last] + more)
  {
    CanonicalDecodes(last, src);
    b := EncapBytes(last).value;
    ParseFramesStep(last, b, more, src);
  }

  lemma {:induction false} ParsedFramesAreCanonical(src: Bytes)
    requires ParseFrames(src).Ok?
    ensures AllCanonical(ParseFrames(src).value)
    decreases |src|
  {
    if src != [] {
      ParsedFramesAreCanonical(ParseEncap(src).value.1);
    }
  }

  lemma {:induction false} FramesLength(packets: seq<Encap>)
    requires AllCanonical(packets)
    ensures FramesBytes(packets).Ok? && |FramesBytes(packets).value| == TotalSize(packets)
  {
    if packets != [] {
      FramesLength(packets[..|packets| - 1]);
      CanonicalDecodes(packets[|packets| - 1], []);
      EncapLength(packets[|packets| - 1]);
    }
  }

  /** The bytes of packets parse back to them exactly when all are canonical. */
  lemma FramesParseBack(packets: seq<Encap>)
    requires FramesBytes(packets).Ok?
    ensures ParseFrames(FramesBytes(packets).value) == Ok(packets) <==> AllCanonical(packets)
  {
    var frames := FramesBytes(packets).value;
    if AllCanonical(packets) {
      FramesRoundTrip(packets, [], []);
      assert frames + [] == frames && packets + [] == packets;
    } else if ParseFrames(frames).Ok? {
      ParsedFramesAreCanonical(frames);
    }
  }

  lemma DataHeader(src: Bytes, s: Seq24, frames: Bytes)
    requires src != [] && src[1..] == U24LeBytes(s) + frames
    ensures var flags := TruncateFlags(src[0]);
            !HasAck(flags) && !HasNack(flags) ==>
              ParseDatagram(src) == match ParseFrames(frames)
                                    case Ok(packets) => Ok(Datagram(flags, s, Frames(packets)))
                                    case Err(e) => Err(e)
    ensures var flags := TruncateFlags(src[0]);
            HasAck(flags) || HasNack(flags) ==> ParseDatagram(src).Err? || !ParseDatagram(src).value.payload.Frames?
  {
    U24LeRoundTrip(s, frames);
  }

  /** A data datagram decodes to itself, consuming every byte, exactly when its flags are data flags
      and all its packets are canonical; it is then as long as `Size` says. */
  lemma DataDatagramRoundTrip(d: Datagram)
    requires d.payload.Frames? && DatagramBytes(d).Ok?
    ensures ParseDatagram(DatagramBytes(d).value) == Ok(d) <==>
            d.flags % 4 == 0 && !HasAck(d.flags) && !HasNack(d.flags) && AllCanonical(d.payload.packets)
    ensures AllCanonical(d.payload.packets) ==> |DatagramBytes(d).value| == d.Size()
  {
    var frames := FramesBytes(d.payload.packets).value;
    var src := DatagramBytes(d).value;
    assert src[0] == d.flags && src[1..] == U24LeBytes(d.sequence) + frames;
    FramesParseBack(d.payload.packets);
    DataHeader(src, d.sequence, frames);
    if AllCanonical(d.payload.packets) {
      FramesLength(d.payload.packets);
    }
  }

  lemma FramesEncodeAlone(d: Datagram)
    requires d.payload.Frames? && FramesBytes(d.payload.packets).Ok?
    ensures DatagramBytes(d).Ok?
  {
  }

  /** With data flags and canonical packets, encoding succeeds and decoding returns the datagram. */
  lemma CanonicalDatagramTravels(d: Datagram)
    requires d.payload.Frames? && AllCanonical(d.payload.packets)
    requires d.flags % 4 == 0 && !HasAck(d.flags) && !HasNack(d.flags)
    ensures DatagramBytes(d).Ok? && |DatagramBytes(d).value| == d.Size()
    ensures ParseDatagram(DatagramBytes(d).value) == Ok(d)
  {
    FramesLength(d.payload.packets);
    FramesEncodeAlone(d);
    DataDatagramRoundTrip(d);
  }

  lemma ReportFlags()
    ensures TruncateFlags(FLAGS_ACK) == FLAGS_ACK && HasAck(FLAGS_ACK)
    ensures TruncateFlags(FLAGS_NAK) == FLAGS_NAK && !HasAck(FLAGS_NAK) && HasNack(FLAGS_NAK)
  {
  }

  lemma AckHeader(flags: byte, body: Bytes)
    requires TruncateFlags(flags) == flags && HasAck(flags) && ParseAck(body).Ok?
    ensures ParseDatagram([flags] + body) == Ok(Datagram(flags, 0, Ack(ParseAck(body).value.0)))
  {
    assert ([flags] + body)[1..] == body;
  }

  lemma NakHeader(flags: byte, body: Bytes)
    requires TruncateFlags(flags) == flags && !HasAck(flags) && HasNack(flags) && ParseAck(body).Ok?
    ensures ParseDatagram([flags] + body) == Ok(Datagram(flags, 0, Nak(ParseAck(body).value.0)))
  {
    assert ([flags] + body)[1..] == body;
  }

  lemma AcceptedAck(ranges: seq<SequenceRange>)
    requires TotalRecords(ranges) <= MAX_ACK_SEQUENCES
    ensures ParseAck(AckBytes(ranges)) == Ok((AllRecords(ranges), []))
    ensures |AckBytes(ranges)| == AckPayloadSize(ranges)
  {
    AckRoundTrip(ranges, []);
    assert AckBytes(ranges) + [] == AckBytes(ranges);
  }

  /** An ACK datagram arrives as its wrap-split records. */
  lemma AckDatagramRoundTrip(d: Datagram)
    requires d.flags == FLAGS_ACK && d.payload.Ack? && TotalRecords(d.payload.ackRanges) <= MAX_ACK_SEQUENCES
    ensures DatagramBytes(d).Ok?
    ensures ParseDatagram(DatagramBytes(d).value) == Ok(Datagram(FLAGS_ACK, 0, Ack(AllRecords(d.payload.ackRanges))))
    ensures |DatagramBytes(d).value| == d.Size()
  {
    var body := AckBytes(d.payload.ackRanges);
    AcceptedAck(d.payload.ackRanges);
    ReportFlags();
    AckHeader(d.flags, body);
  }

  lemma NakDatagramRoundTrip(d: Datagram)
    requires d.flags == FLAGS_NAK && d.payload.Nak? && TotalRecords(d.payload.nakRanges) <= MAX_ACK_SEQUENCES
    ensures DatagramBytes(d).Ok?
    ensures ParseDatagram(DatagramBytes(d).value) == Ok(Datagram(FLAGS_NAK, 0, Nak(AllRecords(d.payload.nakRanges))))
    ensures |DatagramBytes(d).value| == d.Size()
  {
    var body := AckBytes(d.payload.nakRanges);
    AcceptedAck(d.payload.nakRanges);
    ReportFlags();
    NakHeader(d.flags, body);
  }

  /** A packet without the sequence index its reliability calls for does not encode. */
  lemma {:induction false} MissingSequenceIndexFailsToEncode(packets: seq<Encap>, i: nat)
    requires i < |packets|
    requires packets[i].header.reliability.IsSequenced() && packets[i].sequenceIndex.None?
    ensures FramesBytes(packets).Err?
  {
    if i < |packets| - 1 {
      MissingSequenceIndexFailsToEncode(packets[..|packets| - 1], i);
    }
  }
}
