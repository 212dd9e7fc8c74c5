/**
 The encoders and decoders as they run: writing to and consuming a buffer step by step.
 Each is proved to write or read exactly the bytes that `Codec` and `DatagramCodec` give.
*/
module Wire {
  import opened Sequence24
  import opened Wrappers
  import opened Ranges
  import opened Protocol
  import opened Codec
  import opened DatagramCodec
  import opened Sequences

  /** On success the bytes are appended; on an error a partial encoding may have been appended. */
  ghost predicate Writes(before: Bytes, after: Bytes, r: Result<(), EncodeError>, spec: Result<Bytes, EncodeError>) {
    match spec
    case Ok(b) => r == Ok(()) && after == before + b
    case Err(e) => r == Err(e) && before <= after
  }

  ghost predicate Reads<T>(after: Bytes, r: Result<T, DecodeError>, spec: Parsed<T>) {
    match spec
    case Ok((v, rest)) => r == Ok(v) && after == rest
    case Err(e) => r == Err(e)
  }

  class Buffer {
    var data: Bytes

    constructor (data: Bytes)
      ensures this.data == data
    {
      this.data := data;
    }

    method Put(b: Bytes)
      modifies this
      ensures data == old(data) + b
    {
      data := data + b;
    }

    method GetU8() returns (r: Result<byte, DecodeError>)
      modifies this
      ensures Reads(data, r, ParseU8(old(data)))
    {
      if |data| < 1 {
        return Err(UnexpectedEof);
      }
      r := Ok(data[0]);
      data := data[1..];
    }

    method GetU16() returns (r: Result<u16, DecodeError>)
      modifies this
      ensures Reads(data, r, ParseU16(old(data)))
    {
      if |data| < 2 {
        return Err(UnexpectedEof);
      }
      r := Ok((data[0] as int) * 0x100 + data[1]);
      data := data[2..];
    }

    method GetU24Le() returns (r: Result<Seq24, DecodeError>)
      modifies this
      ensures Reads(data, r, ParseU24Le(old(data)))
    {
      if |data| < 3 {
        return Err(UnexpectedEof);
      }
      r := Ok(data[0] as int + (data[1] as int) * 0x100 + (data[2] as int) * 0x1_0000);
      data := data[3..];
    }

    method GetU32() returns (r: Result<u32, DecodeError>)
      modifies this
      ensures Reads(data, r, ParseU32(old(data)))
    {
      if |data| < 4 {
        return Err(UnexpectedEof);
      }
      r := Ok((data[0] as int) * 0x100_0000 + (data[1] as int) * 0x1_0000 + (data[2] as int) * 0x100 + data[3]);
      data := data[4..];
    }
  }

  // ----- encapsulated packets -----

  method EncodeSeq(needed: bool, idx: Option<Seq24>, missing: EncodeError, dst: Buffer)
    returns (r: Result<(), EncodeError>)
    modifies dst
    ensures Writes(old(dst.data), dst.data, r, SeqBytes(needed, idx, missing))
  {
    if needed {
      if idx.None? {
        return Err(missing);
      }
      dst.Put(U24LeBytes(idx.value));
    }
    r := Ok(());
  }

  method EncodeOrder(needed: bool, idx: Option<Seq24>, ch: Option<byte>, dst: Buffer)
    returns (r: Result<(), EncodeError>)
    modifies dst
    ensures Writes(old(dst.data), dst.data, r, OrderBytes(needed, idx, ch))
  {
    if needed {
      if idx.None? {
        return Err(MissingOrderingIndex);
      }
      dst.Put(U24LeBytes(idx.value));
      if ch.None? {
        return Err(MissingOrderingChannel);
      }
      dst.Put([ch.value]);
    }
    r := Ok(());
  }

  method EncodeSplit(needed: bool, split: Option<SplitInfo>, dst: Buffer) returns (r: Result<(), EncodeError>)
    modifies dst
    ensures Writes(old(dst.data), dst.data, r, SplitBytes(needed, split))
  {
    if needed {
      if split.None? {
        return Err(EncodeMissingSplitInfo);
      }
      dst.Put(U32Bytes(split.value.count));
      dst.Put(U16Bytes(split.value.id));
      dst.Put(U32Bytes(split.value.index));
    }
    r := Ok(());
  }

  lemma Appended(d: Bytes, a: Bytes, b: Bytes, c: Bytes, e: Bytes)
    ensures d + a + b + c + e == d + (a + b + c + e)
  {
  }

  method EncodeIndexes(e: Encap, dst: Buffer) returns (r: Result<(), EncodeError>)
    modifies dst
    ensures Writes(old(dst.data), dst.data, r, IndexBytes(e))
  {
    var rel := e.header.reliability;
    var _ :- EncodeSeq(rel.IsReliable(), e.reliableIndex, MissingReliableIndex, dst);
    var _ :- EncodeSeq(rel.IsSequenced(), e.sequenceIndex, MissingSequenceIndex, dst);
    var _ :- EncodeOrder(rel.IsOrdered() || rel.IsSequenced(), e.orderingIndex, e.orderingChannel, dst);
    var _ :- EncodeSplit(e.header.isSplit, e.split, dst);
    Appended(old(dst.data),
             SeqBytes(rel.IsReliable(), e.reliableIndex, MissingReliableIndex).value,
             SeqBytes(rel.IsSequenced(), e.sequenceIndex, MissingSequenceIndex).value,
             OrderBytes(rel.IsOrdered() || rel.IsSequenced(), e.orderingIndex, e.orderingChannel).value,
             SplitBytes(e.header.isSplit, e.split).value);
    r := Ok(());
  }

  method EncodeEncap(e: Encap, dst: Buffer) returns (r: Result<(), EncodeError>)
    modifies dst
    ensures Writes(old(dst.data), dst.data, r, EncapBytes(e))
  {
    dst.Put([HeaderToByte(e.header)]);
    dst.Put(U16Bytes(e.bitLength));
    var _ :- EncodeIndexes(e, dst);
    dst.Put(e.payload);
    Appended(old(dst.data), [HeaderToByte(e.header)], U16Bytes(e.bitLength), IndexBytes(e).value, e.payload);
    r := Ok(());
  }

  method DecodeSeq(needed: bool, src: Buffer) returns (r: Result<Option<Seq24>, DecodeError>)
    modifies src
    ensures Reads(src.data, r, ParseSeq(needed, old(src.data)))
  {
    if needed {
      var idx :- src.GetU24Le();
      return Ok(Some(idx));
    }
    r := Ok(None);
  }

  method DecodeOrder(needed: bool, src: Buffer) returns (r: Result<(Option<Seq24>, Option<byte>), DecodeError>)
    modifies src
    ensures Reads(src.data, r, ParseOrder(needed, old(src.data)))
  {
    if needed {
      var idx :- src.GetU24Le();
      var ch :- src.GetU8();
      return Ok((Some(idx), Some(ch)));
    }
    r := Ok((None, None));
  }

  method DecodeSplit(needed: bool, src: Buffer) returns (r: Result<Option<SplitInfo>, DecodeError>)
    modifies src
    ensures Reads(src.data, r, ParseSplit(needed, old(src.data)))
  {
    if needed {
      var count :- src.GetU32();
      var id :- src.GetU16();
      var index :- src.GetU32();
      return Ok(Some(SplitInfo(count, id, index)));
    }
    r := Ok(None);
  }

  method DecodePayload(partial: Encap, src: Buffer) returns (r: Result<Encap, DecodeError>)
    modifies src
    ensures Reads(src.data, r, ParsePayload(partial, old(src.data)))
  {
    var payloadLen := partial.PayloadLen();
    if |src.data| < payloadLen {
      return Err(UnexpectedEof);
    }
    var payload := src.data[..payloadLen];
    src.data := src.data[payloadLen..];
    r := Ok(partial.(payload := payload));
  }

  method DecodeOrderAndSplit(partial: Encap, src: Buffer) returns (r: Result<Encap, DecodeError>)
    modifies src
    ensures Reads(src.data, r, ParseOrderAndSplit(partial, old(src.data)))
  {
    var rel := partial.header.reliability;
    var order :- DecodeOrder(rel.IsOrdered() || rel.IsSequenced(), src);
    var split :- DecodeSplit(partial.header.isSplit, src);
    r := DecodePayload(partial.(orderingIndex := order.0, orderingChannel := order.1, split := split), src);
  }

  method DecodeBody(header: Header, bitLength: u16, src: Buffer) returns (r: Result<Encap, DecodeError>)
    modifies src
    ensures Reads(src.data, r, ParseBody(header, bitLength, old(src.data)))
  {
    var rel := header.reliability;
    var reliable :- DecodeSeq(rel.IsReliable(), src);
    var sequence :- DecodeSeq(rel.IsSequenced(), src);
    r := DecodeOrderAndSplit(Encap(header, bitLength, reliable, sequence, None, None, None, []), src);
  }

  method DecodeEncap(src: Buffer) returns (r: Result<Encap, DecodeError>)
    modifies src
    ensures Reads(src.data, r, ParseEncap(old(src.data)))
  {
    var b :- src.GetU8();
    var bitLength :- src.GetU16();
    r := DecodeBody(HeaderFromByte(b), bitLength, src);
  }

  // ----- ACK payloads -----

  method EncodeRange(range: SequenceRange, dst: Buffer)
    modifies dst
    ensures dst.data == old(dst.data) + RangeBytes(range)
  {
    var singleton := range.start == range.end;
    dst.Put([if singleton then 1 else 0]);
    dst.Put(U24LeBytes(range.start));
    if !singleton {
      dst.Put(U24LeBytes(range.end));
    }
  }

  method EncodeAck(ranges: seq<SequenceRange>, dst: Buffer)
    modifies dst
    ensures dst.data == old(dst.data) + AckBytes(ranges)
  {
    var totalRecords := CountRecords(ranges);
    dst.Put(U16Bytes(CastU16(totalRecords)));
    EncodeAllRecords(ranges, dst);
    Regrouped(old(dst.data), U16Bytes(CastU16(totalRecords)), RecordBytes(AllRecords(ranges)));
  }

  method CountRecords(ranges: seq<SequenceRange>) returns (n: nat)
    ensures n == TotalRecords(ranges)
  {
    n := 0;
    for i := 0 to |ranges|
      invariant n == TotalRecords(ranges[..i])
    {
      assert ranges[..i + 1][..i] == ranges[..i];
      n := n + RecordCount(ranges[i]);
    }
    assert ranges[..|ranges|] == ranges;
  }

  method EncodeAllRecords(ranges: seq<SequenceRange>, dst: Buffer)
    modifies dst
    ensures dst.data == old(dst.data) + RecordBytes(AllRecords(ranges))
  {
    for i := 0 to |ranges|
      invariant dst.data == old(dst.data) + RecordBytes(AllRecords(ranges[..i]))
    {
      OneMoreRange(old(dst.data), ranges, i);
      EncodeRecords(ranges[i], dst);
    }
    assert ranges[..|ranges|] == ranges;
  }

  lemma OneMoreRange(start: Bytes, ranges: seq<SequenceRange>, i: nat)
    requires i < |ranges|
    ensures (start + RecordBytes(AllRecords(ranges[..i]))) + RecordBytes(Records(ranges[i])) ==
            start + RecordBytes(AllRecords(ranges[..i + 1]))
  {
    assert ranges[..i + 1][..i] == ranges[..i];
    var front, last := AllRecords(ranges[..i]), Records(ranges[i]);
    RecordBytesConcat(front, last);
    Regrouped(start, RecordBytes(front), RecordBytes(last));
  }

  method EncodeRecords(range: SequenceRange, dst: Buffer)
    modifies dst
    ensures dst.data == old(dst.data) + RecordBytes(Records(range))
  {
    match SplitWrapping(range)
    case Some((tail, head)) =>
      EncodeRange(tail, dst);
      EncodeRange(head, dst);
      assert [tail, head][..1] == [tail];
    case None =>
      EncodeRange(range, dst);
  }

  lemma {:induction false} RecordBytesConcat(a: seq<SequenceRange>, b: seq<SequenceRange>)
    ensures RecordBytes(a + b) == RecordBytes(a) + RecordBytes(b)
  {
    if b == [] {
      assert a + b == a;
    } else {
      RecordBytesConcat(a, b[..|b| - 1]);
      assert (a + b)[..|a + b| - 1] == a + b[..|b| - 1];
      Regrouped(RecordBytes(a), RecordBytes(b[..|b| - 1]), RangeBytes(b[|b| - 1]));
    }
  }

  method DecodeRange(src: Buffer) returns (r: Result<SequenceRange, DecodeError>)
    modifies src
    ensures Reads(src.data, r, ParseRange(old(src.data)))
  {
    var singleton :- src.GetU8();
    var start :- src.GetU24Le();
    if singleton == 1 {
      return Ok(SequenceRange(start, start));
    }
    var end :- src.GetU24Le();
    r := Ok(SequenceRange(start, end));
  }

  method DecodeAck(src: Buffer) returns (r: Result<seq<SequenceRange>, DecodeError>)
    modifies src
    ensures Reads(src.data, r, ParseAck(old(src.data)))
  {
    var len :- src.GetU16();
    if len > MAX_ACK_SEQUENCES {
      return Err(InvalidAckPacket);
    }
    ghost var whole := ParseRanges(len, src.data);
    var ranges := [];
    assert forall rs: seq<SequenceRange> :: [] + rs == rs;
    for i := 0 to len
      invariant match ParseRanges(len - i, src.data)
                case Ok((rs, rest)) => whole == Ok((ranges + rs, rest))
                case Err(e) => whole == Err(e)
    {
      var range :- DecodeRange(src);
      ghost var before := ranges;
      ranges := ranges + [range];
      assert forall rs :: before + ([range] + rs) == ranges + rs;
    }
    assert ranges + [] == ranges;
    r := Ok(ranges);
  }

  // ----- datagrams -----

  method EncodeFrames(packets: seq<Encap>, dst: Buffer) returns (r: Result<(), EncodeError>)
    modifies dst
    ensures Writes(old(dst.data), dst.data, r, FramesBytes(packets))
  {
    for i := 0 to |packets|
      invariant FramesBytes(packets[..i]).Ok?
      invariant dst.data == old(dst.data) + FramesBytes(packets[..i]).value
    {
      assert packets[..i + 1][..i] == packets[..i];
      r := EncodeEncap(packets[i], dst);
      if r.Err? {
        FramesFailEarly(packets, i + 1);
        return;
      }
      Regrouped(old(dst.data), FramesBytes(packets[..i]).value, EncapBytes(packets[i]).value);
    }
    assert packets[..|packets|] == packets;
    r := Ok(());
  }

  method EncodeDatagram(d: Datagram, dst: Buffer) returns (r: Result<(), EncodeError>)
    modifies dst
    ensures Writes(old(dst.data), dst.data, r, DatagramBytes(d))
  {
    match d.payload
    case Frames(packets) =>
      dst.Put([d.flags]);
      dst.Put(U24LeBytes(d.sequence));
      r := EncodeFrames(packets, dst);
      if r.Ok? {
        Appended(old(dst.data), [d.flags], U24LeBytes(d.sequence), FramesBytes(packets).value, []);
      }
    case Nak(ranges) =>
      dst.Put([d.flags]);
      EncodeAck(ranges, dst);
      Regrouped(old(dst.data), [d.flags], AckBytes(ranges));
      r := Ok(());
    case Ack(ranges) =>
      dst.Put([d.flags]);
      EncodeAck(ranges, dst);
      Regrouped(old(dst.data), [d.flags], AckBytes(ranges));
      r := Ok(());
  }

  lemma {:induction false} FramesFailEarly(packets: seq<Encap>, i: nat)
    requires i <= |packets| && FramesBytes(packets[..i]).Err?
    ensures FramesBytes(packets) == FramesBytes(packets[..i])
  {
    if i < |packets| {
      assert packets[..|packets| - 1][..i] == packets[..i];
      FramesFailEarly(packets[..|packets| - 1], i);
    } else {
      assert packets[..i] == packets;
    }
  }

  method DecodeDatagram(src: Buffer) returns (r: Result<Datagram, DecodeError>)
    modifies src
    ensures r == ParseDatagram(old(src.data))
    ensures r.Ok? && r.value.payload.Frames? ==> src.data == []
  {
    var raw :- src.GetU8();
    var flags := TruncateFlags(raw);
    if HasAck(flags) {
      var ranges :- DecodeAck(src);
      return Ok(Datagram(flags, 0, Ack(ranges)));
    }
    if HasNack(flags) {
      var ranges :- DecodeAck(src);
      return Ok(Datagram(flags, 0, Nak(ranges)));
    }
    var sequence :- src.GetU24Le();
    ghost var whole := ParseFrames(src.data);
    var packets := [];
    assert forall es: seq<Encap> :: [] + es == es;
    while src.data != []
      invariant match ParseFrames(src.data)
                case Ok(es) => whole == Ok(packets + es)
                case Err(e) => whole == Err(e)
      decreases |src.data|
    {
      var e :- DecodeEncap(src);
      ghost var before := packets;
      packets := packets + [e];
      assert forall es :: before + ([e] + es) == packets + es;
    }
    assert packets + [] == packets;
    r := Ok(Datagram(flags, sequence, Frames(packets)));
  }

  /** `Datagram::size` as it is computed, one packet at a time. */
  method DatagramSize(d: Datagram) returns (size: nat)
    ensures size == d.Size()
  {
    match d.payload
    case Frames(packets) =>
      size := RAKNET_DATAGRAM_HEADER_SIZE;
      for i := 0 to |packets|
        invariant size == RAKNET_DATAGRAM_HEADER_SIZE + TotalSize(packets[..i])
      {
        assert packets[..i + 1][..i] == packets[..i];
        size := size + packets[i].Size();
      }
      assert packets[..|packets|] == packets;
    case Nak(ranges) =>
      size := AckSize(ranges);
      size := 1 + size;
    case Ack(ranges) =>
      size := AckSize(ranges);
      size := 1 + size;
  }

  method AckSize(ranges: seq<SequenceRange>) returns (size: nat)
    ensures size == AckPayloadSize(ranges)
  {
    size := 2;
    for i := 0 to |ranges|
      invariant size == AckPayloadSize(ranges[..i])
    {
      assert ranges[..i + 1][..i] == ranges[..i];
      size := size + EncodedSize(ranges[i]);
    }
    assert ranges[..|ranges|] == ranges;
  }
}
