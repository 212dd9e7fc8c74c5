/**
 Encoding and decoding of datagrams (raknet/src/protocol/datagram.rs, encapsulated_packet.rs, ack.rs).
 Functions ending in `Bytes` and starting with `Parse` say what is written and what is read;
 the methods on a buffer are proved to write and read exactly that.
*/
module Codec {
  import opened Sequence24
  import opened Wrappers
  import opened Protocol

  type Parsed<T> = Result<(T, Bytes), DecodeError>

  // ----- integers -----

  function U16Bytes(v: u16): Bytes {
    [v / 0x100, v % 0x100]
  }

  function U24LeBytes(v: Seq24): Bytes {
    [v % 0x100, (v / 0x100) % 0x100, v / 0x1_0000]
  }

  function U32Bytes(v: u32): Bytes {
    [v / 0x100_0000, (v / 0x1_0000) % 0x100, (v / 0x100) % 0x100, v % 0x100]
  }

  function ParseU8(src: Bytes): Parsed<byte> {
    if |src| < 1 then Err(UnexpectedEof) else Ok((src[0], src[1..]))
  }

  function ParseU16(src: Bytes): Parsed<u16> {
    if |src| < 2 then Err(UnexpectedEof) else Ok(((src[0] as int) * 0x100 + src[1], src[2..]))
  }

  function ParseU24Le(src: Bytes): Parsed<Seq24> {
    if |src| < 3 then Err(UnexpectedEof)
    else Ok((src[0] as int + (src[1] as int) * 0x100 + (src[2] as int) * 0x1_0000, src[3..]))
  }

  function ParseU32(src: Bytes): Parsed<u32> {
    if |src| < 4 then Err(UnexpectedEof)
    else Ok(((src[0] as int) * 0x100_0000 + (src[1] as int) * 0x1_0000 + (src[2] as int) * 0x100 + src[3], src[4..]))
  }

  lemma U16RoundTrip(v: u16, tail: Bytes)
    ensures ParseU16(U16Bytes(v) + tail) == Ok((v, tail))
  {
  }

  lemma U24LeRoundTrip(v: Seq24, tail: Bytes)
    ensures ParseU24Le(U24LeBytes(v) + tail) == Ok((v, tail))
  {
  }

  lemma U32RoundTrip(v: u32, tail: Bytes)
    ensures ParseU32(U32Bytes(v) + tail) == Ok((v, tail))
  {
    U32Digits(v);
    var src := U32Bytes(v) + tail;
    assert src[0] == U32Bytes(v)[0] && src[1] == U32Bytes(v)[1] && src[2] == U32Bytes(v)[2] && src[3] == U32Bytes(v)[3];
    assert src[4..] == tail;
  }

  lemma U32Digits(v: u32)
    ensures (v / 0x100_0000) * 0x100_0000 + ((v / 0x1_0000) % 0x100) * 0x1_0000
            + ((v / 0x100) % 0x100) * 0x100 + v % 0x100 == v
  {
    var a := v / 0x100;
    var b := a / 0x100;
    assert v / 0x1_0000 == b && v / 0x100_0000 == b / 0x100;
  }

  // ----- the frame header byte -----

  function ReliabilityCode(rel: Reliability): (code: byte)
    ensures code < 8
  {
    match rel
    case Unreliable => 0
    case UnreliableSequenced => 1
    case Reliable => 2
    case ReliableOrdered => 3
    case ReliableSequenced => 4
    case UnreliableWithAckReceipt => 5
    case ReliableWithAckReceipt => 6
    case ReliableOrderedWithAckReceipt => 7
  }

  function ReliabilityOf(code: nat): Reliability
    requires code < 8
  {
    if code == 0 then Unreliable
    else if code == 1 then UnreliableSequenced
    else if code == 2 then Reliable
    else if code == 3 then ReliableOrdered
    else if code == 4 then ReliableSequenced
    else if code == 5 then UnreliableWithAckReceipt
    else if code == 6 then ReliableWithAckReceipt
    else ReliableOrderedWithAckReceipt
  }

  // The split flag is 0x10; the needs-B&AS flag is 0x04.
  function HeaderToByte(h: Header): byte {
    ReliabilityCode(h.reliability) * 0x20 + (if h.isSplit then 0x10 else 0) + (if h.needsBas then 0x04 else 0)
  }

  function HeaderFromByte(b: byte): Header {
    Header(ReliabilityOf(b / 0x20), (b / 0x10) % 2 != 0, (b / 0x04) % 2 != 0)
  }

  lemma HeaderRoundTrip(h: Header)
    ensures HeaderFromByte(HeaderToByte(h)) == h
  {
  }

  // ----- encapsulated packets -----

  function SeqBytes(needed: bool, idx: Option<Seq24>, missing: EncodeError): Result<Bytes, EncodeError> {
    if !needed then Ok([])
    else if idx.Some? then Ok(U24LeBytes(idx.value))
    else Err(missing)
  }

  function OrderBytes(needed: bool, idx: Option<Seq24>, ch: Option<byte>): Result<Bytes, EncodeError> {
    if !needed then Ok([])
    else if idx.None? then Err(MissingOrderingIndex)
    else if ch.None? then Err(MissingOrderingChannel)
    else Ok(U24LeBytes(idx.value) + [ch.value])
  }

  function SplitBytes(needed: bool, split: Option<SplitInfo>): Result<Bytes, EncodeError> {
    if !needed then Ok([])
    else if split.None? then Err(EncodeMissingSplitInfo)
    else Ok(U32Bytes(split.value.count) + U16Bytes(split.value.id) + U32Bytes(split.value.index))
  }

  /** Everything after the header byte and the bit length, up to the payload. */
  function IndexBytes(e: Encap): Result<Bytes, EncodeError> {
    var rel := e.header.reliability;
    var reliable :- SeqBytes(rel.IsReliable(), e.reliableIndex, MissingReliableIndex);
    var sequence :- SeqBytes(rel.IsSequenced(), e.sequenceIndex, MissingSequenceIndex);
    var order :- OrderBytes(rel.IsOrdered() || rel.IsSequenced(), e.orderingIndex, e.orderingChannel);
    var split :- SplitBytes(e.header.isSplit, e.split);
    Ok(reliable + sequence + order + split)
  }

  /** The bytes of one encapsulated packet, or the first field found missing. */
  function EncapBytes(e: Encap): Result<Bytes, EncodeError> {
    var indexes :- IndexBytes(e);
    Ok([HeaderToByte(e.header)] + U16Bytes(e.bitLength) + indexes + e.payload)
  }

  function ParseSeq(needed: bool, src: Bytes): Parsed<Option<Seq24>> {
    if !needed then Ok((None, src))
    else
      var (v, rest) :- ParseU24Le(src);
      Ok((Some(v), rest))
  }

  function ParseOrder(needed: bool, src: Bytes): Parsed<(Option<Seq24>, Option<byte>)> {
    if !needed then Ok(((None, None), src))
    else
      var (idx, s1) :- ParseU24Le(src);
      var (ch, s2) :- ParseU8(s1);
      Ok(((Some(idx), Some(ch)), s2))
  }

  function ParseSplit(needed: bool, src: Bytes): Parsed<Option<SplitInfo>> {
    if !needed then Ok((None, src))
    else
      var (count, s1) :- ParseU32(src);
      var (id, s2) :- ParseU16(s1);
      var (index, s3) :- ParseU32(s2);
      Ok((Some(SplitInfo(count, id, index)), s3))
  }

  function ParsePayload(partial: Encap, src: Bytes): (r: Parsed<Encap>)
    ensures r.Ok? ==> |r.value.1| <= |src|
  {
    if |src| < partial.PayloadLen() then Err(UnexpectedEof)
    else Ok((partial.(payload := src[..partial.PayloadLen()]), src[partial.PayloadLen()..]))
  }

  function ParseOrderAndSplit(partial: Encap, src: Bytes): (r: Parsed<Encap>)
    ensures r.Ok? ==> |r.value.1| <= |src|
  {
    var rel := partial.header.reliability;
    var (order, s4) :- ParseOrder(rel.IsOrdered() || rel.IsSequenced(), src);
    var (split, s5) :- ParseSplit(partial.header.isSplit, s4);
    ParsePayload(partial.(orderingIndex := order.0, orderingChannel := order.1, split := split), s5)
  }

  function ParseBody(header: Header, bitLength: u16, src: Bytes): (r: Parsed<Encap>)
    ensures r.Ok? ==> |r.value.1| <= |src|
    ensures r.Ok? ==> Canonical(r.value.0)
  {
    var rel := header.reliability;
    var (reliable, s2) :- ParseSeq(rel.IsReliable(), src);
    var (sequence, s3) :- ParseSeq(rel.IsSequenced(), s2);
    ParseOrderAndSplit(Encap(header, bitLength, reliable, sequence, None, None, None, []), s3)
  }

  function ParseEncap(src: Bytes): (r: Parsed<Encap>)
    ensures r.Ok? ==> |r.value.1| < |src|
    ensures r.Ok? ==> Canonical(r.value.0)
  {
    var (b, s0) :- ParseU8(src);
    var (bitLength, s1) :- ParseU16(s0);
    ParseBody(HeaderFromByte(b), bitLength, s1)
  }

  /** Exactly the fields the header calls for are present, and the bit length is that of the payload. */
  predicate Canonical(e: Encap) {
    var rel := e.header.reliability;
    && e.reliableIndex.Some? == rel.IsReliable()
    && e.sequenceIndex.Some? == rel.IsSequenced()
    && e.orderingIndex.Some? == (rel.IsOrdered() || rel.IsSequenced())
    && e.orderingChannel.Some? == (rel.IsOrdered() || rel.IsSequenced())
    && e.split.Some? == e.header.isSplit
    && |e.payload| == e.PayloadLen()
  }

  lemma SeqRoundTrip(needed: bool, idx: Option<Seq24>, missing: EncodeError, tail: Bytes)
    requires idx.Some? == needed
    ensures SeqBytes(needed, idx, missing).Ok?
    ensures ParseSeq(needed, SeqBytes(needed, idx, missing).value + tail) == Ok((idx, tail))
  {
    if needed {
      U24LeRoundTrip(idx.value, tail);
    } else {
      assert [] + tail == tail;
    }
  }

  lemma OrderRoundTrip(needed: bool, idx: Option<Seq24>, ch: Option<byte>, tail: Bytes)
    requires idx.Some? == ch.Some? == needed
    ensures OrderBytes(needed, idx, ch).Ok?
    ensures ParseOrder(needed, OrderBytes(needed, idx, ch).value + tail) == Ok(((idx, ch), tail))
  {
    if needed {
      assert OrderBytes(needed, idx, ch).value + tail == U24LeBytes(idx.value) + ([ch.value] + tail);
      U24LeRoundTrip(idx.value, [ch.value] + tail);
      assert ([ch.value] + tail)[1..] == tail;
    } else {
      assert [] + tail == tail;
    }
  }

  lemma SplitRoundTrip(needed: bool, split: Option<SplitInfo>, tail: Bytes)
    requires split.Some? == needed
    ensures SplitBytes(needed, split).Ok?
    ensures ParseSplit(needed, SplitBytes(needed, split).value + tail) == Ok((split, tail))
  {
    if needed {
      var SplitInfo(count, id, index) := split.value;
      var s2 := U32Bytes(index) + tail;
      var s1 := U16Bytes(id) + s2;
      assert SplitBytes(needed, split).value + tail == U32Bytes(count) + s1;
      U32RoundTrip(count, s1);
      U16RoundTrip(id, s2);
      U32RoundTrip(index, tail);
    } else {
      assert [] + tail == tail;
    }
  }

  lemma OrderAndSplitRoundTrip(e: Encap, partial: Encap, order: Bytes, split: Bytes, tail: Bytes)
    requires Canonical(e)
    requires partial == e.(orderingIndex := None, orderingChannel := None, split := None, payload := [])
    requires var rel := e.header.reliability;
             OrderBytes(rel.IsOrdered() || rel.IsSequenced(), e.orderingIndex, e.orderingChannel) == Ok(order)
    requires SplitBytes(e.header.isSplit, e.split) == Ok(split)
    ensures ParseOrderAndSplit(partial, order + (split + (e.payload + tail))) == Ok((e, tail))
  {
    var rel := e.header.reliability;
    var s5 := e.payload + tail;
    OrderRoundTrip(rel.IsOrdered() || rel.IsSequenced(), e.orderingIndex, e.orderingChannel, split + s5);
    SplitRoundTrip(e.header.isSplit, e.split, s5);
    assert s5[..|e.payload|] == e.payload && s5[|e.payload|..] == tail;
  }

  lemma FrameHead(b: byte, bitLength: u16, body: Bytes)
    ensures ParseEncap([b] + U16Bytes(bitLength) + body) == ParseBody(HeaderFromByte(b), bitLength, body)
  {
    var src := [b] + U16Bytes(bitLength) + body;
    assert src[1..] == U16Bytes(bitLength) + body;
    U16RoundTrip(bitLength, body);
  }

  lemma Regroup(a: Bytes, b: Bytes, c: Bytes, d: Bytes, e: Bytes)
    ensures a + b + c + d + e == a + (b + (c + (d + e)))
    ensures a + b + c + d + e == a + b + (c + (d + e))
  {
  }

  lemma CanonicalDecodes(e: Encap, tail: Bytes)
    requires Canonical(e)
    ensures EncapBytes(e).Ok?
    ensures ParseEncap(EncapBytes(e).value + tail) == Ok((e, tail))
  {
    var rel := e.header.reliability;
    var hasOrder := rel.IsOrdered() || rel.IsSequenced();
    var reliable := SeqBytes(rel.IsReliable(), e.reliableIndex, MissingReliableIndex).value;
    var sequence := SeqBytes(rel.IsSequenced(), e.sequenceIndex, MissingSequenceIndex).value;
    var order := OrderBytes(hasOrder, e.orderingIndex, e.orderingChannel).value;
    var split := SplitBytes(e.header.isSplit, e.split).value;
    var s3 := order + (split + (e.payload + tail));
    var body := reliable + (sequence + s3);
    assert EncapBytes(e).value + tail == [HeaderToByte(e.header)] + U16Bytes(e.bitLength) + body by {
      var indexes := reliable + sequence + order + split;
      Regroup([HeaderToByte(e.header)], U16Bytes(e.bitLength), indexes, e.payload, tail);
      Regroup(reliable, sequence, order, split, e.payload + tail);
    }
    FrameHead(HeaderToByte(e.header), e.bitLength, body);
    HeaderRoundTrip(e.header);
    assert ParseBody(e.header, e.bitLength, body) == Ok((e, tail)) by {
      SeqRoundTrip(rel.IsReliable(), e.reliableIndex, MissingReliableIndex, sequence + s3);
      SeqRoundTrip(rel.IsSequenced(), e.sequenceIndex, MissingSequenceIndex, s3);
      var partial := Encap(e.header, e.bitLength, e.reliableIndex, e.sequenceIndex, None, None, None, []);
      OrderAndSplitRoundTrip(e, partial, order, split, tail);
    }
  }

  /** Decoding undoes encoding exactly on canonical packets, whatever follows in the buffer. */
  lemma EncapRoundTrip(e: Encap, tail: Bytes)
    requires EncapBytes(e).Ok?
    ensures ParseEncap(EncapBytes(e).value + tail) == Ok((e, tail)) <==> Canonical(e)
  {
    if Canonical(e) {
      CanonicalDecodes(e, tail);
    }
  }

  /** A packet whose payload has the length its bit length announces is as long on the wire as `Size` says. */
  lemma EncapLength(e: Encap)
    requires EncapBytes(e).Ok? && |e.payload| == e.PayloadLen()
    ensures |EncapBytes(e).value| == e.Size()
  {
  }
}
