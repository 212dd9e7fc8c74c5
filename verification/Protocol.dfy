/** The values that travel on the wire (raknet/src/protocol). */
module Protocol {
  import opened Sequence24
  import opened Wrappers
  import opened Ranges

  type byte = n: nat | n < 0x100
  type u16 = n: nat | n < 0x1_0000
  type u32 = n: nat | n < 0x1_0000_0000
  type Bytes = seq<byte>

  const IPV4_HEADER_SIZE: nat := 20
  const UDP_HEADER_SIZE: nat := 8
  const RAKNET_DATAGRAM_HEADER_SIZE: nat := 4

  datatype EncodeError =
    | EncodeMissingSplitInfo
    | MissingReliableIndex
    | MissingSequenceIndex
    | MissingOrderingIndex
    | MissingOrderingChannel

  datatype DecodeError =
    | UnexpectedEof
    | InvalidAckPacket
    | SplitCountMismatch
    | SplitIndexOutOfRange
    | SplitTooLarge
    | SplitBufferFull
    | MissingSplitInfo
    | BadPacket  // any failure of the packet registry other than an unknown id

  // ----- reliability -----

  datatype Reliability =
    | Unreliable
    | UnreliableSequenced
    | Reliable
    | ReliableOrdered
    | ReliableSequenced
    | UnreliableWithAckReceipt
    | ReliableWithAckReceipt
    | ReliableOrderedWithAckReceipt
  {
    predicate IsReliable() {
      Reliable? || ReliableOrdered? || ReliableSequenced? || ReliableWithAckReceipt? || ReliableOrderedWithAckReceipt?
    }

    predicate IsOrdered() {
      ReliableOrdered? || ReliableOrderedWithAckReceipt?
    }

    predicate IsSequenced() {
      UnreliableSequenced? || ReliableSequenced?
    }
  }

  // ----- encapsulated packets -----

  datatype Header = Header(reliability: Reliability, isSplit: bool, needsBas: bool)

  datatype SplitInfo = SplitInfo(count: u32, id: u16, index: u32)

  datatype Encap = Encap(
    header: Header,
    bitLength: u16,
    reliableIndex: Option<Seq24>,
    sequenceIndex: Option<Seq24>,
    orderingIndex: Option<Seq24>,
    orderingChannel: Option<byte>,
    split: Option<SplitInfo>,
    payload: Bytes)
  {
    function PayloadLen(): nat {
      (bitLength + 7) / 8
    }

    function Size(): nat {
      HeaderOverhead(header.reliability, header.isSplit) + PayloadLen()
    }
  }

  /** `as u16` keeps the low 16 bits. */
  function CastU16(n: nat): u16 {
    if n < 0x1_0000 then n else n % 0x1_0000
  }

  /** `(len as u16) << 3`: both the cast and the shift drop high bits. */
  function BitLengthOf(payload: Bytes): u16 {
    CastU16(CastU16(|payload|) * 8)
  }

  /** Flags, bit length and whatever indexes and split fields the reliability calls for. */
  function HeaderOverhead(rel: Reliability, isSplit: bool): nat {
    3
    + (if rel.IsReliable() then 3 else 0)
    + (if rel.IsSequenced() then 3 else 0)
    + (if rel.IsOrdered() || rel.IsSequenced() then 3 + 1 else 0)
    + (if isSplit then 4 + 2 + 4 else 0)
  }

  function TotalSize(packets: seq<Encap>): nat {
    if packets == [] then 0 else TotalSize(packets[..|packets| - 1]) + packets[|packets| - 1].Size()
  }

  // ----- datagrams -----

  datatype Payload =
    | Frames(packets: seq<Encap>)
    | Nak(nakRanges: seq<SequenceRange>)
    | Ack(ackRanges: seq<SequenceRange>)

  datatype Datagram = Datagram(flags: byte, sequence: Seq24, payload: Payload) {
    function Size(): nat {
      match payload
      case Frames(packets) => RAKNET_DATAGRAM_HEADER_SIZE + TotalSize(packets)
      case Nak(ranges) => 1 + AckPayloadSize(ranges)
      case Ack(ranges) => 1 + AckPayloadSize(ranges)
    }
  }

  function AckPayloadSize(ranges: seq<SequenceRange>): nat {
    2 + TotalEncodedSize(ranges)
  }

  // VALID | CONTINUOUS_SEND, VALID | HAS_B_AND_AS, VALID | ACK and VALID | NACK
  const FLAGS_CONTINUOUS: byte := 0x88
  const FLAGS_DEFAULT: byte := 0x84
  const FLAGS_ACK: byte := 0xC0
  const FLAGS_NAK: byte := 0xA0
}
