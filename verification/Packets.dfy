/**
 The packets exchanged above the session, as far as the session and its manager look at them
 (raknet/src/protocol/packet, state.rs). Their byte formats are parameters: `Registry` carries
 the encoder and the decoder.
*/
module Packets {
  import opened Wrappers
  import opened Ranges
  import opened Protocol

  datatype DisconnectReason =
    | ClosedByRemotePeer
    | ShuttingDown
    | Disconnected
    | TimedOut
    | FailedConnectionRequest
    | AlreadyConnected
    | NoFreeIncomingConnections
    | IncompatibleProtocolVersion
    | IPRecentlyConnected
    | MalformedPacket
    | QueueTooLong

  datatype RaknetPacket =
    | UserData(id: byte, payload: Bytes)
    | ConnectionRequest(clientGuid: nat, timestamp: nat, secure: bool)
    | ConnectionRequestAccepted(requestTimestamp: nat, acceptedTimestamp: nat)
    | ConnectionRequestFailed
    | NewIncomingConnection(requestTimestamp: nat, acceptedTimestamp: nat)
    | ConnectedPing(pingTime: nat)
    | ConnectedPong(pingTime: nat, pongTime: nat)
    | DisconnectionNotification(reason: DisconnectReason)
    | EncapsulatedAck(ranges: seq<SequenceRange>)
    | EncapsulatedNak(ranges: seq<SequenceRange>)
    | UnconnectedPing
    | UnconnectedPong
    | UnconnectedPingOpenConnections
    | OtherPacket

  /** What the packet registry makes of a payload. */
  datatype Decoded = Known(pkt: RaknetPacket) | UnknownId(id: byte) | Undecodable

  datatype Registry = Registry(encode: RaknetPacket -> Option<Bytes>, decode: Bytes -> Decoded)

  datatype IncomingPacket = IncomingPacket(pkt: RaknetPacket, reliability: Reliability, orderingChannel: Option<byte>)
}
