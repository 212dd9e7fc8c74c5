/**
 The managed session (raknet/src/session/manager.rs, manager/control.rs, manager/tick.rs):
 connection state and the bound on queued reliable bytes, on top of a `Session`.
 `Status()` reads the fields that `Lifecycle` is about.
*/
module Manager {
  import opened Sequence24
  import opened Wrappers
  import opened Ranges
  import opened Protocol
  import opened Packets
  import opened Sliding
  import opened SentWindow
  import opened Sending
  import opened Receiving
  import opened Congestion
  import opened Sessions
  import opened Lifecycle

  class ManagedSession {
    const inner: Session
    const config: Config
    /** The origin of RakNet timestamps. */
    const startTime: nat

    var state: ConnectionState
    var lastActivity: nat
    var lastPongReceived: nat
    var lastPingSent: Option<nat>
    var currentPingNonce: Option<nat>
    var queuedReliableBytes: nat
    var remoteGuid: Option<nat>
    var lastDisconnectReason: Option<DisconnectReason>

    function Status(): Status
      reads this
    {
      Lifecycle.Status(state, lastActivity, lastPongReceived, lastPingSent, currentPingNonce, remoteGuid,
                       lastDisconnectReason)
    }

    /** The count is exactly what the reliable packets still queued take on the wire. */
    ghost predicate Valid()
      reads this, inner, inner.Parts()
    {
      && inner.Valid()
      && queuedReliableBytes == ReliableBytes(inner.outgoingHeap)
    }

    constructor (mtu: nat, now: nat, config: Config, registry: Registry, startTime: nat)
      ensures Valid() && fresh(inner) && fresh(inner.Parts())
      ensures this.config == config && this.startTime == startTime && inner.mtu == mtu && inner.registry == registry
      ensures Status() == Lifecycle.Status(Unconnected, now, now, None, None, None, None) && queuedReliableBytes == 0
      ensures state == StateAt(config, [])
    {
      inner := new Session(mtu, config.session, registry);
      this.config := config;
      this.startTime := startTime;
      state := Unconnected;
      lastActivity, lastPongReceived := now, now;
      lastPingSent, currentPingNonce := None, None;
      queuedReliableBytes := 0;
      remoteGuid, lastDisconnectReason := None, None;
    }

    predicate IsConnected()
      reads this
    {
      IsLive(state)
    }

    function RaknetTime(now: nat): nat {
      SaturatingSub(now, startTime)
    }

    // ----- queueing -----

    method QueueAppPacket(pkt: RaknetPacket, rel: Reliability, channel: byte, now: nat)
      returns (r: Result<(), SessionError>)
      requires Valid()
      modifies this`queuedReliableBytes, this`lastActivity
      modifies inner`outgoingHeap, inner`reliabilityWriteIndex, inner`splitIndex, inner.ordering`orderWrite
      ensures Valid() && inner.Rx() == old(inner.Rx())
      ensures match Refusal(state, pkt, channel, config.session.maxOrderingChannels)
              case Some(e) => r == Err(e) && inner.Tx() == old(inner.Tx()) && Status() == old(Status())
              case None =>
                && r == Ok(()) && Status() == old(Status()).(lastActivity := now)
                && inner.Tx() == if inner.registry.encode(pkt).Some?
                                 then AfterQueue(old(inner.Tx()), inner.registry.encode(pkt).value, rel, channel)
                                 else old(inner.Tx())
      ensures state == AfterOperation(config, old(state), Sends)
    {
      var refusal := RefuseAppPacket(pkt, channel);
      if refusal.Some? {
        return Err(refusal.value);
      }
      var added := inner.QueuePacket(pkt, rel, channel);
      ghost var tx, rx := inner.Tx(), inner.Rx();
      queuedReliableBytes := queuedReliableBytes + added;
      lastActivity := now;
      assert inner.Tx() == tx && inner.Rx() == rx;
      assert inner.ValidTx() && inner.ValidRx();
      r := Ok(());
    }

    /** The state checks of `queue_app_packet`. */
    method RefuseAppPacket(pkt: RaknetPacket, channel: byte) returns (e: Option<SessionError>)
      ensures e == Refusal(state, pkt, channel, config.session.maxOrderingChannels)
    {
      match state {
        case Closed =>
          return Some(SessionClosed);
        case Closing =>
          return Some(SessionClosed);
        case Unconnected =>
          if pkt.UserData? {
            return Some(InvalidState(state));
          }
        case OnlineHandshake =>
          if pkt.UserData? {
            return Some(InvalidState(state));
          }
        case Connected =>
          if IsUnconnectedPacket(pkt) {
            return Some(InvalidState(state));
          }
        case Stale =>
          if IsUnconnectedPacket(pkt) {
            return Some(InvalidState(state));
          }
      }
      if channel >= config.session.maxOrderingChannels {
        return Some(InvalidState(state));
      }
      e := None;
    }

    method QueueControlPacket(pkt: RaknetPacket, rel: Reliability, channel: byte)
      requires Valid()
      modifies this`queuedReliableBytes
      modifies inner`outgoingHeap, inner`reliabilityWriteIndex, inner`splitIndex, inner.ordering`orderWrite
      ensures Valid() && inner.Rx() == old(inner.Rx())
      ensures inner.Tx() == if channel < config.session.maxOrderingChannels && inner.registry.encode(pkt).Some?
                            then AfterQueue(old(inner.Tx()), inner.registry.encode(pkt).value, rel, channel)
                            else old(inner.Tx())
    {
      if channel >= config.session.maxOrderingChannels {
        return;
      }
      var added := inner.QueuePacket(pkt, rel, channel);
      queuedReliableBytes := queuedReliableBytes + added;
    }

    /** The client side of the handshake begins with a connection request. */
    method StartClientHandshake(serverGuid: nat, now: nat, secure: bool) returns (r: Result<(), SessionError>)
      requires Valid()
      modifies this`state, this`lastActivity, this`lastPongReceived, this`remoteGuid, this`queuedReliableBytes
      modifies inner`outgoingHeap, inner`reliabilityWriteIndex, inner`splitIndex, inner.ordering`orderWrite
      ensures Valid() && inner.Rx() == old(inner.Rx())
      ensures r == if old(state).Closed? then Err(SessionClosed)
                   else if config.role != Client then Err(InvalidState(old(state)))
                   else Ok(())
      ensures Status() == if r.Err? then old(Status())
                          else old(Status()).(state := OnlineHandshake, lastActivity := now, lastPongReceived := now,
                                              remoteGuid := Some(serverGuid))
      ensures inner.Tx() == AfterControl(old(inner.Tx()), config, inner.registry,
                                         if r.Err? then None
                                         else Some(Control(ConnectionRequest(config.guid, RaknetTime(now), secure),
                                                           Reliable)))
      ensures state == AfterOperation(config, old(state), Handshakes)
    {
      if state == Closed {
        return Err(SessionClosed);
      }
      if config.role != Client {
        return Err(InvalidState(state));
      }
      RequestConnection(serverGuid, now, secure);
      r := Ok(());
    }

    method RequestConnection(serverGuid: nat, now: nat, secure: bool)
      requires Valid()
      modifies this`state, this`lastActivity, this`lastPongReceived, this`remoteGuid, this`queuedReliableBytes
      modifies inner`outgoingHeap, inner`reliabilityWriteIndex, inner`splitIndex, inner.ordering`orderWrite
      ensures Valid() && inner.Rx() == old(inner.Rx())
      ensures Status() == old(Status()).(state := OnlineHandshake, lastActivity := now, lastPongReceived := now,
                                         remoteGuid := Some(serverGuid))
      ensures inner.Tx() == AfterControl(old(inner.Tx()), config, inner.registry,
                                         Some(Control(ConnectionRequest(config.guid, RaknetTime(now), secure),
                                                      Reliable)))
    {
      SetRemote(serverGuid);
      BeginHandshake(now);
      QueueControlPacket(ConnectionRequest(config.guid, RaknetTime(now), secure), Reliable, 0);
    }

    method SetRemote(guid: nat)
      requires Valid()
      modifies this`remoteGuid
      ensures Valid() && inner.Rx() == old(inner.Rx()) && inner.Tx() == old(inner.Tx())
      ensures Status() == old(Status()).(remoteGuid := Some(guid))
    {
      remoteGuid := Some(guid);
    }

    method SetState(newState: ConnectionState)
      requires Valid()
      modifies this`state
      ensures Valid() && inner.Rx() == old(inner.Rx()) && inner.Tx() == old(inner.Tx())
      ensures Status() == old(Status()).(state := newState)
    {
      state := newState;
    }

    method BeginHandshake(now: nat)
      requires Valid()
      modifies this`state, this`lastActivity, this`lastPongReceived
      ensures Valid() && inner.Rx() == old(inner.Rx()) && inner.Tx() == old(inner.Tx())
      ensures Status() == old(Status()).(state := OnlineHandshake, lastActivity := now, lastPongReceived := now)
    {
      state := OnlineHandshake;
      lastActivity, lastPongReceived := now, now;
    }

    /** A session that is not closed yet announces the reason and begins to close. */
    method SendDisconnect(reason: DisconnectReason) returns (r: Result<(), SessionError>)
      requires Valid()
      modifies this`state, this`lastDisconnectReason, this`queuedReliableBytes
      modifies inner`outgoingHeap, inner`reliabilityWriteIndex, inner`splitIndex, inner.ordering`orderWrite
      ensures Valid() && inner.Rx() == old(inner.Rx())
      ensures r == if old(state).Closed? then Err(SessionClosed) else Ok(())
      ensures Status() == if r.Err? then old(Status())
                          else old(Status()).(state := Closing, lastDisconnectReason := Some(reason))
      ensures inner.Tx() == AfterControl(old(inner.Tx()), config, inner.registry,
                                         if r.Err? then None else Some(Farewell(reason)))
      ensures state == AfterOperation(config, old(state), Disconnects)
    {
      if state == Closed {
        return Err(SessionClosed);
      }
      QueueControlPacket(DisconnectionNotification(reason), Reliable, 0);
      BeginClosing(reason);
      r := Ok(());
    }

    method BeginClosing(reason: DisconnectReason)
      requires Valid()
      modifies this`state, this`lastDisconnectReason
      ensures Valid() && inner.Tx() == old(inner.Tx()) && inner.Rx() == old(inner.Rx())
      ensures Status() == old(Status()).(state := Closing, lastDisconnectReason := Some(reason))
    {
      ghost var tx, rx := inner.Tx(), inner.Rx();
      state := Closing;
      lastDisconnectReason := Some(reason);
      assert inner.Tx() == tx && inner.Rx() == rx;
      assert inner.ValidTx() && inner.ValidRx();
    }

    // ----- control packets -----

    /** Dispatches on the kind of control packet; other packets are left to the application. */
    method HandleControlPacket(pkt: RaknetPacket, now: nat)
      requires Valid()
      modifies this`state, this`lastActivity, this`lastPongReceived, this`remoteGuid, this`lastDisconnectReason
      modifies this`currentPingNonce, this`queuedReliableBytes
      modifies inner`outgoingHeap, inner`reliabilityWriteIndex, inner`splitIndex, inner.ordering`orderWrite
      ensures Valid() && inner.Rx() == old(inner.Rx())
      ensures Status() == StatusAfter(config.role, old(Status()), pkt, now)
      ensures inner.Tx() ==
              AfterControl(old(inner.Tx()), config, inner.registry, Reply(config.role, pkt, RaknetTime(now)))
    {
      match pkt {
        case ConnectionRequest(clientGuid, timestamp, _) =>
          HandleConnectionRequest(pkt, clientGuid, timestamp, now);
        case ConnectionRequestAccepted(requestTimestamp, _) =>
          HandleConnectionRequestAccepted(pkt, requestTimestamp, now);
        case ConnectionRequestFailed =>
          HandleConnectionRequestFailed();
        case NewIncomingConnection(_, _) =>
          HandleNewIncomingConnection(now);
        case ConnectedPing(pingTime) =>
          HandleConnectedPing(pingTime, now);
        case ConnectedPong(pingTime, _) =>
          HandleConnectedPong(pingTime, now);
        case DisconnectionNotification(reason) =>
          HandleDisconnectionNotification(reason);
        case _ =>
          NoAnswer(config.role, Status(), pkt, now, RaknetTime(now));
      }
    }

    static lemma NoAnswer(role: SessionRole, st: Status, pkt: RaknetPacket, now: nat, time: nat)
      requires !pkt.ConnectionRequest? && !pkt.ConnectionRequestAccepted? && !pkt.ConnectionRequestFailed?
      requires !pkt.NewIncomingConnection? && !pkt.DisconnectionNotification?
      requires !pkt.ConnectedPing? && !pkt.ConnectedPong?
      ensures StatusAfter(role, st, pkt, now) == st && Reply(role, pkt, time) == None
    {
    }

    method HandleConnectionRequest(ghost pkt: RaknetPacket, clientGuid: nat, timestamp: nat, now: nat)
      requires Valid() && pkt.ConnectionRequest? && pkt.clientGuid == clientGuid && pkt.timestamp == timestamp
      modifies this`remoteGuid, this`state, this`lastActivity, this`lastPongReceived, this`queuedReliableBytes
      modifies inner`outgoingHeap, inner`reliabilityWriteIndex, inner`splitIndex, inner.ordering`orderWrite
      ensures Valid() && inner.Rx() == old(inner.Rx())
      ensures Status() == StatusAfter(config.role, old(Status()), pkt, now)
      ensures inner.Tx() ==
              AfterControl(old(inner.Tx()), config, inner.registry, Reply(config.role, pkt, RaknetTime(now)))
    {
      if config.role != Server {
        return;
      }
      SetRemote(clientGuid);
      BeginHandshake(now);
      QueueControlPacket(ConnectionRequestAccepted(timestamp, RaknetTime(now)), Unreliable, 0);
    }

    method HandleConnectionRequestAccepted(ghost pkt: RaknetPacket, requestTimestamp: nat, now: nat)
      requires Valid() && pkt.ConnectionRequestAccepted? && pkt.requestTimestamp == requestTimestamp
      modifies this`state, this`lastActivity, this`lastPongReceived, this`queuedReliableBytes
      modifies inner`outgoingHeap, inner`reliabilityWriteIndex, inner`splitIndex, inner.ordering`orderWrite
      ensures Valid() && inner.Rx() == old(inner.Rx())
      ensures Status() == StatusAfter(config.role, old(Status()), pkt, now)
      ensures inner.Tx() ==
              AfterControl(old(inner.Tx()), config, inner.registry, Reply(config.role, pkt, RaknetTime(now)))
    {
      if config.role != Client {
        return;
      }
      BeginHandshake(now);
      QueueControlPacket(NewIncomingConnection(RaknetTime(now), requestTimestamp), ReliableOrdered, 0);
      SetState(Connected);
    }

    method HandleConnectionRequestFailed()
      requires Valid()
      modifies this`state, this`lastDisconnectReason
      ensures Valid() && inner.Rx() == old(inner.Rx()) && inner.Tx() == old(inner.Tx())
      ensures Status() == StatusAfter(config.role, old(Status()), ConnectionRequestFailed, 0)
    {
      state, lastDisconnectReason := Closed, Some(FailedConnectionRequest);
    }

    method HandleNewIncomingConnection(now: nat)
      requires Valid()
      modifies this`state, this`lastActivity, this`lastPongReceived
      ensures Valid() && inner.Rx() == old(inner.Rx()) && inner.Tx() == old(inner.Tx())
      ensures Status() == old(Status()).(state := Connected, lastActivity := now, lastPongReceived := now)
    {
      state, lastActivity, lastPongReceived := Connected, now, now;
    }

    method HandleConnectedPing(pingTime: nat, now: nat)
      requires Valid()
      modifies this`lastActivity, this`queuedReliableBytes
      modifies inner`outgoingHeap, inner`reliabilityWriteIndex, inner`splitIndex, inner.ordering`orderWrite
      ensures Valid() && inner.Rx() == old(inner.Rx())
      ensures Status() == old(Status()).(lastActivity := now)
      ensures inner.Tx() == AfterControl(old(inner.Tx()), config, inner.registry,
                                         Some(Control(ConnectedPong(pingTime, RaknetTime(now)), Unreliable)))
    {
      lastActivity := now;
      assert inner.ValidTx() && inner.ValidRx();
      QueueControlPacket(ConnectedPong(pingTime, RaknetTime(now)), Unreliable, 0);
    }

    /** Only the answer to the outstanding ping allows the next one. */
    method HandleConnectedPong(pingTime: nat, now: nat)
      requires Valid()
      modifies this`lastActivity, this`lastPongReceived, this`currentPingNonce
      ensures Valid() && inner.Rx() == old(inner.Rx()) && inner.Tx() == old(inner.Tx())
      ensures Status() == old(Status()).(lastActivity := now, lastPongReceived := now,
                            currentPingNonce := if old(currentPingNonce) == Some(pingTime) then None
                                                else old(currentPingNonce))
    {
      lastActivity, lastPongReceived := now, now;
      if currentPingNonce == Some(pingTime) {
        currentPingNonce := None;
      }
    }

    method HandleDisconnectionNotification(reason: DisconnectReason)
      requires Valid()
      modifies this`state, this`lastDisconnectReason
      ensures Valid() && inner.Rx() == old(inner.Rx()) && inner.Tx() == old(inner.Tx())
      ensures Status() == old(Status()).(state := Closed, lastDisconnectReason := Some(reason))
    {
      state, lastDisconnectReason := Closed, Some(reason);
    }

    // ----- incoming datagrams -----

    /** A datagram's number is reported only if its whole payload was handled without error. */
    method HandleDatagram(d: Datagram, now: nat)
      returns (r: Result<seq<IncomingPacket>, SessionError>, ghost ready: seq<Encap>, ghost at: nat, ghost rxAt: Rx)
      requires Valid()
      modifies this, inner, inner.splitAssembler, inner.ordering, inner.outgoingAcks, inner.outgoingNaks
      ensures Valid()
      ensures old(state).Closed? ==>
                && r == Ok([]) && Status() == old(Status())
                && inner.Rx() == old(inner.Rx()) && inner.Tx() == old(inner.Tx())
      ensures !old(state).Closed? && d.payload.Frames? ==>
                && FramesHandled(old(inner.Tx()), old(inner.Rx()), d, now, inner.Rx(), r, ready, at, rxAt)
                && inner.Tx() ==
                  AfterReplies(AfterDecoding(old(inner.Tx()), inner.registry, ready), config, inner.registry,
                                              if r.Ok? then r.value else [], RaknetTime(now))
                && Status() ==
                  StatusAfterAll(config.role, Awake(old(Status()), now), if r.Ok? then r.value else [], now)
      ensures !old(state).Closed? && !d.payload.Frames? ==>
                r == Ok([]) && inner.Rx() == old(inner.Rx()) && Status() == Awake(old(Status()), now)
      ensures !old(state).Closed? && d.payload.Ack? ==>
                inner.Tx() == old(inner.Tx()).(acks := old(inner.incomingAcks) + d.payload.ackRanges)
      ensures !old(state).Closed? && d.payload.Nak? ==>
                inner.Tx() == old(inner.Tx()).(naks := old(inner.incomingNaks) + d.payload.nakRanges)
      ensures state == AfterOperation(config, old(state), Arrived(if r.Ok? then r.value else []))
    {
      r, ready, at, rxAt := Ok([]), [], 0, inner.Rx();
      if state == Closed {
        return;
      }
      ghost var st := Status();
      WakeUp(now);
      match d.payload {
        case Frames(packets) =>
          r, ready, at, rxAt := HandleFrames(d, now);
        case Ack(ranges) =>
          HandleAcks(ranges);
        case Nak(ranges) =>
          HandleNacks(ranges);
      }
      ArrivalIsOperation(config, st, if r.Ok? then r.value else [], now);
    }

    method WakeUp(now: nat)
      requires Valid()
      modifies this`state, this`lastActivity
      ensures Valid() && inner.Rx() == old(inner.Rx()) && inner.Tx() == old(inner.Tx())
      ensures Status() == Awake(old(Status()), now)
    {
      lastActivity := now;
      if state == Stale {
        state := Connected;
      }
    }

    method HandleAcks(ranges: seq<SequenceRange>)
      requires Valid()
      modifies inner`incomingAcks
      ensures Valid() && inner.Rx() == old(inner.Rx())
      ensures inner.Tx() == old(inner.Tx()).(acks := old(inner.incomingAcks) + ranges)
    {
      inner.HandleAckPayload(ranges);
      assert inner.ValidTx() && inner.ValidRx();
    }

    method HandleNacks(ranges: seq<SequenceRange>)
      requires Valid()
      modifies inner`incomingNaks
      ensures Valid() && inner.Rx() == old(inner.Rx())
      ensures inner.Tx() == old(inner.Tx()).(naks := old(inner.incomingNaks) + ranges)
    {
      inner.HandleNackPayload(ranges);
      assert inner.ValidTx() && inner.ValidRx();
    }

    /** What is returned for a data datagram: the packets decoded, or the assembler's or the decoder's error. */
    ghost predicate FramesHandled(tx: Tx, rx: Rx, d: Datagram, now: nat, rx': Rx,
                                  r: Result<seq<IncomingPacket>, SessionError>,
                                  ready: seq<Encap>, at: nat, rxAt: Rx)
      requires d.payload.Frames?
    {
      var st := DecodedFrom(tx, inner.registry, ready);
      && Received(rx, d, now, rx', ready, r.Ok?)
      && match r
         case Ok(pkts) => st.ok && pkts == st.out
         case Err(e) =>
           && e.ProtocolError?
           && if st.ok then Session.RefusedAt(rx, d.payload.packets, now, ready, at, rxAt, e.error)
              else e.error == BadPacket
    }

    method HandleFrames(d: Datagram, now: nat)
      returns (r: Result<seq<IncomingPacket>, SessionError>, ghost ready: seq<Encap>, ghost at: nat, ghost rxAt: Rx)
      requires Valid() && d.payload.Frames?
      modifies this, inner, inner.splitAssembler, inner.ordering, inner.outgoingAcks, inner.outgoingNaks
      ensures Valid()
      ensures FramesHandled(old(inner.Tx()), old(inner.Rx()), d, now, inner.Rx(), r, ready, at, rxAt)
      ensures inner.Tx() == AfterReplies(AfterDecoding(old(inner.Tx()), inner.registry, ready), config, inner.registry,
                                         if r.Ok? then r.value else [], RaknetTime(now))
      ensures Status() == StatusAfterAll(config.role, old(Status()), if r.Ok? then r.value else [], now)
    {
      r, ready, at, rxAt := HandlePayload(d, now);
      if r.Ok? {
        HandleControlPackets(r.value, now);
      }
    }

    /** The payload first, and its number only if that succeeded. */
    method HandlePayload(d: Datagram, now: nat)
      returns (r: Result<seq<IncomingPacket>, SessionError>, ghost ready: seq<Encap>, ghost at: nat, ghost rxAt: Rx)
      requires Valid() && d.payload.Frames?
      modifies inner`reliableTracker, inner`incomingAcks, inner`incomingNaks, inner`datagramReadIndex
      modifies inner.splitAssembler, inner.ordering`orderRead, inner.ordering`heaps, inner.outgoingAcks,
               inner.outgoingNaks
      ensures Valid()
      ensures FramesHandled(old(inner.Tx()), old(inner.Rx()), d, now, inner.Rx(), r, ready, at, rxAt)
      ensures inner.Tx() == AfterDecoding(old(inner.Tx()), inner.registry, ready)
    {
      ghost var tx, rx := inner.Tx(), inner.Rx();
      var handled;
      handled, ready, at, rxAt := inner.HandleDataPayload(d.payload.packets, now);
      ghost var tx1, rx1 := inner.Tx(), inner.Rx();
      assert tx1 == AfterDecoding(tx, inner.registry, ready);
      assert inner.ValidTx();
      if handled.Err? {
        ReceivedBy(rx, d, now, rx1, rx1, ready, false);
        r := Err(ProtocolError(handled.error));
      } else {
        NoteNumber(d.sequence);
        ReceivedBy(rx, d, now, rx1, inner.Rx(), ready, true);
        r := Ok(handled.value);
      }
    }

    method NoteNumber(s: Seq24)
      requires Valid()
      modifies inner`datagramReadIndex, inner.outgoingAcks, inner.outgoingNaks
      ensures Valid()
      ensures inner.Rx() == AfterArrival(old(inner.Rx()), s) && inner.Tx() == old(inner.Tx())
    {
      inner.ProcessDatagramSequence(s);
      assert inner.ValidTx() && inner.ValidRx();
    }

    static lemma ReceivedBy(rx: Rx, d: Datagram, now: nat, rx1: Rx, rx': Rx, ready: seq<Encap>, ok: bool)
      requires d.payload.Frames? && HandlesAll(rx, d.payload.packets, now, rx1, ready, ok)
      requires rx' == if ok then AfterArrival(rx1, d.sequence) else rx1
      ensures Received(rx, d, now, rx', ready, ok)
    {
    }

    method HandleControlPackets(pkts: seq<IncomingPacket>, now: nat)
      requires Valid()
      modifies this`state, this`lastActivity, this`lastPongReceived, this`remoteGuid, this`lastDisconnectReason
      modifies this`currentPingNonce, this`queuedReliableBytes
      modifies inner`outgoingHeap, inner`reliabilityWriteIndex, inner`splitIndex, inner.ordering`orderWrite
      ensures Valid() && inner.Rx() == old(inner.Rx())
      ensures Status() == StatusAfterAll(config.role, old(Status()), pkts, now)
      ensures inner.Tx() == AfterReplies(old(inner.Tx()), config, inner.registry, pkts, RaknetTime(now))
    {
      for i := 0 to |pkts|
        invariant Valid() && inner.Rx() == old(inner.Rx())
        invariant Status() == StatusAfterAll(config.role, old(Status()), pkts[..i], now)
        invariant inner.Tx() == AfterReplies(old(inner.Tx()), config, inner.registry, pkts[..i], RaknetTime(now))
      {
        OneMorePacket(old(inner.Tx()), config, inner.registry, old(Status()), pkts, i, now, RaknetTime(now));
        HandleControlPacket(pkts[i].pkt, now);
      }
      assert pkts[..|pkts|] == pkts;
    }

    // ----- outgoing datagrams -----

    method BuildDatagram(now: nat) returns (out: Option<Datagram>)
      requires Valid()
      modifies this`queuedReliableBytes, inner`outgoingHeap, inner`datagramWriteIndex, inner`sentDatagrams,
               inner`droppedBytes
      modifies inner.sliding
      ensures Valid()
      ensures BuildsCharging(old(inner.Tx()), old(inner.sliding.Model()), now, out, inner.Tx(), inner.sliding.Model())
      ensures state == AfterOperation(config, old(state), Sends)
    {
      out := inner.BuildDataDatagram(now);
      if out.None? {
        return;
      }
      if out.value.payload.Frames? {
        DebitReliableBytes(out.value.payload.packets);
      }
    }

    /** Takes the packets off the count; the count covers them, so nothing saturates. */
    method DebitReliableBytes(packets: seq<Encap>)
      requires queuedReliableBytes >= ReliableBytes(packets)
      modifies this`queuedReliableBytes
      ensures queuedReliableBytes == old(queuedReliableBytes) - ReliableBytes(packets)
    {
      for i := 0 to |packets|
        invariant queuedReliableBytes == old(queuedReliableBytes) - ReliableBytes(packets[..i])
      {
        assert packets[..i + 1][..i] == packets[..i];
        ReliableBytesOfPrefix(packets, i + 1);
        if packets[i].header.reliability.IsReliable() {
          var size := packets[i].Size();
          queuedReliableBytes := SaturatingSub(queuedReliableBytes, size);
        }
      }
      assert packets[..|packets|] == packets;
    }

    static lemma ReliableBytesOfPrefix(packets: seq<Encap>, i: nat)
      requires i <= |packets|
      ensures ReliableBytes(packets[..i]) <= ReliableBytes(packets)
    {
      ReliableBytesConcat(packets[..i], packets[i..]);
      assert packets[..i] + packets[i..] == packets;
    }

    /** The flush loop: build datagrams until none comes. It ends, because each takes packets off the heap. */
    method FlushData(now: nat) returns (out: seq<Datagram>)
      requires Valid()
      modifies this`queuedReliableBytes, inner`outgoingHeap, inner`datagramWriteIndex, inner`sentDatagrams,
               inner`droppedBytes
      modifies inner.sliding
      ensures Valid()
      ensures Flushes(old(inner.Tx()), old(inner.sliding.Model()), now, out, inner.Tx(), inner.sliding.Model())
      ensures BuildsCharging(inner.Tx(), inner.sliding.Model(), now, None, inner.Tx(), inner.sliding.Model())
      ensures forall d :: d in out ==> d.payload.Frames? && IPV4_HEADER_SIZE + UDP_HEADER_SIZE + d.Size() <= inner.mtu
      ensures state == AfterOperation(config, old(state), Sends)
    {
      out := [];
      ghost var tx0, w0 := inner.Tx(), inner.sliding.Model();
      while true
        invariant Valid()
        invariant Flushes(tx0, w0, now, out, inner.Tx(), inner.sliding.Model())
        invariant forall d :: d in out ==>
                  d.payload.Frames? && IPV4_HEADER_SIZE + UDP_HEADER_SIZE + d.Size() <= inner.mtu
        decreases |inner.outgoingHeap|
      {
        ghost var tx, w := inner.Tx(), inner.sliding.Model();
        var d := BuildDatagram(now);
        if d.None? {
          assert inner.Tx() == tx;
          break;
        }
        BuiltDatagramFits(tx, now, w.TransmissionBandwidth(), w.Rto(), inner.Tx(), d.value);
        FlushesMore(tx0, w0, now, out, tx, w, d.value, inner.Tx(), inner.sliding.Model());
        out := out + [d.value];
      }
    }

    // ----- the tick -----

    predicate ShouldSendPing(now: nat)
      reads this
    {
      PingDue(config, Status(), now)
    }

    method SendConnectedPing(now: nat)
      requires Valid()
      modifies this`lastPingSent, this`currentPingNonce, this`queuedReliableBytes
      modifies inner`outgoingHeap, inner`reliabilityWriteIndex, inner`splitIndex, inner.ordering`orderWrite
      ensures Valid() && inner.Rx() == old(inner.Rx())
      ensures Status() == old(Status()).(lastPingSent := Some(now), currentPingNonce := Some(RaknetTime(now)))
      ensures inner.Tx() == AfterControl(old(inner.Tx()), config, inner.registry,
                                         Some(Control(ConnectedPing(RaknetTime(now)), Unreliable)))
    {
      QueueControlPacket(ConnectedPing(RaknetTime(now)), Unreliable, 0);
      ghost var tx, rx := inner.Tx(), inner.Rx();
      lastPingSent := Some(now);
      currentPingNonce := Some(RaknetTime(now));
      assert inner.Tx() == tx && inner.Rx() == rx;
      assert inner.ValidTx() && inner.ValidRx();
    }

    /** Above the configured limit of queued reliable bytes the session is closed. */
    method EnforceQueueLimit()
      requires Valid()
      modifies this`state, this`lastDisconnectReason, this`queuedReliableBytes
      modifies inner`outgoingHeap, inner`reliabilityWriteIndex, inner`splitIndex, inner.ordering`orderWrite
      ensures Valid() && inner.Rx() == old(inner.Rx())
      ensures Status() == AfterLimitCheck(config, old(Status()), old(queuedReliableBytes))
      ensures inner.Tx() == TxAfterLimitCheck(config, inner.registry, old(inner.Tx()), old(Status()))
    {
      if config.maxQueuedReliableBytes.Some? {
        if queuedReliableBytes > config.maxQueuedReliableBytes.value {
          var _ := SendDisconnect(QueueTooLong);
          CloseFor(QueueTooLong);
        }
      }
    }

    method CloseFor(reason: DisconnectReason)
      requires Valid()
      modifies this`state, this`lastDisconnectReason
      ensures Valid() && inner.Rx() == old(inner.Rx()) && inner.Tx() == old(inner.Tx())
      ensures Status() == old(Status()).(state := Closed, lastDisconnectReason := Some(reason))
    {
      state := Closed;
      lastDisconnectReason := Some(reason);
    }

    /** Closes an idle connection or marks it stale. */
    method CheckIdle(now: nat)
      requires Valid()
      modifies this`state, this`lastDisconnectReason, this`queuedReliableBytes
      modifies inner`outgoingHeap, inner`reliabilityWriteIndex, inner`splitIndex, inner.ordering`orderWrite
      ensures Valid() && inner.Rx() == old(inner.Rx())
      ensures Status() == AfterIdleCheck(config, old(Status()), now)
      ensures inner.Tx() == TxAfterIdleCheck(config, inner.registry, old(inner.Tx()), old(Status()), now)
    {
      if IsConnected() {
        var idle := SaturatingSub(now, lastActivity);
        if idle >= config.sessionTimeout {
          var _ := SendDisconnect(TimedOut);
          CloseFor(TimedOut);
        } else if idle >= config.sessionStale {
          state := Stale;
          assert inner.ValidTx() && inner.ValidRx();
        }
      }
    }

    method CheckPing(now: nat)
      requires Valid()
      modifies this`lastPingSent, this`currentPingNonce, this`queuedReliableBytes
      modifies inner`outgoingHeap, inner`reliabilityWriteIndex, inner`splitIndex, inner.ordering`orderWrite
      ensures Valid() && inner.Rx() == old(inner.Rx())
      ensures Status() == AfterPingCheck(config, old(Status()), now, RaknetTime(now))
      ensures inner.Tx() ==
              TxAfterPingCheck(config, inner.registry, old(inner.Tx()), old(Status()), now, RaknetTime(now))
    {
      if ShouldSendPing(now) {
        SendConnectedPing(now);
      }
    }

    /** The tick before it reaches the session below. */
    method PrepareTick(now: nat) returns (ghost over: bool)
      requires Valid()
      modifies this`state, this`lastDisconnectReason, this`queuedReliableBytes, this`lastPingSent, this`currentPingNonce
      modifies inner`outgoingHeap, inner`reliabilityWriteIndex, inner`splitIndex, inner.ordering`orderWrite
      ensures Valid() && inner.Rx() == old(inner.Rx())
      ensures (inner.Tx(), Status()) ==
              Prepared(config, inner.registry, old(inner.Tx()), old(Status()), now, RaknetTime(now))
      ensures state == Closed || !OverLimit(config, queuedReliableBytes)
      ensures state == AfterOperation(config, old(state), Ticked(Idle(old(Status()), now), over))
    {
      PreparedIsWithinLimit(config, inner.registry, inner.Tx(), Status(), now, RaknetTime(now));
      over := TickIsOperation(config, inner.registry, inner.Tx(), Status(), now, RaknetTime(now));
      CheckIdle(now);
      ghost var tx1, rx1, st1 := inner.Tx(), inner.Rx(), Status();
      CheckPing(now);
      assert inner.Rx() == rx1;
      assert (inner.Tx(), Status()) == (TxAfterPingCheck(config, inner.registry, tx1, st1, now, RaknetTime(now)),
                                        AfterPingCheck(config, st1, now, RaknetTime(now)));
      EnforceQueueLimit();
    }

    /** The checks of this level, then the tick of the session below: the whole new state. */
    method OnTick(now: nat)
      returns (out: seq<Datagram>, ghost ids: seq<u16>, ghost ackSent: seq<SequenceRange>,
               ghost nakSent: seq<SequenceRange>, ghost over: bool)
      requires Valid()
      modifies this`state, this`lastDisconnectReason, this`queuedReliableBytes, this`lastPingSent, this`currentPingNonce
      modifies inner, inner.sliding, inner.splitAssembler, inner.ordering, inner.outgoingAcks, inner.outgoingNaks
      ensures Valid()
      ensures var (tx, st) := Prepared(config, inner.registry, old(inner.Tx()), old(Status()), now, RaknetTime(now));
              && Status() == st
              && SessionTicked(tx, old(inner.sliding.Model()), now, out, ackSent, nakSent, inner.Tx(),
                               inner.sliding.Model())
      ensures TicksRx(inner.mtu, old(inner.Rx()), now, inner.Rx(), ids, ackSent, nakSent)
      ensures state == Closed || !OverLimit(config, queuedReliableBytes)
      ensures state == AfterOperation(config, old(state), Ticked(Idle(old(Status()), now), over))
    {
      ghost var rx, w := inner.Rx(), inner.sliding.Model();
      over := PrepareTick(now);
      out, ids, ackSent, nakSent := TickSession(now, inner.Tx(), rx, w, Status());
    }

    /** What the tick of a session does to its sending half and its window, and what it sends. */
    static ghost predicate SessionTicked(tx: Tx, w: Window, now: nat, out: seq<Datagram>,
                                         ackSent: seq<SequenceRange>, nakSent: seq<SequenceRange>, tx': Tx, w': Window)
    {
      match tx'
      case Tx(_, _, _, _, _, _, _, _, _, _, _, _) =>
        && w.Sane() && Numbered(tx.base, tx.slots)
        && var settled, backedOff := SettledTx(tx, now), BeforeResends(w, tx, now);
           && tx' == AfterResends(settled, now, backedOff.Rto())
           && w' == Resending(backedOff, DueDatagrams(settled.slots, now) != [], tx.dgramWrite)
           && out == DueDatagrams(settled.slots, now) + AckDatagram(ackSent) + NakDatagram(nakSent)
    }

    method TickSession(now: nat, ghost tx: Tx, ghost rx: Rx, ghost w: Window, ghost st: Status)
      returns (out: seq<Datagram>, ghost ids: seq<u16>, ghost ackSent: seq<SequenceRange>,
               ghost nakSent: seq<SequenceRange>)
      requires Valid() && Status() == st
      requires inner.Tx() == tx && inner.Rx() == rx && inner.sliding.Model() == w
      modifies inner`incomingAcks, inner`incomingNaks, inner`sentDatagrams, inner`sentDatagramsBase, inner`droppedBytes
      modifies inner.sliding, inner.splitAssembler, inner.ordering, inner.outgoingAcks, inner.outgoingNaks
      ensures Valid() && Status() == st
      ensures SessionTicked(tx, w, now, out, ackSent, nakSent, inner.Tx(), inner.sliding.Model())
      ensures TicksRx(inner.mtu, rx, now, inner.Rx(), ids, ackSent, nakSent)
    {
      ghost var rto;
      out, rto, ids, ackSent, nakSent := inner.OnTick(now);
      assert inner.ValidTx() && inner.ValidRx();
    }
  }
}
