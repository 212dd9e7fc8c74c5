/**
 The life of a connection (raknet/src/session/manager.rs, manager/control.rs, manager/tick.rs): what control
 packets and ticks make of a managed session's fields, and what that means over whole runs.
*/
module Lifecycle {
  import opened Wrappers
  import opened Protocol
  import opened Packets
  import opened Sending
  import opened Receiving
  import opened Sessions

  datatype ConnectionState = Unconnected | OnlineHandshake | Connected | Stale | Closing | Closed

  datatype SessionError = SessionClosed | InvalidState(state: ConnectionState) | ProtocolError(error: DecodeError)

  datatype SessionRole = Client | Server

  datatype Config = Config(
    role: SessionRole,
    guid: nat,
    sessionStale: nat,
    sessionTimeout: nat,
    pingInterval: nat,
    maxQueuedReliableBytes: Option<nat>,
    session: Tunables)

  /** The fields of a managed session that are not about queued bytes. */
  datatype Status = Status(
    state: ConnectionState,
    lastActivity: nat,
    lastPongReceived: nat,
    lastPingSent: Option<nat>,
    currentPingNonce: Option<nat>,
    remoteGuid: Option<nat>,
    lastDisconnectReason: Option<DisconnectReason>)

  predicate IsUnconnectedPacket(pkt: RaknetPacket) {
    pkt.UnconnectedPing? || pkt.UnconnectedPong? || pkt.UnconnectedPingOpenConnections?
  }

  predicate IsLive(state: ConnectionState) {
    state.Connected? || state.Stale?
  }

  /** Why an application packet is refused, if it is. */
  function Refusal(state: ConnectionState, pkt: RaknetPacket, channel: byte, maxChannels: nat): Option<SessionError> {
    if state.Closed? || state.Closing? then Some(SessionClosed)
    else if (state.Unconnected? || state.OnlineHandshake?) && pkt.UserData? then Some(InvalidState(state))
    else if IsLive(state) && IsUnconnectedPacket(pkt) then Some(InvalidState(state))
    else if channel >= maxChannels then Some(InvalidState(state))
    else None
  }

  // ----- control packets -----

  /** The connection state after a control packet. */
  function StateAfter(role: SessionRole, state: ConnectionState, pkt: RaknetPacket): ConnectionState {
    match pkt
    case ConnectionRequest(_, _, _) => if role.Server? then OnlineHandshake else state
    case ConnectionRequestAccepted(_, _) => if role.Client? then Connected else state
    case ConnectionRequestFailed => Closed
    case NewIncomingConnection(_, _) => Connected
    case DisconnectionNotification(_) => Closed
    case _ => state
  }

  /** The packet belongs to the handshake as seen from this side. */
  predicate Greets(role: SessionRole, pkt: RaknetPacket) {
    || (pkt.ConnectionRequest? && role.Server?)
    || (pkt.ConnectionRequestAccepted? && role.Client?)
    || pkt.NewIncomingConnection?
  }

  /** All the fields after a control packet. */
  function StatusAfter(role: SessionRole, st: Status, pkt: RaknetPacket, now: nat): Status {
    var pongs := Greets(role, pkt) || pkt.ConnectedPong?;
    st.(state := StateAfter(role, st.state, pkt),
        lastActivity := if pongs || pkt.ConnectedPing? then now else st.lastActivity,
        lastPongReceived := if pongs then now else st.lastPongReceived,
        currentPingNonce := if pkt.ConnectedPong? && st.currentPingNonce == Some(pkt.pingTime) then None
                            else st.currentPingNonce,
        remoteGuid := if pkt.ConnectionRequest? && role.Server? then Some(pkt.clientGuid) else st.remoteGuid,
        lastDisconnectReason := if pkt.ConnectionRequestFailed? then Some(FailedConnectionRequest)
                                else if pkt.DisconnectionNotification? then Some(pkt.reason)
                                else st.lastDisconnectReason)
  }

  function StatusAfterAll(role: SessionRole, st: Status, pkts: seq<IncomingPacket>, now: nat): Status {
    if pkts == [] then st
    else StatusAfter(role, StatusAfterAll(role, st, pkts[..|pkts| - 1], now), pkts[|pkts| - 1].pkt, now)
  }

  /** Any datagram wakes a session up. */
  function Awake(st: Status, now: nat): Status {
    st.(lastActivity := now, state := if st.state.Stale? then Connected else st.state)
  }

  datatype Control = Control(pkt: RaknetPacket, reliability: Reliability)

  /** What a control packet is answered with, at RakNet time `time`. */
  function Reply(role: SessionRole, pkt: RaknetPacket, time: nat): Option<Control> {
    match pkt
    case ConnectionRequest(_, requested, _) =>
      if role.Server? then Some(Control(ConnectionRequestAccepted(requested, time), Unreliable)) else None
    case ConnectionRequestAccepted(requested, _) =>
      if role.Client? then Some(Control(NewIncomingConnection(time, requested), ReliableOrdered)) else None
    case ConnectedPing(pingTime) => Some(Control(ConnectedPong(pingTime, time), Unreliable))
    case _ => None
  }

  /** The sending state after a control packet is queued on channel 0. */
  function AfterControl(tx: Tx, config: Config, registry: Registry, control: Option<Control>): Tx {
    if control.Some? && config.session.maxOrderingChannels > 0 && registry.encode(control.value.pkt).Some?
    then AfterQueue(tx, registry.encode(control.value.pkt).value, control.value.reliability, 0)
    else tx
  }

  function AfterReplies(tx: Tx, config: Config, registry: Registry, pkts: seq<IncomingPacket>, time: nat): Tx {
    if pkts == [] then tx
    else AfterControl(AfterReplies(tx, config, registry, pkts[..|pkts| - 1], time), config, registry,
                      Reply(config.role, pkts[|pkts| - 1].pkt, time))
  }

  /** What decoding the packets passed on gives, besides the embedded ACKs and NACKs. */
  function DecodedFrom(tx: Tx, registry: Registry, ready: seq<Encap>): Stream {
    Decodes(Stream([], tx.acks, tx.naks, true), registry, ready)
  }

  /** Embedded ACKs and NACKs are noted. */
  function AfterDecoding(tx: Tx, registry: Registry, ready: seq<Encap>): Tx {
    tx.(acks := DecodedFrom(tx, registry, ready).acks, naks := DecodedFrom(tx, registry, ready).naks)
  }

  /** One more packet of a datagram: the status it leaves and the reply it gets. */
  lemma OneMorePacket(tx: Tx, config: Config, registry: Registry, st: Status, pkts: seq<IncomingPacket>, i: nat,
                      now: nat, time: nat)
    requires i < |pkts|
    ensures StatusAfterAll(config.role, st, pkts[..i + 1], now) ==
            StatusAfter(config.role, StatusAfterAll(config.role, st, pkts[..i], now), pkts[i].pkt, now)
    ensures AfterReplies(tx, config, registry, pkts[..i + 1], time) ==
            AfterControl(AfterReplies(tx, config, registry, pkts[..i], time), config, registry,
                         Reply(config.role, pkts[i].pkt, time))
  {
    assert pkts[..i + 1][..i] == pkts[..i];
  }

  // ----- the tick -----

  function Idle(st: Status, now: nat): nat {
    SaturatingSub(now, st.lastActivity)
  }

  predicate TimesOut(config: Config, st: Status, now: nat) {
    IsLive(st.state) && Idle(st, now) >= config.sessionTimeout
  }

  function AfterIdleCheck(config: Config, st: Status, now: nat): Status {
    if TimesOut(config, st, now) then st.(state := Closed, lastDisconnectReason := Some(TimedOut))
    else if IsLive(st.state) && Idle(st, now) >= config.sessionStale then st.(state := Stale)
    else st
  }

  predicate PingDue(config: Config, st: Status, now: nat) {
    && IsLive(st.state)
    && st.currentPingNonce.None?
    && (st.lastPingSent.None? || SaturatingSub(now, st.lastPingSent.value) >= config.pingInterval)
  }

  function AfterPingCheck(config: Config, st: Status, now: nat, time: nat): Status {
    if PingDue(config, st, now) then st.(lastPingSent := Some(now), currentPingNonce := Some(time)) else st
  }

  predicate OverLimit(config: Config, queued: nat) {
    config.maxQueuedReliableBytes.Some? && queued > config.maxQueuedReliableBytes.value
  }

  function AfterLimitCheck(config: Config, st: Status, queued: nat): Status {
    if OverLimit(config, queued) then st.(state := Closed, lastDisconnectReason := Some(QueueTooLong)) else st
  }

  function Farewell(reason: DisconnectReason): Control {
    Control(DisconnectionNotification(reason), Reliable)
  }

  /** What the idle check queues. */
  function TxAfterIdleCheck(config: Config, registry: Registry, tx: Tx, st: Status, now: nat): Tx {
    AfterControl(tx, config, registry, if TimesOut(config, st, now) then Some(Farewell(TimedOut)) else None)
  }

  function TxAfterPingCheck(config: Config, registry: Registry, tx: Tx, st: Status, now: nat, time: nat): Tx {
    AfterControl(tx, config, registry,
                 if PingDue(config, st, now) then Some(Control(ConnectedPing(time), Unreliable)) else None)
  }

  function TxAfterLimitCheck(config: Config, registry: Registry, tx: Tx, st: Status): Tx {
    AfterControl(tx, config, registry,
                 if OverLimit(config, ReliableBytes(tx.heap)) && !st.state.Closed? then Some(Farewell(QueueTooLong))
                 else None)
  }

  /** The tick before it reaches the session below: the fields and what has been queued. */
  function Prepared(config: Config, registry: Registry, tx: Tx, st: Status, now: nat, time: nat): (Tx, Status) {
    var tx1, st1 := TxAfterIdleCheck(config, registry, tx, st, now), AfterIdleCheck(config, st, now);
    var tx2, st2 := TxAfterPingCheck(config, registry, tx1, st1, now, time), AfterPingCheck(config, st1, now, time);
    (TxAfterLimitCheck(config, registry, tx2, st2), AfterLimitCheck(config, st2, ReliableBytes(tx2.heap)))
  }

  /** After a tick the session is closed, or its queued reliable bytes are within the limit. */
  lemma PreparedIsWithinLimit(config: Config, registry: Registry, tx: Tx, st: Status, now: nat, time: nat)
    ensures var (tx', st') := Prepared(config, registry, tx, st, now, time);
            st'.state == Closed || !OverLimit(config, ReliableBytes(tx'.heap))
  {
  }

  // ----- which control packets decide -----

  predicate Closes(pkt: RaknetPacket) {
    pkt.ConnectionRequestFailed? || pkt.DisconnectionNotification?
  }

  predicate Opens(role: SessionRole, pkt: RaknetPacket) {
    pkt.NewIncomingConnection? || (pkt.ConnectionRequestAccepted? && role.Client?)
  }

  predicate Decides(role: SessionRole, pkt: RaknetPacket) {
    Closes(pkt) || Greets(role, pkt)
  }

  predicate NoneDecidesFrom(role: SessionRole, pkts: seq<IncomingPacket>, k: nat) {
    forall j :: k <= j < |pkts| ==> !Decides(role, pkts[j].pkt)
  }

  /** Packet `k` is the last that decides. */
  predicate LastDecides(role: SessionRole, pkts: seq<IncomingPacket>, k: nat) {
    k < |pkts| && Decides(role, pkts[k].pkt) && NoneDecidesFrom(role, pkts, k + 1)
  }

  function StateAfterAll(role: SessionRole, state: ConnectionState, pkts: seq<IncomingPacket>): ConnectionState {
    if pkts == [] then state
    else StateAfter(role, StateAfterAll(role, state, pkts[..|pkts| - 1]), pkts[|pkts| - 1].pkt)
  }

  lemma {:induction false} StatesOfStatuses(role: SessionRole, st: Status, pkts: seq<IncomingPacket>, now: nat)
    ensures StatusAfterAll(role, st, pkts, now).state == StateAfterAll(role, st.state, pkts)
  {
    if pkts != [] {
      StatesOfStatuses(role, st, pkts[..|pkts| - 1], now);
    }
  }

  /** The last deciding packet alone fixes the state, whatever it was before; without one it stays. */
  lemma {:induction false} LastDecidingPacketWins(role: SessionRole, state: ConnectionState, pkts: seq<IncomingPacket>)
    returns (k: nat)
    ensures if NoneDecidesFrom(role, pkts, 0) then StateAfterAll(role, state, pkts) == state
            else LastDecides(role, pkts, k) &&
                 StateAfterAll(role, state, pkts) ==
                 if Closes(pkts[k].pkt) then Closed else if Opens(role, pkts[k].pkt) then Connected else OnlineHandshake
  {
    k := 0;
    if pkts != [] {
      var init, last := pkts[..|pkts| - 1], pkts[|pkts| - 1];
      if Decides(role, last.pkt) {
        k := |init|;
      } else {
        k := LastDecidingPacketWins(role, state, init);
        assert forall j :: 0 <= j < |init| ==> pkts[j] == init[j];
      }
    }
  }

  /** A closing packet with no handshake packet after it. */
  predicate ClosedFrom(role: SessionRole, pkts: seq<IncomingPacket>, k: nat) {
    k < |pkts| && Closes(pkts[k].pkt) && forall j :: k < j < |pkts| ==> !Greets(role, pkts[j].pkt)
  }

  predicate NoneGreets(role: SessionRole, pkts: seq<IncomingPacket>) {
    forall j :: 0 <= j < |pkts| ==> !Greets(role, pkts[j].pkt)
  }

  lemma ClosedFromOneMore(role: SessionRole, init: seq<IncomingPacket>, last: IncomingPacket, k: nat)
    ensures k < |init| ==>
              (ClosedFrom(role, init + [last], k) <==> ClosedFrom(role, init, k) && !Greets(role, last.pkt))
    ensures ClosedFrom(role, init + [last], |init|) <==> Closes(last.pkt)
  {
    var pkts := init + [last];
    assert pkts[|init|] == last && forall j :: 0 <= j < |init| ==> pkts[j] == init[j];
  }

  lemma NoneGreetsOneMore(role: SessionRole, init: seq<IncomingPacket>, last: IncomingPacket)
    ensures NoneGreets(role, init + [last]) <==> NoneGreets(role, init) && !Greets(role, last.pkt)
  {
    var pkts := init + [last];
    assert pkts[|init|] == last && forall j :: 0 <= j < |init| ==> pkts[j] == init[j];
  }

  lemma SomeClosedOneMore(role: SessionRole, init: seq<IncomingPacket>, last: IncomingPacket)
    ensures (exists k: nat :: ClosedFrom(role, init + [last], k)) <==>
            Closes(last.pkt) || ((exists k: nat :: ClosedFrom(role, init, k)) && !Greets(role, last.pkt))
  {
    ClosedFromOneMore(role, init, last, |init|);
    if k: nat :| ClosedFrom(role, init + [last], k) {
      ClosedFromOneMore(role, init, last, k);
      assert k == |init| || ClosedFrom(role, init, k);
    }
    if k: nat :| ClosedFrom(role, init, k) {
      ClosedFromOneMore(role, init, last, k);
      assert Greets(role, last.pkt) || ClosedFrom(role, init + [last], k);
    }
  }

  /** The packets of one datagram leave the connection closed exactly when one of them closes it and no handshake
      packet follows, or it was closed and none is a handshake packet. */
  lemma {:induction false} ClosedAfterAll(role: SessionRole, state: ConnectionState, pkts: seq<IncomingPacket>)
    ensures StateAfterAll(role, state, pkts) == Closed <==>
            (exists k: nat :: ClosedFrom(role, pkts, k)) || (state == Closed && NoneGreets(role, pkts))
  {
    if pkts != [] {
      var init, last := pkts[..|pkts| - 1], pkts[|pkts| - 1];
      assert pkts == init + [last];
      ClosedAfterAll(role, state, init);
      SomeClosedOneMore(role, init, last);
      NoneGreetsOneMore(role, init, last);
    }
  }

  /** So a connection closed in the middle of a datagram can be open again at its end. */
  lemma ReopenedInOneDatagram(role: SessionRole, reliability: Reliability)
    ensures var pkts := [IncomingPacket(DisconnectionNotification(ClosedByRemotePeer), reliability, None),
                         IncomingPacket(NewIncomingConnection(0, 0), reliability, None)];
            StateAfterAll(role, Connected, pkts) == Connected && StateAfterAll(role, Connected, pkts[..1]) == Closed
  {
    var pkts := [IncomingPacket(DisconnectionNotification(ClosedByRemotePeer), reliability, None),
                 IncomingPacket(NewIncomingConnection(0, 0), reliability, None)];
    assert pkts[..1][..0] == [];
    assert StateAfterAll(role, Connected, pkts[..1]) == Closed;
  }

  // ----- runs -----

  /** What can happen to the connection state; the packets of a datagram that failed or of a report are none. */
  datatype Operation =
    | Arrived(pkts: seq<IncomingPacket>)
    | Ticked(idle: nat, over: bool)
    | Disconnects
    | Handshakes
    | Sends

  function AfterOperation(config: Config, state: ConnectionState, op: Operation): ConnectionState {
    match op
    case Arrived(pkts) =>
      if state.Closed? then state
      else StateAfterAll(config.role, if state.Stale? then Connected else state, pkts)
    case Ticked(idle, over) =>
      if over || (IsLive(state) && idle >= config.sessionTimeout) then Closed
      else if IsLive(state) && idle >= config.sessionStale then Stale
      else state
    case Disconnects => if state.Closed? then state else Closing
    case Handshakes => if !state.Closed? && config.role.Client? then OnlineHandshake else state
    case Sends => state
  }

  function StateAt(config: Config, ops: seq<Operation>): ConnectionState {
    if ops == [] then Unconnected
    else AfterOperation(config, StateAt(config, ops[..|ops| - 1]), ops[|ops| - 1])
  }

  /** A prepared tick moves the state as the operation does. */
  lemma TickIsOperation(config: Config, registry: Registry, tx: Tx, st: Status, now: nat, time: nat)
    returns (over: bool)
    ensures Prepared(config, registry, tx, st, now, time).1.state ==
            AfterOperation(config, st.state, Ticked(Idle(st, now), over))
  {
    var tx1, st1 := TxAfterIdleCheck(config, registry, tx, st, now), AfterIdleCheck(config, st, now);
    var tx2 := TxAfterPingCheck(config, registry, tx1, st1, now, time);
    over := OverLimit(config, ReliableBytes(tx2.heap));
  }

  /** A datagram moves the state as the operation with the packets it passes on. */
  lemma ArrivalIsOperation(config: Config, st: Status, pkts: seq<IncomingPacket>, now: nat)
    requires !st.state.Closed?
    ensures StatusAfterAll(config.role, Awake(st, now), pkts, now).state ==
            AfterOperation(config, st.state, Arrived(pkts))
  {
    StatesOfStatuses(config.role, Awake(st, now), pkts, now);
  }

  /** A session that is not live becomes live exactly by a datagram whose last deciding packet opens it. */
  lemma BecomesLive(config: Config, state: ConnectionState, op: Operation)
    requires !IsLive(state)
    ensures IsLive(AfterOperation(config, state, op)) <==>
            && op.Arrived? && !state.Closed?
            && exists k: nat :: LastDecides(config.role, op.pkts, k) && Opens(config.role, op.pkts[k].pkt)
  {
    if op.Arrived? && !state.Closed? {
      var k := LastDecidingPacketWins(config.role, state, op.pkts);
      if j: nat :| LastDecides(config.role, op.pkts, j) && Opens(config.role, op.pkts[j].pkt) {
        assert !NoneDecidesFrom(config.role, op.pkts, 0);
        LastIsUnique(config.role, op.pkts, j, k);
      }
    }
  }

  lemma LastIsUnique(role: SessionRole, pkts: seq<IncomingPacket>, j: nat, k: nat)
    requires LastDecides(role, pkts, j) && LastDecides(role, pkts, k)
    ensures j == k
  {
  }

  /** Between operations a closed session is closed for good. */
  lemma {:induction false} ClosedIsFinal(config: Config, ops: seq<Operation>, i: nat)
    requires i <= |ops| && StateAt(config, ops[..i]) == Closed
    ensures StateAt(config, ops) == Closed
    decreases |ops|
  {
    if i == |ops| {
      assert ops[..i] == ops;
    } else {
      var init := ops[..|ops| - 1];
      assert init[..i] == ops[..i];
      ClosedIsFinal(config, init, i);
    }
  }

  predicate OpenedAt(config: Config, ops: seq<Operation>, i: nat) {
    i < |ops| && ops[i].Arrived? && exists k :: 0 <= k < |ops[i].pkts| && Opens(config.role, ops[i].pkts[k].pkt)
  }

  /** In every run a live session has received a packet that opens connections on its side. */
  lemma {:induction false} LiveWasOpened(config: Config, ops: seq<Operation>) returns (i: nat)
    requires IsLive(StateAt(config, ops))
    ensures OpenedAt(config, ops, i)
  {
    var init := ops[..|ops| - 1];
    var before := StateAt(config, init);
    if IsLive(before) {
      i := LiveWasOpened(config, init);
      assert ops[i] == init[i];
    } else {
      BecomesLive(config, before, ops[|ops| - 1]);
      i := |init|;
    }
  }
}
