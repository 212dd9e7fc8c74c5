/**
 The history of a sender: the messages queued so far, each with the sending state it met.
 It fixes which packets can ever be on the wire, and what each channel must deliver.
*/
module History {
  import opened Sequence24
  import opened Wrappers
  import opened Protocol
  import opened Split
  import opened Sending

  datatype Message = Message(before: Tx, payload: Bytes, reliability: Reliability, channel: byte)

  function Packets(m: Message): seq<Encap> {
    NewEncaps(m.before, m.payload, m.reliability, m.channel)
  }

  predicate IsFragmented(m: Message) {
    ChunksFor(m.before.mtu, m.payload, m.reliability).Some?
  }

  function Position(m: Message): Option<Seq24> {
    OrderIndex(m.before, m.reliability, m.channel)
  }

  /** The payloads queued in order on channel `c`. */
  function Queued(msgs: seq<Message>, c: byte): seq<Bytes> {
    if msgs == [] then []
    else
      var last := msgs[|msgs| - 1];
      Queued(msgs[..|msgs| - 1], c) +
      if last.reliability.IsOrdered() && last.channel == c then [last.payload] else []
  }

  function FragmentedCount(msgs: seq<Message>): nat {
    if msgs == [] then 0
    else FragmentedCount(msgs[..|msgs| - 1]) + if IsFragmented(msgs[|msgs| - 1]) then 1 else 0
  }

  /** Fewer than 2^24 ordered messages a channel and at most 2^16 fragmented messages, each below 4 GiB. */
  ghost predicate Bounded(msgs: seq<Message>) {
    && (forall c: byte :: |Queued(msgs, c)| < MODULO)
    && FragmentedCount(msgs) <= 0x1_0000
    && (forall k :: 0 <= k < |msgs| ==> |msgs[k].payload| < 0x1_0000_0000)
  }

  /** The counters of a sending state that has queued `msgs`. */
  ghost predicate Counts(tx: Tx, msgs: seq<Message>) {
    && (forall c: byte :: c < |tx.orderWrite| ==> tx.orderWrite[c] == |Queued(msgs, c)|)
    && tx.splitIndex == CastU16(FragmentedCount(msgs))
  }

  ghost predicate CountedAt(msgs: seq<Message>, k: nat)
    requires k < |msgs|
  {
    && Counts(msgs[k].before, msgs[..k])
    && msgs[k].channel < |msgs[k].before.orderWrite|
    && !msgs[k].reliability.IsSequenced()
  }

  ghost predicate Consistent(msgs: seq<Message>) {
    Bounded(msgs) && forall k :: 0 <= k < |msgs| ==> CountedAt(msgs, k)
  }

  ghost predicate PacketOf(e: Encap, msgs: seq<Message>, k: nat) {
    k < |msgs| && e in Packets(msgs[k])
  }

  ghost predicate FromHistory(e: Encap, msgs: seq<Message>) {
    exists k: nat :: PacketOf(e, msgs, k)
  }

  /** What a fragmented message looks like to the assembler. */
  function FragmentsOf(m: Message): Fragmented
    requires IsFragmented(m)
  {
    var order := OrderIndex(m.before, NormalizedForSplit(m.reliability), m.channel);
    Fragmented(m.before.splitIndex, NormalizedForSplit(m.reliability), None, order, ChannelOf(order, m.channel),
               ChunksFor(m.before.mtu, m.payload, m.reliability).value)
  }

  /** A whole packet that carries message `k`. */
  ghost predicate Carried(e: Encap, msgs: seq<Message>, k: nat) {
    && k < |msgs|
    && !e.header.isSplit
    && e.header.reliability.IsOrdered() == msgs[k].reliability.IsOrdered()
    && e.orderingIndex == Position(msgs[k])
    && e.orderingChannel == ChannelOf(Position(msgs[k]), msgs[k].channel)
    && e.payload == msgs[k].payload
  }

  ghost predicate Genuine(e: Encap, msgs: seq<Message>) {
    exists k: nat :: Carried(e, msgs, k)
  }

  // ----- facts about histories -----

  lemma {:induction false} QueuedPrefix(msgs: seq<Message>, k: nat, c: byte)
    requires k <= |msgs|
    ensures Queued(msgs[..k], c) <= Queued(msgs, c)
    ensures FragmentedCount(msgs[..k]) <= FragmentedCount(msgs)
    decreases |msgs|
  {
    if k < |msgs| {
      QueuedPrefix(msgs[..|msgs| - 1], k, c);
      assert msgs[..|msgs| - 1][..k] == msgs[..k];
    } else {
      assert msgs[..k] == msgs;
    }
  }

  /** An ordered message sits in its channel's queue at its position. */
  lemma QueuedAt(msgs: seq<Message>, k: nat)
    requires Consistent(msgs) && k < |msgs| && msgs[k].reliability.IsOrdered()
    ensures Position(msgs[k]).Some?
    ensures var i := Position(msgs[k]).value;
            i < |Queued(msgs, msgs[k].channel)| && Queued(msgs, msgs[k].channel)[i] == msgs[k].payload
  {
    assert CountedAt(msgs, k);
    var c := msgs[k].channel;
    QueuedPrefix(msgs, k + 1, c);
    assert msgs[..k + 1][..k] == msgs[..k];
  }

  lemma SplitIdsDistinct(msgs: seq<Message>, j: nat, k: nat)
    requires Consistent(msgs) && j < k < |msgs|
    requires IsFragmented(msgs[j]) && IsFragmented(msgs[k])
    ensures msgs[j].before.splitIndex != msgs[k].before.splitIndex
  {
    assert CountedAt(msgs, j) && CountedAt(msgs, k);
    CountGrows(msgs, j);
    CountGrows(msgs, k);
    assert FragmentedCount(msgs[..j + 1]) <= FragmentedCount(msgs[..k]) by {
      QueuedPrefix(msgs[..k], j + 1, 0);
      assert msgs[..k][..j + 1] == msgs[..j + 1];
    }
  }

  lemma CountGrows(msgs: seq<Message>, k: nat)
    requires k < |msgs| && IsFragmented(msgs[k])
    ensures FragmentedCount(msgs[..k]) < FragmentedCount(msgs[..k + 1]) <= FragmentedCount(msgs)
  {
    var upTo := msgs[..k + 1];
    assert upTo[..|upTo| - 1] == msgs[..k] && upTo[|upTo| - 1] == msgs[k];
    assert FragmentedCount(upTo) == FragmentedCount(msgs[..k]) + 1;
    QueuedPrefix(msgs, k + 1, 0);
  }

  /** Every packet of an unfragmented message carries it whole. */
  lemma SingleCarries(msgs: seq<Message>, k: nat, e: Encap)
    requires k < |msgs| && !IsFragmented(msgs[k]) && e in Packets(msgs[k])
    ensures Carried(e, msgs, k)
  {
  }

  /** Every packet of a fragmented message is one of its fragments. */
  lemma FragmentOfMessage(msgs: seq<Message>, k: nat, e: Encap) returns (i: nat)
    requires Consistent(msgs) && k < |msgs| && IsFragmented(msgs[k]) && e in Packets(msgs[k])
    ensures IsFragment(e, FragmentsOf(msgs[k]), i)
  {
    var m := msgs[k];
    var chunks := FragmentsOf(m).chunks;
    i :| 0 <= i < |chunks| && e == FragmentEncap(m.before, NormalizedForSplit(m.reliability), m.channel, chunks, i);
    ChunksNumber(m.payload, AtLeastOne(MaxPayloadLen(m.before.mtu, NormalizedForSplit(m.reliability), true)));
  }

  lemma {:induction false} ChunksNumber(payload: Bytes, maxLen: nat)
    requires maxLen >= 1
    ensures 1 <= |Chunks(payload, maxLen)| <= |payload| + 1
    ensures payload != [] ==> |Chunks(payload, maxLen)| <= |payload|
  {
    if |payload| > maxLen {
      ChunksNumber(payload[maxLen..], maxLen);
    }
  }

  /** The whole that reassembly yields carries the message. */
  lemma WholeCarries(msgs: seq<Message>, k: nat, e: Encap)
    requires k < |msgs| && IsFragmented(msgs[k]) && IsWhole(e, FragmentsOf(msgs[k]))
    ensures Carried(e, msgs, k)
  {
    var m := msgs[k];
    ChunksJoin(m.payload, AtLeastOne(MaxPayloadLen(m.before.mtu, NormalizedForSplit(m.reliability), true)));
  }

  // ----- queueing extends the history -----

  lemma QueueExtends(tx: Tx, msgs: seq<Message>, payload: Bytes, rel: Reliability, channel: byte)
    requires Consistent(msgs) && Counts(tx, msgs)
    requires channel < |tx.orderWrite| && !rel.IsSequenced()
    requires Bounded(msgs + [Message(tx, payload, rel, channel)])
    ensures Consistent(msgs + [Message(tx, payload, rel, channel)])
    ensures Counts(AfterQueue(tx, payload, rel, channel), msgs + [Message(tx, payload, rel, channel)])
  {
    var m := Message(tx, payload, rel, channel);
    var msgs' := msgs + [m];
    var tx' := AfterQueue(tx, payload, rel, channel);
    assert msgs'[..|msgs|] == msgs;
    forall k | 0 <= k < |msgs'|
      ensures CountedAt(msgs', k)
    {
      assert msgs'[..k] == msgs[..k];
      if k < |msgs| {
        assert CountedAt(msgs, k);
      }
    }
    forall c: byte | c < |tx'.orderWrite|
      ensures tx'.orderWrite[c] == |Queued(msgs', c)|
    {
      assert |Queued(msgs', c)| < MODULO;
    }
  }

  lemma HistoryGrows(msgs: seq<Message>, m: Message)
    ensures forall e :: FromHistory(e, msgs) ==> FromHistory(e, msgs + [m])
    ensures forall e :: Genuine(e, msgs) ==> Genuine(e, msgs + [m])
    ensures forall e :: e in Packets(m) ==> FromHistory(e, msgs + [m])
    ensures forall c: byte :: Queued(msgs, c) <= Queued(msgs + [m], c)
  {
    var msgs' := msgs + [m];
    forall e | FromHistory(e, msgs)
      ensures FromHistory(e, msgs')
    {
      var k: nat :| PacketOf(e, msgs, k);
      assert PacketOf(e, msgs', k);
    }
    forall e | Genuine(e, msgs)
      ensures Genuine(e, msgs')
    {
      var k: nat :| Carried(e, msgs, k);
      assert Carried(e, msgs', k);
    }
    forall e | e in Packets(m)
      ensures FromHistory(e, msgs')
    {
      assert PacketOf(e, msgs', |msgs|);
    }
    assert msgs'[..|msgs|] == msgs;
  }

  // ----- every packet belongs to one message -----

  /** All packets queued, with their multiplicities. */
  function AllPackets(msgs: seq<Message>): multiset<Encap> {
    if msgs == [] then multiset{} else AllPackets(msgs[..|msgs| - 1]) + multiset(Packets(msgs[|msgs| - 1]))
  }

  lemma AllPacketsMore(msgs: seq<Message>, m: Message)
    ensures AllPackets(msgs + [m]) == AllPackets(msgs) + multiset(Packets(m))
  {
    assert (msgs + [m])[..|msgs|] == msgs;
  }

  /** Fragments and ordered packets tell which message they belong to. */
  predicate Telling(e: Encap) {
    e.header.isSplit || e.header.reliability.IsOrdered()
  }

  ghost predicate OrderedOn(msgs: seq<Message>, k: nat, c: byte) {
    k < |msgs| && msgs[k].reliability.IsOrdered() && msgs[k].channel == c
  }

  /** Later messages of a channel have later positions. */
  lemma PositionsAscend(msgs: seq<Message>, j: nat, k: nat, c: byte)
    requires Consistent(msgs) && j < k && OrderedOn(msgs, j, c) && OrderedOn(msgs, k, c)
    ensures Position(msgs[j]).Some? && Position(msgs[k]).Some?
    ensures Position(msgs[j]).value < Position(msgs[k]).value < |Queued(msgs, c)|
  {
    PositionInQueue(msgs, j, c);
    PositionInQueue(msgs, k, c);
    QueueGrowsPast(msgs, j, k, c);
    QueuedAt(msgs, k);
  }

  lemma PositionInQueue(msgs: seq<Message>, k: nat, c: byte)
    requires Consistent(msgs) && OrderedOn(msgs, k, c)
    ensures |Queued(msgs[..k], c)| < MODULO && Position(msgs[k]) == Some(|Queued(msgs[..k], c)|)
  {
    assert CountedAt(msgs, k);
    QueuedPrefix(msgs, k, c);
  }

  lemma QueueGrowsPast(msgs: seq<Message>, j: nat, k: nat, c: byte)
    requires j < k <= |msgs| && OrderedOn(msgs, j, c)
    ensures |Queued(msgs[..j], c)| < |Queued(msgs[..k], c)|
  {
    QueuedPrefix(msgs[..k], j + 1, c);
    assert msgs[..k][..j + 1] == msgs[..j + 1] && msgs[..j + 1][..j] == msgs[..j];
  }

  lemma SinglePacket(m: Message, e: Encap)
    requires !IsFragmented(m) && e in Packets(m)
    ensures Packets(m) == [e] && !e.header.isSplit && e.header.reliability == m.reliability
    ensures e.orderingIndex == Position(m) && e.orderingChannel == ChannelOf(Position(m), m.channel)
  {
  }

  lemma FragmentPacket(msgs: seq<Message>, k: nat, e: Encap) returns (i: nat)
    requires Consistent(msgs) && k < |msgs| && IsFragmented(msgs[k]) && e in Packets(msgs[k])
    ensures IsFragment(e, FragmentsOf(msgs[k]), i) && |Packets(msgs[k])| == |FragmentsOf(msgs[k]).chunks|
    ensures i < |Packets(msgs[k])| && Packets(msgs[k])[i] == e
    ensures e.header.reliability.IsOrdered() == msgs[k].reliability.IsOrdered()
  {
    var p :| 0 <= p < |Packets(msgs[k])| && Packets(msgs[k])[p] == e;
    i := FragmentOfMessage(msgs, k, e);
    FragmentAt(msgs, k, p);
  }

  /** The packet at place `i` of a fragmented message is its fragment `i`. */
  lemma FragmentAt(msgs: seq<Message>, k: nat, i: nat)
    requires Consistent(msgs) && k < |msgs| && IsFragmented(msgs[k]) && i < |Packets(msgs[k])|
    ensures |Packets(msgs[k])| == |FragmentsOf(msgs[k]).chunks|
    ensures IsFragment(Packets(msgs[k])[i], FragmentsOf(msgs[k]), i)
  {
    var m := msgs[k];
    ChunksNumber(m.payload, AtLeastOne(MaxPayloadLen(m.before.mtu, NormalizedForSplit(m.reliability), true)));
    assert |m.payload| < 0x1_0000_0000;
  }

  /** A telling packet has one owner. */
  lemma OneOwner(msgs: seq<Message>, j: nat, k: nat, e: Encap)
    requires Consistent(msgs) && Telling(e)
    requires PacketOf(e, msgs, j) && PacketOf(e, msgs, k)
    ensures j == k
  {
    if j < k {
      OwnersDiffer(msgs, j, k, e);
    } else if k < j {
      OwnersDiffer(msgs, k, j, e);
    }
  }

  lemma OwnersDiffer(msgs: seq<Message>, j: nat, k: nat, e: Encap)
    requires Consistent(msgs) && Telling(e) && j < k && PacketOf(e, msgs, j)
    ensures !PacketOf(e, msgs, k)
  {
    if PacketOf(e, msgs, k) {
      if IsFragmented(msgs[j]) {
        var i := FragmentPacket(msgs, j, e);
        if IsFragmented(msgs[k]) {
          var p := FragmentPacket(msgs, k, e);
          SplitIdsDistinct(msgs, j, k);
        } else {
          SinglePacket(msgs[k], e);
        }
      } else {
        SinglePacket(msgs[j], e);
        SingleOwner(msgs, j, k, e);
      }
    }
  }

  lemma SingleOwner(msgs: seq<Message>, j: nat, k: nat, e: Encap)
    requires Consistent(msgs) && Telling(e) && j < k && PacketOf(e, msgs, j) && PacketOf(e, msgs, k)
    ensures IsFragmented(msgs[j])
  {
    if !IsFragmented(msgs[j]) {
      SinglePacket(msgs[j], e);
      if IsFragmented(msgs[k]) {
        var p := FragmentPacket(msgs, k, e);
      } else {
        SinglePacket(msgs[k], e);
        assert CountedAt(msgs, j) && CountedAt(msgs, k);
        PositionsAscend(msgs, j, k, msgs[j].channel);
      }
    }
  }

  // ----- each telling packet is queued once -----

  lemma {:induction false} InAllPackets(msgs: seq<Message>, n: nat, e: Encap)
    requires n <= |msgs|
    ensures e in AllPackets(msgs[..n]) <==> exists k: nat :: k < n && PacketOf(e, msgs, k)
  {
    if n > 0 {
      var j := n - 1;
      InAllPackets(msgs, j, e);
      assert msgs[..n][..j] == msgs[..j];
      if k: nat :| k < n && PacketOf(e, msgs, k) {
        assert k < j || k == j;
      }
      if e in Packets(msgs[j]) {
        assert PacketOf(e, msgs, j);
      }
    }
  }

  /** The packets of one message are distinct. */
  lemma PacketsDistinct(msgs: seq<Message>, k: nat, e: Encap)
    requires Consistent(msgs) && k < |msgs|
    ensures multiset(Packets(msgs[k]))[e] <= 1
  {
    var packets := Packets(msgs[k]);
    if IsFragmented(msgs[k]) {
      forall i, j | 0 <= i < j < |packets|
        ensures packets[i] != packets[j]
      {
        FragmentAt(msgs, k, i);
        FragmentAt(msgs, k, j);
      }
      DistinctOnce(packets, e);
    }
  }

  lemma {:induction false} DistinctOnce<T>(s: seq<T>, e: T)
    requires forall i, j :: 0 <= i < j < |s| ==> s[i] != s[j]
    ensures multiset(s)[e] <= 1
  {
    if s != [] {
      var init := s[..|s| - 1];
      DistinctOnce(init, e);
      assert s == init + [s[|s| - 1]];
    }
  }

  lemma {:induction false} QueuedOnce(msgs: seq<Message>, n: nat, e: Encap)
    requires Consistent(msgs) && Telling(e) && n <= |msgs|
    ensures AllPackets(msgs[..n])[e] <= 1
  {
    if n > 0 {
      var j := n - 1;
      QueuedOnce(msgs, j, e);
      assert msgs[..n][..j] == msgs[..j];
      PacketsDistinct(msgs, j, e);
      NotQueuedBefore(msgs, j, e);
    }
  }

  lemma NotQueuedBefore(msgs: seq<Message>, j: nat, e: Encap)
    requires Consistent(msgs) && Telling(e) && j < |msgs|
    ensures e !in Packets(msgs[j]) || AllPackets(msgs[..j])[e] == 0
  {
    if e in Packets(msgs[j]) {
      assert PacketOf(e, msgs, j);
      InAllPackets(msgs, j, e);
      forall k: nat | k < j
        ensures !PacketOf(e, msgs, k)
      {
        if PacketOf(e, msgs, k) {
          OneOwner(msgs, k, j, e);
        }
      }
    }
  }
}
