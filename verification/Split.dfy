/** Fragmentation and reassembly (raknet/src/session/outbound.rs, split_assembler.rs). */
module Split {
  import opened Sequence24
  import opened Wrappers
  import opened Protocol
  import opened Sequences

  // ----- fragmentation -----

  /** The pieces of at most `maxLen` bytes a payload is cut into. */
  function Chunks(payload: Bytes, maxLen: nat): seq<Bytes>
    requires maxLen >= 1
  {
    if |payload| <= maxLen then [payload]
    else [payload[..maxLen]] + Chunks(payload[maxLen..], maxLen)
  }

  /** The pieces fit the limit, are not empty, and join to the payload. */
  lemma {:induction false} ChunksJoin(payload: Bytes, maxLen: nat)
    requires maxLen >= 1 && payload != []
    ensures Concat(Chunks(payload, maxLen)) == payload
    ensures forall i :: 0 <= i < |Chunks(payload, maxLen)| ==> 1 <= |Chunks(payload, maxLen)[i]| <= maxLen
  {
    if |payload| <= maxLen {
      assert [payload][..0] == [];
    } else {
      var rest := payload[maxLen..];
      ChunksJoin(rest, maxLen);
      ConcatFront(payload[..maxLen], Chunks(rest, maxLen));
      assert payload == payload[..maxLen] + rest;
    }
  }

  /** There are as many pieces as the sender announces. */
  lemma {:induction false} ChunksCount(payload: Bytes, maxLen: nat)
    requires maxLen >= 1 && payload != []
    ensures |Chunks(payload, maxLen)| == (|payload| - 1) / maxLen + 1
  {
    if |payload| <= maxLen {
      QuotientUnique(|payload| - 1, maxLen, 0, |payload| - 1);
    } else {
      ChunksCount(payload[maxLen..], maxLen);
      var rest := |payload| - maxLen - 1;
      QuotientUnique(|payload| - 1, maxLen, rest / maxLen + 1, rest % maxLen);
    }
  }

  lemma QuotientUnique(a: nat, d: nat, q: nat, r: nat)
    requires r < d && a == q * d + r
    ensures a / d == q
  {
    var q', r' := a / d, a % d;
    assert (q - q') * d == r' - r && (q' - q) * d == r - r';
    if q - q' >= 1 {
      MultipleAtLeast(q - q', d);
    } else if q' - q >= 1 {
      MultipleAtLeast(q' - q, d);
    }
  }

  lemma MultipleAtLeast(k: nat, d: nat)
    requires k >= 1
    ensures k * d >= d
  {
  }

  // ----- specification of the assembler -----

  datatype SplitEntry = SplitEntry(
    reliability: Reliability,
    reliableIndex: Option<Seq24>,
    sequenceIndex: Option<Seq24>,
    orderingIndex: Option<Seq24>,
    orderingChannel: Option<byte>,
    needsBas: bool,
    parts: seq<Option<Bytes>>,
    received: nat,
    lastUpdate: nat)

  type Entries = map<u16, SplitEntry>

  datatype Limits = Limits(maxParts: nat, maxConcurrent: nat)

  function NewEntry(pkt: Encap, count: nat, now: nat): SplitEntry {
    SplitEntry(pkt.header.reliability, pkt.reliableIndex, pkt.sequenceIndex, pkt.orderingIndex, pkt.orderingChannel,
               pkt.header.needsBas, seq(count, _ => None), 0, now)
  }

  /** The joined parts, if none is missing. */
  function Joined(parts: seq<Option<Bytes>>): Option<Bytes> {
    if parts == [] then Some([])
    else if parts[|parts| - 1].None? then None
    else
      match Joined(parts[..|parts| - 1])
      case None => None
      case Some(front) => Some(front + parts[|parts| - 1].value)
  }

  function Assembled(entry: SplitEntry, payload: Bytes): Encap {
    Encap(Header(entry.reliability, false, entry.needsBas), BitLengthOf(payload), entry.reliableIndex,
          entry.sequenceIndex, entry.orderingIndex, entry.orderingChannel, None, payload)
  }

  type Outcome = Result<Option<Encap>, DecodeError>

  /** The entries and the outcome of offering one packet. */
  function Added(entries: Entries, limits: Limits, pkt: Encap, now: nat): (Entries, Outcome) {
    if !pkt.header.isSplit then (entries, Ok(Some(pkt)))
    else if pkt.split.None? then (entries, Err(MissingSplitInfo))
    else
      var split := pkt.split.value;
      if split.count > limits.maxParts then (entries, Err(SplitTooLarge))
      else if |entries| >= limits.maxConcurrent && split.id !in entries then (entries, Err(SplitBufferFull))
      else
        var entry := if split.id in entries then entries[split.id] else NewEntry(pkt, split.count, now);
        AddedTo(entries[split.id := entry], entry, split, pkt.payload, now)
  }

  function AddedTo(entries: Entries, entry: SplitEntry, split: SplitInfo, payload: Bytes, now: nat)
    : (Entries, Outcome)
  {
    if |entry.parts| != split.count then (entries, Err(SplitCountMismatch))
    else if split.index >= |entry.parts| then (entries, Err(SplitIndexOutOfRange))
    else if entry.parts[split.index].Some? then (entries, Ok(None))
    else
      var filled := entry.(parts := entry.parts[split.index := Some(payload)],
                           received := entry.received + 1, lastUpdate := now);
      var entries' := entries[split.id := filled];
      if filled.received != |filled.parts| then (entries', Ok(None))
      else
        match Joined(filled.parts)
        case None => (entries', Err(SplitCountMismatch))
        case Some(joined) => (entries' - {split.id}, Ok(Some(Assembled(filled, joined))))
  }

  function Position(entry: SplitEntry): (Option<byte>, Option<Seq24>) {
    (entry.orderingChannel, entry.orderingIndex)
  }

  function Expired(entries: Entries, ttl: nat, now: nat): set<u16> {
    set id | id in entries && SaturatingSub(now, entries[id].lastUpdate) >= ttl
  }

  // ----- the assembler object -----

  class SplitAssembler {
    var entries: Entries
    const ttl: nat
    const limits: Limits

    ghost predicate Valid()
      reads this
    {
      Sound(entries, limits)
    }

    constructor (ttl: nat, maxParts: nat, maxConcurrent: nat)
      ensures Valid() && entries == map[]
      ensures this.ttl == if ttl == 0 then 30_000 else ttl
      ensures limits == Limits(maxParts, maxConcurrent)
    {
      this.ttl := if ttl == 0 then 30_000 else ttl;
      this.limits := Limits(maxParts, maxConcurrent);
      entries := map[];
    }

    method Add(pkt: Encap, now: nat) returns (r: Outcome)
      requires Valid()
      modifies this
      ensures Valid()
      ensures (entries, r) == Added(old(entries), limits, pkt, now)
    {
      AddedKeepsSound(entries, limits, pkt, now);
      if !pkt.header.isSplit {
        return Ok(Some(pkt));
      }
      if pkt.split.None? {
        return Err(MissingSplitInfo);
      }
      var split := pkt.split.value;
      if split.count > limits.maxParts {
        return Err(SplitTooLarge);
      }
      if |entries| >= limits.maxConcurrent && split.id !in entries {
        return Err(SplitBufferFull);
      }
      if split.id !in entries {
        entries := entries[split.id := NewEntry(pkt, split.count, now)];
      } else {
        assert entries[split.id := entries[split.id]] == entries;
      }
      var entry := entries[split.id];
      if |entry.parts| != split.count {
        return Err(SplitCountMismatch);
      }
      if split.index >= |entry.parts| {
        return Err(SplitIndexOutOfRange);
      }
      if entry.parts[split.index].Some? {
        return Ok(None);
      }
      entry := entry.(parts := entry.parts[split.index := Some(pkt.payload)]);
      entry := entry.(received := entry.received + 1);
      entry := entry.(lastUpdate := now);
      entries := entries[split.id := entry];
      if entry.received != |entry.parts| {
        return Ok(None);
      }
      var payload := Join(entry.parts);
      if payload.None? {
        return Err(SplitCountMismatch);
      }
      entries := entries - {split.id};
      r := Ok(Some(Assembled(entry, payload.value)));
    }

    static method Join(parts: seq<Option<Bytes>>) returns (r: Option<Bytes>)
      ensures r == Joined(parts)
    {
      var buf := [];
      for i := 0 to |parts|
        invariant Joined(parts[..i]) == Some(buf)
      {
        assert parts[..i + 1][..i] == parts[..i];
        if parts[i].None? {
          JoinedFails(parts, i);
          return None;
        }
        buf := buf + parts[i].value;
      }
      assert parts[..|parts|] == parts;
      r := Some(buf);
    }

    /** Drops the expired entries, in whatever order the map yields them. */
    method Prune(now: nat) returns (dropped: seq<(Option<byte>, Option<Seq24>)>, ghost ids: seq<u16>)
      requires Valid()
      modifies this
      ensures Valid()
      ensures entries == old(entries) - Expired(old(entries), ttl, now)
      ensures Enumerates(ids, Expired(old(entries), ttl, now))
      ensures |dropped| == |ids|
      ensures forall i :: 0 <= i < |ids| ==> ids[i] in old(entries) && dropped[i] == Position(old(entries)[ids[i]])
    {
      dropped, ids := [], [];
      ghost var before, gone := entries, Expired(entries, ttl, now);
      var todo := entries.Keys;
      while todo != {}
        invariant todo <= before.Keys
        invariant forall id :: id in entries <==> id in before && (id in todo || id !in gone)
        invariant forall id :: id in entries ==> entries[id] == before[id]
        invariant Enumerates(ids, gone - todo)
        invariant |dropped| == |ids|
        invariant forall i :: 0 <= i < |ids| ==> ids[i] in before && dropped[i] == Position(before[ids[i]])
        decreases todo
      {
        var id :| id in todo;
        var entry := entries[id];
        if SaturatingSub(now, entry.lastUpdate) >= ttl {
          dropped := dropped + [Position(entry)];
          EnumeratesMore(ids, gone - todo, id);
          assert gone - (todo - {id}) == (gone - todo) + {id};
          ids := ids + [id];
          entries := entries - {id};
        } else {
          assert gone - (todo - {id}) == gone - todo;
        }
        todo := todo - {id};
      }
      assert gone - todo == gone;
      assert entries == before - gone;
      RemovalKeepsSound(before, limits, gone);
    }
  }

  /** `ids` lists the members of `s`, each once. */
  ghost predicate Enumerates(ids: seq<u16>, s: set<u16>) {
    && (forall id :: id in ids <==> id in s)
    && (forall i, j :: 0 <= i < j < |ids| ==> ids[i] != ids[j])
  }

  lemma EnumeratesMore(ids: seq<u16>, s: set<u16>, id: u16)
    requires Enumerates(ids, s) && id !in s
    ensures Enumerates(ids + [id], s + {id})
  {
    forall i | 0 <= i < |ids|
      ensures ids[i] != id
    {
      assert ids[i] in ids;
    }
  }

  lemma {:induction false} JoinedFails(parts: seq<Option<Bytes>>, i: nat)
    requires i < |parts| && parts[i].None?
    ensures Joined(parts) == None
  {
    if i < |parts| - 1 {
      JoinedFails(parts[..|parts| - 1], i);
    }
  }

  // ----- bookkeeping -----

  function Filled(parts: seq<Option<Bytes>>): nat {
    if parts == [] then 0
    else Filled(parts[..|parts| - 1]) + if parts[|parts| - 1].Some? then 1 else 0
  }

  ghost predicate SoundEntry(entry: SplitEntry) {
    && entry.received == Filled(entry.parts)
    && (entry.parts != [] ==> entry.received < |entry.parts|)
  }

  /** Every counter is the number of filled slots, no complete entry is kept, and the limits hold. */
  ghost predicate Sound(entries: Entries, limits: Limits) {
    && (forall id :: id in entries ==> SoundEntry(entries[id]) && |entries[id].parts| <= limits.maxParts)
    && |entries| <= limits.maxConcurrent
  }

  lemma {:induction false} FilledBounds(parts: seq<Option<Bytes>>)
    ensures Filled(parts) <= |parts|
    ensures Filled(parts) == |parts| <==> forall i :: 0 <= i < |parts| ==> parts[i].Some?
  {
    if parts != [] {
      FilledBounds(parts[..|parts| - 1]);
    }
  }

  lemma {:induction false} FillingOne(parts: seq<Option<Bytes>>, i: nat, b: Bytes)
    requires i < |parts| && parts[i].None?
    ensures Filled(parts[i := Some(b)]) == Filled(parts) + 1
  {
    var init := parts[..|parts| - 1];
    if i < |init| {
      FillingOne(init, i, b);
      assert parts[i := Some(b)][..|parts| - 1] == init[i := Some(b)];
    } else {
      assert parts[i := Some(b)][..|parts| - 1] == init;
    }
  }

  lemma {:induction false} NothingFilled(count: nat)
    ensures Filled(seq(count, _ => None)) == 0
  {
    if count > 0 {
      NothingFilled(count - 1);
      var parts: seq<Option<Bytes>> := seq(count, _ => None);
      assert parts[..count - 1] == seq(count - 1, _ => None);
    }
  }

  lemma {:induction false} JoinedSucceeds(parts: seq<Option<Bytes>>)
    requires forall i :: 0 <= i < |parts| ==> parts[i].Some?
    ensures Joined(parts) == Some(Concat(seq(|parts|, i requires 0 <= i < |parts| => parts[i].value)))
  {
    if parts != [] {
      var n := |parts|;
      var init := parts[..n - 1];
      JoinedSucceeds(init);
      var values := seq(n, i requires 0 <= i < n => parts[i].value);
      assert values[..n - 1] == seq(n - 1, i requires 0 <= i < n - 1 => init[i].value);
    }
  }

  lemma UpdateKeepsSound(entries: Entries, limits: Limits, id: u16, entry: SplitEntry)
    requires Sound(entries, limits)
    requires SoundEntry(entry) && |entry.parts| <= limits.maxParts
    requires id in entries || |entries| < limits.maxConcurrent
    ensures Sound(entries[id := entry], limits)
  {
    assert entries[id := entry].Keys == entries.Keys + {id};
  }

  lemma RemovalKeepsSound(entries: Entries, limits: Limits, gone: set<u16>)
    requires Sound(entries, limits)
    ensures Sound(entries - gone, limits)
  {
    assert (entries - gone).Keys == entries.Keys - gone;
    assert |entries.Keys - gone| <= |entries.Keys|;
    assert |(entries - gone).Keys| == |entries - gone|;
  }

  /** Filling a free slot of a sound entry either completes it, and then it joins, or leaves it sound. */
  lemma FillKeepsSound(entry: SplitEntry, i: nat, b: Bytes, now: nat)
    requires SoundEntry(entry) && i < |entry.parts| && entry.parts[i].None?
    ensures var filled := entry.(parts := entry.parts[i := Some(b)], received := entry.received + 1, lastUpdate := now);
            if filled.received == |filled.parts| then Joined(filled.parts).Some? else SoundEntry(filled)
  {
    var parts := entry.parts[i := Some(b)];
    FillingOne(entry.parts, i, b);
    FilledBounds(parts);
    if Filled(parts) == |parts| {
      JoinedSucceeds(parts);
    }
  }

  /** Any packet keeps the bookkeeping sound; the join of a full entry never fails, so a count mismatch
      is only ever reported when the announced counts differ. */
  lemma AddedKeepsSound(entries: Entries, limits: Limits, pkt: Encap, now: nat)
    requires Sound(entries, limits)
    ensures Sound(Added(entries, limits, pkt, now).0, limits)
    ensures Added(entries, limits, pkt, now).1 == Err(SplitCountMismatch) ==>
              pkt.split.Some? && pkt.split.value.id in entries
              && |entries[pkt.split.value.id].parts| != pkt.split.value.count
  {
    if pkt.header.isSplit && pkt.split.Some? && pkt.split.value.count <= limits.maxParts
       && (pkt.split.value.id in entries || |entries| < limits.maxConcurrent)
    {
      var split := pkt.split.value;
      var entry := if split.id in entries then entries[split.id] else NewEntry(pkt, split.count, now);
      NothingFilled(split.count);
      UpdateKeepsSound(entries, limits, split.id, entry);
      AddedToKeepsSound(entries[split.id := entry], limits, entry, split, pkt.payload, now);
    }
  }

  lemma AddedToKeepsSound(entries: Entries, limits: Limits, entry: SplitEntry, split: SplitInfo, payload: Bytes,
                          now: nat)
    requires Sound(entries, limits) && split.id in entries && entries[split.id] == entry
    ensures Sound(AddedTo(entries, entry, split, payload, now).0, limits)
    ensures AddedTo(entries, entry, split, payload, now).1 == Err(SplitCountMismatch) ==> |entry.parts| != split.count
  {
    if |entry.parts| == split.count && split.index < |entry.parts| && entry.parts[split.index].None? {
      FillKeepsSound(entry, split.index, payload, now);
      var filled := entry.(parts := entry.parts[split.index := Some(payload)],
                           received := entry.received + 1, lastUpdate := now);
      if filled.received == |filled.parts| {
        assert entries[split.id := filled] - {split.id} == entries - {split.id};
        RemovalKeepsSound(entries, limits, {split.id});
      } else {
        UpdateKeepsSound(entries, limits, split.id, filled);
      }
    }
  }

  // ----- reassembly undoes fragmentation under any schedule -----

  /** A fragmented message: what all its fragments share, and the pieces. */
  datatype Fragmented = Fragmented(id: u16, reliability: Reliability, sequenceIndex: Option<Seq24>,
                                   orderingIndex: Option<Seq24>, orderingChannel: Option<byte>, chunks: seq<Bytes>)

  ghost predicate IsFragment(e: Encap, f: Fragmented, i: nat) {
    && i < |f.chunks|
    && e.header.isSplit
    && e.header.reliability == f.reliability
    && e.sequenceIndex == f.sequenceIndex
    && e.orderingIndex == f.orderingIndex
    && e.orderingChannel == f.orderingChannel
    && e.split.Some?
    && e.split.value.count == |f.chunks|
    && e.split.value.id == f.id
    && e.split.value.index == i
    && e.payload == f.chunks[i]
  }

  predicate Carries(e: Encap, id: u16) {
    e.header.isSplit && e.split.Some? && e.split.value.id == id
  }

  /** Whatever carries the split id of `f` is one of its fragments; anything else is arbitrary. */
  ghost predicate Conforms(e: Encap, f: Fragmented) {
    Carries(e, f.id) ==> IsFragment(e, f, e.split.value.index)
  }

  /** The unsplit packet the message stands for. */
  ghost predicate IsWhole(e: Encap, f: Fragmented) {
    && !e.header.isSplit
    && e.header.reliability == f.reliability
    && e.sequenceIndex == f.sequenceIndex
    && e.orderingIndex == f.orderingIndex
    && e.orderingChannel == f.orderingChannel
    && e.split == None
    && e.payload == Concat(f.chunks)
  }

  /** The entry belongs to `f`, and its filled slots are `seen`. */
  ghost predicate EntryOf(entry: SplitEntry, f: Fragmented, seen: set<nat>) {
    && entry.reliability == f.reliability
    && entry.sequenceIndex == f.sequenceIndex
    && entry.orderingIndex == f.orderingIndex
    && entry.orderingChannel == f.orderingChannel
    && |entry.parts| == |f.chunks|
    && forall i :: 0 <= i < |f.chunks| ==> entry.parts[i] == if i in seen then Some(f.chunks[i]) else None
  }

  ghost predicate Complete(f: Fragmented, seen: set<nat>) {
    forall i :: 0 <= i < |f.chunks| ==> i in seen
  }

  /** The part of `f` received so far; a message with no part received has no entry. */
  ghost predicate InFlight(entries: Entries, f: Fragmented, seen: set<nat>) {
    if seen == {} then f.id !in entries
    else f.id in entries && EntryOf(entries[f.id], f, seen)
  }

  lemma {:induction false} WholeJoins(parts: seq<Option<Bytes>>, chunks: seq<Bytes>)
    requires |parts| == |chunks|
    requires forall i :: 0 <= i < |chunks| ==> parts[i] == Some(chunks[i])
    ensures Joined(parts) == Some(Concat(chunks))
  {
    if parts != [] {
      WholeJoins(parts[..|parts| - 1], chunks[..|chunks| - 1]);
    }
  }

  /** The part that was missing: the entry is filled, or complete and joined. */
  lemma NewFragment(entries: Entries, f: Fragmented, seen: set<nat>, entry: SplitEntry, pkt: Encap, i: nat, now: nat)
    requires f.id in entries && entries[f.id] == entry
    requires SoundEntry(entry) && EntryOf(entry, f, seen)
    requires IsFragment(pkt, f, i) && i !in seen
    ensures var (entries', r) := AddedTo(entries, entry, pkt.split.value, pkt.payload, now);
            if Complete(f, seen + {i}) then r.Ok? && r.value.Some? && IsWhole(r.value.value, f) && f.id !in entries'
            else r == Ok(None) && InFlight(entries', f, seen + {i})
  {
    assert entry.parts[i].None?;
    var parts := entry.parts[i := Some(pkt.payload)];
    FillingOne(entry.parts, i, pkt.payload);
    FilledBounds(parts);
    if Complete(f, seen + {i}) {
      WholeJoins(parts, f.chunks);
    } else {
      var p :| 0 <= p < |f.chunks| && p !in seen + {i};
      assert parts[p].None?;
    }
  }

  /** A fragment of `f`: nothing comes out until the last missing part, and then the whole message. */
  lemma FragmentStep(entries: Entries, limits: Limits, f: Fragmented, seen: set<nat>, pkt: Encap, i: nat, now: nat)
    requires Sound(entries, limits) && InFlight(entries, f, seen) && !Complete(f, seen)
    requires IsFragment(pkt, f, i) && |f.chunks| <= limits.maxParts
    requires seen == {} ==> |entries| < limits.maxConcurrent
    ensures var (entries', r) := Added(entries, limits, pkt, now);
            if Complete(f, seen + {i}) then r.Ok? && r.value.Some? && IsWhole(r.value.value, f) && f.id !in entries'
            else r == Ok(None) && InFlight(entries', f, seen + {i})
  {
    var entry := if f.id in entries then entries[f.id] else NewEntry(pkt, |f.chunks|, now);
    NothingFilled(|f.chunks|);
    assert EntryOf(entry, f, seen);
    var entries1 := entries[f.id := entry];
    assert Added(entries, limits, pkt, now) == AddedTo(entries1, entry, pkt.split.value, pkt.payload, now);
    if i in seen {
      assert seen + {i} == seen;
    } else {
      NewFragment(entries1, f, seen, entry, pkt, i, now);
    }
  }

  /** A packet that does not carry the id of `f` leaves its parts alone, whatever becomes of it. */
  lemma OtherStep(entries: Entries, limits: Limits, f: Fragmented, seen: set<nat>, pkt: Encap, now: nat)
    requires InFlight(entries, f, seen) && !Carries(pkt, f.id)
    ensures InFlight(Added(entries, limits, pkt, now).0, f, seen)
  {
  }

  datatype Offer = Offer(pkt: Encap, now: nat)

  /** The entries after a whole schedule of packets. */
  function EntriesAfter(entries: Entries, limits: Limits, schedule: seq<Offer>): Entries {
    if schedule == [] then entries
    else
      var last := schedule[|schedule| - 1];
      Added(EntriesAfter(entries, limits, schedule[..|schedule| - 1]), limits, last.pkt, last.now).0
  }

  function OutcomeAt(entries: Entries, limits: Limits, schedule: seq<Offer>, j: nat): Outcome
    requires j < |schedule|
  {
    Added(EntriesAfter(entries, limits, schedule[..j]), limits, schedule[j].pkt, schedule[j].now).1
  }

  /** The parts of the message with split id `id` among the scheduled packets. */
  function Seen(id: u16, schedule: seq<Offer>): set<nat> {
    if schedule == [] then {}
    else
      var last := schedule[|schedule| - 1].pkt;
      Seen(id, schedule[..|schedule| - 1]) + if Carries(last, id) then {last.split.value.index as nat} else {}
  }

  lemma ScheduleStep(entries: Entries, limits: Limits, id: u16, schedule: seq<Offer>, j: nat)
    requires j < |schedule|
    ensures EntriesAfter(entries, limits, schedule[..j + 1]) ==
            Added(EntriesAfter(entries, limits, schedule[..j]), limits, schedule[j].pkt, schedule[j].now).0
    ensures Seen(id, schedule[..j + 1]) ==
            Seen(id, schedule[..j])
            + if Carries(schedule[j].pkt, id) then {schedule[j].pkt.split.value.index as nat} else {}
  {
    assert schedule[..j + 1][..j] == schedule[..j];
  }

  lemma {:induction false} StillInFlight(entries: Entries, limits: Limits, f: Fragmented, schedule: seq<Offer>, j: nat)
    requires Sound(entries, limits) && f.id !in entries && |entries| < limits.maxConcurrent
    requires |f.chunks| <= limits.maxParts
    requires schedule != [] && Carries(schedule[0].pkt, f.id)
    requires forall k :: 0 <= k < |schedule| ==> Conforms(schedule[k].pkt, f)
    requires forall k :: 0 <= k < |schedule| ==> !Complete(f, Seen(f.id, schedule[..k]))
    requires j < |schedule|
    ensures Sound(EntriesAfter(entries, limits, schedule[..j]), limits)
    ensures InFlight(EntriesAfter(entries, limits, schedule[..j]), f, Seen(f.id, schedule[..j]))
    ensures j == 0 || Seen(f.id, schedule[..j]) != {}
  {
    if j > 0 {
      var k := j - 1;
      StillInFlight(entries, limits, f, schedule, k);
      ScheduleStep(entries, limits, f.id, schedule, k);
      var before := EntriesAfter(entries, limits, schedule[..k]);
      var pkt, now := schedule[k].pkt, schedule[k].now;
      AddedKeepsSound(before, limits, pkt, now);
      assert Conforms(pkt, f) && !Complete(f, Seen(f.id, schedule[..k])) && !Complete(f, Seen(f.id, schedule[..j]));
      if Carries(pkt, f.id) {
        FragmentStep(before, limits, f, Seen(f.id, schedule[..k]), pkt, pkt.split.value.index, now);
      } else {
        OtherStep(before, limits, f, Seen(f.id, schedule[..k]), pkt, now);
      }
    }
  }

  /** Once the first fragment of a message has been taken in, the fragments may come in any order, repeat,
      and mix with arbitrary other packets: each is answered with nothing, until the last missing one
      is answered with the whole message and the entry is gone. */
  lemma ReassemblyUnderAnySchedule(entries: Entries, limits: Limits, f: Fragmented, schedule: seq<Offer>, j: nat)
    requires Sound(entries, limits) && f.id !in entries && |entries| < limits.maxConcurrent
    requires |f.chunks| <= limits.maxParts
    requires schedule != [] && Carries(schedule[0].pkt, f.id)
    requires forall k :: 0 <= k < |schedule| ==> Conforms(schedule[k].pkt, f)
    requires forall k :: 0 <= k < |schedule| ==> !Complete(f, Seen(f.id, schedule[..k]))
    requires j < |schedule| && Carries(schedule[j].pkt, f.id)
    ensures var r := OutcomeAt(entries, limits, schedule, j);
            if Complete(f, Seen(f.id, schedule[..j + 1]))
            then r.Ok? && r.value.Some? && IsWhole(r.value.value, f)
                 && f.id !in EntriesAfter(entries, limits, schedule[..j + 1])
            else r == Ok(None)
  {
    StillInFlight(entries, limits, f, schedule, j);
    ScheduleStep(entries, limits, f.id, schedule, j);
    var before, seen := EntriesAfter(entries, limits, schedule[..j]), Seen(f.id, schedule[..j]);
    var pkt, now := schedule[j].pkt, schedule[j].now;
    assert Conforms(pkt, f) && !Complete(f, seen);
    if j == 0 {
      assert schedule[..0] == [];
    }
    FragmentStep(before, limits, f, seen, pkt, pkt.split.value.index, now);
  }
}
