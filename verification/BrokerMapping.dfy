/**
  The broker's mapping and a reader's mapping over one array of bytes, operation by operation as
  adapters/shared-memory/src/ring.rs performs them. Every method is proved to compute the ring
  function of module `Ring` on the ring its bytes stand for, so the theorems about runs of that
  ring are theorems about the bytes.
 */
module BrokerMappings {
  import opened Prelude
  import opened LittleEndian
  import opened Layout
  import opened Ring
  import opened RingBytes
  import opened RingHeader

  /** Reads one header word of slot `i`. */
  method WordAt(mem: array<byte>, config: RingConfig, i: nat, w: Word, ghost slots: seq<Slot>) returns (v: u64)
    requires Linked(slots, mem[..], config) && i < config.slotCount
    ensures v == WordOf(slots[i], w) && StateOf(WordOf(slots[i], State)) == slots[i].state
  {
    WordRead(slots, mem[..], config, i, w);
    v := U64At(mem[..], SlotBase(config, i) + WordOffset(w));
  }

  /** Rebuilds the metadata of slot `i` from its bytes. */
  method ReadMetadataAt(mem: array<byte>, config: RingConfig, i: nat, ghost slots: seq<Slot>)
    returns (r: Result<FrameMetadata, RingError>)
    requires Linked(slots, mem[..], config) && i < config.slotCount && WellFormedSlot(slots[i], config)
    ensures r == ReadMetadata(config, slots[i])
  {
    var timestamp := WordAt(mem, config, i, Timestamp, slots);
    var dropped := WordAt(mem, config, i, Dropped, slots);
    var payloadLength := WordAt(mem, config, i, PayloadLength, slots);
    var planeCount := WordAt(mem, config, i, PlaneCount, slots);
    var sequence := WordAt(mem, config, i, Sequence, slots);
    var generation := WordAt(mem, config, i, Generation, slots);
    if payloadLength > config.payloadCapacity || planeCount > MAX_PLANES { return Err(InvalidData); }
    var planes := ReadPlanesAt(mem, config, i, planeCount, slots);
    if planes.None? { return Err(InvalidData); }
    var f := config.format;
    if !ValidatePlanes(f.pixel, f.width, f.height, planes.value, payloadLength) { return Err(InvalidData); }
    if !ValidDimensions(f.pixel, f.width, f.height) { return Err(InvalidData); }
    if !ValidatePlanes(f.pixel, f.width, f.height, planes.value, MAX_CAMERA_FRAME_BYTES) { return Err(InvalidData); }
    r := Ok(FrameMetadata(f.pixel, f.width, f.height, sequence, generation, timestamp, dropped, planes.value));
  }

  /** The first `count` plane entries, or nothing when one of them is not a well-formed plane. */
  method ReadPlanesAt(mem: array<byte>, config: RingConfig, i: nat, count: nat, ghost slots: seq<Slot>)
    returns (r: Option<seq<PlaneLayout>>)
    requires Linked(slots, mem[..], config) && i < config.slotCount && count <= MAX_PLANES == |slots[i].table|
    ensures r == if WellFormedPlanes(slots[i].table[..count]) then Some(slots[i].table[..count]) else None
  {
    var planes := [];
    for k := 0 to count
      invariant planes == slots[i].table[..k] && WellFormedPlanes(planes)
    {
      PlaneRead(slots, mem[..], config, i, k);
      var at := SlotBase(config, i) + PlaneOffset(k);
      var plane := NewPlaneLayout(U32At(mem[..], at), U32At(mem[..], at + 4), U32At(mem[..], at + 8));
      if plane.None? {
        assert !WellFormedPlane(slots[i].table[..count][k]);
        return None;
      }
      planes := planes + [plane.value];
    }
    r := Some(planes);
  }

  /** Metadata and a copy of the payload of slot `i`. */
  method ReadFrameAt(mem: array<byte>, config: RingConfig, i: nat, ghost slots: seq<Slot>) returns (r: Result<Frame, RingError>)
    requires Linked(slots, mem[..], config) && i < config.slotCount && WellFormedSlot(slots[i], config)
    ensures r == ReadFrame(config, slots[i])
  {
    var metadata := ReadMetadataAt(mem, config, i, slots);
    if metadata.Err? { return Err(metadata.error); }
    var length := WordAt(mem, config, i, PayloadLength, slots);
    PayloadRead(slots, mem[..], config, i, length);
    var start := SlotBase(config, i) + SLOT_HEADER_BYTES;
    r := Ok(Frame(metadata.value, mem[start..start + length]));
  }

  class BrokerMapping {
    const config: RingConfig
    const identity: Identity
    const tokenHash: seq<byte>
    const mem: array<byte>
    var closed: bool
    var pinned: Option<FrameLease>
    /** The abstract ring; `Valid` ties it to the bytes. */
    ghost var ring: RingState
    /** The bytes as they were when the header had just been written. */
    ghost var header: seq<byte>

    /** The bytes stand for the ring. */
    ghost predicate Represents()
      reads this, mem
    {
      match ring
      case RingState(c, id, slots, dropped, terminal, pin, shut) =>
        && Linked(slots, mem[..], config) && Counters(mem[..], dropped, terminal) && WellFormed(ring)
        && c == config && id == identity && pin == pinned && shut == closed
    }

    /** They stand for the ring and carry the header it was created with. */
    ghost predicate Valid()
      reads this, mem
    {
      match config
      case RingConfig(_, _, _, _, total) =>
        Represents() && total <= U64_MAX && HeaderOf(header, config, total, identity, tokenHash) && SameHeader(header, mem[..])
    }

    /** Whoever presents the length, identity and token hash of this mapping, and nobody else, can open it. */
    lemma Openable(total: nat, identity': Identity, tokenHash': seq<byte>)
      requires Valid()
      ensures mem.Length >= HEADER_BYTES
      ensures ValidateHeader(mem[..], total, identity', tokenHash') ==
              if total == config.totalLength && identity' == identity && tokenHash' == tokenHash then Ok(config) else Err(InvalidData)
    {
      HeaderPersists(header, mem[..], config, config.totalLength, identity, tokenHash);
      HeaderAcceptedIff(mem[..], config, config.totalLength, identity, tokenHash, total, identity', tokenHash');
    }

    /** Creates the mapping: the platform hands out zeroed bytes, then the header is written. */
    constructor (config: RingConfig, identity: Identity, tokenHash: seq<byte>)
      requires Accepted(config) && |identity| == 32 && |tokenHash| == 32
      ensures Valid() && fresh(mem)
      ensures this.config == config && this.identity == identity && this.tokenHash == tokenHash
      ensures ring == Initial(config, identity)
    {
      this.config := config;
      this.identity := identity;
      this.tokenHash := tokenHash;
      this.closed := false;
      this.pinned := None;
      mem := new byte[config.totalLength](_ => 0);
      new;
      AcceptedSizes(config);
      ZeroedSlots(mem[..], config);
      ring := Initial(config, identity);
      WriteHeader();
    }

    // ----- Raw access -----

    method Poke(offset: nat, field: seq<byte>)
      requires offset + |field| <= mem.Length
      modifies mem
      ensures mem[..] == Store(old(mem[..]), offset, field)
    {
      forall i | 0 <= i < |field| {
        mem[offset + i] := field[i];
      }
    }

    /** Bytes that stand for `next` and keep the fixed header of the bytes before. */
    ghost predicate Becomes(before: seq<byte>, after: seq<byte>, next: RingState)
      reads this`ring
    {
      match next
      case RingState(c, id, slots, dropped, terminal, pin, shut) =>
        && Linked(slots, after, config) && Counters(after, dropped, terminal) && SameHeader(before, after)
        && next == ring.(slots := slots, dropped := dropped, terminal := terminal) && WellFormed(next)
    }

    /** One store, and what it makes of the ring. */
    method Overwrite(offset: nat, field: seq<byte>, ghost next: RingState)
      requires Valid() && offset + |field| <= mem.Length
      requires Becomes(mem[..], Store(mem[..], offset, field), next)
      modifies mem, this`ring
      ensures Valid() && ring == next
    {
      Poke(offset, field);
      ring := next;
    }

    method SlotWord(i: nat, w: Word) returns (v: u64)
      requires Valid() && i < config.slotCount
      ensures v == WordOf(ring.slots[i], w)
    {
      v := WordAt(mem, config, i, w, ring.slots);
    }

    method StateOfSlot(i: nat) returns (s: SlotState)
      requires Valid() && i < config.slotCount
      ensures s == ring.slots[i].state
    {
      var raw := WordAt(mem, config, i, State, ring.slots);
      s := StateOf(raw);
    }

    method DroppedCount() returns (v: u64)
      requires Valid()
      ensures v == ring.dropped
    {
      v := U64At(mem[..], HEADER_DROPPED_COUNT);
    }

    method WriteWord(i: nat, w: Word, v: u64)
      requires Valid() && i < config.slotCount
      modifies mem, this`ring
      ensures Valid() && ring == old(ring).(slots := old(ring).slots[i := SetWord(old(ring).slots[i], w, v)])
    {
      WordWritten(ring.slots, mem[..], config, i, w, v, ring.dropped, ring.terminal);
      Overwrite(SlotBase(config, i) + WordOffset(w), Encode(v, 8), ring.(slots := ring.slots[i := SetWord(ring.slots[i], w, v)]));
    }

    method WriteState(i: nat, s: SlotState)
      requires Valid() && i < config.slotCount && !s.Corrupt?
      modifies mem, this`ring
      ensures Valid() && ring == old(ring).(slots := SetState(old(ring).slots, i, s))
    {
      WriteWord(i, State, RawOf(s));
    }

    method WritePlane(i: nat, k: nat, p: PlaneLayout)
      requires Valid() && i < config.slotCount && k < MAX_PLANES
      modifies mem, this`ring
      ensures Valid()
      ensures |old(ring).slots[i].table| == MAX_PLANES
      ensures ring == old(ring).(slots := old(ring).slots[i := old(ring).slots[i].(table := old(ring).slots[i].table[k := p])])
    {
      PlaneWritten(ring.slots, mem[..], config, i, k, p, ring.dropped, ring.terminal);
      Overwrite(SlotBase(config, i) + PlaneOffset(k), PlaneField(p),
                ring.(slots := ring.slots[i := ring.slots[i].(table := ring.slots[i].table[k := p])]));
    }

    method WritePayload(i: nat, buffer: seq<byte>)
      requires Valid() && i < config.slotCount && |buffer| == config.payloadCapacity
      modifies mem, this`ring
      ensures Valid() && ring == old(ring).(slots := old(ring).slots[i := old(ring).slots[i].(buffer := buffer)])
    {
      PayloadWritten(ring.slots, mem[..], config, i, buffer, ring.dropped, ring.terminal);
      Overwrite(SlotBase(config, i) + SLOT_HEADER_BYTES, buffer,
                ring.(slots := ring.slots[i := ring.slots[i].(buffer := buffer)]));
    }

    method StoreFields(fields: seq<Field>)
      requires mem.Length >= HEADER_BYTES && Ascending(fields)
      modifies mem
      ensures mem[..] == StoreAll(old(mem[..]), fields)
    {
      assert fields[..0] == [];
      for k := 0 to |fields|
        invariant mem[..] == StoreAll(old(mem[..]), fields[..k])
      {
        assert fields[..k + 1][..k] == fields[..k];
        Poke(fields[k].offset, fields[k].bytes);
      }
      assert fields[..|fields|] == fields;
    }

    /** Writes the thirteen header fields one after the other. */
    method WriteHeader()
      requires Represents() && |identity| == 32 && |tokenHash| == 32
      modifies mem, this`ring, this`header
      ensures Valid() && ring == old(ring).(terminal := TERMINAL_OPEN)
    {
      AcceptedSizes(config);
      HeaderAscends(config, config.totalLength, identity, tokenHash);
      var fields := HeaderFields(config, config.totalLength, identity, tokenHash);
      ghost var before := mem[..];
      StoreFields(fields);
      HeaderRoundTrip(before, config, config.totalLength, identity, tokenHash, config.totalLength, identity, tokenHash);
      HeaderLeavesRing(ring.slots, ring.dropped, ring.terminal, before, fields, config, identity, tokenHash);
      ring := ring.(terminal := TERMINAL_OPEN);
      header := mem[..];
    }

    // ----- Counters and terminal state -----

    method IncrementDroppedLocked() returns (ok: bool)
      requires Valid()
      modifies mem, this`ring
      ensures Valid()
      ensures ok <==> IncrementDropped(old(ring)).Some?
      ensures ring == if ok then IncrementDropped(old(ring)).value else old(ring)
    {
      var count := DroppedCount();
      ok := count < U64_MAX;
      if ok {
        DroppedWritten(ring.slots, mem[..], config, count, count + 1, ring.terminal);
        Overwrite(HEADER_DROPPED_COUNT, Encode(count + 1, 8), ring.(dropped := count + 1));
      }
    }

    /** Terminal teardown: only publishes CLOSED, then unlinks. */
    method Close(locked: bool, unlinked: bool) returns (r: Result<(), RingError>)
      requires Valid()
      modifies this`closed, this`ring, mem
      ensures Valid() && ring == CloseRing(old(ring), locked, unlinked)
      ensures r.Ok? <==> ring.closed
    {
      if closed { return Ok(()); }
      if !locked { return Err(Unavailable); }
      TerminalWritten(ring.slots, mem[..], config, ring.dropped, ring.terminal, TERMINAL_CLOSED);
      Overwrite(HEADER_TERMINAL_STATE, Encode(TERMINAL_CLOSED, 8), ring.(terminal := TERMINAL_CLOSED));
      if !unlinked { return Err(Unavailable); }
      closed := true;
      ring := ring.(closed := true);
      r := Ok(());
    }

    // ----- Leasing -----

    method SetPinned(lease: Option<FrameLease>)
      requires Valid() && (lease.Some? ==> lease.value.slotIndex < config.slotCount)
      modifies this`pinned, this`ring
      ensures Valid() && ring == old(ring).(pinned := lease) && pinned == lease
    {
      pinned := lease;
      ring := ring.(pinned := lease);
    }

    method ReleasePinLocked() returns (r: Result<(), RingError>)
      requires Valid()
      modifies this`pinned, this`ring, mem
      ensures Valid() && ring == ReleasePin(old(ring)).0 && r == ReleasePin(old(ring)).1
    {
      r := Ok(());
      if pinned.Some? {
        var lease := pinned.value;
        SetPinned(None);
        var i := lease.slotIndex;
        var sequence := SlotWord(i, Sequence);
        var generation := SlotWord(i, Generation);
        if lease.identity == identity && sequence == lease.sequence && generation == lease.generation {
          var s := StateOfSlot(i);
          if s.Corrupt? { return Err(InvalidData); }
          if s.Pinned? {
            WriteState(i, Free);
          }
        }
      }
    }

    /** The scan for the newest Ready slot; `None` with `ok` false is a corrupt state word. */
    method ScanLatest() returns (ok: bool, latest: Option<(nat, u64)>)
      requires Valid()
      ensures ok <==> !AnyCorrupt(ring.slots)
      ensures ok ==> match LatestReady(ring.slots, |ring.slots|)
                     case None => latest == None
                     case Some(k) => latest == Some((k, ring.slots[k].sequence))
    {
      latest := None;
      for index := 0 to config.slotCount
        invariant forall j :: 0 <= j < index ==> !ring.slots[j].state.Corrupt?
        invariant match LatestReady(ring.slots, index)
                  case None => latest == None
                  case Some(k) => latest == Some((k, ring.slots[k].sequence))
      {
        var s := StateOfSlot(index);
        if s.Corrupt? { return false, None; }
        if s.Ready? {
          var sequence := SlotWord(index, Sequence);
          if latest.None? || sequence > latest.value.1 {
            latest := Some((index, sequence));
          }
        }
      }
      ok := true;
    }

    /** Pins a Ready slot whose sequence was just read, and makes it the broker's pin. */
    method PinSlot(index: nat, sequence: u64) returns (lease: FrameLease)
      requires Valid() && index < config.slotCount && ring.slots[index].state.Ready? && ring.slots[index].sequence == sequence
      modifies this`pinned, this`ring, mem
      ensures lease == FrameLease(identity, index, sequence, old(ring).slots[index].generation)
      ensures Valid() && ring == old(ring).(slots := SetState(old(ring).slots, index, Pinned), pinned := Some(lease))
    {
      WriteState(index, Pinned);
      var generation := SlotWord(index, Generation);
      var again := SlotWord(index, Sequence);
      if again != sequence {
        assert false;  // the exclusive lock is held: nothing wrote the slot since it was scanned
      }
      lease := FrameLease(identity, index, sequence, generation);
      SetPinned(Some(lease));
    }

    /** Releases the pin, scans for the newest Ready slot and pins it. */
    method NextFrameLeaseLocked() returns (r: Result<Option<FrameLease>, RingError>)
      requires Valid()
      modifies this`pinned, this`ring, mem
      ensures Valid() && ring == NextLease(old(ring)).0 && r == NextLease(old(ring)).1
    {
      var released := ReleasePinLocked();
      if released.Err? { return Err(released.error); }
      var ok, latest := ScanLatest();
      if !ok { return Err(InvalidData); }
      if latest.None? { return Ok(None); }
      var (index, sequence) := latest.value;
      var s := StateOfSlot(index);
      if !s.Ready? { return Ok(None); }
      var lease := PinSlot(index, sequence);
      r := Ok(Some(lease));
    }

    // ----- Publishing -----

    method SelectWritableSlot() returns (r: Result<Option<nat>, RingError>)
      requires Valid()
      ensures r == SelectWritable(ring.slots)
    {
      var oldest: Option<(nat, u64)> := None;
      for index := 0 to config.slotCount
        invariant oldest.Some? ==>
                    oldest.value.0 < config.slotCount && ring.slots[oldest.value.0].state.Ready?
                    && ring.slots[oldest.value.0].sequence == oldest.value.1
        invariant SelectWritable(ring.slots) ==
                  SelectFrom(ring.slots, index, if oldest.None? then None else Some(oldest.value.0))
      {
        var s := StateOfSlot(index);
        match s
        case Free => return Ok(Some(index));
        case Ready =>
          var sequence := SlotWord(index, Sequence);
          if oldest.None? || sequence < oldest.value.1 {
            oldest := Some((index, sequence));
          }
        case Corrupt(_) => return Err(InvalidData);
        case Writing =>
        case Pinned =>
      }
      r := Ok(if oldest.None? then None else Some(oldest.value.0));
    }

    method WritePlanes(i: nat, planes: seq<PlaneLayout>)
      requires Valid() && i < config.slotCount && |planes| <= MAX_PLANES
      modifies mem, this`ring
      ensures Valid()
      ensures |old(ring).slots[i].table| == MAX_PLANES
      ensures ring == old(ring).(slots := old(ring).slots[i := old(ring).slots[i].(table := Overlay(old(ring).slots[i].table, planes))])
    {
      ghost var slots, table := ring.slots, ring.slots[i].table;
      assert WellFormedSlot(slots[i], config);
      assert Overlay(table, planes[..0]) == table;
      for k := 0 to |planes|
        invariant Valid()
        invariant ring == old(ring).(slots := slots[i := slots[i].(table := Overlay(table, planes[..k]))])
      {
        WritePlane(i, k, planes[k]);
        OverlayGrows(table, planes, k);
      }
      assert planes[..|planes|] == planes;
    }

    method WriteStamp(i: nat, generation: u64, timestamp: u64, dropped: u64)
      requires Valid() && i < config.slotCount
      modifies mem, this`ring
      ensures Valid()
      ensures ring == old(ring).(slots := old(ring).slots[i :=
                old(ring).slots[i].(generation := generation, timestamp := timestamp, dropped := dropped)])
    {
      WriteWord(i, Generation, generation);
      WriteWord(i, Timestamp, timestamp);
      WriteWord(i, Dropped, dropped);
    }

    method WriteCounts(i: nat, payloadLength: u64, planeCount: u64)
      requires Valid() && i < config.slotCount
      modifies mem, this`ring
      ensures Valid()
      ensures ring == old(ring).(slots := old(ring).slots[i :=
                old(ring).slots[i].(payloadLength := payloadLength, planeCount := planeCount)])
    {
      WriteWord(i, PayloadLength, payloadLength);
      WriteWord(i, PlaneCount, planeCount);
    }

    method WriteFrameWords(i: nat, m: FrameMetadata, payloadLength: u64, dropped: u64)
      requires Valid() && i < config.slotCount && |m.planes| <= MAX_PLANES
      modifies mem, this`ring
      ensures Valid()
      ensures ring == old(ring).(slots := old(ring).slots[i :=
                old(ring).slots[i].(generation := m.generation, timestamp := m.timestamp, dropped := dropped,
                                    payloadLength := payloadLength, planeCount := |m.planes|)])
    {
      WriteStamp(i, m.generation, m.timestamp, dropped);
      WriteCounts(i, payloadLength, |m.planes|);
    }

    /** Stores the header words and plane entries of an accepted frame, its sequence last. */
    method WriteFrameHeader(i: nat, m: FrameMetadata, payloadLength: u64, dropped: u64)
      requires Valid() && i < config.slotCount && |m.planes| <= MAX_PLANES
      modifies mem, this`ring
      ensures Valid()
      ensures |old(ring).slots[i].table| == MAX_PLANES
      ensures var s := old(ring).slots[i];
              ring == old(ring).(slots := old(ring).slots[i :=
                Slot(s.state, m.sequence, m.generation, m.timestamp, dropped, payloadLength, |m.planes|,
                     Overlay(s.table, m.planes), s.buffer)])
    {
      WriteFrameWords(i, m, payloadLength, dropped);
      WritePlanes(i, m.planes);
      WriteWord(i, Sequence, m.sequence);
    }

    /** The publish that holds the exclusive lock; `copier` is what the payload closure did. */
    method PublishLockedWith(m: FrameMetadata, copier: Copier) returns (r: Result<(), RingError>)
      requires Valid() && |copier.buffer| == config.payloadCapacity
      modifies mem, this`ring
      ensures Valid() && ring == PublishLocked(old(ring), m, copier).0
      ensures var effect := PublishLocked(old(ring), m, copier).1;
              r.Ok? <==> effect.Committed? || effect.NoSlot?
    {
      var selected := SelectWritableSlot();
      if selected.Err? { return Err(selected.error); }
      if selected.value.None? {
        var counted := IncrementDroppedLocked();
        return if counted then Ok(()) else Err(CounterOverflow);
      }
      var i := selected.value.value;
      var previous := StateOfSlot(i);
      if previous.Ready? {
        var counted := IncrementDroppedLocked();
        if !counted { return Err(CounterOverflow); }
      }
      r := FillSlot(i, previous, m, copier);
    }

    /** Marks the slot Writing and lets the copier fill it. */
    method StartSlot(i: nat, buffer: seq<byte>)
      requires Valid() && i < config.slotCount && |buffer| == config.payloadCapacity
      modifies mem, this`ring
      ensures Valid() && ring == old(ring).(slots := old(ring).slots[i := old(ring).slots[i].(state := Writing, buffer := buffer)])
    {
      WriteState(i, Writing);
      WritePayload(i, buffer);
    }

    /** Makes a filled slot the Ready slot of an accepted frame. */
    method CommitSlot(i: nat, m: FrameMetadata, payloadLength: u64)
      requires Valid() && i < config.slotCount && |m.planes| <= MAX_PLANES
      modifies mem, this`ring
      ensures Valid()
      ensures |old(ring).slots[i].table| == MAX_PLANES
      ensures var s := old(ring).slots[i];
              ring == old(ring).(slots := old(ring).slots[i :=
                Slot(Ready, m.sequence, m.generation, m.timestamp, old(ring).dropped, payloadLength, |m.planes|,
                     Overlay(s.table, m.planes), s.buffer)])
    {
      var dropped := DroppedCount();
      WriteFrameHeader(i, m, payloadLength, dropped);
      WriteState(i, Ready);
    }

    /** Marks the slot Writing, lets the copier fill it, and commits or restores the previous state. */
    method FillSlot(i: nat, previous: SlotState, m: FrameMetadata, copier: Copier) returns (r: Result<(), RingError>)
      requires Valid() && |copier.buffer| == config.payloadCapacity && i < config.slotCount
      requires previous == ring.slots[i].state && !previous.Corrupt?
      modifies mem, this`ring
      ensures Valid()
      ensures |old(ring).slots[i].table| == MAX_PLANES
      ensures r.Ok? <==> PayloadAccepted(config, m, copier)
      ensures r.Ok? ==> ring == old(ring).(slots := old(ring).slots[i := CommittedSlot(old(ring).slots[i], m, copier, old(ring).dropped)])
      ensures r.Err? ==> ring == old(ring).(slots := old(ring).slots[i := old(ring).slots[i].(buffer := copier.buffer)])
    {
      StartSlot(i, copier.buffer);
      if PayloadAccepted(config, m, copier) {
        CommitSlot(i, m, copier.returned.value);
        r := Ok(());
      } else {
        WriteState(i, previous);
        r := Err(InvalidData);
      }
    }

    // ----- The public operations: one lock attempt, then the locked body -----

    method PublishWith(m: FrameMetadata, copier: Copier, lock: Lock) returns (r: Result<(), RingError>)
      requires Valid() && |copier.buffer| == config.payloadCapacity
      modifies mem, this`ring
      ensures Valid() && ring == Step(old(ring), Op.Publish(m, copier, lock)).0
      ensures r.Ok? <==>
              && ValidDimensions(m.format, m.width, m.height)
              && match lock
                 case LockFailed => false
                 case WouldBlock(retried) => retried ==> old(ring).dropped < U64_MAX
                 case Acquired =>
                   var effect := PublishLocked(old(ring), m, copier).1;
                   effect.Committed? || effect.NoSlot?
    {
      if !ValidDimensions(m.format, m.width, m.height) { return Err(InvalidData); }
      match lock
      case LockFailed => return Err(Unavailable);
      case WouldBlock(retried) =>
        if retried {
          var counted := IncrementDroppedLocked();
          if !counted { return Err(CounterOverflow); }
        }
        r := Ok(());
      case Acquired =>
        r := PublishLockedWith(m, copier);
    }

    method NextFrameLease(lock: Lock) returns (r: Result<Option<FrameLease>, RingError>)
      requires Valid()
      modifies this`pinned, this`ring, mem
      ensures Valid() && ring == Step(old(ring), Op.Lease(lock)).0
      ensures r == if lock == Acquired then NextLease(old(ring)).1 else Err(Unavailable)
    {
      if lock != Acquired { return Err(Unavailable); }
      r := NextFrameLeaseLocked();
    }

    method ReleaseLease(lock: Lock) returns (r: Result<(), RingError>)
      requires Valid()
      modifies this`pinned, this`ring, mem
      ensures Valid() && ring == Step(old(ring), Op.Release(lock)).0
      ensures r == if lock == Acquired then ReleasePin(old(ring)).1 else Err(Unavailable)
    {
      if lock != Acquired { return Err(Unavailable); }
      r := ReleasePinLocked();
    }

    method Acquire(lock: Lock, shared: bool) returns (r: Result<Option<Frame>, RingError>)
      requires Valid()
      modifies this`pinned, this`ring, mem
      ensures Valid() && ring == Step(old(ring), Op.Acquire(lock, shared)).0
      ensures r == AcquireOutcome(old(ring), lock, shared)
    {
      if lock != Acquired { return Err(Unavailable); }
      var leased := NextFrameLeaseLocked();
      if leased.Err? { return Err(leased.error); }
      if leased.value.None? { return Ok(None); }
      if !shared { return Err(Unavailable); }
      var frame := ViewFrame(leased.value.value);
      r := if frame.Err? then Err(frame.error) else Ok(Some(frame.value));
    }

    /** Any one operation of the broker and its writer. */
    method Perform(op: Op)
      requires Valid() && ShapedOp(config, op)
      modifies this`pinned, this`closed, this`ring, mem
      ensures Valid() && ring == Step(old(ring), op).0
    {
      match op
      case Publish(m, copier, lock) => var _ := PublishWith(m, copier, lock);
      case Lease(lock) => var _ := NextFrameLease(lock);
      case Release(lock) => var _ := ReleaseLease(lock);
      case Acquire(lock, shared) => var _ := Acquire(lock, shared);
      case Close(locked, unlinked) => var _ := Close(locked, unlinked);
    }

    method ViewFrame(lease: FrameLease) returns (r: Result<Frame, RingError>)
      requires Valid() && lease.slotIndex < config.slotCount
      ensures r == FrameView(ring, lease)
    {
      var i := lease.slotIndex;
      var s := StateOfSlot(i);
      var sequence := SlotWord(i, Sequence);
      var generation := SlotWord(i, Generation);
      if lease.identity != identity || !s.Pinned? || sequence != lease.sequence || generation != lease.generation {
        return Err(InvalidData);
      }
      r := ReadFrameAt(mem, config, i, ring.slots);
    }
  }

  /** A separately opened, read-only view of the same bytes, configured by the header it validated. */
  class ReadOnlyMapping {
    const config: RingConfig
    const identity: Identity
    const mem: array<byte>

    constructor (mem: array<byte>, config: RingConfig, identity: Identity)
      ensures this.mem == mem && this.config == config && this.identity == identity
    {
      this.mem := mem;
      this.config := config;
      this.identity := identity;
    }

    /** Opens a mapping: the reader's configuration is whatever the header check makes of the bytes. */
    static method Open(mem: array<byte>, total: nat, identity: Identity, tokenHash: seq<byte>)
      returns (r: Result<ReadOnlyMapping, RingError>)
      requires mem.Length >= HEADER_BYTES
      ensures r.Ok? <==> ValidateHeader(mem[..], total, identity, tokenHash).Ok?
      ensures r.Ok? ==> r.value.mem == mem && r.value.identity == identity
                        && ValidateHeader(mem[..], total, identity, tokenHash) == Ok(r.value.config)
    {
      match ValidateHeader(mem[..], total, identity, tokenHash)
      case Err(e) => r := Err(e);
      case Ok(config) =>
        var reader := new ReadOnlyMapping(mem, config, identity);
        r := Ok(reader);
    }

    /** Copies a pinned frame under the shared lock. `ring` is the ring the bytes stand for. */
    method Copy(lease: FrameLease, expected: Option<u64>, ghost ring: RingState) returns (r: Result<Option<Frame>, RingError>)
      requires WellFormed(ring) && ring.config == config && ring.identity == identity
      requires Linked(ring.slots, mem[..], config) && Counters(mem[..], ring.dropped, ring.terminal)
      ensures r == Ring.Copy(ring, expected, lease)
    {
      if lease.identity != identity { return Ok(None); }
      if U64At(mem[..], HEADER_TERMINAL_STATE) != TERMINAL_OPEN { return Ok(None); }
      if lease.slotIndex >= config.slotCount { return Ok(None); }
      var i := lease.slotIndex;
      var raw := WordAt(mem, config, i, State, ring.slots);
      var state := StateOf(raw);
      if state.Corrupt? { return Err(InvalidData); }
      if !state.Pinned? { return Ok(None); }
      var generation := WordAt(mem, config, i, Generation, ring.slots);
      var sequence := WordAt(mem, config, i, Sequence, ring.slots);
      if (expected.Some? && expected.value != generation) || generation != lease.generation || sequence != lease.sequence {
        return Ok(None);
      }
      var frame := ReadFrameAt(mem, config, i, ring.slots);
      r := if frame.Err? then Err(frame.error) else Ok(Some(frame.value));
    }
  }

  /** Writing the header moves no slot and not the drop counter. */
  lemma HeaderLeavesRing(
    slots: seq<Slot>, dropped: u64, terminal: u64,
    mem: seq<byte>, fields: seq<Field>, c: RingConfig, identity: Identity, tokenHash: seq<byte>)
    requires Linked(slots, mem, c) && Counters(mem, dropped, terminal) && Ascending(fields)
    requires c.slotCount <= U64_MAX && c.slotStride <= U64_MAX && c.payloadCapacity <= U64_MAX && c.totalLength <= U64_MAX
    requires |identity| == 32 && |tokenHash| == 32
    requires fields == HeaderFields(c, c.totalLength, identity, tokenHash)
    ensures Linked(slots, StoreAll(mem, fields), c)
    ensures U64At(StoreAll(mem, fields), HEADER_DROPPED_COUNT) == dropped
  {
    var h := StoreAll(mem, fields);
    assert fields[12].offset == HEADER_TERMINAL_STATE && FieldEnd(fields[11]) == HEADER_DROPPED_COUNT;
    forall i | 0 <= i < |fields|
      ensures FieldEnd(fields[i]) <= HEADER_DROPPED_COUNT || HEADER_DROPPED_COUNT + 8 <= fields[i].offset
    {
      if i < 11 { assert FieldEnd(fields[i]) <= fields[11].offset; }
    }
    StoresMiss(mem, fields, HEADER_DROPPED_COUNT, HEADER_DROPPED_COUNT + 8);
    forall i | 0 <= i < c.slotCount ensures SlotIn(h, c, i) == SlotIn(mem, c, i) {
      RegionFits(mem, c, i);
      StoresMiss(mem, fields, SlotBase(c, i), RegionEnd(c, i));
    }
  }
}
