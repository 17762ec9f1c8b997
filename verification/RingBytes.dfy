/**
  The byte layout of the mapping (adapters/shared-memory/src/ring.rs, offsets at the top of the
  file): where each slot word, plane entry and payload lives, and how a store into one field
  shows up in the ring the bytes stand for.
 */
module RingBytes {
  import opened Prelude
  import opened LittleEndian
  import opened Layout
  import opened Ring

  /** Everything before the drop counter is written once, when the mapping is created. */
  const FIXED_HEADER_BYTES := 128

  const HEADER_DROPPED_COUNT := 128
  const HEADER_TERMINAL_STATE := 136

  const SLOT_PLANES := 56
  const PLANE_BYTES := 12

  /** The 64-bit words of a slot header. */
  datatype Word = State | Sequence | Generation | Timestamp | Dropped | PayloadLength | PlaneCount

  function WordOffset(w: Word): nat {
    match w
    case State => 0
    case Sequence => 8
    case Generation => 16
    case Timestamp => 24
    case Dropped => 32
    case PayloadLength => 40
    case PlaneCount => 48
  }

  function StateOf(raw: u64): SlotState {
    match raw
    case 0 => Free
    case 1 => Writing
    case 2 => Ready
    case 3 => Pinned
    case _ => Corrupt(raw)
  }

  function RawOf(s: SlotState): u64 {
    match s
    case Free => 0
    case Writing => 1
    case Ready => 2
    case Pinned => 3
    case Corrupt(raw) => raw
  }

  /** The state codec: the four states survive a round trip and nothing else decodes to them. */
  lemma StateCodec(s: SlotState, raw: u64)
    ensures !s.Corrupt? ==> StateOf(RawOf(s)) == s
    ensures RawOf(StateOf(raw)) == raw
  {
  }

  function SetWord(s: Slot, w: Word, v: u64): Slot {
    match w
    case State => s.(state := StateOf(v))
    case Sequence => s.(sequence := v)
    case Generation => s.(generation := v)
    case Timestamp => s.(timestamp := v)
    case Dropped => s.(dropped := v)
    case PayloadLength => s.(payloadLength := v)
    case PlaneCount => s.(planeCount := v)
  }

  function PlaneOffset(k: nat): nat { SLOT_PLANES + k * PLANE_BYTES }

  function PlaneAt(s: seq<byte>, k: nat): PlaneLayout
    requires |s| >= SLOT_HEADER_BYTES && k < MAX_PLANES
  {
    PlaneLayout(U32At(s, PlaneOffset(k)), U32At(s, PlaneOffset(k) + 4), U32At(s, PlaneOffset(k) + 8))
  }

  function WordIn(s: seq<byte>, w: Word): u64
    requires |s| >= SLOT_HEADER_BYTES
  {
    U64At(s, WordOffset(w))
  }

  function TableIn(s: seq<byte>): seq<PlaneLayout>
    requires |s| >= SLOT_HEADER_BYTES
  {
    [PlaneAt(s, 0), PlaneAt(s, 1), PlaneAt(s, 2)]
  }

  /** The slot a region of header and payload bytes stands for. */
  function DecodeSlot(s: seq<byte>): Slot
    requires |s| >= SLOT_HEADER_BYTES
  {
    Slot(StateOf(WordIn(s, State)), WordIn(s, Sequence), WordIn(s, Generation), WordIn(s, Timestamp), WordIn(s, Dropped),
         WordIn(s, PayloadLength), WordIn(s, PlaneCount), TableIn(s), s[SLOT_HEADER_BYTES..])
  }

  // ----- One field of one slot -----

  /** A store that misses a word leaves it as it was. */
  lemma WordElsewhere(s: seq<byte>, offset: nat, field: seq<byte>, w: Word)
    requires |s| >= SLOT_HEADER_BYTES && offset + |field| <= |s|
    requires WordOffset(w) + 8 <= offset || offset + |field| <= WordOffset(w)
    ensures WordIn(Store(s, offset, field), w) == WordIn(s, w)
  {
    LoadOther(s, offset, field, WordOffset(w), WordOffset(w) + 8);
  }

  lemma PlaneElsewhere(s: seq<byte>, offset: nat, field: seq<byte>, k: nat)
    requires |s| >= SLOT_HEADER_BYTES && offset + |field| <= |s| && k < MAX_PLANES
    requires PlaneOffset(k) + PLANE_BYTES <= offset || offset + |field| <= PlaneOffset(k)
    ensures PlaneAt(Store(s, offset, field), k) == PlaneAt(s, k)
  {
    LoadOther(s, offset, field, PlaneOffset(k), PlaneOffset(k) + 4);
    LoadOther(s, offset, field, PlaneOffset(k) + 4, PlaneOffset(k) + 8);
    LoadOther(s, offset, field, PlaneOffset(k) + 8, PlaneOffset(k) + 12);
  }

  lemma TableElsewhere(s: seq<byte>, offset: nat, field: seq<byte>)
    requires |s| >= SLOT_HEADER_BYTES && offset + |field| <= |s|
    requires offset + |field| <= SLOT_PLANES || SLOT_HEADER_BYTES <= offset
    ensures TableIn(Store(s, offset, field)) == TableIn(s)
  {
    PlaneElsewhere(s, offset, field, 0);
    PlaneElsewhere(s, offset, field, 1);
    PlaneElsewhere(s, offset, field, 2);
  }

  lemma WordStored(s: seq<byte>, w: Word, v: u64, u: Word)
    requires |s| >= SLOT_HEADER_BYTES
    ensures WordIn(Store(s, WordOffset(w), Encode(v, 8)), u) == if u == w then v else WordIn(s, u)
  {
    if u == w { Load64Same(s, WordOffset(w), v); } else { WordElsewhere(s, WordOffset(w), Encode(v, 8), u); }
  }

  /** Storing a header word changes that word of the slot and nothing else. */
  lemma StoreWord(s: seq<byte>, w: Word, v: u64)
    requires |s| >= SLOT_HEADER_BYTES
    ensures DecodeSlot(Store(s, WordOffset(w), Encode(v, 8))) == SetWord(DecodeSlot(s), w, v)
  {
    var t := Store(s, WordOffset(w), Encode(v, 8));
    forall u: Word ensures WordIn(t, u) == if u == w then v else WordIn(s, u) {
      WordStored(s, w, v, u);
    }
    TableElsewhere(s, WordOffset(w), Encode(v, 8));
    LoadTail(s, WordOffset(w), Encode(v, 8), SLOT_HEADER_BYTES);
    OneWordDiffers(s, t, w, v);
  }

  lemma OneWordDiffers(s: seq<byte>, t: seq<byte>, w: Word, v: u64)
    requires |s| == |t| >= SLOT_HEADER_BYTES && TableIn(t) == TableIn(s) && t[SLOT_HEADER_BYTES..] == s[SLOT_HEADER_BYTES..]
    requires forall u: Word :: WordIn(t, u) == if u == w then v else WordIn(s, u)
    ensures DecodeSlot(t) == SetWord(DecodeSlot(s), w, v)
  {
  }

  function PlaneField(p: PlaneLayout): (f: seq<byte>)
    ensures |f| == PLANE_BYTES
  {
    Encode(p.offset, 4) + Encode(p.length, 4) + Encode(p.stride, 4)
  }

  lemma PlaneFieldReads(s: seq<byte>, k: nat, p: PlaneLayout)
    requires |s| >= SLOT_HEADER_BYTES && k < MAX_PLANES
    ensures PlaneAt(Store(s, PlaneOffset(k), PlaneField(p)), k) == p
  {
    var o, f := PlaneOffset(k), PlaneField(p);
    var t := Store(s, o, f);
    LoadSame(s, o, f);
    assert t[o..o + 4] == f[0..4] == Encode(p.offset, 4);
    assert t[o + 4..o + 8] == f[4..8] == Encode(p.length, 4);
    assert t[o + 8..o + 12] == f[8..12] == Encode(p.stride, 4);
    WidthsOfWords();
    DecodeEncode(p.offset, 4);
    DecodeEncode(p.length, 4);
    DecodeEncode(p.stride, 4);
  }

  lemma TableStored(s: seq<byte>, k: nat, p: PlaneLayout)
    requires |s| >= SLOT_HEADER_BYTES && k < MAX_PLANES
    ensures TableIn(Store(s, PlaneOffset(k), PlaneField(p))) == TableIn(s)[k := p]
  {
    PlaneFieldReads(s, k, p);
    if k != 0 { PlaneElsewhere(s, PlaneOffset(k), PlaneField(p), 0); }
    if k != 1 { PlaneElsewhere(s, PlaneOffset(k), PlaneField(p), 1); }
    if k != 2 { PlaneElsewhere(s, PlaneOffset(k), PlaneField(p), 2); }
  }

  /** Bytes with the same words and another table, or another tail, decode to that change alone. */
  lemma OtherPartsDecode(s: seq<byte>, t: seq<byte>)
    requires |s| >= SLOT_HEADER_BYTES && |t| >= SLOT_HEADER_BYTES && forall u: Word :: WordIn(t, u) == WordIn(s, u)
    ensures DecodeSlot(t) == DecodeSlot(s).(table := TableIn(t), buffer := t[SLOT_HEADER_BYTES..])
  {
  }

  lemma WordsPrecede(s: seq<byte>, offset: nat, field: seq<byte>)
    requires |s| >= SLOT_HEADER_BYTES && SLOT_PLANES <= offset && offset + |field| <= |s|
    ensures forall u: Word :: WordIn(Store(s, offset, field), u) == WordIn(s, u)
  {
    forall u: Word ensures WordIn(Store(s, offset, field), u) == WordIn(s, u) { WordElsewhere(s, offset, field, u); }
  }

  /** Storing a plane entry changes that entry of the table and nothing else. */
  lemma StorePlane(s: seq<byte>, k: nat, p: PlaneLayout)
    requires |s| >= SLOT_HEADER_BYTES && k < MAX_PLANES
    ensures var before := DecodeSlot(s);
            DecodeSlot(Store(s, PlaneOffset(k), PlaneField(p))) == before.(table := before.table[k := p])
  {
    WordsPrecede(s, PlaneOffset(k), PlaneField(p));
    TableStored(s, k, p);
    LoadTail(s, PlaneOffset(k), PlaneField(p), SLOT_HEADER_BYTES);
    OtherPartsDecode(s, Store(s, PlaneOffset(k), PlaneField(p)));
  }

  /** Storing a payload changes the payload area and nothing else. */
  lemma StorePayload(s: seq<byte>, buffer: seq<byte>)
    requires |s| == SLOT_HEADER_BYTES + |buffer|
    ensures DecodeSlot(Store(s, SLOT_HEADER_BYTES, buffer)) == DecodeSlot(s).(buffer := buffer)
  {
    WordsPrecede(s, SLOT_HEADER_BYTES, buffer);
    TableElsewhere(s, SLOT_HEADER_BYTES, buffer);
    LoadSame(s, SLOT_HEADER_BYTES, buffer);
    OtherPartsDecode(s, Store(s, SLOT_HEADER_BYTES, buffer));
  }

  // ----- All slots of a mapping -----

  function RegionEnd(c: RingConfig, i: nat): nat { SlotBase(c, i) + SLOT_HEADER_BYTES + c.payloadCapacity }

  /** The mapping is as long as its configuration says. */
  ghost predicate Fits(mem: seq<byte>, c: RingConfig) {
    Accepted(c) && |mem| == c.totalLength
  }

  lemma RegionFits(mem: seq<byte>, c: RingConfig, i: nat)
    requires Fits(mem, c) && i < c.slotCount
    ensures HEADER_BYTES <= SlotBase(c, i) <= RegionEnd(c, i) <= |mem|
  {
    SlotsFit(c, i);
  }

  ghost function SlotIn(mem: seq<byte>, c: RingConfig, i: nat): Slot
    requires Fits(mem, c) && i < c.slotCount
  {
    RegionFits(mem, c, i);
    DecodeSlot(mem[SlotBase(c, i)..RegionEnd(c, i)])
  }

  /** The slots are what the mapped bytes stand for. */
  ghost predicate Linked(slots: seq<Slot>, mem: seq<byte>, c: RingConfig) {
    && Fits(mem, c)
    && |slots| == c.slotCount
    && forall i {:trigger SlotIn(mem, c, i)} :: 0 <= i < c.slotCount ==> slots[i] == SlotIn(mem, c, i)
  }

  lemma RegionsApart(c: RingConfig, i: nat, j: nat)
    requires Accepted(c) && i < c.slotCount && j < c.slotCount && i != j
    ensures RegionEnd(c, i) <= SlotBase(c, j) || RegionEnd(c, j) <= SlotBase(c, i)
  {
    AcceptedSizes(c);
    if i < j { SlotsDisjoint(c, i, j); } else { SlotsDisjoint(c, j, i); }
  }

  lemma HeaderLength(mem: seq<byte>, c: RingConfig)
    requires Fits(mem, c)
    ensures |mem| >= HEADER_BYTES
  {
    AcceptedSizes(c);
  }

  /** Two states of a mapping with the same fixed header. */
  ghost predicate SameHeader(mem: seq<byte>, mem': seq<byte>) {
    |mem| == |mem'| >= HEADER_BYTES && mem'[..FIXED_HEADER_BYTES] == mem[..FIXED_HEADER_BYTES]
  }

  /** A store past the fixed header leaves it as it was. */
  lemma StoreKeepsHeader(mem: seq<byte>, offset: nat, field: seq<byte>)
    requires |mem| >= HEADER_BYTES && FIXED_HEADER_BYTES <= offset && offset + |field| <= |mem|
    ensures SameHeader(mem, Store(mem, offset, field))
  {
    LoadOther(mem, offset, field, 0, FIXED_HEADER_BYTES);
  }

  /** The two header counters. */
  ghost predicate Counters(mem: seq<byte>, dropped: u64, terminal: u64) {
    && |mem| >= HEADER_BYTES
    && U64At(mem, HEADER_DROPPED_COUNT) == dropped && U64At(mem, HEADER_TERMINAL_STATE) == terminal
  }

  /** A store inside slot `i` changes slot `i` alone, neither header counter and nothing of the fixed header. */
  lemma StoreInSlot(slots: seq<Slot>, mem: seq<byte>, c: RingConfig, i: nat, offset: nat, field: seq<byte>, dropped: u64, terminal: u64)
    requires Linked(slots, mem, c) && Counters(mem, dropped, terminal)
    requires i < c.slotCount && offset + |field| <= SLOT_HEADER_BYTES + c.payloadCapacity
    ensures SlotBase(c, i) + offset + |field| <= |mem|
    ensures SlotBase(c, i) <= RegionEnd(c, i) <= |mem|
    ensures slots[i] == DecodeSlot(mem[SlotBase(c, i)..RegionEnd(c, i)])
    ensures var mem' := Store(mem, SlotBase(c, i) + offset, field);
            && Linked(slots[i := DecodeSlot(Store(mem[SlotBase(c, i)..RegionEnd(c, i)], offset, field))], mem', c)
            && Counters(mem', dropped, terminal) && SameHeader(mem, mem')
  {
    RegionFits(mem, c, i);
    var at := SlotBase(c, i) + offset;
    var mem' := Store(mem, at, field);
    StoreKeepsHeader(mem, at, field);
    WindowOfStore(mem, SlotBase(c, i), RegionEnd(c, i), offset, field);
    assert slots[i] == SlotIn(mem, c, i);
    LoadOther(mem, at, field, HEADER_DROPPED_COUNT, HEADER_DROPPED_COUNT + 8);
    LoadOther(mem, at, field, HEADER_TERMINAL_STATE, HEADER_TERMINAL_STATE + 8);
    forall j | 0 <= j < c.slotCount && j != i ensures SlotIn(mem', c, j) == SlotIn(mem, c, j) {
      RegionFits(mem, c, j);
      RegionsApart(c, i, j);
      LoadOther(mem, at, field, SlotBase(c, j), RegionEnd(c, j));
    }
  }

  lemma WordWritten(slots: seq<Slot>, mem: seq<byte>, c: RingConfig, i: nat, w: Word, v: u64, dropped: u64, terminal: u64)
    requires Linked(slots, mem, c) && Counters(mem, dropped, terminal) && i < c.slotCount
    ensures SlotBase(c, i) + WordOffset(w) + 8 <= |mem|
    ensures var mem' := Store(mem, SlotBase(c, i) + WordOffset(w), Encode(v, 8));
            Linked(slots[i := SetWord(slots[i], w, v)], mem', c) && Counters(mem', dropped, terminal)
            && SameHeader(mem, mem')
  {
    StoreInSlot(slots, mem, c, i, WordOffset(w), Encode(v, 8), dropped, terminal);
    StoreWord(mem[SlotBase(c, i)..RegionEnd(c, i)], w, v);
  }

  lemma PlaneWritten(slots: seq<Slot>, mem: seq<byte>, c: RingConfig, i: nat, k: nat, p: PlaneLayout, dropped: u64, terminal: u64)
    requires Linked(slots, mem, c) && Counters(mem, dropped, terminal) && i < c.slotCount && k < MAX_PLANES
    ensures SlotBase(c, i) + PlaneOffset(k) + PLANE_BYTES <= |mem| && |slots[i].table| == MAX_PLANES
    ensures var mem' := Store(mem, SlotBase(c, i) + PlaneOffset(k), PlaneField(p));
            Linked(slots[i := slots[i].(table := slots[i].table[k := p])], mem', c) && Counters(mem', dropped, terminal)
            && SameHeader(mem, mem')
  {
    StoreInSlot(slots, mem, c, i, PlaneOffset(k), PlaneField(p), dropped, terminal);
    StorePlane(mem[SlotBase(c, i)..RegionEnd(c, i)], k, p);
  }

  lemma PayloadWritten(slots: seq<Slot>, mem: seq<byte>, c: RingConfig, i: nat, buffer: seq<byte>, dropped: u64, terminal: u64)
    requires Linked(slots, mem, c) && Counters(mem, dropped, terminal) && i < c.slotCount && |buffer| == c.payloadCapacity
    ensures SlotBase(c, i) + SLOT_HEADER_BYTES + |buffer| <= |mem|
    ensures var mem' := Store(mem, SlotBase(c, i) + SLOT_HEADER_BYTES, buffer);
            Linked(slots[i := slots[i].(buffer := buffer)], mem', c) && Counters(mem', dropped, terminal)
            && SameHeader(mem, mem')
  {
    StoreInSlot(slots, mem, c, i, SLOT_HEADER_BYTES, buffer, dropped, terminal);
    StorePayload(mem[SlotBase(c, i)..RegionEnd(c, i)], buffer);
  }

  /** A store inside the header changes no slot. */
  lemma StoreInHeader(slots: seq<Slot>, mem: seq<byte>, c: RingConfig, offset: nat, field: seq<byte>)
    requires Linked(slots, mem, c) && offset + |field| <= HEADER_BYTES
    ensures |mem| >= HEADER_BYTES
    ensures Linked(slots, Store(mem, offset, field), c)
  {
    HeaderLength(mem, c);
    var mem' := Store(mem, offset, field);
    forall j | 0 <= j < c.slotCount ensures SlotIn(mem', c, j) == SlotIn(mem, c, j) {
      RegionFits(mem, c, j);
      LoadOther(mem, offset, field, SlotBase(c, j), RegionEnd(c, j));
    }
  }

  lemma DroppedWritten(slots: seq<Slot>, mem: seq<byte>, c: RingConfig, dropped: u64, dropped': u64, terminal: u64)
    requires Linked(slots, mem, c) && Counters(mem, dropped, terminal)
    ensures |mem| >= HEADER_BYTES
    ensures var mem' := Store(mem, HEADER_DROPPED_COUNT, Encode(dropped', 8));
            Linked(slots, mem', c) && Counters(mem', dropped', terminal)
            && SameHeader(mem, mem')
  {
    StoreInHeader(slots, mem, c, HEADER_DROPPED_COUNT, Encode(dropped', 8));
    StoreKeepsHeader(mem, HEADER_DROPPED_COUNT, Encode(dropped', 8));
    Load64Same(mem, HEADER_DROPPED_COUNT, dropped');
    LoadOther(mem, HEADER_DROPPED_COUNT, Encode(dropped', 8), HEADER_TERMINAL_STATE, HEADER_TERMINAL_STATE + 8);
  }

  lemma TerminalWritten(slots: seq<Slot>, mem: seq<byte>, c: RingConfig, dropped: u64, terminal: u64, terminal': u64)
    requires Linked(slots, mem, c) && Counters(mem, dropped, terminal)
    ensures |mem| >= HEADER_BYTES
    ensures var mem' := Store(mem, HEADER_TERMINAL_STATE, Encode(terminal', 8));
            Linked(slots, mem', c) && Counters(mem', dropped, terminal')
            && SameHeader(mem, mem')
  {
    StoreInHeader(slots, mem, c, HEADER_TERMINAL_STATE, Encode(terminal', 8));
    StoreKeepsHeader(mem, HEADER_TERMINAL_STATE, Encode(terminal', 8));
    Load64Same(mem, HEADER_TERMINAL_STATE, terminal');
    LoadOther(mem, HEADER_TERMINAL_STATE, Encode(terminal', 8), HEADER_DROPPED_COUNT, HEADER_DROPPED_COUNT + 8);
  }

  ghost function WordOf(s: Slot, w: Word): u64 {
    match w
    case State => RawOf(s.state)
    case Sequence => s.sequence
    case Generation => s.generation
    case Timestamp => s.timestamp
    case Dropped => s.dropped
    case PayloadLength => s.payloadLength
    case PlaneCount => s.planeCount
  }

  /** The word a reader finds at a slot's field offset is that word of the slot. */
  lemma WordRead(slots: seq<Slot>, mem: seq<byte>, c: RingConfig, i: nat, w: Word)
    requires Linked(slots, mem, c) && i < c.slotCount
    ensures SlotBase(c, i) + WordOffset(w) + 8 <= |mem|
    ensures U64At(mem, SlotBase(c, i) + WordOffset(w)) == WordOf(slots[i], w)
    ensures StateOf(WordOf(slots[i], State)) == slots[i].state
  {
    RegionFits(mem, c, i);
    WindowOfWindow(mem, SlotBase(c, i), RegionEnd(c, i), WordOffset(w), WordOffset(w) + 8);
    assert slots[i] == SlotIn(mem, c, i);
    StateCodec(Free, WordIn(mem[SlotBase(c, i)..RegionEnd(c, i)], State));
  }

  lemma PlaneAtWindow(mem: seq<byte>, lo: nat, hi: nat, k: nat)
    requires lo + SLOT_HEADER_BYTES <= hi <= |mem| && k < MAX_PLANES
    ensures var at := lo + PlaneOffset(k);
            PlaneAt(mem[lo..hi], k) == PlaneLayout(U32At(mem, at), U32At(mem, at + 4), U32At(mem, at + 8))
  {
    var o := PlaneOffset(k);
    WindowOfWindow(mem, lo, hi, o, o + 4);
    WindowOfWindow(mem, lo, hi, o + 4, o + 8);
    WindowOfWindow(mem, lo, hi, o + 8, o + 12);
  }

  lemma TableOfSlot(slots: seq<Slot>, mem: seq<byte>, c: RingConfig, i: nat)
    requires Linked(slots, mem, c) && i < c.slotCount
    ensures SlotBase(c, i) + SLOT_HEADER_BYTES <= RegionEnd(c, i) <= |mem|
    ensures slots[i].table == TableIn(mem[SlotBase(c, i)..RegionEnd(c, i)])
  {
    RegionFits(mem, c, i);
    assert slots[i] == SlotIn(mem, c, i);
  }

  lemma PlaneRead(slots: seq<Slot>, mem: seq<byte>, c: RingConfig, i: nat, k: nat)
    requires Linked(slots, mem, c) && i < c.slotCount && k < MAX_PLANES
    ensures SlotBase(c, i) + PlaneOffset(k) + PLANE_BYTES <= |mem| && |slots[i].table| == MAX_PLANES
    ensures var at := SlotBase(c, i) + PlaneOffset(k);
            slots[i].table[k] == PlaneLayout(U32At(mem, at), U32At(mem, at + 4), U32At(mem, at + 8))
  {
    TableOfSlot(slots, mem, c, i);
    PlaneAtWindow(mem, SlotBase(c, i), RegionEnd(c, i), k);
  }

  lemma PayloadRead(slots: seq<Slot>, mem: seq<byte>, c: RingConfig, i: nat, n: nat)
    requires Linked(slots, mem, c) && i < c.slotCount && n <= c.payloadCapacity
    ensures SlotBase(c, i) + SLOT_HEADER_BYTES + n <= |mem| && |slots[i].buffer| == c.payloadCapacity
    ensures mem[SlotBase(c, i) + SLOT_HEADER_BYTES..SlotBase(c, i) + SLOT_HEADER_BYTES + n] == slots[i].buffer[..n]
  {
    RegionFits(mem, c, i);
    var lo, hi := SlotBase(c, i), RegionEnd(c, i);
    WindowOfWindow(mem, lo, hi, SLOT_HEADER_BYTES, SLOT_HEADER_BYTES + n);
    assert slots[i] == SlotIn(mem, c, i);
  }

  // ----- Zeroed memory -----

  lemma {:induction false} ZeroDecodes(s: seq<byte>)
    requires forall i :: 0 <= i < |s| ==> s[i] == 0
    ensures Decode(s) == 0
  {
    if s != [] { ZeroDecodes(s[1..]); }
  }

  /** Zeroed memory is a ring of Free, empty slots. */
  lemma ZeroedSlots(mem: seq<byte>, c: RingConfig)
    requires Fits(mem, c) && forall i :: 0 <= i < |mem| ==> mem[i] == 0
    ensures Linked(seq(c.slotCount, _ => EmptySlot(c)), mem, c) && Counters(mem, 0, 0)
  {
    HeaderLength(mem, c);
    ZeroDecodes(mem[HEADER_DROPPED_COUNT..HEADER_DROPPED_COUNT + 8]);
    ZeroDecodes(mem[HEADER_TERMINAL_STATE..HEADER_TERMINAL_STATE + 8]);
    forall i | 0 <= i < c.slotCount ensures SlotIn(mem, c, i) == EmptySlot(c) {
      RegionFits(mem, c, i);
      ZeroedSlot(mem[SlotBase(c, i)..RegionEnd(c, i)], c);
    }
  }

  lemma ZeroedSlot(s: seq<byte>, c: RingConfig)
    requires |s| == SLOT_HEADER_BYTES + c.payloadCapacity && forall i :: 0 <= i < |s| ==> s[i] == 0
    ensures DecodeSlot(s) == EmptySlot(c)
  {
    forall w: Word ensures WordIn(s, w) == 0 { ZeroDecodes(s[WordOffset(w)..WordOffset(w) + 8]); }
    forall k | 0 <= k < MAX_PLANES ensures PlaneAt(s, k) == PlaneLayout(0, 0, 0) {
      ZeroDecodes(s[PlaneOffset(k)..PlaneOffset(k) + 4]);
      ZeroDecodes(s[PlaneOffset(k) + 4..PlaneOffset(k) + 8]);
      ZeroDecodes(s[PlaneOffset(k) + 8..PlaneOffset(k) + 12]);
    }
    assert s[SLOT_HEADER_BYTES..] == seq(c.payloadCapacity, _ => 0);
  }
}
