/**
  The mapping header: what `write_header` stores and `validate_header` accepts
  (adapters/shared-memory/src/ring.rs).
 */
module RingHeader {
  import opened Prelude
  import opened Arithmetic
  import opened LittleEndian
  import opened Layout
  import opened Ring
  import opened RingBytes

  /** "SHRING04" in ASCII. */
  const MAGIC: seq<byte> := [83, 72, 82, 73, 78, 71, 48, 52]
  const LAYOUT_MAJOR := 1
  const LAYOUT_MINOR := 0

  datatype Field = Field(offset: nat, bytes: seq<byte>)

  function FieldEnd(f: Field): nat { f.offset + |f.bytes| }

  /** Each field ends before the next begins, and all end inside the header. */
  ghost predicate Ascending(fields: seq<Field>) {
    && (forall i :: 0 <= i < |fields| ==> FieldEnd(fields[i]) <= HEADER_BYTES)
    && (forall i, j :: 0 <= i < j < |fields| ==> FieldEnd(fields[i]) <= fields[j].offset)
  }

  ghost function StoreAll(mem: seq<byte>, fields: seq<Field>): (m: seq<byte>)
    requires |mem| >= HEADER_BYTES && Ascending(fields)
    ensures |m| == |mem|
  {
    if fields == [] then mem
    else
      var last := |fields| - 1;
      Store(StoreAll(mem, fields[..last]), fields[last].offset, fields[last].bytes)
  }

  /** Every stored field reads back as it was written. */
  lemma {:induction false} StoredFieldReads(mem: seq<byte>, fields: seq<Field>, k: nat)
    requires |mem| >= HEADER_BYTES && Ascending(fields) && k < |fields|
    ensures StoreAll(mem, fields)[fields[k].offset..FieldEnd(fields[k])] == fields[k].bytes
    decreases |fields|
  {
    var last := |fields| - 1;
    var before := StoreAll(mem, fields[..last]);
    if k == last {
      LoadSame(before, fields[last].offset, fields[last].bytes);
    } else {
      StoredFieldReads(mem, fields[..last], k);
      LoadOther(before, fields[last].offset, fields[last].bytes, fields[k].offset, FieldEnd(fields[k]));
    }
  }

  /** The header fields leave a range they do not overlap as it was. */
  lemma {:induction false} StoresMiss(mem: seq<byte>, fields: seq<Field>, lo: nat, hi: nat)
    requires |mem| >= HEADER_BYTES && Ascending(fields) && lo <= hi <= |mem|
    requires forall i :: 0 <= i < |fields| ==> FieldEnd(fields[i]) <= lo || hi <= fields[i].offset
    ensures StoreAll(mem, fields)[lo..hi] == mem[lo..hi]
    decreases |fields|
  {
    if fields != [] {
      var last := |fields| - 1;
      StoresMiss(mem, fields[..last], lo, hi);
      LoadOther(StoreAll(mem, fields[..last]), fields[last].offset, fields[last].bytes, lo, hi);
    }
  }

  function FormatCode(p: PixelFormat): u32 {
    match p case Nv12 => 1 case Yuyv => 2 case Mjpeg => 3
  }

  function FormatOf(code: u32): Option<PixelFormat> {
    match code case 1 => Some(Nv12) case 2 => Some(Yuyv) case 3 => Some(Mjpeg) case _ => None
  }

  /** The header of `c`, declaring `total` bytes: thirteen fields in the order the source writes them. */
  function HeaderFields(c: RingConfig, total: u64, identity: Identity, tokenHash: seq<byte>): seq<Field>
    requires c.slotCount <= U64_MAX && c.slotStride <= U64_MAX && c.payloadCapacity <= U64_MAX
  {
    [Field(0, MAGIC), Field(8, Encode(LAYOUT_MAJOR, 2)), Field(10, Encode(LAYOUT_MINOR, 2)),
     Field(16, Encode(total, 8)), Field(24, Encode(c.slotCount, 8)), Field(32, Encode(c.slotStride, 8)),
     Field(40, Encode(FormatCode(c.format.pixel), 4)), Field(44, Encode(c.format.width, 4)), Field(48, Encode(c.format.height, 4)),
     Field(56, Encode(c.payloadCapacity, 8)), Field(64, identity), Field(96, tokenHash), Field(136, Encode(TERMINAL_OPEN, 8))]
  }

  lemma HeaderAscends(c: RingConfig, total: u64, identity: Identity, tokenHash: seq<byte>)
    requires c.slotCount <= U64_MAX && c.slotStride <= U64_MAX && c.payloadCapacity <= U64_MAX
    requires |identity| == 32 && |tokenHash| == 32
    ensures Ascending(HeaderFields(c, total, identity, tokenHash))
  {
    var f := HeaderFields(c, total, identity, tokenHash);
    assert |f| == 13;
    NeighboursAscend(f);
  }

  /** Neighbouring fields in order means all pairs in order. */
  lemma {:induction false} NeighboursAscend(f: seq<Field>)
    requires forall i :: 0 <= i < |f| - 1 ==> FieldEnd(f[i]) <= f[i + 1].offset
    requires f == [] || FieldEnd(f[|f| - 1]) <= HEADER_BYTES
    ensures Ascending(f)
  {
    forall i, j | 0 <= i < j < |f| ensures FieldEnd(f[i]) <= f[j].offset { PairAscends(f, i, j); }
    forall i | 0 <= i < |f| ensures FieldEnd(f[i]) <= HEADER_BYTES {
      if i < |f| - 1 { PairAscends(f, i, |f| - 1); }
    }
  }

  lemma {:induction false} PairAscends(f: seq<Field>, i: nat, j: nat)
    requires forall k :: 0 <= k < |f| - 1 ==> FieldEnd(f[k]) <= f[k + 1].offset
    requires i < j < |f|
    ensures FieldEnd(f[i]) <= f[j].offset
    decreases j - i
  {
    if i + 1 < j {
      PairAscends(f, i + 1, j);
      assert FieldEnd(f[i]) <= f[i + 1].offset;
    }
  }

  /** What `validate_header` reads, in order, and when it accepts. */
  function ValidateHeader(mem: seq<byte>, total: nat, identity: Identity, tokenHash: seq<byte>): Result<RingConfig, RingError>
    requires |mem| >= HEADER_BYTES
  {
    if mem[0..8] != MAGIC || U16At(mem, 8) != LAYOUT_MAJOR || U16At(mem, 10) > LAYOUT_MINOR then Err(InvalidData)
    else if U64At(mem, 16) != total || |mem| < U64At(mem, 16) then Err(InvalidData)
    else
      match FormatOf(U32At(mem, 40))
      case None => Err(InvalidData)
      case Some(pixel) =>
        var format := CameraFormat(pixel, U32At(mem, 44), U32At(mem, 48));
        if !ValidFormat(format) then Err(InvalidData)
        else
          match NewRingConfig(format, U64At(mem, 24), U64At(mem, 56))
          case Err(_) => Err(InvalidData)
          case Ok(c) =>
            if c.slotStride != U64At(mem, 32) then Err(InvalidData)
            else if mem[64..96] != identity || mem[96..128] != tokenHash then Err(InvalidData)
            else Ok(c)
  }

  /** Memory in which every one of the fields reads back. */
  ghost predicate FieldsRead(h: seq<byte>, fields: seq<Field>) {
    forall k :: 0 <= k < |fields| ==> FieldEnd(fields[k]) <= |h| && h[fields[k].offset..FieldEnd(fields[k])] == fields[k].bytes
  }

  lemma StoredFieldsRead(mem: seq<byte>, fields: seq<Field>)
    requires |mem| >= HEADER_BYTES && Ascending(fields)
    ensures FieldsRead(StoreAll(mem, fields), fields)
  {
    forall k | 0 <= k < |fields|
      ensures StoreAll(mem, fields)[fields[k].offset..FieldEnd(fields[k])] == fields[k].bytes
    {
      StoredFieldReads(mem, fields, k);
    }
  }

  lemma Field64(h: seq<byte>, fields: seq<Field>, k: nat, offset: nat, v: u64)
    requires FieldsRead(h, fields) && k < |fields| && fields[k] == Field(offset, Encode(v, 8))
    ensures offset + 8 <= |h| && U64At(h, offset) == v
  {
    WidthsOfWords();
    DecodeEncode(v, 8);
  }

  lemma Field32(h: seq<byte>, fields: seq<Field>, k: nat, offset: nat, v: u32)
    requires FieldsRead(h, fields) && k < |fields| && fields[k] == Field(offset, Encode(v, 4))
    ensures offset + 4 <= |h| && U32At(h, offset) == v
  {
    WidthsOfWords();
    DecodeEncode(v, 4);
  }

  lemma Field16(h: seq<byte>, fields: seq<Field>, k: nat, offset: nat, v: nat)
    requires FieldsRead(h, fields) && k < |fields| && fields[k] == Field(offset, Encode(v, 2)) && v <= U16_MAX
    ensures offset + 2 <= |h| && U16At(h, offset) == v
  {
    WidthsOfWords();
    DecodeEncode(v, 2);
  }

  lemma FieldBytes(h: seq<byte>, fields: seq<Field>, k: nat, offset: nat, bytes: seq<byte>)
    requires FieldsRead(h, fields) && k < |fields| && fields[k] == Field(offset, bytes)
    ensures offset + |bytes| <= |h| && h[offset..offset + |bytes|] == bytes
  {
  }

  /** The words of a header of `c`: what kind of mapping this is and who may open it. */
  ghost predicate HeaderNames(h: seq<byte>, identity: Identity, tokenHash: seq<byte>) {
    && |h| >= HEADER_BYTES
    && h[0..8] == MAGIC && U16At(h, 8) == LAYOUT_MAJOR && U16At(h, 10) == LAYOUT_MINOR
    && h[64..96] == identity && h[96..128] == tokenHash
  }

  ghost predicate HeaderSizes(h: seq<byte>, c: RingConfig, total: u64) {
    && |h| >= HEADER_BYTES
    && U64At(h, 16) == total && U64At(h, 24) == c.slotCount && U64At(h, 32) == c.slotStride && U64At(h, 56) == c.payloadCapacity
  }

  ghost predicate HeaderFormat(h: seq<byte>, f: CameraFormat) {
    && |h| >= HEADER_BYTES
    && U32At(h, 40) == FormatCode(f.pixel) && U32At(h, 44) == f.width && U32At(h, 48) == f.height
  }

  ghost predicate HeaderOf(h: seq<byte>, c: RingConfig, total: u64, identity: Identity, tokenHash: seq<byte>) {
    match c
    case RingConfig(format, _, _, _, _) =>
      HeaderNames(h, identity, tokenHash) && HeaderSizes(h, c, total) && HeaderFormat(h, format)
  }

  lemma PrefixWords(h: seq<byte>, h': seq<byte>, lo: nat, hi: nat)
    requires SameHeader(h, h') && lo <= hi <= FIXED_HEADER_BYTES
    ensures h'[lo..hi] == h[lo..hi]
  {
    forall i | lo <= i < hi ensures h'[i] == h[i] {
      assert h'[i] == h'[..FIXED_HEADER_BYTES][i] == h[..FIXED_HEADER_BYTES][i] == h[i];
    }
  }

  /** A header is its fixed bytes: whatever else changes, it stays the header of `c`. */
  lemma HeaderPersists(h: seq<byte>, h': seq<byte>, c: RingConfig, total: u64, identity: Identity, tokenHash: seq<byte>)
    requires HeaderOf(h, c, total, identity, tokenHash) && SameHeader(h, h')
    ensures HeaderOf(h', c, total, identity, tokenHash)
  {
    PrefixWords(h, h', 0, 8);
    PrefixWords(h, h', 8, 10);
    PrefixWords(h, h', 10, 12);
    PrefixWords(h, h', 16, 24);
    PrefixWords(h, h', 24, 32);
    PrefixWords(h, h', 32, 40);
    PrefixWords(h, h', 40, 44);
    PrefixWords(h, h', 44, 48);
    PrefixWords(h, h', 48, 52);
    PrefixWords(h, h', 56, 64);
    PrefixWords(h, h', 64, 96);
    PrefixWords(h, h', 96, 128);
  }

  lemma FieldsMakeNames(h: seq<byte>, f: seq<Field>, identity: Identity, tokenHash: seq<byte>)
    requires |h| >= HEADER_BYTES && |identity| == 32 && |tokenHash| == 32 && FieldsRead(h, f) && |f| == 13
    requires f[0] == Field(0, MAGIC) && f[1] == Field(8, Encode(LAYOUT_MAJOR, 2)) && f[2] == Field(10, Encode(LAYOUT_MINOR, 2))
    requires f[10] == Field(64, identity) && f[11] == Field(96, tokenHash)
    ensures HeaderNames(h, identity, tokenHash)
  {
    FieldBytes(h, f, 0, 0, MAGIC);
    Field16(h, f, 1, 8, LAYOUT_MAJOR);
    Field16(h, f, 2, 10, LAYOUT_MINOR);
    FieldBytes(h, f, 10, 64, identity);
    FieldBytes(h, f, 11, 96, tokenHash);
  }

  lemma FieldsMakeSizes(h: seq<byte>, f: seq<Field>, c: RingConfig, total: u64)
    requires |h| >= HEADER_BYTES && FieldsRead(h, f) && |f| == 13
    requires c.slotCount <= U64_MAX && c.slotStride <= U64_MAX && c.payloadCapacity <= U64_MAX
    requires f[3] == Field(16, Encode(total, 8)) && f[4] == Field(24, Encode(c.slotCount, 8))
    requires f[5] == Field(32, Encode(c.slotStride, 8)) && f[9] == Field(56, Encode(c.payloadCapacity, 8))
    ensures HeaderSizes(h, c, total)
  {
    Field64(h, f, 3, 16, total);
    Field64(h, f, 4, 24, c.slotCount);
    Field64(h, f, 5, 32, c.slotStride);
    Field64(h, f, 9, 56, c.payloadCapacity);
  }

  lemma FieldsMakeFormat(h: seq<byte>, f: seq<Field>, format: CameraFormat)
    requires |h| >= HEADER_BYTES && FieldsRead(h, f) && |f| == 13
    requires f[6] == Field(40, Encode(FormatCode(format.pixel), 4))
    requires f[7] == Field(44, Encode(format.width, 4)) && f[8] == Field(48, Encode(format.height, 4))
    ensures HeaderFormat(h, format)
  {
    Field32(h, f, 6, 40, FormatCode(format.pixel));
    Field32(h, f, 7, 44, format.width);
    Field32(h, f, 8, 48, format.height);
  }

  lemma FieldsMakeHeader(h: seq<byte>, c: RingConfig, total: u64, identity: Identity, tokenHash: seq<byte>)
    requires |h| >= HEADER_BYTES && |identity| == 32 && |tokenHash| == 32
    requires c.slotCount <= U64_MAX && c.slotStride <= U64_MAX && c.payloadCapacity <= U64_MAX
    requires FieldsRead(h, HeaderFields(c, total, identity, tokenHash))
    ensures HeaderOf(h, c, total, identity, tokenHash)
  {
    var f := HeaderFields(c, total, identity, tokenHash);
    FieldsMakeNames(h, f, identity, tokenHash);
    FieldsMakeSizes(h, f, c, total);
    FieldsMakeFormat(h, f, c.format);
  }

  /** A header of `c` is accepted with `c`, by exactly those who present what it was written with. */
  lemma HeaderAcceptedIff(
    h: seq<byte>, c: RingConfig, total: u64, identity: Identity, tokenHash: seq<byte>,
    total': nat, identity': Identity, tokenHash': seq<byte>)
    requires Accepted(c) && HeaderOf(h, c, total, identity, tokenHash)
    ensures ValidateHeader(h, total', identity', tokenHash') ==
            if total' == total <= |h| && identity' == identity && tokenHash' == tokenHash then Ok(c) else Err(InvalidData)
  {
    AcceptedSizes(c);
    assert FormatOf(FormatCode(c.format.pixel)) == Some(c.format.pixel);
    assert NewRingConfig(CameraFormat(c.format.pixel, U32At(h, 44), U32At(h, 48)), U64At(h, 24), U64At(h, 56)) == Ok(c);
  }

  /** Nothing else is accepted: whatever validates is a header of the configuration it yields. */
  lemma AcceptedIsHeaderOf(h: seq<byte>, c: RingConfig, total: nat, identity: Identity, tokenHash: seq<byte>)
    requires |h| >= HEADER_BYTES
    ensures ValidateHeader(h, total, identity, tokenHash) == Ok(c) <==>
            Accepted(c) && total <= |h| && total <= U64_MAX && HeaderOf(h, c, total, identity, tokenHash)
  {
    if Accepted(c) && total <= |h| && total <= U64_MAX && HeaderOf(h, c, total, identity, tokenHash) {
      HeaderAcceptedIff(h, c, total, identity, tokenHash, total, identity, tokenHash);
    }
  }

  /**
    Round trip: whatever was in the memory, the header written for an accepted configuration is
    accepted with that very configuration, by exactly those who present the declared length, the
    identity and the token hash it was written with.
   */
  lemma HeaderRoundTrip(
    mem: seq<byte>, c: RingConfig, total: u64, identity: Identity, tokenHash: seq<byte>,
    total': nat, identity': Identity, tokenHash': seq<byte>)
    requires Accepted(c) && |mem| >= HEADER_BYTES && |identity| == 32 && |tokenHash| == 32
    requires c.slotCount <= U64_MAX && c.slotStride <= U64_MAX && c.payloadCapacity <= U64_MAX
    requires Ascending(HeaderFields(c, total, identity, tokenHash))
    ensures var h := StoreAll(mem, HeaderFields(c, total, identity, tokenHash));
            && HeaderOf(h, c, total, identity, tokenHash) && U64At(h, HEADER_TERMINAL_STATE) == TERMINAL_OPEN
            && ValidateHeader(h, total', identity', tokenHash') ==
               if total' == total <= |mem| && identity' == identity && tokenHash' == tokenHash then Ok(c) else Err(InvalidData)
  {
    var fields := HeaderFields(c, total, identity, tokenHash);
    StoredFieldsRead(mem, fields);
    var h := StoreAll(mem, fields);
    FieldsMakeHeader(h, c, total, identity, tokenHash);
    Field64(h, fields, 12, HEADER_TERMINAL_STATE, TERMINAL_OPEN);
    HeaderAcceptedIff(h, c, total, identity, tokenHash, total', identity', tokenHash');
  }

  /** The slots of an accepted configuration end within a length exactly when its total does. */
  lemma SlotsWithinIff(c: RingConfig, length: nat)
    requires Accepted(c)
    ensures (forall i: nat :: i < c.slotCount ==> SlotBase(c, i) + c.slotStride <= length) <==> c.totalLength <= length
  {
    AcceptedSizes(c);
    LastSlotEnds(c);
    forall i: nat | i < c.slotCount ensures SlotBase(c, i) + c.slotStride <= c.totalLength { SlotsFit(c, i); }
  }

  lemma LastSlotEnds(c: RingConfig)
    requires c.slotCount >= 1 && c.totalLength == HEADER_BYTES + c.slotStride * c.slotCount
    ensures SlotBase(c, c.slotCount - 1) + c.slotStride == c.totalLength
  {
    MulDistributes(c.slotCount, 1, c.slotStride);
  }

  /**
    A reader maps exactly the length its descriptor names, and the header check makes sure that the
    header declares the same. It never compares that length with what the header's own fields imply,
    so the slots of an accepted header lie inside the declared and mapped length exactly when it is
    as long as the configuration needs.
   */
  lemma AcceptedHeaderBoundsIff(mem: seq<byte>, total: nat, identity: Identity, tokenHash: seq<byte>)
    requires |mem| >= HEADER_BYTES && ValidateHeader(mem, total, identity, tokenHash).Ok?
    ensures var c := ValidateHeader(mem, total, identity, tokenHash).value;
            && U64At(mem, 16) == total <= |mem|
            && ((forall i: nat :: i < c.slotCount ==> SlotBase(c, i) + c.slotStride <= total) <==> c.totalLength <= total)
            && ((forall i: nat :: i < c.slotCount ==> SlotBase(c, i) + c.slotStride <= |mem|) <==> c.totalLength <= |mem|)
  {
    var c := ValidateHeader(mem, total, identity, tokenHash).value;
    SlotsWithinIff(c, total);
    SlotsWithinIff(c, |mem|);
  }

  /** The header of `c` over 192 zero bytes, declaring just those: a mapping without any slots. */
  ghost function ShortMapping(c: RingConfig, identity: Identity, tokenHash: seq<byte>): (h: seq<byte>)
    requires Accepted(c) && |identity| == 32 && |tokenHash| == 32
  {
    AcceptedSizes(c);
    HeaderAscends(c, HEADER_BYTES, identity, tokenHash);
    StoreAll(seq(HEADER_BYTES, _ => 0), HeaderFields(c, HEADER_BYTES, identity, tokenHash))
  }

  /** For every accepted configuration there is a mapping that validates and holds none of its slots. */
  lemma ShortMappingIsAccepted(c: RingConfig, identity: Identity, tokenHash: seq<byte>)
    requires Accepted(c) && |identity| == 32 && |tokenHash| == 32
    ensures var h := ShortMapping(c, identity, tokenHash);
            && |h| == HEADER_BYTES && ValidateHeader(h, HEADER_BYTES, identity, tokenHash) == Ok(c)
            && forall i: nat :: i < c.slotCount ==> |h| <= SlotBase(c, i)
  {
    AcceptedSizes(c);
    HeaderAscends(c, HEADER_BYTES, identity, tokenHash);
    HeaderRoundTrip(seq(HEADER_BYTES, _ => 0), c, HEADER_BYTES, identity, tokenHash, HEADER_BYTES, identity, tokenHash);
    SlotsFollowHeader(c);
  }

  lemma SlotsFollowHeader(c: RingConfig)
    requires Accepted(c)
    ensures forall i: nat :: i < c.slotCount ==> HEADER_BYTES <= SlotBase(c, i)
  {
    forall i: nat | i < c.slotCount ensures HEADER_BYTES <= SlotBase(c, i) { SlotsFit(c, i); }
  }
}
