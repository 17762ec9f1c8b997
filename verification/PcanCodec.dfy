/**
  The PCAN message codec: CAN and CAN FD frames to and from the driver's message structures
  (adapters/pcan/src/channel.rs), with the frame rules of crates/robot-hal-can/src/frame.rs.
 */
module PcanCodec {
  import opened Prelude

  const RTR: bv8 := 0x01
  const EXTENDED: bv8 := 0x02
  const FD: bv8 := 0x04
  const BRS: bv8 := 0x08
  const ESI: bv8 := 0x10
  const ERRFRAME: bv8 := 0x40
  const STATUS: bv8 := 0x80

  const CLASSIC_BYTES := 8
  const FD_BYTES := 64

  datatype CanId = Standard(value: nat) | Extended(value: nat)

  datatype CanFrame =
    | ClassicData(id: CanId, data: seq<byte>)
    | ClassicRemote(id: CanId, dlc: byte)
    | FdData(id: CanId, data: seq<byte>, bitrateSwitch: bool, errorStateIndicator: bool)
    | Error(classes: seq<nat>, data: seq<byte>)

  /** The driver's message: `data` is the whole 8-byte or 64-byte buffer. */
  datatype Message = Message(id: u32, kind: bv8, length: byte, data: seq<byte>)

  datatype CodecError = UnsupportedFrame | InvalidFrame

  // ----- Frame rules -----

  predicate ValidId(id: CanId) {
    match id case Standard(v) => v <= 0x7FF case Extended(v) => v <= 0x1FFF_FFFF
  }

  predicate ValidFdLength(n: nat) {
    n <= 8 || n in {12, 16, 20, 24, 32, 48, 64}
  }

  predicate ValidFrame(f: CanFrame) {
    match f
    case ClassicData(id, data) => ValidId(id) && |data| <= CLASSIC_BYTES
    case ClassicRemote(id, dlc) => ValidId(id) && dlc <= CLASSIC_BYTES
    case FdData(id, data, _, _) => ValidId(id) && ValidFdLength(|data|)
    case Error(classes, data) => 1 <= |classes| <= 10 && |data| <= CLASSIC_BYTES
  }

  // ----- Data length codes -----

  function LenToDlc(n: nat): Option<byte> {
    if n <= 8 then Some(n)
    else match n
      case 12 => Some(9)
      case 16 => Some(10)
      case 20 => Some(11)
      case 24 => Some(12)
      case 32 => Some(13)
      case 48 => Some(14)
      case 64 => Some(15)
      case _ => None
  }

  function DlcToLen(dlc: byte): Option<nat> {
    if dlc <= 8 then Some(dlc)
    else match dlc
      case 9 => Some(12)
      case 10 => Some(16)
      case 11 => Some(20)
      case 12 => Some(24)
      case 13 => Some(32)
      case 14 => Some(48)
      case 15 => Some(64)
      case _ => None
  }

  /** The two tables are inverse partial functions, defined on the valid lengths and the codes 0 to 15. */
  lemma DlcTablesAreInverse(n: nat, dlc: byte)
    ensures LenToDlc(n) == Some(dlc) <==> DlcToLen(dlc) == Some(n)
    ensures LenToDlc(n).Some? <==> ValidFdLength(n)
    ensures DlcToLen(dlc).Some? <==> dlc <= 15
  {
  }

  /** A longer frame has a larger code; with sixteen lengths and the codes 0 to 15 that fixes both tables. */
  lemma LongerHasLargerCode(n: nat, m: nat)
    requires ValidFdLength(n) && ValidFdLength(m) && n < m
    ensures LenToDlc(n).Some? && LenToDlc(m).Some? && LenToDlc(n).value < LenToDlc(m).value
  {
  }

  // ----- Identifiers -----

  predicate Has(kind: bv8, flag: bv8) { kind & flag != 0 }

  function RawId(id: CanId): (u32, bv8)
    requires ValidId(id)
  {
    match id case Standard(v) => (v, 0) case Extended(v) => (v, EXTENDED)
  }

  function FromRawId(id: u32, kind: bv8): Option<CanId> {
    if Has(kind, EXTENDED) then (if id <= 0x1FFF_FFFF then Some(Extended(id)) else None)
    else if id <= U16_MAX && id <= 0x7FF then Some(Standard(id))
    else None
  }

  // ----- Decoding -----

  function Classic(id: CanId, data: seq<byte>): Result<Option<CanFrame>, CodecError> {
    var f := ClassicData(id, data);
    if ValidFrame(f) then Ok(Some(f)) else Err(InvalidFrame)
  }

  function Remote(id: CanId, dlc: byte): Result<Option<CanFrame>, CodecError> {
    var f := ClassicRemote(id, dlc);
    if ValidFrame(f) then Ok(Some(f)) else Err(InvalidFrame)
  }

  function FromClassicMessage(m: Message): Result<Option<CanFrame>, CodecError>
    requires |m.data| == CLASSIC_BYTES
  {
    if Has(m.kind, STATUS | ERRFRAME) then Ok(None)
    else
      match FromRawId(m.id, m.kind)
      case None => Err(InvalidFrame)
      case Some(id) =>
        if Has(m.kind, RTR) then (if Has(m.kind, FD) then Err(InvalidFrame) else Remote(id, m.length))
        else if m.length > CLASSIC_BYTES then Err(InvalidFrame)
        else Classic(id, m.data[..m.length])
  }

  function FromFdMessage(m: Message): Result<Option<CanFrame>, CodecError>
    requires |m.data| == FD_BYTES
  {
    if Has(m.kind, STATUS | ERRFRAME) then Ok(None)
    else
      match FromRawId(m.id, m.kind)
      case None => Err(InvalidFrame)
      case Some(id) =>
        if Has(m.kind, RTR) then Remote(id, m.length)
        else if Has(m.kind, FD) then
          match DlcToLen(m.length)
          case None => Err(InvalidFrame)
          case Some(n) =>
            var f := FdData(id, m.data[..n], Has(m.kind, BRS), Has(m.kind, ESI));
            if ValidFrame(f) then Ok(Some(f)) else Err(InvalidFrame)
        else if m.length > CLASSIC_BYTES then Err(InvalidFrame)
        else Classic(id, m.data[..m.length])
  }

  // ----- What a message says -----

  predicate CarriesId(id: CanId, m: Message) { m.id == id.value && (Has(m.kind, EXTENDED) <==> id.Extended?) }

  /** A Classical message carries a data frame's bytes or, flagged as remote, a requested length. */
  predicate CarriesClassic(f: CanFrame, m: Message) {
    match f
    case ClassicData(id, data) => CarriesId(id, m) && !Has(m.kind, RTR) && m.length == |data| && data <= m.data
    case ClassicRemote(id, dlc) => CarriesId(id, m) && Has(m.kind, RTR) && !Has(m.kind, FD) && m.length == dlc
    case _ => false
  }

  /** An FD message also carries FD frames, flagged as such, with their length code and both of their flags. */
  predicate CarriesFd(f: CanFrame, m: Message) {
    match f
    case ClassicData(id, data) =>
      CarriesId(id, m) && !Has(m.kind, RTR) && !Has(m.kind, FD) && m.length == |data| && data <= m.data
    case ClassicRemote(id, dlc) => CarriesId(id, m) && Has(m.kind, RTR) && m.length == dlc
    case FdData(id, data, bitrateSwitch, errorStateIndicator) =>
      && CarriesId(id, m) && !Has(m.kind, RTR) && Has(m.kind, FD) && LenToDlc(|data|) == Some(m.length) && data <= m.data
      && (Has(m.kind, BRS) <==> bitrateSwitch) && (Has(m.kind, ESI) <==> errorStateIndicator)
    case Error(_, _) => false
  }

  /** Decoding a Classical message yields a frame exactly when it is a valid one that the message carries. */
  lemma ClassicDecodesIff(m: Message, f: CanFrame)
    requires |m.data| == CLASSIC_BYTES
    ensures FromClassicMessage(m) == Ok(Some(f)) <==> !Has(m.kind, STATUS) && !Has(m.kind, ERRFRAME) && ValidFrame(f) && CarriesClassic(f, m)
    ensures FromClassicMessage(m) == Ok(None) <==> Has(m.kind, STATUS) || Has(m.kind, ERRFRAME)
  {
    StatusBits(m.kind);
    if f.ClassicData? && m.length <= CLASSIC_BYTES { PrefixIff(f.data, m.data, m.length); }
  }

  lemma PrefixIff(data: seq<byte>, buffer: seq<byte>, n: nat)
    requires n <= |buffer|
    ensures data == buffer[..n] <==> |data| == n && data <= buffer
  {
    if |data| == n && data <= buffer { assert buffer[..n] == data; }
  }

  lemma StatusBits(kind: bv8)
    ensures Has(kind, STATUS | ERRFRAME) <==> Has(kind, STATUS) || Has(kind, ERRFRAME)
  {
  }

  /** The same for FD messages. */
  lemma FdDecodesIff(m: Message, f: CanFrame)
    requires |m.data| == FD_BYTES
    ensures FromFdMessage(m) == Ok(Some(f)) <==> !Has(m.kind, STATUS) && !Has(m.kind, ERRFRAME) && ValidFrame(f) && CarriesFd(f, m)
    ensures FromFdMessage(m) == Ok(None) <==> Has(m.kind, STATUS) || Has(m.kind, ERRFRAME)
  {
    StatusBits(m.kind);
    if f.ClassicData? && m.length <= CLASSIC_BYTES { PrefixIff(f.data, m.data, m.length); }
    if f.FdData? {
      DlcTablesAreInverse(|f.data|, m.length);
      if DlcToLen(m.length).Some? { PrefixIff(f.data, m.data, DlcToLen(m.length).value); }
    }
  }

  // ----- Encoding -----

  /** A buffer of `size` bytes with `data` copied over its zeroed start. */
  function Padded(data: seq<byte>, size: nat): (buffer: seq<byte>)
    requires |data| <= size
    ensures |buffer| == size && buffer[..|data|] == data && ZeroFrom(buffer, |data|)
  {
    data + seq(size - |data|, _ => 0)
  }

  /**
    Fills a Classical message. Fails for CAN FD and error frames, and otherwise yields a message
    that decodes to the very frame.
   */
  method ToClassicMessage(frame: CanFrame) returns (r: Result<Message, CodecError>)
    requires ValidFrame(frame)
    ensures r.Ok? <==> frame.ClassicData? || frame.ClassicRemote?
    ensures r.Ok? ==> |r.value.data| == CLASSIC_BYTES && FromClassicMessage(r.value) == Ok(Some(frame)) && CanonicalClassic(r.value)
    ensures r.Ok? ==> CarriesClassic(frame, r.value)
  {
    if frame.Error? { return Err(UnsupportedFrame); }
    var (id, kind) := RawId(frame.id);
    var message := Message(id, kind, 0, Padded([], CLASSIC_BYTES));
    match frame {
      case ClassicData(_, data) =>
        message := message.(length := |data|, data := Padded(data, CLASSIC_BYTES));
      case ClassicRemote(_, dlc) =>
        message := message.(kind := message.kind | RTR, length := dlc);
      case FdData(_, _, _, _) => return Err(UnsupportedFrame);
      case Error(_, _) => return Err(UnsupportedFrame);
    }
    r := Ok(message);
  }

  /** Fills an FD message. Fails only for error frames; everything else decodes back to itself. */
  method ToFdMessage(frame: CanFrame) returns (r: Result<Message, CodecError>)
    requires ValidFrame(frame)
    ensures r.Ok? <==> !frame.Error?
    ensures r.Ok? ==> |r.value.data| == FD_BYTES && FromFdMessage(r.value) == Ok(Some(frame)) && CanonicalFd(r.value)
    ensures r.Ok? ==> CarriesFd(frame, r.value)
  {
    if frame.Error? { return Err(UnsupportedFrame); }
    var (id, kind) := RawId(frame.id);
    var message := Message(id, kind, 0, Padded([], FD_BYTES));
    match frame {
      case ClassicData(_, data) =>
        message := message.(length := |data|, data := Padded(data, FD_BYTES));
      case ClassicRemote(_, dlc) =>
        message := message.(kind := message.kind | RTR, length := dlc);
      case FdData(_, data, bitrateSwitch, errorStateIndicator) =>
        message := message.(kind := message.kind | FD);
        if bitrateSwitch { message := message.(kind := message.kind | BRS); }
        if errorStateIndicator { message := message.(kind := message.kind | ESI); }
        var dlc := LenToDlc(|data|);
        if dlc.None? { return Err(InvalidFrame); }
        DlcTablesAreInverse(|data|, dlc.value);
        message := message.(length := dlc.value, data := Padded(data, FD_BYTES));
      case Error(_, _) => return Err(UnsupportedFrame);
    }
    r := Ok(message);
  }

  // ----- What decoding forgets -----

  predicate ZeroFrom(data: seq<byte>, n: nat) {
    forall i :: n <= i < |data| ==> data[i] == 0
  }

  /** No flag the decoder ignores, no byte past the frame's length. */
  predicate CanonicalClassic(m: Message) {
    if Has(m.kind, RTR) then m.kind & !(RTR | EXTENDED) == 0 && ZeroFrom(m.data, 0)
    else m.kind & !EXTENDED == 0 && ZeroFrom(m.data, m.length)
  }

  predicate CanonicalFd(m: Message) {
    if Has(m.kind, RTR) then m.kind & !(RTR | EXTENDED) == 0 && ZeroFrom(m.data, 0)
    else if Has(m.kind, FD) then
      m.kind & !(EXTENDED | FD | BRS | ESI) == 0 && DlcToLen(m.length).Some? && ZeroFrom(m.data, DlcToLen(m.length).value)
    else m.kind & !EXTENDED == 0 && ZeroFrom(m.data, m.length)
  }

  lemma SameData(a: seq<byte>, b: seq<byte>, n: nat)
    requires |a| == |b| && n <= |a| && a[..n] == b[..n] && ZeroFrom(a, n) && ZeroFrom(b, n)
    ensures a == b
  {
    forall i | 0 <= i < |a| ensures a[i] == b[i] {
      if i < n { assert a[i] == a[..n][i] && b[i] == b[..n][i]; }
    }
  }

  /** Among canonical FD messages decoding is injective: a frame has one canonical message, the encoder's. */
  lemma CanonicalFdIsUnique(a: Message, b: Message, f: CanFrame)
    requires |a.data| == FD_BYTES && |b.data| == FD_BYTES && CanonicalFd(a) && CanonicalFd(b)
    requires FromFdMessage(a) == Ok(Some(f)) && FromFdMessage(b) == Ok(Some(f))
    ensures a == b
  {
    SameIdFlag(a.kind, b.kind, a.id, b.id);
    match f
    case ClassicData(_, data) => SameData(a.data, b.data, |data|);
    case ClassicRemote(_, _) => SameData(a.data, b.data, 0);
    case FdData(_, data, _, _) =>
      DlcTablesAreInverse(|data|, a.length);
      DlcTablesAreInverse(|data|, b.length);
      SameData(a.data, b.data, |data|);
  }

  lemma CanonicalClassicIsUnique(a: Message, b: Message, f: CanFrame)
    requires |a.data| == CLASSIC_BYTES && |b.data| == CLASSIC_BYTES && CanonicalClassic(a) && CanonicalClassic(b)
    requires FromClassicMessage(a) == Ok(Some(f)) && FromClassicMessage(b) == Ok(Some(f))
    ensures a == b
  {
    SameIdFlag(a.kind, b.kind, a.id, b.id);
    match f
    case ClassicData(_, data) => SameData(a.data, b.data, |data|);
    case ClassicRemote(_, _) => SameData(a.data, b.data, 0);
  }

  lemma SameIdFlag(kindA: bv8, kindB: bv8, idA: u32, idB: u32)
    requires FromRawId(idA, kindA).Some? && FromRawId(idA, kindA) == FromRawId(idB, kindB)
    ensures Has(kindA, EXTENDED) == Has(kindB, EXTENDED) && idA == idB
  {
  }
}
