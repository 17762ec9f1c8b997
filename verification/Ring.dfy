/**
  The frame ring as values: what the operations of adapters/shared-memory/src/ring.rs do to
  the slots, the dropped-frame counter, the terminal state and the broker's pin. Each
  operation runs under the mapping's OS lock, so each is one function from ring to ring.
  `BrokerMapping` proves that the byte-level methods compute exactly these functions.
 */
module Ring {
  import opened Prelude
  import opened Layout

  const TERMINAL_OPEN: u64 := 0
  const TERMINAL_CLOSED: u64 := 1

  /** The raw state word; a value outside 0..3 makes every read of it an error. */
  datatype SlotState = Free | Writing | Ready | Pinned | Corrupt(raw: u64)

  /**
    One slot. `table` is the fixed three-entry plane table, of which the first `planeCount`
    entries are meaningful; `buffer` is the whole payload area.
   */
  datatype Slot = Slot(
    state: SlotState,
    sequence: u64,
    generation: u64,
    timestamp: u64,
    dropped: u64,
    payloadLength: u64,
    planeCount: u64,
    table: seq<PlaneLayout>,
    buffer: seq<byte>)

  type Identity = seq<byte>

  datatype FrameLease = FrameLease(identity: Identity, slotIndex: nat, sequence: u64, generation: u64)

  datatype Frame = Frame(metadata: FrameMetadata, payload: seq<byte>)

  datatype RingError = InvalidData | Unavailable | CounterOverflow

  datatype RingState = RingState(
    config: RingConfig,
    identity: Identity,
    slots: seq<Slot>,
    dropped: u64,
    terminal: u64,
    pinned: Option<FrameLease>,
    closed: bool)

  predicate WellFormedSlot(s: Slot, config: RingConfig) {
    |s.table| == MAX_PLANES && |s.buffer| == config.payloadCapacity
  }

  /** Shape only: slot count, table and buffer sizes, and a pin that names an existing slot. */
  predicate WellFormed(r: RingState) {
    && r.config.payloadCapacity <= MAX_CAMERA_FRAME_BYTES
    && |r.slots| == r.config.slotCount
    && (forall i :: 0 <= i < |r.slots| ==> WellFormedSlot(r.slots[i], r.config))
    && (r.pinned.Some? ==> r.pinned.value.slotIndex < |r.slots|)
  }

  function SetState(slots: seq<Slot>, i: nat, state: SlotState): seq<Slot>
    requires i < |slots|
  {
    slots[i := slots[i].(state := state)]
  }

  // ----- Leasing -----

  /** Releases the pin when the pinned slot still carries the lease's sequence and generation. */
  function ReleasePin(r: RingState): (RingState, Result<(), RingError>)
    requires WellFormed(r)
  {
    match r.pinned
    case None => (r, Ok(()))
    case Some(lease) =>
      var released := r.(pinned := None);
      var s := r.slots[lease.slotIndex];
      if lease.identity != r.identity || s.sequence != lease.sequence || s.generation != lease.generation then
        (released, Ok(()))
      else if s.state.Corrupt? then
        (released, Err(InvalidData))
      else if s.state.Pinned? then
        (released.(slots := SetState(r.slots, lease.slotIndex, Free)), Ok(()))
      else
        (released, Ok(()))
  }

  /** The first Ready slot of greatest sequence among the first `n`. */
  function LatestReady(slots: seq<Slot>, n: nat): (r: Option<nat>)
    requires n <= |slots|
    ensures r.Some? ==> r.value < n && slots[r.value].state.Ready?
  {
    if n == 0 then None
    else
      var previous := LatestReady(slots, n - 1);
      if slots[n - 1].state.Ready? && (previous.None? || slots[n - 1].sequence > slots[previous.value].sequence)
      then Some(n - 1)
      else previous
  }

  predicate AnyCorrupt(slots: seq<Slot>) {
    exists i :: 0 <= i < |slots| && slots[i].state.Corrupt?
  }

  /** Releases the previous pin and pins the newest Ready frame, if there is one. */
  function NextLease(r: RingState): (RingState, Result<Option<FrameLease>, RingError>)
    requires WellFormed(r)
  {
    var (released, outcome) := ReleasePin(r);
    if outcome.Err? then (released, Err(outcome.error))
    else if AnyCorrupt(released.slots) then (released, Err(InvalidData))
    else
      match LatestReady(released.slots, |released.slots|)
      case None => (released, Ok(None))
      case Some(i) =>
        var s := released.slots[i];
        var lease := FrameLease(r.identity, i, s.sequence, s.generation);
        (released.(slots := SetState(released.slots, i, Pinned), pinned := Some(lease)), Ok(Some(lease)))
  }

  // ----- Publishing -----

  /**
    The scan for a slot to write: the first Free slot stops it, a corrupt state word fails it,
    otherwise the first Ready slot of least sequence is reused.
   */
  function SelectFrom(slots: seq<Slot>, i: nat, oldest: Option<nat>): (r: Result<Option<nat>, RingError>)
    requires i <= |slots|
    requires oldest.Some? ==> oldest.value < |slots| && slots[oldest.value].state.Ready?
    ensures r.Ok? && r.value.Some? ==>
              r.value.value < |slots| && (slots[r.value.value].state.Free? || slots[r.value.value].state.Ready?)
    decreases |slots| - i
  {
    if i == |slots| then Ok(oldest)
    else
      match slots[i].state
      case Free => Ok(Some(i))
      case Ready =>
        SelectFrom(slots, i + 1, if oldest.None? || slots[i].sequence < slots[oldest.value].sequence then Some(i) else oldest)
      case Corrupt(_) => Err(InvalidData)
      case Writing => SelectFrom(slots, i + 1, oldest)
      case Pinned => SelectFrom(slots, i + 1, oldest)
  }

  function SelectWritable(slots: seq<Slot>): Result<Option<nat>, RingError> {
    SelectFrom(slots, 0, None)
  }

  /**
    What the payload copier did: the bytes it left in the whole destination, and the length it
    returned (`None` when it failed).
   */
  datatype Copier = Copier(buffer: seq<byte>, returned: Option<nat>)

  /** What a locked publish did, for the history of a run. */
  datatype PublishEffect =
    | Committed(index: nat, overwrote: bool)
    | CopyFailed(index: nat, reused: bool)
    | NoSlot
    | CounterFull
    | StateCorrupt

  function IncrementDropped(r: RingState): Option<RingState> {
    if r.dropped < U64_MAX then Some(r.(dropped := r.dropped + 1)) else None
  }

  /** Does the publisher's own check of the copied payload succeed? */
  predicate PayloadAccepted(config: RingConfig, m: FrameMetadata, copier: Copier) {
    && copier.returned.Some?
    && copier.returned.value <= config.payloadCapacity
    && ValidatePlanes(m.format, m.width, m.height, m.planes, copier.returned.value)
  }

  /** The plane table after the metadata's planes were written over its first entries. */
  function Overlay(table: seq<PlaneLayout>, planes: seq<PlaneLayout>): seq<PlaneLayout>
    requires |planes| <= |table|
  {
    planes + table[|planes|..]
  }

  lemma OverlayGrows(table: seq<PlaneLayout>, planes: seq<PlaneLayout>, k: nat)
    requires k < |planes| <= |table|
    ensures Overlay(table, planes[..k])[k := planes[k]] == Overlay(table, planes[..k + 1])
  {
  }

  function CommittedSlot(s: Slot, m: FrameMetadata, copier: Copier, dropped: u64): Slot
    requires |m.planes| <= |s.table|
    requires copier.returned.Some? && copier.returned.value <= U64_MAX
    requires |m.planes| <= U64_MAX
  {
    Slot(Ready, m.sequence, m.generation, m.timestamp, dropped, copier.returned.value, |m.planes|,
         Overlay(s.table, m.planes), copier.buffer)
  }

  /** The body of a publish that holds the exclusive lock. */
  function PublishLocked(r: RingState, m: FrameMetadata, copier: Copier): (RingState, PublishEffect)
    requires WellFormed(r)
    requires |copier.buffer| == r.config.payloadCapacity
  {
    match SelectWritable(r.slots)
    case Err(_) => (r, StateCorrupt)
    case Ok(None) =>
      (match IncrementDropped(r)
       case None => (r, CounterFull)
       case Some(counted) => (counted, NoSlot))
    case Ok(Some(i)) =>
      var reuse := r.slots[i].state.Ready?;
      match (if reuse then IncrementDropped(r) else Some(r))
      case None => (r, CounterFull)
      case Some(counted) =>
        if PayloadAccepted(r.config, m, copier) then
          (counted.(slots := r.slots[i := CommittedSlot(r.slots[i], m, copier, counted.dropped)]), Committed(i, reuse))
        else
          (counted.(slots := r.slots[i := r.slots[i].(buffer := copier.buffer)]), CopyFailed(i, reuse))
  }

  // ----- Reading -----

  /** Rebuilds the metadata of a slot from its header words and the negotiated format. */
  function ReadMetadata(config: RingConfig, s: Slot): Result<FrameMetadata, RingError>
    requires WellFormedSlot(s, config)
  {
    if s.payloadLength > config.payloadCapacity || s.planeCount > MAX_PLANES then Err(InvalidData)
    else
      var planes := s.table[..s.planeCount];
      var f := config.format;
      if !WellFormedPlanes(planes) then Err(InvalidData)
      else if !ValidatePlanes(f.pixel, f.width, f.height, planes, s.payloadLength) then Err(InvalidData)
      else if !ValidDimensions(f.pixel, f.width, f.height) then Err(InvalidData)
      else if !ValidatePlanes(f.pixel, f.width, f.height, planes, MAX_CAMERA_FRAME_BYTES) then Err(InvalidData)
      else Ok(FrameMetadata(f.pixel, f.width, f.height, s.sequence, s.generation, s.timestamp, s.dropped, planes))
  }

  function ReadFrame(config: RingConfig, s: Slot): Result<Frame, RingError>
    requires WellFormedSlot(s, config)
  {
    match ReadMetadata(config, s)
    case Err(e) => Err(e)
    case Ok(m) => Ok(Frame(m, s.buffer[..s.payloadLength]))
  }

  /** The broker's own view of a frame it has just leased. */
  function FrameView(r: RingState, lease: FrameLease): Result<Frame, RingError>
    requires WellFormed(r) && lease.slotIndex < |r.slots|
  {
    var s := r.slots[lease.slotIndex];
    if lease.identity != r.identity || !s.state.Pinned? || s.sequence != lease.sequence || s.generation != lease.generation
    then Err(InvalidData)
    else ReadFrame(r.config, s)
  }

  /**
    A reader's copy under the shared lock. `expected` is the generation a reader may have been
    told to insist on; readers opened from a descriptor insist on none.
   */
  function Copy(r: RingState, expected: Option<u64>, lease: FrameLease): Result<Option<Frame>, RingError>
    requires WellFormed(r)
  {
    if lease.identity != r.identity then Ok(None)
    else if r.terminal != TERMINAL_OPEN then Ok(None)
    else if lease.slotIndex >= |r.slots| then Ok(None)
    else
      var s := r.slots[lease.slotIndex];
      if s.state.Corrupt? then Err(InvalidData)
      else if !s.state.Pinned? then Ok(None)
      else if (expected.Some? && expected.value != s.generation) || s.generation != lease.generation || s.sequence != lease.sequence
      then Ok(None)
      else
        match ReadFrame(r.config, s)
        case Err(e) => Err(e)
        case Ok(f) => Ok(Some(f))
  }

  // ----- The operations a broker and its writer offer -----

  /** How an attempt at the exclusive lock ended. */
  datatype Lock = Acquired | WouldBlock(retried: bool) | LockFailed

  datatype Op =
    | Publish(metadata: FrameMetadata, copier: Copier, lock: Lock)
    | Lease(lock: Lock)
    | Release(lock: Lock)
    | Acquire(lock: Lock, shared: bool)
    | Close(locked: bool, unlinked: bool)

  /** The copier is handed exactly the payload area. */
  predicate ShapedOp(config: RingConfig, op: Op) {
    op.Publish? ==> |op.copier.buffer| == config.payloadCapacity
  }

  /** Moreover the metadata came out of its checked constructor, the only way to make one. */
  predicate ValidOp(config: RingConfig, op: Op) {
    ShapedOp(config, op) && (op.Publish? ==> ValidMetadata(op.metadata))
  }

  datatype Effect =
    | Nothing
    | Published(publish: PublishEffect)
    | ContentionCounted
    | Leased(lease: FrameLease)

  function CloseRing(r: RingState, locked: bool, unlinked: bool): RingState {
    if r.closed || !locked then r
    else r.(terminal := TERMINAL_CLOSED, closed := unlinked)
  }

  function LeaseEffect(outcome: Result<Option<FrameLease>, RingError>): Effect {
    if outcome.Ok? && outcome.value.Some? then Leased(outcome.value.value) else Nothing
  }

  function Step(r: RingState, op: Op): (RingState, Effect)
    requires WellFormed(r) && ShapedOp(r.config, op)
  {
    match op
    case Publish(m, copier, Acquired) =>
      if !ValidDimensions(m.format, m.width, m.height) then (r, Nothing)
      else
        var (next, effect) := PublishLocked(r, m, copier);
        (next, Published(effect))
    case Publish(m, copier, WouldBlock(retried)) =>
      if !ValidDimensions(m.format, m.width, m.height) then (r, Nothing)
      else if retried && IncrementDropped(r).Some? then (IncrementDropped(r).value, ContentionCounted)
      else (r, Nothing)
    case Publish(_, _, LockFailed) => (r, Nothing)
    case Lease(lock) =>
      if lock != Acquired then (r, Nothing)
      else
        var (next, outcome) := NextLease(r);
        (next, LeaseEffect(outcome))
    case Release(lock) =>
      if lock != Acquired then (r, Nothing) else (ReleasePin(r).0, Nothing)
    case Acquire(lock, _) =>
      if lock != Acquired then (r, Nothing)
      else
        var (next, outcome) := NextLease(r);
        (next, LeaseEffect(outcome))
    case Close(locked, unlinked) => (CloseRing(r, locked, unlinked), Nothing)
  }

  /** What an acquire returns: the frame it has just leased, seen under the shared lock. */
  function AcquireOutcome(r: RingState, lock: Lock, shared: bool): Result<Option<Frame>, RingError>
    requires WellFormed(r)
  {
    if lock != Acquired then Err(Unavailable)
    else
      LeaseKeepsShape(r);
      var (next, outcome) := NextLease(r);
      match outcome
      case Err(e) => Err(e)
      case Ok(None) => Ok(None)
      case Ok(Some(lease)) =>
        if !shared then Err(Unavailable)
        else
          match FrameView(next, lease)
          case Err(e) => Err(e)
          case Ok(f) => Ok(Some(f))
  }

  /** A freshly created, zero-filled mapping with its header written. */
  function EmptySlot(config: RingConfig): Slot {
    Slot(Free, 0, 0, 0, 0, 0, 0, seq(MAX_PLANES, _ => PlaneLayout(0, 0, 0)), seq(config.payloadCapacity, _ => 0))
  }

  function Initial(config: RingConfig, identity: Identity): RingState {
    RingState(config, identity, seq(config.slotCount, _ => EmptySlot(config)), 0, TERMINAL_OPEN, None, false)
  }

  lemma ReleaseKeepsShape(r: RingState)
    requires WellFormed(r)
    ensures var r' := ReleasePin(r).0;
            WellFormed(r') && r'.config == r.config && r'.identity == r.identity
  {
  }

  lemma LeaseKeepsShape(r: RingState)
    requires WellFormed(r)
    ensures var r' := NextLease(r).0;
            WellFormed(r') && r'.config == r.config && r'.identity == r.identity
  {
    ReleaseKeepsShape(r);
  }

  lemma PublishKeepsShape(r: RingState, m: FrameMetadata, copier: Copier)
    requires WellFormed(r) && |copier.buffer| == r.config.payloadCapacity
    ensures var r' := PublishLocked(r, m, copier).0;
            WellFormed(r') && r'.config == r.config && r'.identity == r.identity
  {
    var next := PublishLocked(r, m, copier).0;
    assert |next.slots| == |r.slots|;
    forall i | 0 <= i < |next.slots| ensures WellFormedSlot(next.slots[i], r.config) {
      assert WellFormedSlot(r.slots[i], r.config);
    }
  }

  lemma StepKeepsShape(r: RingState, op: Op)
    requires WellFormed(r) && ShapedOp(r.config, op)
    ensures WellFormed(Step(r, op).0)
    ensures Step(r, op).0.config == r.config && Step(r, op).0.identity == r.identity
  {
    match op
    case Publish(m, copier, _) => PublishKeepsShape(r, m, copier);
    case Lease(_) => LeaseKeepsShape(r);
    case Release(_) => ReleaseKeepsShape(r);
    case Acquire(_, _) => LeaseKeepsShape(r);
    case Close(_, _) =>
  }
}
