/** The theorems about every run of the ring: any operations, any lock outcomes, any copiers. */
module RingTheorems {
  import opened Prelude
  import opened Layout
  import opened Ring
  import opened RingInvariant
  import opened RingHistory

  ghost predicate ValidOps(config: RingConfig, ops: seq<Op>) {
    forall i :: 0 <= i < |ops| ==> ValidOp(config, ops[i])
  }

  ghost function FirstWorld(config: RingConfig, identity: Identity): World {
    World(Initial(config, identity), History([], seq(config.slotCount, _ => None), [], 0, 0, 0, 0))
  }

  lemma FirstWorldInv(config: RingConfig, identity: Identity)
    requires Accepted(config)
    ensures WorldInv(FirstWorld(config, identity))
  {
    InitialInvariant(config, identity);
    CountOfNone(Initial(config, identity).slots);
  }

  /** The world after a run. */
  ghost function After(config: RingConfig, identity: Identity, ops: seq<Op>): (w: World)
    requires Accepted(config) && ValidOps(config, ops)
    ensures Shaped(w) && w.ring.config == config && w.ring.identity == identity
  {
    if ops == [] then
      FirstWorldInv(config, identity);
      FirstWorld(config, identity)
    else
      var last := |ops| - 1;
      var w := After(config, identity, ops[..last]);
      assert ValidOp(config, ops[last]);
      AdvanceKeepsShape(w, ops[last]);
      Advance(w, ops[last])
  }

  /** The invariant holds of every reachable world, in particular the ring invariant of every reachable ring. */
  lemma {:induction false} EveryRunKeepsInvariant(config: RingConfig, identity: Identity, ops: seq<Op>)
    requires Accepted(config) && ValidOps(config, ops)
    ensures WorldInv(After(config, identity, ops))
    decreases |ops|
  {
    if ops == [] {
      FirstWorldInv(config, identity);
    } else {
      var last := |ops| - 1;
      EveryRunKeepsInvariant(config, identity, ops[..last]);
      AdvancePreserves(After(config, identity, ops[..last]), ops[last]);
    }
  }

  lemma AfterOneMore(config: RingConfig, identity: Identity, ops: seq<Op>, n: nat)
    requires Accepted(config) && ValidOps(config, ops) && n < |ops|
    ensures After(config, identity, ops[..n + 1]) == Advance(After(config, identity, ops[..n]), ops[n])
  {
    assert ops[..n + 1][..n] == ops[..n];
  }

  /** In every reachable state a publish that gets the lock finds a slot: it commits, or its copier failed. */
  lemma PublishAlwaysFindsSlot(config: RingConfig, identity: Identity, ops: seq<Op>, m: FrameMetadata, copier: Copier)
    requires Accepted(config) && ValidOps(config, ops) && |copier.buffer| == config.payloadCapacity
    ensures var r := After(config, identity, ops).ring;
            var e := PublishLocked(r, m, copier).1;
            || (e.Committed? && PayloadAccepted(config, m, copier))
            || (e.CopyFailed? && !PayloadAccepted(config, m, copier))
            || (e.CounterFull? && r.dropped == U64_MAX)
  {
    EveryRunKeepsInvariant(config, identity, ops);
    AcceptedSizes(config);
    PublishFindsSlot(After(config, identity, ops).ring, m, copier);
  }

  /** Frames and drops are conserved: nothing is leased, overwritten or counted out of thin air. */
  lemma Conservation(config: RingConfig, identity: Identity, ops: seq<Op>)
    requires Accepted(config) && ValidOps(config, ops)
    ensures var w := After(config, identity, ops);
            var h := w.history;
            && |h.commits| == |h.issues| + CountReady(w.ring.slots) + h.overwritten
            && w.ring.dropped == h.overwritten + h.failedReuses + h.contention
  {
    EveryRunKeepsInvariant(config, identity, ops);
    NoSlotDropNeverHappens(config, identity, ops);
  }

  lemma {:induction false} NoSlotDropNeverHappens(config: RingConfig, identity: Identity, ops: seq<Op>)
    requires Accepted(config) && ValidOps(config, ops)
    ensures After(config, identity, ops).history.noSlot == 0
    decreases |ops|
  {
    if ops != [] {
      var last := |ops| - 1;
      NoSlotDropNeverHappens(config, identity, ops[..last]);
      AcceptedSizes(config);
      EveryRunKeepsInvariant(config, identity, ops[..last]);
      NoSlotTallyStays(After(config, identity, ops[..last]), ops[last]);
    }
  }

  lemma NoSlotTallyStays(w: World, op: Op)
    requires WorldInv(w) && ValidOp(w.ring.config, op) && |w.ring.slots| >= 2
    ensures Advance(w, op).history.noSlot == w.history.noSlot
  {
    if op.Publish? && op.lock == Acquired {
      PublishFindsSlot(w.ring, op.metadata, op.copier);
    }
  }

  /** No commit is ever leased twice. */
  lemma LeasedAtMostOnce(config: RingConfig, identity: Identity, ops: seq<Op>, k: nat, l: nat)
    requires Accepted(config) && ValidOps(config, ops)
    requires k < l < |After(config, identity, ops).history.issues|
    ensures After(config, identity, ops).history.issues[k].commit != After(config, identity, ops).history.issues[l].commit
  {
    EveryRunKeepsInvariant(config, identity, ops);
  }

  // ----- Lease validity -----

  /** Every publisher used the negotiated format and dimensions. */
  ghost predicate Negotiated(config: RingConfig, ops: seq<Op>) {
    forall i :: 0 <= i < |ops| && ops[i].Publish? ==>
      && ops[i].metadata.format == config.format.pixel
      && ops[i].metadata.width == config.format.width
      && ops[i].metadata.height == config.format.height
  }

  ghost predicate CommitsNegotiated(config: RingConfig, commits: seq<Commit>) {
    forall c :: 0 <= c < |commits| ==>
      && commits[c].metadata.format == config.format.pixel
      && commits[c].metadata.width == config.format.width
      && commits[c].metadata.height == config.format.height
  }

  lemma {:induction false} NegotiatedCommits(config: RingConfig, identity: Identity, ops: seq<Op>)
    requires Accepted(config) && ValidOps(config, ops) && Negotiated(config, ops)
    ensures CommitsNegotiated(config, After(config, identity, ops).history.commits)
    decreases |ops|
  {
    if ops != [] {
      var last := |ops| - 1;
      NegotiatedCommits(config, identity, ops[..last]);
      EveryRunKeepsInvariant(config, identity, ops[..last]);
      NegotiatedStep(config, After(config, identity, ops[..last]), ops[last]);
    }
  }

  lemma NegotiatedStep(config: RingConfig, w: World, op: Op)
    requires WorldInv(w) && ValidOp(w.ring.config, op) && Negotiated(config, [op])
    requires CommitsNegotiated(config, w.history.commits)
    ensures CommitsNegotiated(config, Advance(w, op).history.commits)
  {
    CommitsGrow(w, op);
    assert [op][0] == op;
  }

  /** An operation adds at most one commit, and that one carries the published metadata. */
  lemma CommitsGrow(w: World, op: Op)
    requires WorldInv(w) && ValidOp(w.ring.config, op)
    ensures var before, after := w.history.commits, Advance(w, op).history.commits;
            || after == before
            || (op.Publish? && |after| == |before| + 1 && after[..|before|] == before && after[|before|].metadata == op.metadata)
  {
    if op.Publish? && op.lock == Acquired { PublishIs(w, op); }
  }

  /** What a reader is owed for a commit: the negotiated format, the commit's words, its payload. */
  ghost function Delivered(config: RingConfig, c: Commit): Frame {
    var m, f := c.metadata, config.format;
    Frame(FrameMetadata(f.pixel, f.width, f.height, m.sequence, m.generation, m.timestamp, c.droppedAt, m.planes), c.payload)
  }

  /** A slot that holds an accepted commit of the negotiated format can be read back. */
  lemma HeldSlotReads(config: RingConfig, s: Slot, c: Commit)
    requires WellFormedSlot(s, config) && Describes(s, c)
    requires CommitsAccepted(config, [c]) && CommitsNegotiated(config, [c])
    ensures ReadFrame(config, s).Ok?
  {
    var m := [c][0].metadata;
    assert ValidMetadata(m) && ValidatePlanes(m.format, m.width, m.height, m.planes, |[c][0].payload|);
    assert m.format == config.format.pixel && m.width == config.format.width && m.height == config.format.height;
  }

  /** Reading a slot that describes a commit never yields anything but that commit's metadata. */
  lemma ReadYieldsCommit(config: RingConfig, s: Slot, c: Commit)
    requires WellFormedSlot(s, config) && Describes(s, c) && ReadFrame(config, s).Ok?
    ensures var f := ReadFrame(config, s).value;
            && f.metadata == Delivered(config, c).metadata
            && f.payload == s.buffer[..s.payloadLength]
  {
  }

  /**
    Lease validity: in every reachable state, whoever presents whatever lease, a reader gets a
    frame exactly when the mapping is open, the lease is the broker's current pin and of the
    generation the reader insists on, if it does; otherwise it gets nothing, and it never sees an error.
   */
  lemma LeaseValidity(config: RingConfig, identity: Identity, ops: seq<Op>, expected: Option<u64>, lease: FrameLease)
    requires Accepted(config) && ValidOps(config, ops) && Negotiated(config, ops)
    ensures var r := After(config, identity, ops).ring;
            && Copy(r, expected, lease).Ok?
            && (Copy(r, expected, lease).value.Some? <==>
                  r.terminal == TERMINAL_OPEN && r.pinned == Some(lease)
                  && (expected.Some? ==> expected.value == lease.generation))
  {
    EveryRunKeepsInvariant(config, identity, ops);
    NegotiatedCommits(config, identity, ops);
    LeaseValidityAt(After(config, identity, ops), expected, lease);
  }

  lemma LeaseValidityAt(w: World, expected: Option<u64>, lease: FrameLease)
    requires WorldInv(w) && CommitsNegotiated(w.ring.config, w.history.commits)
    ensures Copy(w.ring, expected, lease).Ok?
    ensures Copy(w.ring, expected, lease).value.Some? <==>
            w.ring.terminal == TERMINAL_OPEN && w.ring.pinned == Some(lease)
            && (expected.Some? ==> expected.value == lease.generation)
  {
    var i := lease.slotIndex;
    if i < |w.ring.slots| && w.ring.slots[i].state.Pinned? {
      var c := w.history.commits[w.history.holder[i].value];
      HeldSlotReads(w.ring.config, w.ring.slots[i], c);
    }
  }

  /** A released pin leaves no lease readable, whatever lease is presented. */
  lemma ReleasedLeaseIsDead(w: World, lease: FrameLease)
    requires WorldInv(w) && CommitsNegotiated(w.ring.config, w.history.commits)
    ensures Copy(ReleaseWorld(w).ring, None, lease) == Ok(None)
  {
    ReleasePreserves(w);
    LeaseValidityAt(ReleaseWorld(w), None, lease);
  }

  /** With distinct keys the newest issue is the only one whose lease is the pin it made. */
  lemma OnlyNewestIsPinned(w: World, k: nat)
    requires WorldInv(w) && DistinctKeys(w.history.commits) && k < |w.history.issues| - 1
    requires w.ring.pinned == Some(w.history.issues[|w.history.issues| - 1].lease)
    ensures w.ring.pinned != Some(w.history.issues[k].lease)
  {
    var n := |w.history.issues| - 1;
    PinKnowsItsCommit(w, n);
    assert w.history.issues[k].commit != w.history.issues[n].commit;
    if w.ring.pinned == Some(w.history.issues[k].lease) {
      PinKnowsItsCommit(w, k);
      assert false;
    }
  }

  /** With distinct keys, the next lease operation kills every lease issued before it. */
  lemma SupersededLeaseIsDead(w: World, k: nat)
    requires Shaped(w) && WorldInv(w) && CommitsNegotiated(w.ring.config, w.history.commits)
    requires DistinctKeys(w.history.commits) && k < |w.history.issues|
    ensures var w' := LeaseWorld(w);
            WellFormed(w'.ring) && Copy(w'.ring, None, w.history.issues[k].lease) == Ok(None)
  {
    var w' := LeaseWorld(w);
    LeaseKeeps(w);
    LeaseRecords(w);
    LeaseValidityAt(w', None, w.history.issues[k].lease);
    if w'.ring.pinned.Some? {
      assert w'.history.issues[k] == w.history.issues[k];
      OnlyNewestIsPinned(w', k);
    }
  }

  /** A lease operation keeps the commits, appends at most one issue, and that one is the new pin. */
  lemma LeaseRecords(w: World)
    requires WorldInv(w)
    ensures var w' := LeaseWorld(w);
            && w'.history.commits == w.history.commits
            && (w'.ring.pinned.None? ==> w'.history.issues == w.history.issues)
            && (w'.ring.pinned.Some? ==>
                  |w'.history.issues| == |w.history.issues| + 1 && w'.history.issues[..|w.history.issues|] == w.history.issues
                  && w'.history.issues[|w.history.issues|].lease == w'.ring.pinned.value)
  {
    LeaseIs(w);
    ReleasePreserves(w);
    var released := ReleaseWorld(w);
    var latest := LatestReady(released.ring.slots, |released.ring.slots|);
    if latest.Some? { PinKeepsHolders(released, latest.value); }
  }

  /** The world after more operations. */
  ghost function Continue(w: World, ops: seq<Op>): (w': World)
    requires Shaped(w) && ValidOps(w.ring.config, ops)
    ensures Shaped(w')
    decreases |ops|
  {
    if ops == [] then w
    else
      AdvanceKeepsShape(w, ops[0]);
      assert forall i :: 0 <= i < |ops| - 1 ==> ops[1..][i] == ops[i + 1];
      Continue(Advance(w, ops[0]), ops[1..])
  }

  /** Once CLOSED is written no later operation reopens the mapping, so no lease is ever readable again. */
  lemma {:induction false} CloseIsFinal(w: World, ops: seq<Op>, lease: FrameLease)
    requires Shaped(w) && ValidOps(w.ring.config, ops) && w.ring.terminal == TERMINAL_CLOSED
    ensures Continue(w, ops).ring.terminal == TERMINAL_CLOSED
    ensures Copy(Continue(w, ops).ring, None, lease) == Ok(None)
    decreases |ops|
  {
    if ops != [] {
      TerminalStays(w, ops[0]);
      AdvanceKeepsShape(w, ops[0]);
      assert forall i :: 0 <= i < |ops| - 1 ==> ops[1..][i] == ops[i + 1];
      CloseIsFinal(Advance(w, ops[0]), ops[1..], lease);
    }
  }

  lemma TerminalStays(w: World, op: Op)
    requires Shaped(w) && ValidOp(w.ring.config, op)
    ensures w.ring.terminal == TERMINAL_CLOSED ==> Advance(w, op).ring.terminal == TERMINAL_CLOSED
    ensures op == Close(true, op.Close? && op.unlinked) && !w.ring.closed ==> Advance(w, op).ring.terminal == TERMINAL_CLOSED
  {
  }

  ghost predicate DistinctKeys(commits: seq<Commit>) {
    forall a, b :: 0 <= a < b < |commits| ==>
      (commits[a].metadata.sequence, commits[a].metadata.generation) != (commits[b].metadata.sequence, commits[b].metadata.generation)
  }

  /** With distinct (sequence, generation) pairs, an issued lease equal to the pin is the one the pin was issued for. */
  lemma PinKnowsItsCommit(w: World, k: nat)
    requires WorldInv(w) && DistinctKeys(w.history.commits) && k < |w.history.issues|
    requires w.ring.pinned == Some(w.history.issues[k].lease)
    ensures w.history.holder[w.ring.pinned.value.slotIndex] == Some(w.history.issues[k].commit)
  {
    var l :| 0 <= l < |w.history.issues| && IssueOfPin(w, l);
    var a, b := w.history.issues[k].commit, w.history.issues[l].commit;
    if a < b { assert false; } else if b < a { assert false; }
  }

  /** Whatever else the run did, a copied frame's metadata is that of the publish its lease was issued for. */
  lemma MetadataIntegrity(config: RingConfig, identity: Identity, ops: seq<Op>, k: nat, expected: Option<u64>)
    requires Accepted(config) && ValidOps(config, ops)
    requires var h := After(config, identity, ops).history; DistinctKeys(h.commits) && k < |h.issues|
    requires var w := After(config, identity, ops);
             var got := Copy(w.ring, expected, w.history.issues[k].lease);
             got.Ok? && got.value.Some?
    ensures var w := After(config, identity, ops);
            var f := Copy(w.ring, expected, w.history.issues[k].lease).value.value;
            var c := w.history.commits[w.history.issues[k].commit];
            f.metadata == Delivered(config, c).metadata && |f.payload| == |c.payload|
  {
    EveryRunKeepsInvariant(config, identity, ops);
    var w := After(config, identity, ops);
    PinKnowsItsCommit(w, k);
    var i := w.history.issues[k].lease.slotIndex;
    ReadYieldsCommit(config, w.ring.slots[i], w.history.commits[w.history.issues[k].commit]);
  }

  // ----- Payload integrity -----

  /** Every held slot still has the payload of the commit it holds. */
  ghost predicate Faithful(w: World) {
    && HoldersAgree(w) && WellFormed(w.ring) && CommitsAccepted(w.ring.config, w.history.commits)
    && forall i :: 0 <= i < |w.ring.slots| && w.history.holder[i].Some? ==> FaithfulSlot(w, i)
  }

  ghost predicate FaithfulSlot(w: World, i: nat)
    requires HoldersAgree(w) && WellFormed(w.ring) && CommitsAccepted(w.ring.config, w.history.commits)
    requires i < |w.ring.slots| && w.history.holder[i].Some?
  {
    var c := w.history.commits[w.history.holder[i].value];
    assert Describes(w.ring.slots[i], c) && |c.payload| <= w.ring.config.payloadCapacity;
    assert WellFormedSlot(w.ring.slots[i], w.ring.config);
    w.ring.slots[i].buffer[..|c.payload|] == c.payload
  }

  /**
    The only harmful event: a publish that took over a Ready slot, failed, and left other bytes
    where that slot's frame was. Decidable from the ring, the copier's bytes and its result.
   */
  ghost predicate CleanStep(w: World, op: Op)
    requires WellFormed(w.ring) && ValidOp(w.ring.config, op)
  {
    op.Publish? && op.lock == Acquired ==>
      var e := PublishLocked(w.ring, op.metadata, op.copier).1;
      e.CopyFailed? && e.reused ==>
        var s := w.ring.slots[e.index];
        s.payloadLength <= |s.buffer| && op.copier.buffer[..s.payloadLength] == s.buffer[..s.payloadLength]
  }

  lemma FaithfulAfterCommit(w: World, op: Op, i: nat, counter: u64)
    requires WorldInv(w) && Faithful(w) && CanCommit(w, i, op)
    requires counter == w.ring.dropped + if w.ring.slots[i].state.Ready? then 1 else 0
    ensures WorldInv(CommitInto(w, i, op, counter)) && Faithful(CommitInto(w, i, op, counter))
  {
    CommitPreserves(w, i, op, counter);
    var w' := CommitInto(w, i, op, counter);
    forall j | 0 <= j < |w'.ring.slots| && w'.history.holder[j].Some? ensures FaithfulSlot(w', j) {
      if j != i {
        assert FaithfulSlot(w, j);
        assert w'.history.commits[w'.history.holder[j].value] == w.history.commits[w.history.holder[j].value];
      }
    }
  }

  /** A failed reuse keeps the frame it took over exactly when it was clean. */
  lemma FaithfulAfterSpoil(w: World, i: nat, buffer: seq<byte>, counter: u64)
    requires WorldInv(w) && Faithful(w)
    requires i < |w.ring.slots| && !w.ring.slots[i].state.Pinned? && |buffer| == w.ring.config.payloadCapacity
    requires counter == w.ring.dropped + if w.ring.slots[i].state.Ready? then 1 else 0
    ensures WorldInv(SpoilSlot(w, i, buffer, counter))
    ensures var s := w.ring.slots[i];
            Faithful(SpoilSlot(w, i, buffer, counter)) <==>
            (s.state.Ready? ==> s.payloadLength <= |s.buffer| && buffer[..s.payloadLength] == s.buffer[..s.payloadLength])
    ensures var w' := SpoilSlot(w, i, buffer, counter);
            !Faithful(w') ==> w.ring.slots[i].state.Ready? && !FaithfulSlot(w', i)
  {
    SpoilPreserves(w, i, buffer, counter);
    var w' := SpoilSlot(w, i, buffer, counter);
    forall j | 0 <= j < |w'.ring.slots| && w'.history.holder[j].Some? && j != i ensures FaithfulSlot(w', j) {
      assert FaithfulSlot(w, j);
    }
    if w.ring.slots[i].state.Ready? {
      assert FaithfulSlot(w, i);
      assert Describes(w.ring.slots[i], w.history.commits[w.history.holder[i].value]);
    }
  }

  /** Operations other than a publish leave every payload area alone. */
  lemma FaithfulAfterOther(w: World, op: Op)
    requires WorldInv(w) && Faithful(w) && ValidOp(w.ring.config, op) && !(op.Publish? && op.lock == Acquired)
    ensures Faithful(Advance(w, op))
  {
    AdvancePreserves(w, op);
    OthersLeavePayloads(w, op);
    SamePayloads(w, Advance(w, op));
  }

  ghost predicate PayloadsStay(w: World, w': World) {
    && w'.history.commits == w.history.commits
    && |w'.ring.slots| == |w.ring.slots| == |w.history.holder| == |w'.history.holder|
    && forall j :: 0 <= j < |w.ring.slots| ==>
         w'.ring.slots[j].buffer == w.ring.slots[j].buffer && (w'.history.holder[j].Some? ==> w'.history.holder[j] == w.history.holder[j])
  }

  lemma OthersLeavePayloads(w: World, op: Op)
    requires Shaped(w) && RingInv(w.ring) && ValidOp(w.ring.config, op) && !(op.Publish? && op.lock == Acquired)
    ensures PayloadsStay(w, Advance(w, op))
  {
    if op.Lease? || op.Acquire? { LeaseIs(w); }
  }

  ghost predicate SpoiledAt(w: World, i: nat) {
    && HoldersAgree(w) && WellFormed(w.ring) && CommitsAccepted(w.ring.config, w.history.commits)
    && i < |w.ring.slots| && w.ring.slots[i].state.Ready? && !FaithfulSlot(w, i)
  }

  lemma FaithfulPublishIff(w: World, op: Op)
    requires WorldInv(w) && Faithful(w) && ValidOp(w.ring.config, op) && op.Publish? && op.lock == Acquired
    ensures Faithful(PublishWorld(w, op)) <==> CleanStep(w, op)
    ensures !CleanStep(w, op) ==> exists i :: SpoiledAt(PublishWorld(w, op), i)
  {
    var (next, effect) := PublishLocked(w.ring, op.metadata, op.copier);
    var w' := PublishWorld(w, op);
    PublishIs(w, op);
    PublishPreserves(w, op);
    match effect
    case Committed(i, reuse) => FaithfulAfterCommit(w, op, i, next.dropped);
    case CopyFailed(i, reuse) =>
      FaithfulAfterSpoil(w, i, op.copier.buffer, next.dropped);
      if !CleanStep(w, op) { assert SpoiledAt(w', i); }
    case NoSlot => SamePayloads(w, w');
    case CounterFull =>
    case StateCorrupt =>
  }

  lemma SamePayloads(w: World, w': World)
    requires WorldInv(w) && Faithful(w) && WorldInv(w') && PayloadsStay(w, w')
    ensures Faithful(w')
  {
    forall j | 0 <= j < |w'.ring.slots| && w'.history.holder[j].Some? ensures FaithfulSlot(w', j) {
      assert FaithfulSlot(w, j);
    }
  }

  /** One step from a faithful world is faithful exactly when it is clean; if not, a Ready slot is spoiled. */
  lemma FaithfulStepIff(w: World, op: Op)
    requires WorldInv(w) && Faithful(w) && ValidOp(w.ring.config, op)
    ensures WorldInv(Advance(w, op))
    ensures Faithful(Advance(w, op)) <==> CleanStep(w, op)
    ensures !CleanStep(w, op) ==> exists i :: SpoiledAt(Advance(w, op), i)
  {
    AdvancePreserves(w, op);
    if op.Publish? && op.lock == Acquired {
      FaithfulPublishIff(w, op);
    } else {
      FaithfulAfterOther(w, op);
    }
  }

  /** A run is clean when each of its steps is. */
  ghost predicate CleanRun(config: RingConfig, identity: Identity, ops: seq<Op>)
    requires Accepted(config) && ValidOps(config, ops)
  {
    forall n :: 0 <= n < |ops| ==> CleanAt(config, identity, ops, n)
  }

  ghost predicate CleanAt(config: RingConfig, identity: Identity, ops: seq<Op>, n: nat)
    requires Accepted(config) && ValidOps(config, ops) && n < |ops|
  {
    CleanStep(After(config, identity, ops[..n]), ops[n])
  }

  lemma {:induction false} CleanRunIsFaithful(config: RingConfig, identity: Identity, ops: seq<Op>)
    requires Accepted(config) && ValidOps(config, ops) && CleanRun(config, identity, ops)
    ensures Faithful(After(config, identity, ops))
    decreases |ops|
  {
    if ops == [] {
      FirstWorldInv(config, identity);
    } else {
      var last := |ops| - 1;
      CleanRunSplits(config, identity, ops);
      CleanRunIsFaithful(config, identity, ops[..last]);
      CleanStepIsFaithful(config, identity, ops);
    }
  }

  lemma CleanStepIsFaithful(config: RingConfig, identity: Identity, ops: seq<Op>)
    requires Accepted(config) && ValidOps(config, ops) && ops != []
    requires Faithful(After(config, identity, ops[..|ops| - 1])) && CleanAt(config, identity, ops, |ops| - 1)
    ensures Faithful(After(config, identity, ops))
  {
    EveryRunKeepsInvariant(config, identity, ops[..|ops| - 1]);
    FaithfulStepIff(After(config, identity, ops[..|ops| - 1]), ops[|ops| - 1]);
  }

  /**
    Frame integrity: after any clean run whose commits have distinct (sequence, generation)
    pairs, a frame copied for an issued lease is exactly the frame published by the one commit
    that lease was issued for: its planes, timestamp, payload, and the drop counter at that commit.
   */
  lemma FrameIntegrity(config: RingConfig, identity: Identity, ops: seq<Op>, k: nat, expected: Option<u64>)
    requires Accepted(config) && ValidOps(config, ops) && CleanRun(config, identity, ops)
    requires var h := After(config, identity, ops).history; DistinctKeys(h.commits) && k < |h.issues|
    requires var w := After(config, identity, ops);
             var got := Copy(w.ring, expected, w.history.issues[k].lease);
             got.Ok? && got.value.Some?
    ensures var w := After(config, identity, ops);
            Copy(w.ring, expected, w.history.issues[k].lease)
            == Ok(Some(Delivered(config, w.history.commits[w.history.issues[k].commit])))
  {
    EveryRunKeepsInvariant(config, identity, ops);
    CleanRunIsFaithful(config, identity, ops);
    MetadataIntegrity(config, identity, ops, k, expected);
    CopyIsFaithful(After(config, identity, ops), k, expected);
  }

  lemma CopyIsFaithful(w: World, k: nat, expected: Option<u64>)
    requires WorldInv(w) && Faithful(w) && DistinctKeys(w.history.commits) && k < |w.history.issues|
    requires var got := Copy(w.ring, expected, w.history.issues[k].lease); got.Ok? && got.value.Some?
    ensures Copy(w.ring, expected, w.history.issues[k].lease).value.value.payload
            == w.history.commits[w.history.issues[k].commit].payload
  {
    PinKnowsItsCommit(w, k);
    assert FaithfulSlot(w, w.history.issues[k].lease.slotIndex);
  }

  // ----- Observability: integrity holds if and only if every failed reuse was clean -----

  ghost predicate LeaseLeads(w: World, w': World) {
    Shaped(w) && Shaped(w') && w' == LeaseWorld(w)
  }

  /** Worlds each of which is the previous one after one more lease. */
  ghost predicate LeaseTrace(trace: seq<World>) {
    && |trace| > 0 && Shaped(trace[0])
    && forall k :: 0 <= k < |trace| - 1 ==> LeaseLeads(trace[k], trace[k + 1])
  }

  ghost function Last(trace: seq<World>): World
    requires |trace| > 0
  {
    trace[|trace| - 1]
  }

  lemma LastIsShaped(trace: seq<World>)
    requires LeaseTrace(trace)
    ensures Shaped(Last(trace))
  {
    if |trace| > 1 { assert LeaseLeads(trace[|trace| - 2], trace[|trace| - 2 + 1]); }
  }

  ghost predicate PinnedAt(w: World, i: nat, buffer: seq<byte>, commit: Option<nat>) {
    && w.ring.pinned.Some? && w.ring.pinned.value.slotIndex == i
    && i < |w.ring.slots| == |w.history.holder|
    && w.ring.slots[i].buffer == buffer && w.history.holder[i] == commit
  }

  /** A release touches no Ready slot. */
  lemma ReleaseLeavesReady(w: World, i: nat)
    requires WorldInv(w) && i < |w.ring.slots| && w.ring.slots[i].state.Ready?
    ensures var w' := ReleaseWorld(w);
            && w'.history.commits == w.history.commits
            && w'.ring.slots[i] == w.ring.slots[i] && w'.history.holder[i] == w.history.holder[i]
            && CountReady(w'.ring.slots) == CountReady(w.ring.slots)
  {
    if w.ring.pinned.Some? {
      var p := w.ring.pinned.value.slotIndex;
      CountAfterUpdate(w.ring.slots, p, w.ring.slots[p].(state := Free));
    }
  }

  /** Pinning slot `k` leaves every other slot alone and leaves one Ready slot fewer. */
  lemma PinTakesOne(w: World, k: nat, i: nat)
    requires HoldersAgree(w) && k < |w.ring.slots| && w.ring.slots[k].state.Ready? && i < |w.ring.slots|
    ensures var w' := PinSlot(w, k);
            && w'.history.commits == w.history.commits && w'.history.holder == w.history.holder
            && (k == i ==> PinnedAt(w', i, w.ring.slots[i].buffer, w.history.holder[i]))
            && (k != i ==> w'.ring.slots[i] == w.ring.slots[i])
            && CountReady(w'.ring.slots) == CountReady(w.ring.slots) - 1
  {
    CountAfterUpdate(w.ring.slots, k, w.ring.slots[k].(state := Pinned));
    PinKeepsHolders(w, k);
  }

  ghost predicate ReadyAt(w: World, i: nat, buffer: seq<byte>, commit: Option<nat>) {
    match w
    case World(ring, history) =>
      && i < |ring.slots| == |history.holder|
      && ring.slots[i].state.Ready? && ring.slots[i].buffer == buffer && history.holder[i] == commit
  }

  /** What one lease does to a Ready slot: it pins it, or leaves it alone and takes another. */
  lemma LeaseTakesOne(w: World, i: nat, buffer: seq<byte>, commit: Option<nat>, n: nat)
    requires Shaped(w) && WorldInv(w) && ReadyAt(w, i, buffer, commit) && CountReady(w.ring.slots) <= n
    ensures var w' := LeaseWorld(w);
            && WorldInv(w') && LeaseLeads(w, w')
            && (|| PinnedAt(w', i, buffer, commit)
                || (ReadyAt(w', i, buffer, commit) && CountReady(w'.ring.slots) <= n - 1 && n > 0))
  {
    AdvanceKeepsShape(w, Lease(Acquired));
    LeasePreserves(w);
    LeaseIs(w);
    ReleasePreserves(w);
    ReleaseLeavesReady(w, i);
    var released := ReleaseWorld(w);
    LatestReadyIs(released.ring.slots, |released.ring.slots|);
    PinTakesOne(released, LatestReady(released.ring.slots, |released.ring.slots|).value, i);
  }

  /** One more lease in front. */
  lemma TraceFrom(w: World, trace: seq<World>)
    requires LeaseTrace(trace) && LeaseLeads(w, trace[0])
    ensures LeaseTrace([w] + trace)
  {
    var longer := [w] + trace;
    forall k | 0 <= k < |longer| - 1 ensures LeaseLeads(longer[k], longer[k + 1]) {
      if k > 0 { assert LeaseLeads(trace[k - 1], trace[k - 1 + 1]); }
    }
  }

  /** Every Ready frame is leased after finitely many leases, undisturbed, if nothing more is published. */
  lemma {:induction false} ReadyIsEventuallyLeased(w: World, i: nat, buffer: seq<byte>, commit: Option<nat>, n: nat) returns (trace: seq<World>)
    requires Shaped(w) && WorldInv(w) && ReadyAt(w, i, buffer, commit) && CountReady(w.ring.slots) <= n
    ensures LeaseTrace(trace) && trace[0] == w && PinnedAt(Last(trace), i, buffer, commit)
    decreases n
  {
    LeaseTakesOne(w, i, buffer, commit, n);
    var w' := LeaseWorld(w);
    var rest: seq<World>;
    if PinnedAt(w', i, buffer, commit) {
      rest := [w'];
    } else {
      rest := ReadyIsEventuallyLeased(w', i, buffer, commit, n - 1);
    }
    TraceFrom(w, rest);
    trace := [w] + rest;
    assert Last(trace) == Last(rest);
  }

  /** The broker's view of whatever frame is pinned is the frame that was committed. */
  ghost predicate PinnedFrameExact(w: World)
    requires Shaped(w)
  {
    w.ring.pinned.Some? ==>
      var i := w.ring.pinned.value.slotIndex;
      && w.history.holder[i].Some? && w.history.holder[i].value < |w.history.commits|
      && FrameView(w.ring, w.ring.pinned.value) == Ok(Delivered(w.ring.config, w.history.commits[w.history.holder[i].value]))
  }

  lemma PinnedFrameExactIff(w: World)
    requires WorldInv(w) && CommitsNegotiated(w.ring.config, w.history.commits) && w.ring.pinned.Some?
    ensures PinnedFrameExact(w) <==> FaithfulSlot(w, w.ring.pinned.value.slotIndex)
  {
    var i := w.ring.pinned.value.slotIndex;
    var c := w.history.commits[w.history.holder[i].value];
    HeldSlotReads(w.ring.config, w.ring.slots[i], c);
    ReadYieldsCommit(w.ring.config, w.ring.slots[i], c);
  }

  lemma FaithfulLease(w: World)
    requires WorldInv(w) && Faithful(w)
    ensures var w' := LeaseWorld(w);
            WorldInv(w') && Faithful(w') && w'.history.commits == w.history.commits
  {
    LeasePreserves(w);
    FaithfulAfterOther(w, Lease(Acquired));
    LeaseRecords(w);
  }

  ghost predicate SameCommits(w: World, w': World) {
    w'.history.commits == w.history.commits && w'.ring.config == w.ring.config
  }

  /** Leasing keeps the invariant, faithfulness, the commits and the configuration. */
  lemma {:induction false} TraceKeeps(trace: seq<World>)
    requires LeaseTrace(trace) && WorldInv(trace[0])
    ensures WorldInv(Last(trace)) && SameCommits(trace[0], Last(trace))
    ensures Faithful(trace[0]) ==> Faithful(Last(trace))
    decreases |trace|
  {
    if |trace| > 1 {
      var before := trace[..|trace| - 1];
      forall k | 0 <= k < |before| - 1 ensures LeaseLeads(before[k], before[k + 1]) {
        assert LeaseLeads(trace[k], trace[k + 1]);
      }
      TraceKeeps(before);
      assert LeaseLeads(trace[|trace| - 2], trace[|trace| - 2 + 1]);
      LeaseKeeps(Last(before));
    }
  }

  lemma LeaseKeeps(w: World)
    requires Shaped(w) && WorldInv(w)
    ensures WorldInv(LeaseWorld(w)) && SameCommits(w, LeaseWorld(w))
    ensures Faithful(w) ==> Faithful(LeaseWorld(w))
  {
    LeasePreserves(w);
    LeaseRecords(w);
    LeaseKeepsShape(w.ring);
    if Faithful(w) { FaithfulLease(w); }
  }

  /** All frames anyone can still lease from this world are exact. */
  ghost predicate AllExact(w: World) {
    forall trace :: LeaseTrace(trace) && trace[0] == w ==> Shaped(Last(trace)) && PinnedFrameExact(Last(trace))
  }

  lemma FaithfulMeansExact(w: World)
    requires WorldInv(w) && Faithful(w) && CommitsNegotiated(w.ring.config, w.history.commits)
    ensures AllExact(w)
  {
    forall trace | LeaseTrace(trace) && trace[0] == w ensures Shaped(Last(trace)) && PinnedFrameExact(Last(trace)) {
      LastIsShaped(trace);
      TraceKeeps(trace);
      var d := Last(trace);
      if d.ring.pinned.Some? { PinnedFrameExactIff(d); }
    }
  }

  lemma SpoiledMeansInexact(w: World, i: nat)
    requires Shaped(w) && WorldInv(w) && CommitsNegotiated(w.ring.config, w.history.commits) && SpoiledAt(w, i)
    ensures !AllExact(w)
  {
    var trace := ReadyIsEventuallyLeased(w, i, w.ring.slots[i].buffer, w.history.holder[i], CountReady(w.ring.slots));
    var d := Last(trace);
    LastIsShaped(trace);
    TraceKeeps(trace);
    PinnedFrameExactIff(d);
    assert !FaithfulSlot(d, i);
    assert !PinnedFrameExact(d);
  }

  /**
    The exact condition for payload integrity: at every point of a run, every frame that can
    still be leased is the frame that was committed, if and only if no failed publish ever left
    other bytes under a Ready frame it had taken over.
   */
  lemma {:induction false} IntegrityIff(config: RingConfig, identity: Identity, ops: seq<Op>)
    requires Accepted(config) && ValidOps(config, ops) && Negotiated(config, ops)
    ensures (forall n :: 0 <= n <= |ops| ==> AllExact(After(config, identity, ops[..n]))) <==> CleanRun(config, identity, ops)
  {
    if CleanRun(config, identity, ops) {
      forall n | 0 <= n <= |ops| ensures AllExact(After(config, identity, ops[..n])) {
        CleanUpTo(config, identity, ops, n);
        CleanRunIsFaithful(config, identity, ops[..n]);
        NegotiatedCommits(config, identity, ops[..n]);
        EveryRunKeepsInvariant(config, identity, ops[..n]);
        FaithfulMeansExact(After(config, identity, ops[..n]));
      }
    } else {
      var n := FirstUnclean(config, identity, ops);
      CleanRunIsFaithful(config, identity, ops[..n]);
      EveryRunKeepsInvariant(config, identity, ops[..n]);
      NegotiatedCommits(config, identity, ops[..n]);
      UncleanStepShows(After(config, identity, ops[..n]), ops[n]);
      AfterOneMore(config, identity, ops, n);
    }
  }

  lemma UncleanStepShows(w: World, op: Op)
    requires WorldInv(w) && Faithful(w) && ValidOp(w.ring.config, op) && !CleanStep(w, op)
    requires CommitsNegotiated(w.ring.config, w.history.commits) && Negotiated(w.ring.config, [op])
    ensures !AllExact(Advance(w, op))
  {
    FaithfulStepIff(w, op);
    AdvanceKeepsShape(w, op);
    var i :| SpoiledAt(Advance(w, op), i);
    NegotiatedStep(w.ring.config, w, op);
    SpoiledMeansInexact(Advance(w, op), i);
  }

  lemma CleanUpTo(config: RingConfig, identity: Identity, ops: seq<Op>, n: nat)
    requires Accepted(config) && ValidOps(config, ops) && n <= |ops|
    requires forall k :: 0 <= k < n ==> CleanAt(config, identity, ops, k)
    ensures CleanRun(config, identity, ops[..n])
  {
    forall k | 0 <= k < n ensures CleanAt(config, identity, ops[..n], k) {
      assert CleanAt(config, identity, ops, k);
      assert ops[..n][..k] == ops[..k];
    }
  }

  /** A run is clean when it is clean up to its last step and that step is. */
  lemma CleanRunSplits(config: RingConfig, identity: Identity, ops: seq<Op>)
    requires Accepted(config) && ValidOps(config, ops) && ops != []
    ensures CleanRun(config, identity, ops) <==>
            CleanRun(config, identity, ops[..|ops| - 1]) && CleanAt(config, identity, ops, |ops| - 1)
  {
    var before := ops[..|ops| - 1];
    forall k | 0 <= k < |before| ensures CleanAt(config, identity, before, k) <==> CleanAt(config, identity, ops, k) {
      assert before[..k] == ops[..k];
    }
  }

  lemma FirstUnclean(config: RingConfig, identity: Identity, ops: seq<Op>) returns (n: nat)
    requires Accepted(config) && ValidOps(config, ops) && !CleanRun(config, identity, ops)
    ensures n < |ops| && !CleanAt(config, identity, ops, n) && CleanRun(config, identity, ops[..n])
  {
    n :| 0 <= n < |ops| && !CleanAt(config, identity, ops, n);
    n := UncleanBefore(config, identity, ops, n);
    CleanUpTo(config, identity, ops, n);
  }

  lemma {:induction false} UncleanBefore(config: RingConfig, identity: Identity, ops: seq<Op>, m: nat) returns (n: nat)
    requires Accepted(config) && ValidOps(config, ops) && m < |ops| && !CleanAt(config, identity, ops, m)
    ensures n <= m && !CleanAt(config, identity, ops, n) && forall k :: 0 <= k < n ==> CleanAt(config, identity, ops, k)
    decreases m
  {
    n := m;
    if k :| 0 <= k < m && !CleanAt(config, identity, ops, k) { n := UncleanBefore(config, identity, ops, k); }
  }

  /**
    An acquire with both locks looks at the slot it has just pinned, and at nothing when there is none;
    without the lock it needs it is unavailable.
   */
  lemma AcquireViewsThePin(r: RingState, lock: Lock, shared: bool)
    requires RingInv(r)
    ensures WellFormed(NextLease(r).0)
    ensures AcquireOutcome(r, lock, shared) == Err(Unavailable) <==>
            lock != Acquired || (NextLease(r).0.pinned.Some? && !shared)
    ensures NextLease(r).0.pinned.None? ==> AcquireOutcome(r, Acquired, shared) == Ok(None)
    ensures NextLease(r).0.pinned.Some? ==>
              var pin := NextLease(r).0.pinned.value;
              && pin.slotIndex < |NextLease(r).0.slots|
              && (FrameView(NextLease(r).0, pin).Ok? ==>
                    AcquireOutcome(r, Acquired, true) == Ok(Some(FrameView(NextLease(r).0, pin).value)))
  {
    LeaseKeepsShape(r);
    LeaseKeepsInvariant(r);
    ReleaseKeepsInvariant(r);
  }

  /**
    An acquire that gets both locks returns nothing exactly when no frame is Ready, and otherwise
    the committed frame of the slot it has just pinned. It is unavailable without the exclusive lock,
    and without the shared lock if there is a frame to look at.
   */
  lemma AcquiredFrameIsExact(w: World, lock: Lock, shared: bool)
    requires Shaped(w) && WorldInv(w) && Faithful(w) && CommitsNegotiated(w.ring.config, w.history.commits)
    ensures Shaped(LeaseWorld(w))
    ensures AcquireOutcome(w.ring, lock, shared) == Err(Unavailable) <==>
            lock != Acquired || (LeaseWorld(w).ring.pinned.Some? && !shared)
    ensures LeaseWorld(w).ring.pinned.None? ==> AcquireOutcome(w.ring, Acquired, shared) == Ok(None)
    ensures LeaseWorld(w).ring.pinned.Some? ==>
              var h := LeaseWorld(w).history;
              var c := h.holder[LeaseWorld(w).ring.pinned.value.slotIndex];
              c.Some? && AcquireOutcome(w.ring, Acquired, true) == Ok(Some(Delivered(w.ring.config, h.commits[c.value])))
  {
    var w' := LeaseWorld(w);
    AdvanceKeepsShape(w, Lease(Acquired));
    LeaseKeeps(w);
    AcquireViewsThePin(w.ring, lock, shared);
    if w'.ring.pinned.Some? {
      PinnedFrameExactIff(w');
      assert PinnedFrameExact(w');
    }
  }

  // ----- The condition for integrity, read off the ring before the publish -----

  /**
    A locked publish spoils a frame: no slot is Free, so it takes over the oldest Ready one; the counter
    still has room; its payload will not be accepted; and its copier leaves other bytes where that
    slot's frame is.
   */
  ghost predicate Spoils(r: RingState, m: FrameMetadata, copier: Copier) {
    && NoFree(r.slots) && r.dropped < U64_MAX && !PayloadAccepted(r.config, m, copier)
    && exists k: nat :: OldestReady(r.slots, k) && OtherBytes(r.slots[k], copier)
  }

  ghost predicate OtherBytes(s: Slot, copier: Copier) {
    !(s.payloadLength <= |s.buffer| && s.payloadLength <= |copier.buffer|
      && copier.buffer[..s.payloadLength] == s.buffer[..s.payloadLength])
  }

  lemma OldestIsUnique(slots: seq<Slot>, a: nat, b: nat)
    requires OldestReady(slots, a) && OldestReady(slots, b)
    ensures a == b
  {
  }

  /** Whether a locked publish takes over a Ready slot and fails, and which slot that is, is decided beforehand. */
  lemma TakeoverFailsIff(r: RingState, m: FrameMetadata, copier: Copier)
    requires RingInv(r) && |r.slots| >= 2 && |copier.buffer| == r.config.payloadCapacity
    ensures var e := PublishLocked(r, m, copier).1;
            && (e.CopyFailed? && e.reused <==> NoFree(r.slots) && r.dropped < U64_MAX && !PayloadAccepted(r.config, m, copier))
            && (e.CopyFailed? && e.reused ==> OldestReady(r.slots, e.index))
  {
    SelectionIs(r.slots);
    PublishFindsSlot(r, m, copier);
  }

  lemma CleanStepIff(w: World, op: Op)
    requires WorldInv(w) && ValidOp(w.ring.config, op) && |w.ring.slots| >= 2 && op.Publish? && op.lock == Acquired
    ensures CleanStep(w, op) <==> !Spoils(w.ring, op.metadata, op.copier)
  {
    var e := PublishLocked(w.ring, op.metadata, op.copier).1;
    TakeoverFailsIff(w.ring, op.metadata, op.copier);
    if e.CopyFailed? && e.reused { SpoilsAt(w.ring, op.metadata, op.copier, e.index); }
  }

  lemma SpoilsAt(r: RingState, m: FrameMetadata, copier: Copier, i: nat)
    requires NoFree(r.slots) && r.dropped < U64_MAX && !PayloadAccepted(r.config, m, copier) && OldestReady(r.slots, i)
    ensures Spoils(r, m, copier) <==> OtherBytes(r.slots[i], copier)
  {
    forall k: nat | OldestReady(r.slots, k) ensures k == i { OldestIsUnique(r.slots, k, i); }
  }

  ghost predicate NeverSpoils(config: RingConfig, identity: Identity, ops: seq<Op>)
    requires Accepted(config) && ValidOps(config, ops)
  {
    forall n :: 0 <= n < |ops| && ops[n].Publish? && ops[n].lock == Acquired ==>
      !Spoils(After(config, identity, ops[..n]).ring, ops[n].metadata, ops[n].copier)
  }

  lemma CleanRunIff(config: RingConfig, identity: Identity, ops: seq<Op>)
    requires Accepted(config) && ValidOps(config, ops)
    ensures CleanRun(config, identity, ops) <==> NeverSpoils(config, identity, ops)
  {
    AcceptedSizes(config);
    forall n | 0 <= n < |ops|
      ensures CleanAt(config, identity, ops, n) <==>
              (ops[n].Publish? && ops[n].lock == Acquired ==>
                 !Spoils(After(config, identity, ops[..n]).ring, ops[n].metadata, ops[n].copier))
    {
      EveryRunKeepsInvariant(config, identity, ops[..n]);
      if ops[n].Publish? && ops[n].lock == Acquired { CleanStepIff(After(config, identity, ops[..n]), ops[n]); }
    }
  }

  /** Every frame stays exact throughout a run if and only if no publish of it meets a ring it spoils. */
  lemma IntegrityIffNeverSpoils(config: RingConfig, identity: Identity, ops: seq<Op>)
    requires Accepted(config) && ValidOps(config, ops) && Negotiated(config, ops)
    ensures (forall n :: 0 <= n <= |ops| ==> AllExact(After(config, identity, ops[..n]))) <==> NeverSpoils(config, identity, ops)
  {
    IntegrityIff(config, identity, ops);
    CleanRunIff(config, identity, ops);
  }

  lemma UncleanStepIsCounted(w: World, op: Op)
    requires Shaped(w) && ValidOp(w.ring.config, op)
    ensures Advance(w, op).history.failedReuses >= w.history.failedReuses + if CleanStep(w, op) then 0 else 1
  {
    match op
    case Publish(_, _, _) =>
    case Lease(_) =>
    case Release(_) =>
    case Acquire(_, _) =>
    case Close(_, _) =>
  }

  /** A run that never counted a failed takeover of a Ready slot is clean. */
  lemma {:induction false} NoFailedReuseIsClean(config: RingConfig, identity: Identity, ops: seq<Op>)
    requires Accepted(config) && ValidOps(config, ops)
    requires After(config, identity, ops).history.failedReuses == 0
    ensures CleanRun(config, identity, ops)
    decreases |ops|
  {
    if ops != [] {
      var last := |ops| - 1;
      UncleanStepIsCounted(After(config, identity, ops[..last]), ops[last]);
      NoFailedReuseIsClean(config, identity, ops[..last]);
      CleanRunSplits(config, identity, ops);
    }
  }
}
