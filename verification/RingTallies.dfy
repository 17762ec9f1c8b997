/**
  What the ring's counters and flags say about a run, read off the operations alone: how many
  frames were dropped, which publishes were committed, and whether the mapping was closed.
 */
module RingTallies {
  import opened Prelude
  import opened Layout
  import opened Ring
  import opened RingInvariant
  import opened RingHistory
  import opened RingTheorems

  /**
    The operation costs a frame: a publish that met another holder of the lock on its second
    attempt as well, or one that got the lock and found no slot Free.
   */
  ghost predicate CostsAFrame(r: RingState, op: Op) {
    op.Publish? && (op.lock == WouldBlock(true) || (op.lock == Acquired && NoFree(r.slots)))
  }

  /** The operation adds a frame: it holds the lock, its payload is accepted, and a drop it causes can still be counted. */
  ghost predicate AddsAFrame(r: RingState, op: Op) {
    && op.Publish? && op.lock == Acquired && PayloadAccepted(r.config, op.metadata, op.copier)
    && (NoFree(r.slots) ==> r.dropped < U64_MAX)
  }

  /** How many operations of the run cost a frame. */
  ghost function FramesLost(config: RingConfig, identity: Identity, ops: seq<Op>): nat
    requires Accepted(config) && ValidOps(config, ops)
    decreases |ops|
  {
    if ops == [] then 0
    else
      var n := |ops| - 1;
      FramesLost(config, identity, ops[..n]) + if CostsAFrame(After(config, identity, ops[..n]).ring, ops[n]) then 1 else 0
  }

  /** The frame an operation adds, if it does, with the number of frames lost so far. */
  ghost function Addition(r: RingState, op: Op, lost: u64): seq<Commit>
    requires ShapedOp(r.config, op)
  {
    if AddsAFrame(r, op) then [Commit(op.metadata, op.copier.buffer[..op.copier.returned.value], lost)] else []
  }

  /** The frames the run added, each with the count of frames lost up to and including its own publish. */
  ghost function FramesAdded(config: RingConfig, identity: Identity, ops: seq<Op>): seq<Commit>
    requires Accepted(config) && ValidOps(config, ops)
    decreases |ops|
  {
    if ops == [] then []
    else
      var n := |ops| - 1;
      EveryRunKeepsInvariant(config, identity, ops[..n]);
      FramesAdded(config, identity, ops[..n])
      + Addition(After(config, identity, ops[..n]).ring, ops[n], Min(FramesLost(config, identity, ops), U64_MAX))
  }

  /** What a step may do to the counter and to the record of commits. */
  ghost predicate Tallied(w: World, w': World, costs: bool, added: seq<Commit>) {
    && w'.ring.dropped == Min(w.ring.dropped + if costs then 1 else 0, U64_MAX)
    && w'.history.commits == w.history.commits + added
  }

  /** What a locked publish counts, and whether it commits, is decided by the ring it finds. */
  lemma PublishOutcome(r: RingState, m: FrameMetadata, copier: Copier)
    requires RingInv(r) && |r.slots| >= 2 && |copier.buffer| == r.config.payloadCapacity
    ensures var (next, effect) := PublishLocked(r, m, copier);
            && next.dropped == Min(r.dropped + if NoFree(r.slots) then 1 else 0, U64_MAX)
            && (effect.Committed? <==> PayloadAccepted(r.config, m, copier) && (NoFree(r.slots) ==> r.dropped < U64_MAX))
  {
    SelectionIs(r.slots);
    PublishFindsSlot(r, m, copier);
  }

  lemma PublishTallies(w: World, op: Op)
    requires WorldInv(w) && ValidOp(w.ring.config, op) && |w.ring.slots| >= 2 && op.Publish? && op.lock == Acquired
    ensures var w' := PublishWorld(w, op);
            Tallied(w, w', NoFree(w.ring.slots), Addition(w.ring, op, w'.ring.dropped))
  {
    PublishOutcome(w.ring, op.metadata, op.copier);
  }

  lemma LeaseTallies(w: World)
    requires WorldInv(w)
    ensures Tallied(w, LeaseWorld(w), false, []) && Tallied(w, ReleaseWorld(w), false, [])
  {
    LeaseRecords(w);
    ReleaseKeepsInvariant(w.ring);
  }

  lemma StepTallies(w: World, op: Op)
    requires WorldInv(w) && ValidOp(w.ring.config, op) && |w.ring.slots| >= 2
    ensures var w' := Advance(w, op);
            Tallied(w, w', CostsAFrame(w.ring, op), Addition(w.ring, op, w'.ring.dropped))
  {
    match op
    case Publish(_, _, Acquired) => PublishTallies(w, op);
    case Publish(_, _, WouldBlock(_)) =>
    case Publish(_, _, LockFailed) =>
    case Lease(_) => LeaseTallies(w);
    case Acquire(_, _) => LeaseTallies(w);
    case Release(_) => LeaseTallies(w);
    case Close(_, _) =>
  }

  /** The counter is the number of lost frames, held at its largest value. */
  lemma {:induction false} DroppedIsFramesLost(config: RingConfig, identity: Identity, ops: seq<Op>)
    requires Accepted(config) && ValidOps(config, ops)
    ensures After(config, identity, ops).ring.dropped == Min(FramesLost(config, identity, ops), U64_MAX)
    decreases |ops|
  {
    if ops != [] {
      var before := ops[..|ops| - 1];
      DroppedIsFramesLost(config, identity, before);
      TalliesAfter(config, identity, ops);
    }
  }

  lemma TalliesAfter(config: RingConfig, identity: Identity, ops: seq<Op>)
    requires Accepted(config) && ValidOps(config, ops) && ops != []
    ensures var w, op := After(config, identity, ops[..|ops| - 1]), ops[|ops| - 1];
            var w' := After(config, identity, ops);
            ShapedOp(w.ring.config, op) && Tallied(w, w', CostsAFrame(w.ring, op), Addition(w.ring, op, w'.ring.dropped))
  {
    EveryRunKeepsInvariant(config, identity, ops[..|ops| - 1]);
    AcceptedSizes(config);
    StepTallies(After(config, identity, ops[..|ops| - 1]), ops[|ops| - 1]);
  }

  /** The commits are exactly the frames added, in their order. */
  lemma {:induction false} CommitsAreFramesAdded(config: RingConfig, identity: Identity, ops: seq<Op>)
    requires Accepted(config) && ValidOps(config, ops)
    ensures After(config, identity, ops).history.commits == FramesAdded(config, identity, ops)
    decreases |ops|
  {
    if ops != [] {
      CommitsAreFramesAdded(config, identity, ops[..|ops| - 1]);
      TalliesAfter(config, identity, ops);
      DroppedIsFramesLost(config, identity, ops);
    }
  }

  /** The mapping is CLOSED once some close got the lock, and marked closed once one also removed the name. */
  lemma {:induction false} ClosedIff(config: RingConfig, identity: Identity, ops: seq<Op>)
    requires Accepted(config) && ValidOps(config, ops)
    ensures var r := After(config, identity, ops).ring;
            && (r.terminal == TERMINAL_CLOSED <==> exists op :: op in ops && op.Close? && op.locked)
            && (r.terminal == TERMINAL_OPEN <==> r.terminal != TERMINAL_CLOSED)
            && (r.closed <==> Close(true, true) in ops)
    decreases |ops|
  {
    if ops != [] {
      var n := |ops| - 1;
      var before := ops[..n];
      ClosedIff(config, identity, before);
      StepCloses(After(config, identity, before), ops[n]);
      assert ops == before + [ops[n]];
    }
  }

  lemma StepCloses(w: World, op: Op)
    requires Shaped(w) && ValidOp(w.ring.config, op)
    ensures var r := Advance(w, op).ring;
            && r.terminal == (if op.Close? && op.locked && !w.ring.closed then TERMINAL_CLOSED else w.ring.terminal)
            && (r.closed <==> w.ring.closed || op == Close(true, true))
  {
    AdvanceTracksStep(w, op);
  }
}
