/**
  Whole runs of the ring. A world is a ring together with a record of what happened to it:
  every committed frame, which slot holds which commit, every lease issued, and how often a
  frame was dropped and why. The theorems hold of the world after any sequence of operations.
 */
module RingHistory {
  import opened Prelude
  import opened Layout
  import opened Ring
  import opened RingInvariant

  /** A successful publish: what was published and the header counter when it was. */
  datatype Commit = Commit(metadata: FrameMetadata, payload: seq<byte>, droppedAt: u64)

  datatype Issue = Issue(lease: FrameLease, commit: nat)

  datatype History = History(
    commits: seq<Commit>,
    holder: seq<Option<nat>>,
    issues: seq<Issue>,
    overwritten: nat,
    failedReuses: nat,
    contention: nat,
    noSlot: nat)

  datatype World = World(ring: RingState, history: History)

  /** A Free slot holds no commit. */
  function Prune(holder: seq<Option<nat>>, slots: seq<Slot>): seq<Option<nat>>
    requires |holder| == |slots|
  {
    seq(|holder|, i requires 0 <= i < |holder| => if slots[i].state.Free? then None else holder[i])
  }

  function RecordPublish(h: History, op: Op, counter: u64, effect: PublishEffect): History
    requires op.Publish?
    requires effect.Committed? ==>
               effect.index < |h.holder| && op.copier.returned.Some? && op.copier.returned.value <= |op.copier.buffer|
  {
    match effect
    case Committed(i, overwrote) =>
      var commit := Commit(op.metadata, op.copier.buffer[..op.copier.returned.value], counter);
      h.(commits := h.commits + [commit], holder := h.holder[i := Some(|h.commits|)],
         overwritten := h.overwritten + if overwrote then 1 else 0)
    case CopyFailed(_, reused) => h.(failedReuses := h.failedReuses + if reused then 1 else 0)
    case NoSlot => h.(noSlot := h.noSlot + 1)
    case CounterFull => h
    case StateCorrupt => h
  }

  function RecordLease(h: History, lease: FrameLease): History {
    if lease.slotIndex < |h.holder| && h.holder[lease.slotIndex].Some?
    then h.(issues := h.issues + [Issue(lease, h.holder[lease.slotIndex].value)])
    else h
  }

  /** A world whose history has a holder entry for each slot and names only recorded commits. */
  ghost predicate Shaped(w: World) {
    match w
    case World(ring, h) =>
      && WellFormed(ring) && |h.holder| == |ring.slots|
      && (forall i :: 0 <= i < |h.holder| && h.holder[i].Some? ==> h.holder[i].value < |h.commits|)
      && (forall k :: 0 <= k < |h.issues| ==> h.issues[k].commit < |h.commits|)
  }

  ghost function ReleaseWorld(w: World): World
    requires Shaped(w)
  {
    var released := ReleasePin(w.ring).0;
    World(released, w.history.(holder := Prune(w.history.holder, released.slots)))
  }

  ghost function LeaseWorld(w: World): World
    requires Shaped(w)
  {
    var (next, outcome) := NextLease(w.ring);
    var released := ReleaseWorld(w).history;
    World(next, if LeaseEffect(outcome).Leased? then RecordLease(released, LeaseEffect(outcome).lease) else released)
  }

  ghost function PublishWorld(w: World, op: Op): World
    requires Shaped(w) && op.Publish? && ValidOp(w.ring.config, op)
  {
    var (next, effect) := PublishLocked(w.ring, op.metadata, op.copier);
    World(next, RecordPublish(w.history, op, next.dropped, effect))
  }

  ghost function ContendedWorld(w: World, retried: bool): World {
    var counted := IncrementDropped(w.ring);
    if retried && counted.Some? then World(counted.value, w.history.(contention := w.history.contention + 1)) else w
  }

  /** One operation: the ring moves by `Step` and the history records what happened. */
  ghost function Advance(w: World, op: Op): World
    requires Shaped(w) && ValidOp(w.ring.config, op)
  {
    match op
    case Publish(_, _, Acquired) => PublishWorld(w, op)
    case Publish(_, _, WouldBlock(retried)) => ContendedWorld(w, retried)
    case Publish(_, _, LockFailed) => w
    case Lease(lock) => if lock == Acquired then LeaseWorld(w) else w
    case Release(lock) => if lock == Acquired then ReleaseWorld(w) else w
    case Acquire(lock, _) => if lock == Acquired then LeaseWorld(w) else w
    case Close(locked, unlinked) => World(CloseRing(w.ring, locked, unlinked), w.history)
  }

  /** The history keeps an entry for each slot and names only recorded commits. */
  ghost predicate ShapedHistory(h: History, slots: nat) {
    && |h.holder| == slots
    && (forall i :: 0 <= i < |h.holder| && h.holder[i].Some? ==> h.holder[i].value < |h.commits|)
    && (forall k :: 0 <= k < |h.issues| ==> h.issues[k].commit < |h.commits|)
  }

  lemma PublishKeepsHistory(w: World, op: Op)
    requires Shaped(w) && op.Publish? && ValidOp(w.ring.config, op)
    ensures ShapedHistory(PublishWorld(w, op).history, |w.ring.slots|)
  {
  }

  lemma LeaseKeepsHistory(w: World)
    requires Shaped(w)
    ensures ShapedHistory(LeaseWorld(w).history, |w.ring.slots|) && ShapedHistory(ReleaseWorld(w).history, |w.ring.slots|)
  {
    ReleaseKeepsShape(w.ring);
  }

  lemma AdvanceKeepsShape(w: World, op: Op)
    requires Shaped(w) && ValidOp(w.ring.config, op)
    ensures var w' := Advance(w, op);
            Shaped(w') && w'.ring.config == w.ring.config && w'.ring.identity == w.ring.identity
  {
    StepKeepsShape(w.ring, op);
    AdvanceTracksStep(w, op);
    match op
    case Publish(_, _, _) => PublishKeepsHistory(w, op);
    case Lease(_) => LeaseKeepsHistory(w);
    case Release(_) => LeaseKeepsHistory(w);
    case Acquire(_, _) => LeaseKeepsHistory(w);
    case Close(_, _) =>
  }

  lemma AdvanceTracksStep(w: World, op: Op)
    requires Shaped(w) && ValidOp(w.ring.config, op)
    ensures Advance(w, op).ring == Step(w.ring, op).0
  {
  }

  // ----- The invariant of a world -----

  /** The header words of a slot are those of the commit it holds. */
  ghost predicate Describes(s: Slot, c: Commit) {
    && s.sequence == c.metadata.sequence
    && s.generation == c.metadata.generation
    && s.timestamp == c.metadata.timestamp
    && s.dropped == c.droppedAt
    && s.payloadLength == |c.payload|
    && s.planeCount == |c.metadata.planes|
    && s.planeCount <= |s.table| && s.table[..s.planeCount] == c.metadata.planes
  }

  ghost predicate HoldersAgree(w: World) {
    var slots, holder, commits := w.ring.slots, w.history.holder, w.history.commits;
    && |holder| == |slots|
    && (forall i :: 0 <= i < |slots| ==> (holder[i].None? <==> slots[i].state.Free?))
    && (forall i :: 0 <= i < |slots| && holder[i].Some? ==>
          holder[i].value < |commits| && Describes(slots[i], commits[holder[i].value]))
    && (forall i, j :: 0 <= i < j < |slots| && holder[i].Some? ==> holder[i] != holder[j])
  }

  ghost predicate CommitsAccepted(config: RingConfig, commits: seq<Commit>) {
    forall c :: 0 <= c < |commits| ==>
      var m := commits[c].metadata;
      && ValidMetadata(m)
      && |commits[c].payload| <= config.payloadCapacity
      && ValidatePlanes(m.format, m.width, m.height, m.planes, |commits[c].payload|)
  }

  /** Each lease was issued for one commit and no commit was leased twice. */
  ghost predicate IssuesAgree(w: World) {
    var issues, commits, holder, slots := w.history.issues, w.history.commits, w.history.holder, w.ring.slots;
    && |holder| == |slots|
    && (forall k :: 0 <= k < |issues| ==>
          && issues[k].commit < |commits|
          && issues[k].lease.identity == w.ring.identity
          && issues[k].lease.sequence == commits[issues[k].commit].metadata.sequence
          && issues[k].lease.generation == commits[issues[k].commit].metadata.generation)
    && (forall k, l :: 0 <= k < l < |issues| ==> issues[k].commit != issues[l].commit)
    && (forall k, i :: 0 <= k < |issues| && 0 <= i < |slots| && slots[i].state.Ready? ==> holder[i] != Some(issues[k].commit))
    && (w.ring.pinned.Some? ==> exists k :: 0 <= k < |issues| && IssueOfPin(w, k))
  }

  ghost predicate IssueOfPin(w: World, k: nat) {
    && k < |w.history.issues|
    && w.ring.pinned == Some(w.history.issues[k].lease)
    && w.ring.pinned.value.slotIndex < |w.history.holder|
    && w.history.holder[w.ring.pinned.value.slotIndex] == Some(w.history.issues[k].commit)
  }

  function CountReady(slots: seq<Slot>): nat {
    if slots == [] then 0
    else CountReady(slots[..|slots| - 1]) + if slots[|slots| - 1].state.Ready? then 1 else 0
  }

  /** No frame and no drop is unaccounted for. */
  ghost predicate Balanced(w: World) {
    var h := w.history;
    && |h.commits| == |h.issues| + CountReady(w.ring.slots) + h.overwritten
    && w.ring.dropped == h.overwritten + h.failedReuses + h.contention + h.noSlot
  }

  ghost predicate WorldInv(w: World) {
    match w
    case World(ring, history) =>
      && RingInv(ring)
      && HoldersAgree(w)
      && CommitsAccepted(ring.config, history.commits)
      && IssuesAgree(w)
      && Balanced(w)
  }

  // ----- Counting -----

  lemma {:induction false} CountAfterUpdate(slots: seq<Slot>, i: nat, s: Slot)
    requires i < |slots|
    ensures CountReady(slots[i := s]) ==
            CountReady(slots) - (if slots[i].state.Ready? then 1 else 0) + (if s.state.Ready? then 1 else 0)
  {
    var last := |slots| - 1;
    if i < last {
      CountAfterUpdate(slots[..last], i, s);
      assert slots[i := s][..last] == slots[..last][i := s];
    } else {
      assert slots[i := s][..last] == slots[..last];
    }
  }

  lemma {:induction false} CountOfNone(slots: seq<Slot>)
    requires forall i :: 0 <= i < |slots| ==> !slots[i].state.Ready?
    ensures CountReady(slots) == 0
  {
    if slots != [] { CountOfNone(slots[..|slots| - 1]); }
  }

  // ----- Preservation, one operation at a time -----

  lemma ReleasePreserves(w: World)
    requires WorldInv(w)
    ensures WorldInv(ReleaseWorld(w)) && ReleaseWorld(w).ring.pinned.None?
  {
    ReleaseKeepsInvariant(w.ring);
    if w.ring.pinned.Some? {
      var i := w.ring.pinned.value.slotIndex;
      CountAfterUpdate(w.ring.slots, i, w.ring.slots[i].(state := Free));
    }
  }

  /** Pinning Ready slot `i` of a released world and recording the lease. */
  function PinSlot(w: World, i: nat): World
    requires i < |w.ring.slots|
  {
    var s := w.ring.slots[i];
    var lease := FrameLease(w.ring.identity, i, s.sequence, s.generation);
    World(w.ring.(slots := SetState(w.ring.slots, i, Pinned), pinned := Some(lease)), RecordLease(w.history, lease))
  }

  lemma PinKeepsHolders(w: World, i: nat)
    requires HoldersAgree(w) && i < |w.ring.slots| && w.ring.slots[i].state.Ready?
    ensures HoldersAgree(PinSlot(w, i)) && PinSlot(w, i).history.holder == w.history.holder
    ensures PinSlot(w, i).history.issues == w.history.issues + [Issue(PinSlot(w, i).ring.pinned.value, w.history.holder[i].value)]
  {
  }

  lemma PinKeepsIssues(w: World, i: nat)
    requires HoldersAgree(w) && IssuesAgree(w) && i < |w.ring.slots| && w.ring.slots[i].state.Ready?
    ensures IssuesAgree(PinSlot(w, i))
  {
    PinKeepsHolders(w, i);
    var w' := PinSlot(w, i);
    var issues, issues' := w.history.issues, w'.history.issues;
    assert Describes(w.ring.slots[i], w.history.commits[w.history.holder[i].value]);
    assert IssueOfPin(w', |issues|);
    forall k, j | 0 <= k < |issues'| && 0 <= j < |w'.ring.slots| && w'.ring.slots[j].state.Ready?
      ensures w'.history.holder[j] != Some(issues'[k].commit)
    {
      assert j != i && w.ring.slots[j] == w'.ring.slots[j];
      if k == |issues| {
        assert w.history.holder[if i < j then i else j] != w.history.holder[if i < j then j else i];
      }
    }
  }

  lemma PinPreserves(w: World, i: nat)
    requires WorldInv(w) && w.ring.pinned.None?
    requires i < |w.ring.slots| && w.ring.slots[i].state.Ready?
    ensures WorldInv(PinSlot(w, i))
  {
    PinKeepsHolders(w, i);
    PinKeepsIssues(w, i);
    CountAfterUpdate(w.ring.slots, i, w.ring.slots[i].(state := Pinned));
  }

  /** A lease operation is a release followed by pinning the newest Ready slot, if any. */
  lemma LeaseIs(w: World)
    requires Shaped(w) && RingInv(w.ring)
    ensures var released := ReleaseWorld(w);
            match LatestReady(released.ring.slots, |released.ring.slots|)
            case None => LeaseWorld(w) == released
            case Some(i) => LeaseWorld(w) == PinSlot(released, i)
  {
    ReleaseKeepsInvariant(w.ring);
  }

  lemma LeasePreserves(w: World)
    requires WorldInv(w)
    ensures WorldInv(LeaseWorld(w))
  {
    LeaseIs(w);
    ReleasePreserves(w);
    var released := ReleaseWorld(w);
    var latest := LatestReady(released.ring.slots, |released.ring.slots|);
    if latest.Some? {
      PinPreserves(released, latest.value);
    }
  }

  // ----- Publishing -----

  ghost predicate CanCommit(w: World, i: nat, op: Op) {
    && op.Publish? && ValidOp(w.ring.config, op)
    && i < |w.ring.slots| && (w.ring.slots[i].state.Free? || w.ring.slots[i].state.Ready?)
    && PayloadAccepted(w.ring.config, op.metadata, op.copier)
  }

  /** The world after a commit into slot `i` with header counter `counter`. */
  ghost function CommitInto(w: World, i: nat, op: Op, counter: u64): World
    requires WellFormed(w.ring) && |w.history.holder| == |w.ring.slots| && CanCommit(w, i, op)
  {
    var slot := CommittedSlot(w.ring.slots[i], op.metadata, op.copier, counter);
    World(w.ring.(dropped := counter, slots := w.ring.slots[i := slot]),
          RecordPublish(w.history, op, counter, Committed(i, w.ring.slots[i].state.Ready?)))
  }

  lemma CommitKeepsHolders(w: World, i: nat, op: Op, counter: u64)
    requires WellFormed(w.ring) && HoldersAgree(w) && CanCommit(w, i, op)
    ensures HoldersAgree(CommitInto(w, i, op, counter))
  {
    var w' := CommitInto(w, i, op, counter);
    var n := |w.history.commits|;
    assert Describes(w'.ring.slots[i], w'.history.commits[n]) by {
      assert w'.ring.slots[i].table[..|op.metadata.planes|] == op.metadata.planes;
    }
    forall j | 0 <= j < |w'.ring.slots| && w'.history.holder[j].Some?
      ensures w'.history.holder[j].value < n + 1 && Describes(w'.ring.slots[j], w'.history.commits[w'.history.holder[j].value])
    {
      if j != i {
        assert w'.history.commits[w'.history.holder[j].value] == w.history.commits[w.history.holder[j].value];
      }
    }
  }

  lemma CommitKeepsIssues(w: World, i: nat, op: Op, counter: u64)
    requires RingInv(w.ring) && HoldersAgree(w) && IssuesAgree(w) && CanCommit(w, i, op)
    ensures IssuesAgree(CommitInto(w, i, op, counter))
  {
    var w' := CommitInto(w, i, op, counter);
    if w.ring.pinned.Some? {
      var k :| 0 <= k < |w.history.issues| && IssueOfPin(w, k);
      assert IssueOfPin(w', k);
    }
  }

  lemma CommitKeepsBalance(w: World, i: nat, op: Op, counter: u64)
    requires WellFormed(w.ring) && |w.history.holder| == |w.ring.slots| && Balanced(w) && CanCommit(w, i, op)
    requires counter == w.ring.dropped + if w.ring.slots[i].state.Ready? then 1 else 0
    ensures Balanced(CommitInto(w, i, op, counter))
  {
    CountAfterUpdate(w.ring.slots, i, CommittedSlot(w.ring.slots[i], op.metadata, op.copier, counter));
  }

  lemma CommitKeepsAccepted(w: World, i: nat, op: Op, counter: u64)
    requires WellFormed(w.ring) && |w.history.holder| == |w.ring.slots|
    requires CommitsAccepted(w.ring.config, w.history.commits) && CanCommit(w, i, op)
    ensures CommitsAccepted(w.ring.config, CommitInto(w, i, op, counter).history.commits)
  {
  }

  lemma CommitKeepsRing(w: World, i: nat, op: Op, counter: u64)
    requires RingInv(w.ring) && |w.history.holder| == |w.ring.slots| && CanCommit(w, i, op)
    ensures RingInv(CommitInto(w, i, op, counter).ring)
  {
    var slots, slots' := w.ring.slots, CommitInto(w, i, op, counter).ring.slots;
    assert forall j :: 0 <= j < |slots'| && j != i ==> slots'[j] == slots[j];
  }

  lemma CommitPreserves(w: World, i: nat, op: Op, counter: u64)
    requires WorldInv(w) && CanCommit(w, i, op)
    requires counter == w.ring.dropped + if w.ring.slots[i].state.Ready? then 1 else 0
    ensures WorldInv(CommitInto(w, i, op, counter))
  {
    CommitKeepsRing(w, i, op, counter);
    CommitKeepsHolders(w, i, op, counter);
    CommitKeepsIssues(w, i, op, counter);
    CommitKeepsBalance(w, i, op, counter);
    CommitKeepsAccepted(w, i, op, counter);
  }

  /** The world after a failed copy into slot `i`: its words stay, its payload area does not. */
  function SpoilSlot(w: World, i: nat, buffer: seq<byte>, counter: u64): World
    requires i < |w.ring.slots|
  {
    var s, h := w.ring.slots[i], w.history;
    World(w.ring.(dropped := counter, slots := w.ring.slots[i := s.(buffer := buffer)]),
          h.(failedReuses := h.failedReuses + if s.state.Ready? then 1 else 0))
  }

  lemma SpoilKeepsRing(w: World, i: nat, buffer: seq<byte>, counter: u64)
    requires RingInv(w.ring) && i < |w.ring.slots| && |buffer| == w.ring.config.payloadCapacity
    ensures RingInv(SpoilSlot(w, i, buffer, counter).ring)
  {
  }

  lemma SpoilKeepsHolders(w: World, i: nat, buffer: seq<byte>, counter: u64)
    requires HoldersAgree(w) && i < |w.ring.slots|
    ensures HoldersAgree(SpoilSlot(w, i, buffer, counter))
  {
    var w' := SpoilSlot(w, i, buffer, counter);
    forall j | 0 <= j < |w'.ring.slots| && w'.history.holder[j].Some?
      ensures w'.history.holder[j].value < |w'.history.commits|
      ensures Describes(w'.ring.slots[j], w'.history.commits[w'.history.holder[j].value])
    {
      assert Describes(w.ring.slots[j], w.history.commits[w.history.holder[j].value]);
    }
  }

  lemma SpoilKeepsIssues(w: World, i: nat, buffer: seq<byte>, counter: u64)
    requires IssuesAgree(w) && i < |w.ring.slots|
    ensures IssuesAgree(SpoilSlot(w, i, buffer, counter))
  {
    if w.ring.pinned.Some? {
      var k :| 0 <= k < |w.history.issues| && IssueOfPin(w, k);
      assert IssueOfPin(SpoilSlot(w, i, buffer, counter), k);
    }
  }

  lemma SpoilPreserves(w: World, i: nat, buffer: seq<byte>, counter: u64)
    requires WorldInv(w) && i < |w.ring.slots| && |buffer| == w.ring.config.payloadCapacity
    requires counter == w.ring.dropped + if w.ring.slots[i].state.Ready? then 1 else 0
    ensures WorldInv(SpoilSlot(w, i, buffer, counter))
  {
    SpoilKeepsRing(w, i, buffer, counter);
    SpoilKeepsHolders(w, i, buffer, counter);
    SpoilKeepsIssues(w, i, buffer, counter);
    CountAfterUpdate(w.ring.slots, i, w.ring.slots[i].(buffer := buffer));
  }

  /** Only the counter and the matching tally move. */
  lemma TallyPreserves(w: World, w': World)
    requires WorldInv(w)
    requires w'.ring == w.ring.(dropped := w'.ring.dropped)
    requires w'.history == w.history.(contention := w'.history.contention, noSlot := w'.history.noSlot)
    requires w'.ring.dropped - w.ring.dropped ==
             (w'.history.contention - w.history.contention) + (w'.history.noSlot - w.history.noSlot)
    ensures WorldInv(w')
  {
    if w.ring.pinned.Some? {
      var k :| 0 <= k < |w.history.issues| && IssueOfPin(w, k);
      assert IssueOfPin(w', k);
    }
  }

  /** A locked publish is one of: a commit, a failed copy, a counted drop, or nothing. */
  lemma PublishIs(w: World, op: Op)
    requires Shaped(w) && op.Publish? && ValidOp(w.ring.config, op)
    ensures var (next, effect) := PublishLocked(w.ring, op.metadata, op.copier);
            match effect
            case Committed(i, reuse) =>
              && CanCommit(w, i, op)
              && next.dropped == w.ring.dropped + (if w.ring.slots[i].state.Ready? then 1 else 0)
              && PublishWorld(w, op) == CommitInto(w, i, op, next.dropped)
            case CopyFailed(i, reuse) =>
              && i < |w.ring.slots| && !w.ring.slots[i].state.Pinned? && reuse == w.ring.slots[i].state.Ready?
              && next.dropped == w.ring.dropped + (if w.ring.slots[i].state.Ready? then 1 else 0)
              && PublishWorld(w, op) == SpoilSlot(w, i, op.copier.buffer, next.dropped)
            case NoSlot =>
              && w.ring.dropped < U64_MAX
              && PublishWorld(w, op) == World(w.ring.(dropped := w.ring.dropped + 1), w.history.(noSlot := w.history.noSlot + 1))
            case CounterFull => PublishWorld(w, op) == w
            case StateCorrupt => PublishWorld(w, op) == w
  {
  }

  lemma PublishPreserves(w: World, op: Op)
    requires WorldInv(w) && op.Publish? && ValidOp(w.ring.config, op)
    ensures WorldInv(PublishWorld(w, op))
  {
    PublishIs(w, op);
    var (next, effect) := PublishLocked(w.ring, op.metadata, op.copier);
    match effect
    case Committed(i, reuse) => CommitPreserves(w, i, op, next.dropped);
    case CopyFailed(i, reuse) => SpoilPreserves(w, i, op.copier.buffer, next.dropped);
    case NoSlot => TallyPreserves(w, PublishWorld(w, op));
    case CounterFull =>
    case StateCorrupt =>
  }

  /** Every operation keeps the whole invariant. */
  lemma AdvancePreserves(w: World, op: Op)
    requires WorldInv(w) && ValidOp(w.ring.config, op)
    ensures WorldInv(Advance(w, op))
  {
    match op
    case Publish(_, _, lock) =>
      if lock == Acquired {
        PublishPreserves(w, op);
      } else if lock.WouldBlock? {
        TallyPreserves(w, ContendedWorld(w, lock.retried));
      }
    case Lease(_) => LeasePreserves(w);
    case Release(_) => ReleasePreserves(w);
    case Acquire(_, _) => LeasePreserves(w);
    case Close(locked, unlinked) => ClosePreserves(w, World(CloseRing(w.ring, locked, unlinked), w.history));
  }

  lemma ClosePreserves(w: World, w': World)
    requires WorldInv(w) && w'.history == w.history
    requires w'.ring == w.ring.(terminal := w'.ring.terminal, closed := w'.ring.closed)
    ensures WorldInv(w')
  {
    if w.ring.pinned.Some? {
      var k :| 0 <= k < |w.history.issues| && IssueOfPin(w, k);
      assert IssueOfPin(w', k);
    }
  }
}
