/**
  The ring invariant: no operation leaves a slot Writing, at most one slot is Pinned, and the
  broker's pin names exactly that slot. Selection and leasing are characterised here too.
 */
module RingInvariant {
  import opened Prelude
  import opened Layout
  import opened Ring

  /** Between operations every slot is Free, Ready or Pinned. */
  ghost predicate Settled(slots: seq<Slot>) {
    forall i :: 0 <= i < |slots| ==> slots[i].state.Free? || slots[i].state.Ready? || slots[i].state.Pinned?
  }

  ghost predicate LeaseNames(r: RingState, lease: FrameLease) {
    && lease.identity == r.identity
    && lease.slotIndex < |r.slots|
    && r.slots[lease.slotIndex].sequence == lease.sequence
    && r.slots[lease.slotIndex].generation == lease.generation
  }

  /** The pin is Some(lease) exactly when one slot is Pinned, and then it names that slot. */
  ghost predicate PinAgrees(r: RingState) {
    && (r.pinned.Some? ==> LeaseNames(r, r.pinned.value) && r.slots[r.pinned.value.slotIndex].state.Pinned?)
    && (forall i :: 0 <= i < |r.slots| && r.slots[i].state.Pinned? ==> r.pinned.Some? && r.pinned.value.slotIndex == i)
  }

  ghost predicate RingInv(r: RingState) {
    WellFormed(r) && Settled(r.slots) && PinAgrees(r)
  }

  ghost predicate NonePinned(slots: seq<Slot>) {
    forall i :: 0 <= i < |slots| ==> !slots[i].state.Pinned?
  }

  lemma ReleaseKeepsInvariant(r: RingState)
    requires RingInv(r)
    ensures RingInv(ReleasePin(r).0)
    ensures ReleasePin(r).1.Ok? && ReleasePin(r).0.pinned.None?
    ensures NonePinned(ReleasePin(r).0.slots)
  {
    ReleaseKeepsShape(r);
  }

  lemma LeaseKeepsInvariant(r: RingState)
    requires RingInv(r)
    ensures RingInv(NextLease(r).0) && NextLease(r).1.Ok?
  {
    ReleaseKeepsInvariant(r);
    LeaseKeepsShape(r);
  }

  lemma PublishKeepsInvariant(r: RingState, m: FrameMetadata, copier: Copier)
    requires RingInv(r) && |copier.buffer| == r.config.payloadCapacity
    ensures RingInv(PublishLocked(r, m, copier).0)
    ensures PublishLocked(r, m, copier).0.pinned == r.pinned
  {
    PublishKeepsShape(r, m, copier);
    var (next, effect) := PublishLocked(r, m, copier);
    if effect.Committed? || effect.CopyFailed? {
      assert !r.slots[effect.index].state.Pinned?;
      forall i | 0 <= i < |next.slots|
        ensures i != effect.index ==> next.slots[i] == r.slots[i]
      {
      }
    }
  }

  /** Every operation, with every lock outcome and every copier, keeps the ring invariant. */
  lemma StepKeepsInvariant(r: RingState, op: Op)
    requires RingInv(r) && ShapedOp(r.config, op)
    ensures RingInv(Step(r, op).0)
  {
    match op
    case Publish(m, copier, _) => PublishKeepsInvariant(r, m, copier);
    case Lease(_) => LeaseKeepsInvariant(r);
    case Release(_) => ReleaseKeepsInvariant(r);
    case Acquire(_, _) => LeaseKeepsInvariant(r);
    case Close(_, _) =>
  }

  lemma InitialInvariant(config: RingConfig, identity: Identity)
    requires Accepted(config)
    ensures RingInv(Initial(config, identity))
  {
    AcceptedSizes(config);
  }

  // ----- What selection selects -----

  ghost predicate NoFree(slots: seq<Slot>) {
    forall i :: 0 <= i < |slots| ==> !slots[i].state.Free?
  }

  ghost predicate OldestReady(slots: seq<Slot>, k: nat) {
    && k < |slots| && slots[k].state.Ready?
    && (forall i :: 0 <= i < |slots| && slots[i].state.Ready? ==> slots[k].sequence <= slots[i].sequence)
    && (forall i :: 0 <= i < k && slots[i].state.Ready? ==> slots[k].sequence < slots[i].sequence)
  }

  ghost predicate NewestReady(slots: seq<Slot>, k: nat) {
    && k < |slots| && slots[k].state.Ready?
    && (forall i :: 0 <= i < |slots| && slots[i].state.Ready? ==> slots[i].sequence <= slots[k].sequence)
    && (forall i :: 0 <= i < k && slots[i].state.Ready? ==> slots[i].sequence < slots[k].sequence)
  }

  ghost predicate OldestReadyBefore(slots: seq<Slot>, n: nat, oldest: Option<nat>)
    requires n <= |slots|
  {
    match oldest
    case None => forall i :: 0 <= i < n ==> !slots[i].state.Ready?
    case Some(k) => OldestReady(slots[..n], k)
  }

  lemma {:induction false} SelectFromFinds(slots: seq<Slot>, n: nat, oldest: Option<nat>)
    requires Settled(slots) && n <= |slots|
    requires forall i :: 0 <= i < n ==> !slots[i].state.Free?
    requires OldestReadyBefore(slots, n, oldest)
    ensures var r := SelectFrom(slots, n, oldest);
            && r.Ok?
            && (NoFree(slots) ==> OldestReadyBefore(slots, |slots|, r.value))
            && (!NoFree(slots) ==> r.value.Some? && slots[r.value.value].state.Free?
                                   && forall i :: 0 <= i < r.value.value ==> !slots[i].state.Free?)
    decreases |slots| - n
  {
    if n < |slots| && !slots[n].state.Free? {
      var oldest' :=
        if slots[n].state.Ready? && (oldest.None? || slots[n].sequence < slots[oldest.value].sequence) then Some(n) else oldest;
      assert forall i :: 0 <= i < n ==> slots[..n + 1][i] == slots[..n][i];
      SelectFromFinds(slots, n + 1, oldest');
    }
  }

  /** The scan returns the first Free slot, or else the oldest Ready slot, or else nothing. */
  lemma SelectionIs(slots: seq<Slot>)
    requires Settled(slots)
    ensures var r := SelectWritable(slots);
            && r.Ok?
            && (!NoFree(slots) ==> r.value.Some? && slots[r.value.value].state.Free?
                                   && forall i :: 0 <= i < r.value.value ==> !slots[i].state.Free?)
            && (NoFree(slots) ==> match r.value
                                  case None => forall i :: 0 <= i < |slots| ==> slots[i].state.Pinned?
                                  case Some(k) => OldestReady(slots, k))
  {
    SelectFromFinds(slots, 0, None);
    assert slots[..|slots|] == slots;
  }

  lemma {:induction false} LatestReadyIs(slots: seq<Slot>, n: nat)
    requires n <= |slots|
    ensures match LatestReady(slots, n)
            case None => forall i :: 0 <= i < n ==> !slots[i].state.Ready?
            case Some(k) =>
              && (forall i :: 0 <= i < n && slots[i].state.Ready? ==> slots[i].sequence <= slots[k].sequence)
              && (forall i :: 0 <= i < k && slots[i].state.Ready? ==> slots[i].sequence < slots[k].sequence)
  {
    if n > 0 { LatestReadyIs(slots, n - 1); }
  }

  /** With two or more slots a publish that holds the lock always finds a slot to write. */
  lemma PublishFindsSlot(r: RingState, m: FrameMetadata, copier: Copier)
    requires RingInv(r) && |r.slots| >= 2 && |copier.buffer| == r.config.payloadCapacity
    ensures SelectWritable(r.slots).Ok? && SelectWritable(r.slots).value.Some?
    ensures var e := PublishLocked(r, m, copier).1;
            e.Committed? || e.CopyFailed? || (e.CounterFull? && r.dropped == U64_MAX)
  {
    SelectionIs(r.slots);
    assert !(r.slots[0].state.Pinned? && r.slots[1].state.Pinned?);
  }

  /** A lease is granted exactly when, the old pin released, a Ready frame exists; it is the newest one. */
  lemma LeaseIsNewest(r: RingState)
    requires RingInv(r)
    ensures var ready := ReleasePin(r).0.slots;
            match NextLease(r).1.value
            case None => forall i :: 0 <= i < |ready| ==> ready[i].state.Free?
            case Some(lease) =>
              && NewestReady(ready, lease.slotIndex)
              && lease == FrameLease(r.identity, lease.slotIndex, ready[lease.slotIndex].sequence, ready[lease.slotIndex].generation)
              && NextLease(r).0.pinned == Some(lease)
  {
    ReleaseKeepsInvariant(r);
    LeaseKeepsInvariant(r);
    LatestReadyIs(ReleasePin(r).0.slots, |r.slots|);
  }

  /**
    A publish takes the slot the next lease would have returned exactly when no slot is Free and
    all Ready frames carry one and the same sequence.
   */
  lemma OverwritesNewestIff(slots: seq<Slot>)
    requires Settled(slots) && LatestReady(slots, |slots|).Some?
    ensures SelectWritable(slots).Ok?
    ensures SelectWritable(slots).value == LatestReady(slots, |slots|) <==>
            && NoFree(slots)
            && forall i, j :: 0 <= i < |slots| && 0 <= j < |slots| && slots[i].state.Ready? && slots[j].state.Ready?
                 ==> slots[i].sequence == slots[j].sequence
  {
    SelectionIs(slots);
    LatestReadyIs(slots, |slots|);
    if NoFree(slots) {
      var oldest, newest := SelectWritable(slots).value.value, LatestReady(slots, |slots|).value;
      assert OldestReady(slots, oldest) && NewestReady(slots, newest);
    }
  }

  /** With three or more slots and distinct Ready sequences the newest frame always survives a publish. */
  lemma NewestSurvivesPublish(r: RingState, m: FrameMetadata, copier: Copier)
    requires RingInv(r) && |r.slots| >= 3 && |copier.buffer| == r.config.payloadCapacity
    requires forall i, j :: 0 <= i < j < |r.slots| && r.slots[i].state.Ready? && r.slots[j].state.Ready?
               ==> r.slots[i].sequence != r.slots[j].sequence
    requires LatestReady(r.slots, |r.slots|).Some?
    ensures var k := LatestReady(r.slots, |r.slots|).value;
            PublishLocked(r, m, copier).0.slots[k] == r.slots[k]
  {
    OverwritesNewestIff(r.slots);
    if NoFree(r.slots) {
      var a := if !r.slots[0].state.Pinned? then 0 else 1;
      var b := if !r.slots[a + 1].state.Pinned? then a + 1 else 2;
      assert r.slots[a].state.Ready? && r.slots[b].state.Ready? && a < b;
    }
  }
}
