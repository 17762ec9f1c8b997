/**
  The run that breaks payload integrity: a writer fills every slot, and its next publish takes over
  the oldest Ready slot, overwrites some of its payload and fails.
 */
module RingSpoil {
  import opened Prelude
  import opened Layout
  import opened Ring
  import opened RingInvariant
  import opened RingHistory
  import opened RingTheorems

  /** The same frame published `k` times. */
  function Filling(m: FrameMetadata, good: Copier, k: nat): seq<Op> { seq(k, _ => Publish(m, good, Acquired)) }

  /** The first `k` slots hold the copier's bytes as Ready frames, the others are Free. */
  ghost predicate Filled(r: RingState, k: nat, good: Copier) {
    && r.dropped == 0 && k <= |r.slots| == r.config.slotCount
    && (forall i :: 0 <= i < k ==> r.slots[i].state.Ready? && Some(r.slots[i].payloadLength) == good.returned && r.slots[i].buffer == good.buffer)
    && (forall i :: k <= i < |r.slots| ==> r.slots[i].state.Free?)
  }

  /** The metadata and copier make a publish that succeeds. */
  predicate Publishes(config: RingConfig, m: FrameMetadata, good: Copier) {
    Accepted(config) && ValidMetadata(m) && |good.buffer| == config.payloadCapacity && PayloadAccepted(config, m, good)
  }

  lemma OneMoreFilled(r: RingState, k: nat, m: FrameMetadata, good: Copier)
    requires RingInv(r) && Publishes(r.config, m, good) && Filled(r, k, good) && k < |r.slots|
    ensures Filled(PublishLocked(r, m, good).0, k + 1, good)
  {
    SelectionIs(r.slots);
    assert r.slots[k].state.Free?;
    assert SelectWritable(r.slots).value == Some(k);
  }

  lemma FillingIsValid(config: RingConfig, m: FrameMetadata, good: Copier, k: nat)
    requires Publishes(config, m, good)
    ensures ValidOps(config, Filling(m, good, k))
  {
  }

  lemma EmptyIsFilled(config: RingConfig, identity: Identity, good: Copier)
    requires Accepted(config)
    ensures Filled(FirstWorld(config, identity).ring, 0, good)
  {
  }

  lemma AdvanceFills(w: World, k: nat, m: FrameMetadata, good: Copier)
    requires Shaped(w) && WorldInv(w) && Publishes(w.ring.config, m, good) && Filled(w.ring, k, good) && k < |w.ring.slots|
    ensures Filled(Advance(w, Publish(m, good, Acquired)).ring, k + 1, good)
  {
    OneMoreFilled(w.ring, k, m, good);
  }

  lemma FillingStep(config: RingConfig, identity: Identity, m: FrameMetadata, good: Copier, k: nat, ops: seq<Op>)
    requires Publishes(config, m, good) && k < config.slotCount && |ops| == k + 1 && ValidOps(config, ops)
    requires ops[k] == Publish(m, good, Acquired) && Filled(After(config, identity, ops[..k]).ring, k, good)
    ensures Filled(After(config, identity, ops).ring, k + 1, good)
  {
    EveryRunKeepsInvariant(config, identity, ops[..k]);
    AfterOneMore(config, identity, ops, k);
    assert ops[..k + 1] == ops;
    AdvanceFills(After(config, identity, ops[..k]), k, m, good);
  }

  lemma {:induction false} FillingFills(config: RingConfig, identity: Identity, m: FrameMetadata, good: Copier, k: nat)
    requires Publishes(config, m, good) && k <= config.slotCount && ValidOps(config, Filling(m, good, k))
    ensures Filled(After(config, identity, Filling(m, good, k)).ring, k, good)
  {
    var ops := Filling(m, good, k);
    if k == 0 {
      EmptyIsFilled(config, identity, good);
    } else {
      FillingIsValid(config, m, good, k - 1);
      FillingFills(config, identity, m, good, k - 1);
      assert ops[..k - 1] == Filling(m, good, k - 1);
      FillingStep(config, identity, m, good, k - 1, ops);
    }
  }

  lemma FailureIsUnclean(w: World, m: FrameMetadata, good: Copier, bad: Copier)
    requires WorldInv(w) && WellFormed(w.ring) && Publishes(w.ring.config, m, good) && Filled(w.ring, w.ring.config.slotCount, good)
    requires |bad.buffer| == w.ring.config.payloadCapacity && bad.returned.None?
    requires bad.buffer[..good.returned.value] != good.buffer[..good.returned.value]
    ensures !CleanStep(w, Publish(m, bad, Acquired))
  {
    AcceptedSizes(w.ring.config);
    SelectionIs(w.ring.slots);
    assert w.ring.slots[0].state.Ready?;
  }

  /** The filling run, and one publish more that fails. */
  function Spoiling(config: RingConfig, m: FrameMetadata, good: Copier, bad: Copier): seq<Op> {
    Filling(m, good, config.slotCount) + [Publish(m, bad, Acquired)]
  }

  lemma SpoilingIsUnclean(config: RingConfig, identity: Identity, m: FrameMetadata, good: Copier, bad: Copier)
    requires Publishes(config, m, good) && |bad.buffer| == config.payloadCapacity && bad.returned.None?
    requires bad.buffer[..good.returned.value] != good.buffer[..good.returned.value]
    ensures ValidOps(config, Spoiling(config, m, good, bad))
    ensures !CleanRun(config, identity, Spoiling(config, m, good, bad))
  {
    var n, ops := config.slotCount, Spoiling(config, m, good, bad);
    FillingIsValid(config, m, good, n);
    FillingFills(config, identity, m, good, n);
    assert ops[..n] == Filling(m, good, n);
    EveryRunKeepsInvariant(config, identity, ops[..n]);
    FailureIsUnclean(After(config, identity, ops[..n]), m, good, bad);
    assert !CleanAt(config, identity, ops, n);
  }

  /**
    For every accepted configuration and every frame the writer can publish: fill the ring with it and
    let one more publish fail after writing other bytes. Some frame a reader can then lease is not the
    one that was published.
   */
  lemma FailedReuseSpoilsAFrame(config: RingConfig, identity: Identity, m: FrameMetadata, good: Copier, bad: Copier)
    requires Publishes(config, m, good) && |bad.buffer| == config.payloadCapacity && bad.returned.None?
    requires bad.buffer[..good.returned.value] != good.buffer[..good.returned.value]
    requires m.format == config.format.pixel && m.width == config.format.width && m.height == config.format.height
    ensures var ops := Spoiling(config, m, good, bad);
            && ValidOps(config, ops)
            && exists n :: 0 <= n <= |ops| && !AllExact(After(config, identity, ops[..n]))
  {
    SpoilingIsUnclean(config, identity, m, good, bad);
    IntegrityIff(config, identity, Spoiling(config, m, good, bad));
  }

  const SMALL := RingConfig(CameraFormat(Yuyv, 2, 1), 4, 4, 192, 960)
  const FRAME := FrameMetadata(Yuyv, 2, 1, 1, 1, 0, 0, [PlaneLayout(0, 4, 4)])
  const WRITES := Copier([0, 0, 0, 0], Some(4))
  const FAILS := Copier([1, 0, 0, 0], None)

  lemma SmallFrameIsPublishable()
    ensures Publishes(SMALL, FRAME, WRITES)
  {
  }

  /** Such frames exist: two YUYV pixels in a ring of four slots. */
  lemma SmallestSpoiledRun(identity: Identity)
    ensures exists ops :: Accepted(SMALL) && ValidOps(SMALL, ops) && !AllExact(After(SMALL, identity, ops))
  {
    SmallFrameIsPublishable();
    assert FAILS.buffer[..4][0] != WRITES.buffer[..4][0];
    FailedReuseSpoilsAFrame(SMALL, identity, FRAME, WRITES, FAILS);
  }
}
