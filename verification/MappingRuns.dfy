/**
  From end to end: any run of a broker on its bytes, then a reader that opens the mapping with some
  descriptor and copies a frame. The theorems about runs of the ring become theorems about what
  comes out of the bytes (adapters/shared-memory/src/ring.rs).
 */
module MappingRuns {
  import opened Prelude
  import opened Layout
  import opened Ring
  import opened RingHistory
  import opened RingTheorems
  import opened BrokerMappings

  /** `ring` is what the first `k` operations make of a fresh ring. */
  ghost predicate Reached(config: RingConfig, identity: Identity, ops: seq<Op>, k: nat, ring: RingState) {
    match config
    case RingConfig(_, _, _, _, _) =>
      Accepted(config) && ValidOps(config, ops) && k <= |ops| && ring == After(config, identity, ops[..k]).ring
  }

  lemma OneMoreReached(config: RingConfig, identity: Identity, ops: seq<Op>, k: nat, ring: RingState)
    requires Reached(config, identity, ops, k, ring) && k < |ops|
    ensures WellFormed(ring) && ring.config == config && ValidOp(config, ops[k])
    ensures Reached(config, identity, ops, k + 1, Step(ring, ops[k]).0)
  {
    AfterOneMore(config, identity, ops, k);
    AdvanceTracksStep(After(config, identity, ops[..k]), ops[k]);
  }

  /** Performs the operations from the `n`-th up to the `m`-th: the bytes stand for the ring of the run so far. */
  method PerformRange(broker: BrokerMapping, ops: seq<Op>, n: nat, m: nat)
    requires broker.Valid() && Reached(broker.config, broker.identity, ops, n, broker.ring) && n <= m <= |ops|
    modifies broker, broker.mem
    ensures broker.Valid() && Reached(broker.config, broker.identity, ops, m, broker.ring)
  {
    for k := n to m
      invariant broker.Valid() && Reached(broker.config, broker.identity, ops, k, broker.ring)
    {
      OneMoreReached(broker.config, broker.identity, ops, k, broker.ring);
      broker.Perform(ops[k]);
    }
  }

  /** What a clean run owes whoever presents `lease`: the frame of the commit it was issued for. */
  ghost predicate CopiedExactly(config: RingConfig, w: World, lease: FrameLease, r: Result<Option<Frame>, RingError>) {
    forall k :: 0 <= k < |w.history.issues| && w.history.issues[k].lease == lease && r.Ok? && r.value.Some? ==>
      && w.history.issues[k].commit < |w.history.commits|
      && r.value.value == Delivered(config, w.history.commits[w.history.issues[k].commit])
  }

  lemma CopyIsExact(config: RingConfig, identity: Identity, ops: seq<Op>, lease: FrameLease)
    requires Accepted(config) && ValidOps(config, ops) && CleanRun(config, identity, ops)
    requires DistinctKeys(After(config, identity, ops).history.commits)
    ensures var w := After(config, identity, ops);
            CopiedExactly(config, w, lease, Copy(w.ring, None, lease))
  {
    var w := After(config, identity, ops);
    var r := Copy(w.ring, None, lease);
    forall k | 0 <= k < |w.history.issues| && w.history.issues[k].lease == lease && r.Ok? && r.value.Some?
      ensures w.history.issues[k].commit < |w.history.commits|
      ensures r.value.value == Delivered(config, w.history.commits[w.history.issues[k].commit])
    {
      FrameIntegrity(config, identity, ops, k, None);
    }
  }

  /** What the theorems about runs say of one copy. */
  lemma CopyMeans(config: RingConfig, identity: Identity, ops: seq<Op>, lease: FrameLease)
    requires Accepted(config) && ValidOps(config, ops)
    ensures var w := After(config, identity, ops);
            var r := Copy(w.ring, None, lease);
            && (Negotiated(config, ops) ==>
                  r.Ok? && (r.value.Some? <==> w.ring.terminal == TERMINAL_OPEN && w.ring.pinned == Some(lease)))
            && (CleanRun(config, identity, ops) && DistinctKeys(w.history.commits) ==> CopiedExactly(config, w, lease, r))
  {
    if Negotiated(config, ops) { LeaseValidity(config, identity, ops, None, lease); }
    if CleanRun(config, identity, ops) && DistinctKeys(After(config, identity, ops).history.commits) {
      CopyIsExact(config, identity, ops, lease);
    }
  }

  /** A reader of the broker's bytes copies what the ring of the run has. */
  method CopyFrom(broker: BrokerMapping, reader: ReadOnlyMapping, ops: seq<Op>, lease: FrameLease)
    returns (r: Result<Option<Frame>, RingError>)
    requires broker.Valid() && Reached(broker.config, broker.identity, ops, |ops|, broker.ring)
    requires reader.mem == broker.mem && reader.config == broker.config && reader.identity == broker.identity
    ensures Accepted(broker.config) && ValidOps(broker.config, ops)
    ensures r == Copy(After(broker.config, broker.identity, ops).ring, None, lease)
  {
    assert ops[..|ops|] == ops;
    r := reader.Copy(lease, None, broker.ring);
  }

  /**
    A reader can open the bytes at any point of any run, with exactly the length, identity and token
    hash of the mapping. At any later point it gets a frame exactly for the current pin of an open
    ring, and after a clean run with distinct keys that frame is the one published by the commit the
    lease was issued for.
   */
  method OpenThenCopy(
    config: RingConfig, identity: Identity, tokenHash: seq<byte>, ops: seq<Op>, n: nat,
    total: nat, identity': Identity, tokenHash': seq<byte>, lease: FrameLease)
    returns (mapped: bool, r: Result<Option<Frame>, RingError>)
    requires Accepted(config) && |identity| == 32 && |tokenHash| == 32 && ValidOps(config, ops) && n <= |ops|
    ensures mapped <==> total == config.totalLength && identity' == identity && tokenHash' == tokenHash
    ensures mapped ==> r == Copy(After(config, identity, ops).ring, None, lease)
    ensures mapped && Negotiated(config, ops) ==>
              var ring := After(config, identity, ops).ring;
              r.Ok? && (r.value.Some? <==> ring.terminal == TERMINAL_OPEN && ring.pinned == Some(lease))
    ensures mapped && CleanRun(config, identity, ops) && DistinctKeys(After(config, identity, ops).history.commits) ==>
              CopiedExactly(config, After(config, identity, ops), lease, r)
  {
    var broker := new BrokerMapping(config, identity, tokenHash);
    PerformRange(broker, ops, 0, n);
    broker.Openable(total, identity', tokenHash');
    var reader := ReadOnlyMapping.Open(broker.mem, total, identity', tokenHash');
    PerformRange(broker, ops, n, |ops|);
    mapped, r := reader.Ok?, Ok(None);
    if mapped {
      r := CopyFrom(broker, reader.value, ops, lease);
      CopyMeans(config, identity, ops, lease);
    }
  }
}
