/**
  The SocketCAN link lease: configuring a link and verifying it, rolling back on failure, and giving
  the link back on close (adapters/socketcan/src/link.rs).
 */
module SocketCanLease {
  import opened Prelude
  import opened SocketCanLink

  // ----- Restore and verify -----

  /** Every write of the restore succeeds and the link then fingerprints, identity included, as the snapshot. */
  ghost predicate RestoreSucceeds(i: Interface, k: nat, d: Details, s: Snapshot) {
    var writes := RestoreWrites(s);
    var p := i.Run(k, d, writes);
    p.done == |writes| && i.Reads(k + |writes|, p.link) == Ok(s.fingerprint)
  }

  /** Why a restore fails: a write, the query or lookup after it, or a link that is not the snapshot's. */
  ghost function RestoreFailure(i: Interface, k: nat, d: Details, s: Snapshot): LinkError {
    var writes := RestoreWrites(s);
    var p := i.Run(k, d, writes);
    if p.done != |writes| then NetlinkFailed
    else match i.Reads(k + |writes|, p.link) case Err(e) => e case Ok(_) => RollbackFailed
  }

  method RestoreAndVerify(i: Interface, snapshot: Snapshot) returns (r: Result<(), LinkError>)
    modifies i
    ensures r.Ok? <==> RestoreSucceeds(i, old(i.calls), old(i.link), snapshot)
    ensures r.Err? ==> r.error == RestoreFailure(i, old(i.calls), old(i.link), snapshot)
    ensures i.Quiet() ==> i.link == i.Run(old(i.calls), old(i.link), RestoreWrites(snapshot)).link
    ensures |i.trace| > |old(i.trace)| && old(i.trace) < i.trace && i.trace[|old(i.trace)|].Attempted?
  {
    ghost var start := i.trace;
    var restored := RestoreSnapshot(i, snapshot);
    assert Since(start, i.trace)[0].Attempted?;
    if !restored { return Err(NetlinkFailed); }
    var details := i.Query();
    if details.None? { return Err(NetlinkFailed); }
    var fingerprint := i.TakeFingerprint(details.value);
    if fingerprint.None? { return Err(Unresolved); }
    if fingerprint.value != snapshot.fingerprint { return Err(RollbackFailed); }
    r := Ok(());
  }

  /** The primary error survives exactly a rollback that succeeds. */
  method RollbackAfterFailure(i: Interface, snapshot: Snapshot, primary: LinkError) returns (error: LinkError)
    requires primary != RollbackFailed
    modifies i
    ensures error == if RestoreSucceeds(i, old(i.calls), old(i.link), snapshot) then primary else RollbackFailed
    ensures i.Quiet() ==> i.link == i.Run(old(i.calls), old(i.link), RestoreWrites(snapshot)).link
  {
    var r := RestoreAndVerify(i, snapshot);
    error := if r.Ok? then primary else RollbackFailed;
  }

  lemma SuccessfulRestoreIsTheSnapshot(i: Interface, k: nat, d: Details, s: Snapshot)
    requires i.Quiet() && RestoreSucceeds(i, k, d, s)
    requires s.fingerprint == FingerprintOf(s.details, s.fingerprint.identity)
    ensures SameLink(i.Run(k, d, RestoreWrites(s)).link, s.details)
  {
  }

  // ----- The lease -----

  /** A configured link and what it takes to give it back. */
  class LinkLease {
    const interface: Interface
    var snapshot: Option<Snapshot>
    var applied: Option<Fingerprint>

    constructor (interface: Interface, snapshot: Snapshot, applied: Fingerprint)
      ensures this.interface == interface && this.snapshot == Some(snapshot) && this.applied == Some(applied)
    {
      this.interface := interface;
      this.snapshot := Some(snapshot);
      this.applied := Some(applied);
    }

    ghost predicate Valid()
      reads this
    {
      snapshot.Some? <==> applied.Some?
    }

    /**
      Gives the link back. Whoever else writes the link, and whenever: a write is attempted exactly
      when this call's own query gave the applied fingerprint, physical identity included. Any other
      fingerprint is a conflict and leaves the link untouched, and so does a query that fails.
     */
    method Close() returns (r: Result<(), LinkError>)
      requires Valid()
      modifies this, interface
      ensures Valid() && old(interface.trace) <= interface.trace
      ensures old(snapshot).None? ==>
                r.Ok? && snapshot.None? && interface.trace == old(interface.trace) && interface.link == old(interface.link)
      ensures old(snapshot).Some? ==>
                var k, d, news := old(interface.calls), old(interface.link), Since(old(interface.trace), interface.trace);
                match interface.Reads(k, d)
                case Err(e) => r == Err(e) && |news| <= 1 && (forall a :: a in news ==> a.Observed?) && interface.link == interface.Found(k, d)
                case Ok(f) =>
                  if old(applied) == Some(f) then
                    && |news| > 1 && news[0] == Observed(interface.Found(k, d)) && news[1].Attempted?
                    && (r.Err? ==> r.error == RestoreFailure(interface, k + 1, interface.Found(k, d), old(snapshot).value))
                    && (r.Ok? <==> RestoreSucceeds(interface, k + 1, interface.Found(k, d), old(snapshot).value))
                    && (interface.Quiet() ==> interface.link == interface.Run(k + 1, d, RestoreWrites(old(snapshot).value)).link)
                  else
                    r == Err(Conflict) && news == [Observed(interface.Found(k, d))] && interface.link == interface.Found(k, d)
      ensures r.Ok? ==> snapshot.None? && applied.None?
      ensures r.Err? ==> snapshot == old(snapshot) && applied == old(applied)
    {
      if snapshot.None? { return Ok(()); }
      ghost var start := interface.trace;
      var current := interface.Query();
      if current.None? { return Err(NetlinkFailed); }
      var fingerprint := interface.TakeFingerprint(current.value);
      if fingerprint.None? { return Err(Unresolved); }
      if applied.Some? && fingerprint.value != applied.value { return Err(Conflict); }
      ghost var observed := interface.trace;
      var restored := RestoreAndVerify(interface, snapshot.value);
      assert interface.trace[|start|] == observed[|start|];
      if restored.Err? { return Err(restored.error); }
      snapshot := None;
      applied := None;
      r := Ok(());
    }
  }

  // ----- Configure -----

  /** The link found by call `k` meets the request, and its fingerprint carries the selected identity. */
  ghost predicate Verifies(i: Interface, k: nat, d: Details, request: Request, selected: string) {
    var a := i.Found(k, d);
    && i.Reads(k, d).Ok? && i.Reads(k, d).value.identity == selected
    && ActiveConfig(a).Some? && LinkMeets(request, a)
  }

  /** The interface resolves to the selected identity, and then writing and verifying succeeds. */
  ghost predicate ConfigureSucceeds(i: Interface, k: nat, d: Details, request: Request, selected: string) {
    && i.Reads(k, d).Ok? && i.Reads(k, d).value.identity == selected
    && WritesVerify(i, k + 1, i.Found(k, d), request, selected)
  }

  /** Re-reads the configured link: accepts it exactly when it meets the request under the selected identity. */
  method VerifyConfigured(i: Interface, request: Request, selected: string) returns (r: Result<Fingerprint, LinkError>)
    modifies i
    ensures i.calls == old(i.calls) + 1 && i.link == i.Found(old(i.calls), old(i.link))
    ensures r.Ok? <==> Verifies(i, old(i.calls), old(i.link), request, selected)
    ensures r.Ok? ==> r.value == FingerprintOf(i.link, selected)
    ensures r.Err? ==> r.error != RollbackFailed
  {
    var queried := i.Query();
    if queried.None? { return Err(NetlinkFailed); }
    var after := queried.value;
    var active := ActiveConfig(after);
    if active.None? { return Err(Inconsistent); }
    VerificationIsTheRequest(request, after);
    if !ConfigMatches(request, after, active.value) { return Err(Mismatch); }
    var fingerprint := i.TakeFingerprint(after);
    if fingerprint.None? { return Err(Unresolved); }
    if fingerprint.value.identity != selected { return Err(NotFound); }
    r := Ok(fingerprint.value);
  }

  /** The link as it is, if it resolves to the selected identity. */
  method TakeSnapshot(i: Interface, selected: string) returns (r: Result<Snapshot, LinkError>)
    modifies i
    ensures i.calls == old(i.calls) + 1 && i.link == i.Found(old(i.calls), old(i.link))
    ensures r.Ok? <==> i.Reads(old(i.calls), old(i.link)).Ok? && i.Reads(old(i.calls), old(i.link)).value.identity == selected
    ensures r.Ok? ==> r.value == Snapshot(i.link, FingerprintOf(i.link, selected), {})
    ensures r.Err? ==> r.error != RollbackFailed
  {
    var queried := i.Query();
    if queried.None? { return Err(NetlinkFailed); }
    var fingerprint := i.TakeFingerprint(queried.value);
    if fingerprint.None? { return Err(Unresolved); }
    if fingerprint.value.identity != selected { return Err(NotFound); }
    r := Ok(Snapshot(queried.value, fingerprint.value, {}));
  }

  /** Every write of the configuration succeeds and the result verifies. */
  ghost predicate WritesVerify(i: Interface, k: nat, before: Details, request: Request, selected: string) {
    var writes := ConfigureWrites(before, request);
    var p := i.Run(k, before, writes);
    p.done == |writes| && Verifies(i, k + |writes|, p.link, request, selected)
  }

  /** Writes and verifies, or rolls back to the snapshot that was just taken. */
  method WriteAndVerify(i: Interface, snapshot: Snapshot, request: Request, selected: string)
    returns (r: Result<(set<Mode>, Fingerprint), LinkError>)
    requires i.link == snapshot.details && snapshot == Snapshot(i.link, FingerprintOf(i.link, selected), {})
    modifies i
    ensures r.Ok? <==> WritesVerify(i, old(i.calls), old(i.link), request, selected)
    ensures r.Ok? ==> r.value == (RestoreEvidence(old(i.link), request), FingerprintOf(i.link, selected)) && LinkMeets(request, i.link)
    ensures r.Ok? ==> i.calls == old(i.calls) + |ConfigureWrites(old(i.link), request)| + 1
    ensures r.Ok? && i.Quiet() ==> i.link == i.Run(old(i.calls), old(i.link), ConfigureWrites(old(i.link), request)).link
    ensures r.Err? && r.error != RollbackFailed && i.Quiet() ==> SameLink(i.link, old(i.link))
  {
    var configured := ConfigureLink(i, snapshot.details, request);
    if configured.Err? {
      if configured.error.rollbackRequired {
        var error := RollBack(i, snapshot.(evidence := configured.error.evidence), configured.error.error);
        return Err(error);
      }
      return Err(configured.error.error);
    }
    var verified := VerifyConfigured(i, request, selected);
    if verified.Err? {
      var error := RollBack(i, snapshot.(evidence := configured.value), verified.error);
      return Err(error);
    }
    r := Ok((configured.value, verified.value));
  }

  /**
    Opens a link in Configure mode. It succeeds exactly when the interface resolves to the selected
    identity before and after, every write succeeds and the link then meets the request. If nobody
    else writes the link, then whatever fails and whatever the kernel makes of the writes that
    succeed, a failure leaves a link that fingerprints as before unless it says that the rollback failed.
   */
  method Configure(i: Interface, request: Request, selected: string) returns (r: Result<LinkLease, LinkError>)
    requires ValidRequest(request)
    modifies i
    ensures r.Ok? <==> ConfigureSucceeds(i, old(i.calls), old(i.link), request, selected)
    ensures r.Ok? ==>
              var before := i.Found(old(i.calls), old(i.link));
              && fresh(r.value) && r.value.Valid() && r.value.interface == i && LinkMeets(request, i.link)
              && i.calls == old(i.calls) + |ConfigureWrites(before, request)| + 2
              && r.value.applied == Some(FingerprintOf(i.link, selected))
              && r.value.snapshot == Some(Snapshot(before, FingerprintOf(before, selected), RestoreEvidence(before, request)))
              && (i.Quiet() ==> i.link == i.Run(old(i.calls) + 1, before, ConfigureWrites(before, request)).link)
    ensures r.Err? && r.error != RollbackFailed && i.Quiet() ==> SameLink(i.link, old(i.link))
  {
    var snapshot := TakeSnapshot(i, selected);
    if snapshot.Err? { return Err(snapshot.error); }
    var verified := WriteAndVerify(i, snapshot.value, request, selected);
    if verified.Err? { return Err(verified.error); }
    var lease := new LinkLease(i, snapshot.value.(evidence := verified.value.0), verified.value.1);
    r := Ok(lease);
  }

  /** The rollback of `Configure`, in terms of the link before. */
  method RollBack(i: Interface, snapshot: Snapshot, primary: LinkError) returns (error: LinkError)
    requires primary != RollbackFailed
    requires snapshot.fingerprint == FingerprintOf(snapshot.details, snapshot.fingerprint.identity)
    modifies i
    ensures error == primary || error == RollbackFailed
    ensures error != RollbackFailed && i.Quiet() ==> SameLink(i.link, snapshot.details)
  {
    ghost var k, d := i.calls, i.link;
    error := RollbackAfterFailure(i, snapshot, primary);
    if error != RollbackFailed && i.Quiet() { SuccessfulRestoreIsTheSnapshot(i, k, d, snapshot); }
  }

  // ----- Configure, then close -----

  lemma MaskedConfigureSucceedsIff(i: Interface, k: nat, d: Details, request: Request, selected: string, resolve: Timing -> Timing)
    requires MaskedDuring(i, k + 1, |ConfigureWrites(d, request)|, resolve) && SteadyQueries(i, selected)
    ensures i.Run(k + 1, d, ConfigureWrites(d, request)).link == Configured(d, request, LastStage(d), resolve)
    ensures ConfigureSucceeds(i, k, d, request, selected) <==>
            var a := Configured(d, request, LastStage(d), resolve);
            d.name.Some? && ActiveConfig(a).Some? && LinkMeets(request, a)
  {
    EveryWriteSucceeds(i, k + 1, d, ConfigureWrites(d, request), resolve);
    ConfigureWritesConfigure(d, request, resolve);
  }

  lemma MaskedRestoreSucceedsIff(i: Interface, k: nat, d: Details, s: Snapshot, resolve: Timing -> Timing)
    requires MaskedKernel(i, resolve) && SteadyQueries(i, s.fingerprint.identity)
    requires s.details.name.Some? && d.name == s.details.name
    requires s.fingerprint == FingerprintOf(s.details, s.fingerprint.identity)
    ensures i.Run(k, d, RestoreWrites(s)).link == Restored(s.details, s.evidence, d, resolve)
    ensures RestoreSucceeds(i, k, d, s) <==> SameLink(Restored(s.details, s.evidence, d, resolve), s.details)
  {
    EveryWriteSucceeds(i, k, d, RestoreWrites(s), resolve);
    RestoreWritesRestore(s, d, resolve);
    FingerprintsAgreeIff(Restored(s.details, s.evidence, d, resolve), s.fingerprint.identity, s.details, s.fingerprint.identity);
  }

  /** The snapshot that configuring takes. */
  function SnapshotOf(before: Details, request: Request, selected: string): Snapshot {
    Snapshot(before, FingerprintOf(before, selected), RestoreEvidence(before, request))
  }

  /** Configuring while every write is a masked update, nobody else writes and queries succeed. */
  method ConfigureUndisturbed(i: Interface, request: Request, selected: string, ghost resolve: Timing -> Timing)
    returns (r: Result<LinkLease, LinkError>)
    requires ValidRequest(request) && SteadyQueries(i, selected)
    requires MaskedDuring(i, i.calls + 1, |ConfigureWrites(i.link, request)|, resolve)
    modifies i
    ensures var a := Configured(old(i.link), request, LastStage(old(i.link)), resolve);
            r.Ok? <==> old(i.link).name.Some? && ActiveConfig(a).Some? && LinkMeets(request, a)
    ensures r.Ok? ==>
              && fresh(r.value) && r.value.Valid() && r.value.interface == i
              && i.link == Configured(old(i.link), request, LastStage(old(i.link)), resolve) && i.link.name.Some?
              && r.value.applied == Some(FingerprintOf(i.link, selected))
              && r.value.snapshot == Some(SnapshotOf(old(i.link), request, selected))
              && i.calls == old(i.calls) + |ConfigureWrites(old(i.link), request)| + 2
  {
    MaskedConfigureSucceedsIff(i, i.calls, i.link, request, selected, resolve);
    r := Configure(i, request, selected);
  }

  /** Whether what `Configure` leaves behind can be given back. */
  lemma GivenBackIff(i: Interface, k: nat, before: Details, request: Request, selected: string, resolve: Timing -> Timing)
    requires ValidRequest(request) && MaskedKernel(i, resolve) && SteadyQueries(i, selected)
    requires ReinstallsSnapshot(before, resolve) && before.name.Some?
    ensures var a, s := Configured(before, request, LastStage(before), resolve), SnapshotOf(before, request, selected);
            && (RestoreSucceeds(i, k, a, s) <==> SnapshotCovers(before, request, LastStage(before)))
            && (RestoreSucceeds(i, k, a, s) ==> SameLink(i.Run(k, a, RestoreWrites(s)).link, before))
  {
    RollbackRestoresIff(before, request, LastStage(before), resolve);
    MaskedRestoreSucceedsIff(i, k, Configured(before, request, LastStage(before), resolve), SnapshotOf(before, request, selected), resolve);
  }

  /** Closing what was just configured, on a masked-update kernel with nobody else writing. */
  method GiveBack(lease: LinkLease, ghost before: Details, ghost request: Request, ghost selected: string, ghost resolve: Timing -> Timing)
    returns (closed: bool)
    requires ValidRequest(request) && MaskedKernel(lease.interface, resolve) && SteadyQueries(lease.interface, selected)
    requires ReinstallsSnapshot(before, resolve) && before.name.Some? && lease.interface.link.name.Some?
    requires lease.interface.link == Configured(before, request, LastStage(before), resolve)
    requires lease.applied == Some(FingerprintOf(lease.interface.link, selected))
    requires lease.snapshot == Some(SnapshotOf(before, request, selected))
    modifies lease, lease.interface
    ensures closed <==> SnapshotCovers(before, request, LastStage(before))
    ensures closed ==> SameLink(lease.interface.link, before)
  {
    GivenBackIff(lease.interface, lease.interface.calls + 1, before, request, selected, resolve);
    var r := lease.Close();
    closed := r.Ok?;
  }

  /**
    Configure, then close, on a masked-update kernel with nobody else writing: configuring succeeds
    exactly when the link has a name and the configured link is readable and meets the request; the
    close then succeeds exactly when the original link reported every field the configuration wrote,
    and gives the original link back.
   */
  method ConfigureThenClose(i: Interface, request: Request, selected: string, ghost resolve: Timing -> Timing)
    returns (configured: bool, closed: bool)
    requires ValidRequest(request) && MaskedKernel(i, resolve) && SteadyQueries(i, selected)
    requires ReinstallsSnapshot(i.link, resolve)
    modifies i
    ensures var a := Configured(old(i.link), request, LastStage(old(i.link)), resolve);
            configured <==> old(i.link).name.Some? && ActiveConfig(a).Some? && LinkMeets(request, a)
    ensures closed <==> configured && SnapshotCovers(old(i.link), request, LastStage(old(i.link)))
    ensures closed ==> SameLink(i.link, old(i.link))
  {
    var lease := ConfigureUndisturbed(i, request, selected, resolve);
    configured, closed := lease.Ok?, false;
    if configured {
      closed := GiveBack(lease.value, old(i.link), request, selected, resolve);
    }
  }

  /**
    A proper request succeeds on a controller that obeys it: on a named link, without a data timing of
    its own if the request is Classical, with masked updates, steady queries and nobody else writing.
   */
  method ConfigureProper(i: Interface, request: Request, selected: string, ghost resolve: Timing -> Timing)
    returns (r: Result<LinkLease, LinkError>)
    requires ValidRequest(request) && Proper(request.nominal) && (request.data.Some? ==> Proper(request.data.value))
    requires i.link.name.Some? && (request.mode.ClassicMode? ==> i.link.data.None?)
    requires MaskedKernel(i, resolve) && Obeys(resolve) && SteadyQueries(i, selected)
    modifies i
    ensures r.Ok? && LinkMeets(request, i.link) && i.link.isUp == old(i.link).isUp
  {
    ConfiguredMeetsRequest(i.link, request, resolve);
    r := ConfigureUndisturbed(i, request, selected, resolve);
  }
}
