/**
  Links that cannot be given back (adapters/socketcan/src/link.rs). A close whose restore fails
  leaves the lease as it was, so the next close compares the half-restored link with the applied
  fingerprint: it refuses exactly if the writes that did succeed changed something it compares.
 */
module SocketCanStuck {
  import opened Prelude
  import opened SocketCanLink
  import opened SocketCanLease

  // ----- What the first writes of a restore change -----

  /** The parameters a restore writes are not all those the link already has. */
  predicate ParamsDiffer(a: Details, s: Snapshot, resolve: Timing -> Timing) {
    || (s.details.nominal.Some? && a.nominal != Some(resolve(s.details.nominal.value)))
    || (s.details.data.Some? && a.data != Some(resolve(s.details.data.value)))
    || (s.details.restartMs.Some? && a.restartMs != s.details.restartMs)
    || (s.details.termination.Some? && a.termination != s.details.termination)
    || (exists m :: m in s.evidence && ((m in ModesOf(a)) != (m in ModesOf(s.details))))
  }

  /**
    On a link in state `a`, the first `done` writes of the restore change something a fingerprint
    sees: they leave an up link down (or a down one up), or the MTU or the parameters were different.
   */
  predicate Disturbs(a: Details, s: Snapshot, done: nat, resolve: Timing -> Timing) {
    var sized := if s.details.mtu.Some? then 1 else 0;
    || (done > 0 && a.isUp != (s.details.isUp && done >= 3 + sized))
    || (done >= 2 && s.details.mtu.Some? && a.mtu != s.details.mtu)
    || (done >= 2 + sized && ParamsDiffer(a, s, resolve))
  }

  lemma ParamsDifferIff(a: Details, s: Snapshot, resolve: Timing -> Timing)
    ensures var b := Kernel(a, SetParams(RestoreParams(s.details, s.evidence)), resolve);
            FingerprintOf(b, "") != FingerprintOf(a, "") <==> ParamsDiffer(a, s, resolve)
  {
    var b := Kernel(a, SetParams(RestoreParams(s.details, s.evidence)), resolve);
    forall m: Mode ensures m in ModesOf(b) <==> if m in s.evidence then m in ModesOf(s.details) else m in ModesOf(a) {
    }
    if forall m :: m in s.evidence ==> ((m in ModesOf(a)) == (m in ModesOf(s.details))) {
      assert ModesOf(b) == ModesOf(a);
    } else {
      var m :| m in s.evidence && (m in ModesOf(a)) != (m in ModesOf(s.details));
      assert (m in ModesOf(b)) != (m in ModesOf(a));
    }
  }

  /** The link after the first `done` writes, field by field. */
  function PartlyRestored(a: Details, s: Snapshot, done: nat, resolve: Timing -> Timing): Details {
    var sized := if s.details.mtu.Some? then 1 else 0;
    var d := if done == 0 then a else a.(isUp := s.details.isUp && done >= 3 + sized);
    var e := if done >= 2 && s.details.mtu.Some? then d.(mtu := s.details.mtu) else d;
    if done >= 2 + sized then Kernel(e, SetParams(RestoreParams(s.details, s.evidence)), resolve) else e
  }

  lemma LastWritesRestore(d: Details, s: Snapshot, n: nat, resolve: Timing -> Timing)
    requires n <= |LastWrites(s)|
    ensures KernelAll(d, LastWrites(s)[..n], resolve) ==
            var params := SetParams(RestoreParams(s.details, s.evidence));
            if n == 0 then d
            else if n == 1 then Kernel(d, params, resolve)
            else Kernel(Kernel(d, params, resolve), BringUp, resolve)
  {
    var params := SetParams(RestoreParams(s.details, s.evidence));
    if n == 0 {
      assert LastWrites(s)[..0] == [];
    } else if n == 1 {
      assert LastWrites(s)[..1] == [params] + [];
      KernelTakes(d, params, [], resolve);
    } else {
      assert LastWrites(s)[..2] == [params] + ([BringUp] + []);
      KernelTakes(d, params, [BringUp] + [], resolve);
      KernelTakes(Kernel(d, params, resolve), BringUp, [], resolve);
    }
  }

  lemma WritesPartlyRestore(a: Details, s: Snapshot, done: nat, resolve: Timing -> Timing)
    requires done <= |RestoreWrites(s)|
    ensures KernelAll(a, RestoreWrites(s)[..done], resolve) == PartlyRestored(a, s, done, resolve)
  {
    var ws, last := RestoreWrites(s), LastWrites(s);
    var b := Kernel(a, BringDown, resolve);
    if done == 0 {
      assert ws[..0] == [];
    } else if s.details.mtu.None? {
      assert ws == [BringDown] + last;
      assert ws[..done] == [BringDown] + last[..done - 1];
      KernelTakes(a, BringDown, last[..done - 1], resolve);
      LastWritesRestore(b, s, done - 1, resolve);
    } else {
      var mtu := SetMtu(s.details.mtu.value);
      assert ws == [BringDown] + ([mtu] + last);
      if done == 1 {
        assert ws[..1] == [BringDown] + [];
        KernelTakes(a, BringDown, [], resolve);
      } else {
        assert ws[..done] == [BringDown] + ([mtu] + last[..done - 2]);
        KernelTakes(a, BringDown, [mtu] + last[..done - 2], resolve);
        KernelTakes(b, mtu, last[..done - 2], resolve);
        LastWritesRestore(Kernel(b, mtu, resolve), s, done - 2, resolve);
      }
    }
  }

  lemma DisturbsIff(a: Details, s: Snapshot, done: nat, resolve: Timing -> Timing)
    ensures SameLink(PartlyRestored(a, s, done, resolve), a) <==> !Disturbs(a, s, done, resolve)
  {
    ParamsDifferIff(a, s, resolve);
  }

  // ----- The next close -----

  /** The lease of an undisturbed link: it still fingerprints as applied, and `id` is its identity. */
  ghost predicate Undisturbed(lease: LinkLease, id: string)
    reads lease, lease.interface
  {
    && lease.snapshot.Some? && lease.applied == Some(FingerprintOf(lease.interface.link, id))
    && lease.interface.link.name.Some? && SteadyQueries(lease.interface, id)
  }

  /**
    A close of an undisturbed link. Nobody else writes, and a write either fails or is the masked
    update. If the close fails, the link is restored as far as its first `done` writes go.
   */
  method CloseUndisturbed(lease: LinkLease, ghost id: string, ghost resolve: Timing -> Timing)
    returns (r: Result<(), LinkError>, ghost done: nat)
    requires lease.Valid() && Undisturbed(lease, id) && MaskedWhenDone(lease.interface, resolve)
    modifies lease, lease.interface
    ensures lease.Valid() && (r.Ok? <==> lease.snapshot.None?)
    ensures var s, a := old(lease.snapshot).value, old(lease.interface.link);
            && done == lease.interface.Run(old(lease.interface.calls) + 1, a, RestoreWrites(s)).done <= |RestoreWrites(s)|
            && (done < |RestoreWrites(s)| ==> r == Err(NetlinkFailed))
            && lease.interface.link == PartlyRestored(a, s, done, resolve)
    ensures r.Err? ==> lease.snapshot == old(lease.snapshot) && lease.applied == old(lease.applied)
  {
    ghost var s, a, k := lease.snapshot.value, lease.interface.link, lease.interface.calls + 1;
    done := lease.interface.Run(k, a, RestoreWrites(s)).done;
    MaskedRun(lease.interface, k, a, RestoreWrites(s), resolve);
    WritesPartlyRestore(a, s, done, resolve);
    r := lease.Close();
  }

  /**
    The close after a failed one refuses exactly when the writes that succeeded changed something a
    fingerprint sees; otherwise it starts over.
   */
  method CloseTwice(lease: LinkLease, ghost id: string, ghost resolve: Timing -> Timing)
    returns (first: Result<(), LinkError>, second: Result<(), LinkError>, ghost done: nat)
    requires lease.Valid() && Undisturbed(lease, id) && MaskedWhenDone(lease.interface, resolve)
    modifies lease, lease.interface
    ensures var s, a := old(lease.snapshot).value, old(lease.interface.link);
            && done == lease.interface.Run(old(lease.interface.calls) + 1, a, RestoreWrites(s)).done <= |RestoreWrites(s)|
            && (done < |RestoreWrites(s)| ==> first == Err(NetlinkFailed))
            && (first.Ok? ==> second.Ok?)
            && (first.Err? ==> (second == Err(Conflict) <==> Disturbs(a, s, done, resolve)))
            && (second == Err(Conflict) ==> lease.interface.link == PartlyRestored(a, s, done, resolve))
  {
    ghost var s, a := lease.snapshot.value, lease.interface.link;
    first, done := CloseUndisturbed(lease, id, resolve);
    DisturbsIff(a, s, done, resolve);
    FingerprintsAgreeIff(PartlyRestored(a, s, done, resolve), id, a, id);
    second := lease.Close();
  }

  /** Once the link no longer fingerprints as applied, every later close refuses and writes nothing. */
  method CloseRepeatedly(lease: LinkLease, n: nat, ghost id: string) returns (results: seq<Result<(), LinkError>>)
    requires lease.Valid() && lease.snapshot.Some? && lease.interface.Quiet() && SteadyQueries(lease.interface, id)
    requires lease.interface.link.name.Some? && lease.applied != Some(FingerprintOf(lease.interface.link, id))
    modifies lease, lease.interface
    ensures results == seq(n, _ => Err(Conflict))
    ensures lease.interface.link == old(lease.interface.link) && lease.snapshot == old(lease.snapshot)
    ensures old(lease.interface.trace) <= lease.interface.trace
    ensures forall x :: x in Since(old(lease.interface.trace), lease.interface.trace) ==> x.Observed?
  {
    results := [];
    for k := 0 to n
      invariant results == seq(k, _ => Err(Conflict))
      invariant lease.Valid() && lease.interface.link == old(lease.interface.link)
      invariant lease.snapshot == old(lease.snapshot) && lease.applied == old(lease.applied)
      invariant old(lease.interface.trace) <= lease.interface.trace
      invariant forall x :: x in Since(old(lease.interface.trace), lease.interface.trace) ==> x.Observed?
    {
      ghost var before := lease.interface.trace;
      var r := lease.Close();
      assert Since(old(lease.interface.trace), lease.interface.trace)
          == Since(old(lease.interface.trace), before) + Since(before, lease.interface.trace);
      results := results + [r];
    }
  }

  // ----- Two such links -----

  const TIMING := Timing(500000, 0, 0, 0, 0, 0, 0, 0)
  const UP := Details(1, Some("can0"), true, Some(StandardMtu), Some(TIMING), None, Some({}), Some(0), None)
  const FRESH := Details(1, Some("can0"), false, Some(StandardMtu), None, None, Some({}), Some(0), None)
  const REQUEST := Request(ClassicMode, BitTiming(250000, None, None), None, false, false, None)

  /** A controller that takes a timing as it is requested. */
  function Keep(t: Timing): Timing { t }

  /** Call 8, the MTU write of the restore, fails; everything else succeeds. */
  function FailsAtEight(k: nat, d: Details, w: Write): Outcome { if k == 8 then Failed else Done(Kernel(d, w, Keep)) }

  lemma RequestIsMet(before: Details)
    requires before == UP || before == FRESH
    ensures var a := Configured(before, REQUEST, LastStage(before), Keep);
            a.name.Some? && ActiveConfig(a).Some? && LinkMeets(REQUEST, a)
  {
    var a := Configured(before, REQUEST, LastStage(before), Keep);
    assert ModesOf(a) == {};
  }

  lemma RestoreStopsAtEight(i: Interface, a: Details)
    requires i.kernel == FailsAtEight && i.Quiet()
    ensures i.Run(7, a, RestoreWrites(SnapshotOf(UP, REQUEST, "usb:1"))).done == 1
  {
    assert RestoreEvidence(UP, REQUEST) == {};
    var tail := [SetParams(RestoreParams(UP, {}))] + [BringUp];
    i.RunTakes(7, a, BringDown, [SetMtu(StandardMtu)] + tail);
    i.RunTakes(8, Kernel(a, BringDown, Keep), SetMtu(StandardMtu), tail);
  }

  /** A lease as configuring leaves it after six calls. */
  ghost predicate JustConfigured(lease: LinkLease)
    reads lease, lease.interface
  {
    && lease.Valid() && Undisturbed(lease, "usb:1") && lease.interface.kernel == FailsAtEight && lease.interface.Quiet()
    && lease.interface.calls == 6 && lease.interface.link.isUp && lease.snapshot == Some(SnapshotOf(UP, REQUEST, "usb:1"))
  }

  /** Its close takes the link down and cannot set the MTU; the next close finds it down, not as applied, and refuses. */
  method StuckLease(lease: LinkLease) returns (first: Result<(), LinkError>, second: Result<(), LinkError>)
    requires JustConfigured(lease)
    modifies lease, lease.interface
    ensures first == Err(NetlinkFailed) && second == Err(Conflict)
  {
    RestoreStopsAtEight(lease.interface, lease.interface.link);
    ghost var done;
    first, second, done := CloseTwice(lease, "usb:1", Keep);
  }

  /** A link that was up is configured, and from then on every close fails. */
  method StuckLink() returns (configured: bool, first: Result<(), LinkError>, second: Result<(), LinkError>)
    ensures configured && first == Err(NetlinkFailed) && second == Err(Conflict)
  {
    var i := new Interface(FailsAtEight, _ => None, _ => true, (_, _) => Some("usb:1"), UP);
    RequestIsMet(UP);
    var lease := ConfigureUndisturbed(i, REQUEST, "usb:1", Keep);
    configured := lease.Ok?;
    first, second := StuckLease(lease.value);
  }

  /** A link that never had a bit timing is configured and cannot be given back: nothing unsets a timing. */
  method FreshLinkIsKept() returns (configured: bool, closed: bool)
    ensures configured && !closed
  {
    var i := new Interface((_, d, w) => Done(Kernel(d, w, Keep)), _ => None, _ => true, (_, _) => Some("usb:1"), FRESH);
    RequestIsMet(FRESH);
    configured, closed := ConfigureThenClose(i, REQUEST, "usb:1", Keep);
  }
}
