/**
  Writing a SocketCAN link through fallible netlink calls: what a configuration writes, what a
  restore writes, and what becomes of the link (adapters/socketcan/src/link.rs). The kernel, other
  writers of the link and the sysfs identity lookup are arbitrary; each theorem says what it assumes
  of them.
 */
module SocketCanLink {
  import opened Prelude

  datatype Timing = Timing(
    bitrate: nat, samplePoint: nat, tq: nat, propSeg: nat, phaseSeg1: nat, phaseSeg2: nat, sjw: nat, brp: nat)

  datatype Mtu = StandardMtu | FdMtu

  /** The nine controller modes. */
  datatype Mode =
    | Loopback | ListenOnly | TripleSampling | OneShot | BerrReporting | Fd | PresumeAck | NonIso | CcLen8Dlc

  /** What netlink reports of a link. */
  datatype Details = Details(
    index: nat,
    name: Option<string>,
    isUp: bool,
    mtu: Option<Mtu>,
    nominal: Option<Timing>,
    data: Option<Timing>,
    modes: Option<set<Mode>>,
    restartMs: Option<nat>,
    termination: Option<nat>)

  /** A controller-mode update: each mode in `mask` becomes a member exactly if it is in `on`. */
  datatype ModeUpdate = ModeUpdate(mask: set<Mode>, on: set<Mode>)

  datatype Params = Params(
    nominal: Option<Timing>,
    data: Option<Timing>,
    modes: Option<ModeUpdate>,
    restartMs: Option<nat>,
    termination: Option<nat>)

  datatype Write = BringDown | BringUp | SetMtu(mtu: Mtu) | SetParams(params: Params)

  datatype BitTiming = BitTiming(bitrate: nat, samplePoint: Option<nat>, sjw: Option<nat>)

  datatype CanMode = ClassicMode | FdMode

  datatype Request = Request(
    mode: CanMode, nominal: BitTiming, data: Option<BitTiming>, listenOnly: bool, loopback: bool, restartMs: Option<nat>)

  /** What the request's constructor guarantees. */
  predicate ValidRequest(r: Request) {
    (r.mode.FdMode? <==> r.data.Some?) && (r.restartMs.Some? ==> r.restartMs.value != 0)
  }

  datatype LinkError =
    | NetlinkFailed | Unresolved | NotFound | Inconsistent | Mismatch | Conflict | RollbackFailed

  // ----- Fingerprints -----

  function ModesOf(d: Details): set<Mode> { if d.modes.Some? then d.modes.value else {} }

  datatype Fingerprint = Fingerprint(
    index: nat, name: string, identity: string, isUp: bool, mtu: Option<Mtu>, nominal: Option<Timing>, data: Option<Timing>,
    restartMs: Option<nat>, modes: set<Mode>, termination: Option<nat>)

  function FingerprintOf(d: Details, identity: string): Fingerprint {
    Fingerprint(d.index, if d.name.Some? then d.name.value else "", identity, d.isUp, d.mtu, d.nominal, d.data,
                d.restartMs, ModesOf(d), d.termination)
  }

  function NameOf(d: Details): string { if d.name.Some? then d.name.value else "" }

  /** The same interface in the same state: up or down, MTU, timings, restart delay, termination and all nine modes. */
  predicate SameLink(a: Details, b: Details) {
    && a.index == b.index && NameOf(a) == NameOf(b) && a.isUp == b.isUp && a.mtu == b.mtu
    && a.nominal == b.nominal && a.data == b.data && a.restartMs == b.restartMs && a.termination == b.termination
    && forall m: Mode :: m in ModesOf(a) <==> m in ModesOf(b)
  }

  /** Equal fingerprints are the same link under the same physical identity. */
  lemma FingerprintsAgreeIff(a: Details, idA: string, b: Details, idB: string)
    ensures FingerprintOf(a, idA) == FingerprintOf(b, idB) <==> idA == idB && SameLink(a, b)
  {
    if SameLink(a, b) { assert ModesOf(a) == ModesOf(b); }
  }

  // ----- What configuring writes and restoring undoes -----

  function ToTiming(t: BitTiming): Timing {
    Timing(t.bitrate, if t.samplePoint.Some? then t.samplePoint.value else 0, 0, 0, 0, 0, if t.sjw.Some? then t.sjw.value else 0, 0)
  }

  function RequestedModes(r: Request): set<Mode> {
    (if r.mode.FdMode? then {Fd} else {}) + (if r.listenOnly then {ListenOnly} else {}) + (if r.loopback then {Loopback} else {})
  }

  const CONFIGURED_MODES: set<Mode> := {Fd, ListenOnly, Loopback}

  function ConfigureParams(r: Request): Params {
    Params(Some(ToTiming(r.nominal)), if r.data.Some? then Some(ToTiming(r.data.value)) else None,
           Some(ModeUpdate(CONFIGURED_MODES, RequestedModes(r))), Some(if r.restartMs.Some? then r.restartMs.value else 0), None)
  }

  function RequestedMtu(r: Request): Mtu { if r.mode.FdMode? then FdMtu else StandardMtu }

  /** The configured modes whose value the request changes: the only ones a restore will touch. */
  function RestoreEvidence(before: Details, r: Request): set<Mode> {
    set m | m in CONFIGURED_MODES && (m in ModesOf(before)) != (m in RequestedModes(r))
  }

  function RestoreParams(before: Details, evidence: set<Mode>): Params {
    Params(before.nominal, before.data,
           if evidence == {} then None else Some(ModeUpdate(evidence, evidence * ModesOf(before))),
           before.restartMs, before.termination)
  }

  // ----- Verification of the configured link -----

  datatype Active = Active(mode: CanMode, listenOnly: bool, loopback: bool)

  predicate Reportable(t: Timing) {
    && t.samplePoint <= U16_MAX && t.sjw <= U16_MAX && t.bitrate != 0
    && (t.samplePoint != 0 ==> t.samplePoint <= 999)
  }

  /** The active configuration read off a link; disagreement and missing timing are errors. */
  function ActiveConfig(d: Details): Option<Active> {
    var fdMtu, fdMode := d.mtu == Some(FdMtu), Fd in ModesOf(d);
    if fdMtu != fdMode then None
    else if d.nominal.None? || !Reportable(d.nominal.value) then None
    else if fdMode && (d.data.None? || !Reportable(d.data.value)) then None
    else Some(Active(if fdMode then FdMode else ClassicMode, ListenOnly in ModesOf(d), Loopback in ModesOf(d)))
  }

  predicate TimingMatches(expected: BitTiming, actual: Timing) {
    && actual.bitrate == expected.bitrate
    && (expected.samplePoint.Some? ==> actual.samplePoint == expected.samplePoint.value)
    && (expected.sjw.Some? ==> actual.sjw == expected.sjw.value)
  }

  predicate ConfigMatches(r: Request, d: Details, active: Active) {
    && r.mode == active.mode
    && d.nominal.Some? && TimingMatches(r.nominal, d.nominal.value)
    && (if r.data.Some? then d.data.Some? && TimingMatches(r.data.value, d.data.value) else d.data.None?)
    && ((Fd in ModesOf(d)) == r.mode.FdMode?)
    && r.listenOnly == active.listenOnly && r.loopback == active.loopback
    && d.restartMs == Some(if r.restartMs.Some? then r.restartMs.value else 0)
  }

  /** The timing has the requested bitrate, and sample point and jump width where they are requested. */
  predicate Times(expected: BitTiming, actual: Option<Timing>) {
    && actual.Some? && actual.value.bitrate == expected.bitrate
    && (expected.samplePoint.None? || actual.value.samplePoint == expected.samplePoint.value)
    && (expected.sjw.None? || actual.value.sjw == expected.sjw.value)
  }

  /** What a caller of `configure` asked for, said of the link itself. */
  predicate LinkMeets(r: Request, d: Details) {
    && (d.mtu == Some(FdMtu) <==> r.mode == FdMode) && (Fd in ModesOf(d) <==> r.mode == FdMode)
    && (ListenOnly in ModesOf(d) <==> r.listenOnly) && (Loopback in ModesOf(d) <==> r.loopback)
    && Times(r.nominal, d.nominal) && (if r.data.Some? then Times(r.data.value, d.data) else d.data.None?)
    && d.restartMs == Some(if r.restartMs.Some? then r.restartMs.value else 0)
  }

  /** On a link with a readable active configuration, the source's check is exactly the request. */
  lemma VerificationIsTheRequest(r: Request, d: Details)
    requires ActiveConfig(d).Some?
    ensures ConfigMatches(r, d, ActiveConfig(d).value) <==> LinkMeets(r, d)
  {
    assert (d.mtu == Some(FdMtu)) == (Fd in ModesOf(d));
    assert d.nominal.Some? ==> (Times(r.nominal, d.nominal) <==> TimingMatches(r.nominal, d.nominal.value));
    assert r.mode.ClassicMode? || r.mode.FdMode?;
  }

  // ----- The masked-update kernel -----

  /** Netlink semantics: a parameter that is absent stays, a mode outside the mask stays. */
  function UpdateModes(before: Option<set<Mode>>, update: Option<ModeUpdate>): Option<set<Mode>> {
    if update.None? then before
    else
      var current := if before.Some? then before.value else {};
      Some((current - update.value.mask) + (update.value.on * update.value.mask))
  }

  function Merge<T>(before: Option<T>, update: Option<T>): Option<T> { if update.Some? then update else before }

  /** `resolve` is how the controller completes a requested timing. */
  function Kernel(d: Details, w: Write, resolve: Timing -> Timing): Details {
    match w
    case BringDown => d.(isUp := false)
    case BringUp => d.(isUp := true)
    case SetMtu(m) => d.(mtu := Some(m))
    case SetParams(p) =>
      d.(nominal := Merge(d.nominal, Resolved(p.nominal, resolve)), data := Merge(d.data, Resolved(p.data, resolve)),
         modes := UpdateModes(d.modes, p.modes), restartMs := Merge(d.restartMs, p.restartMs),
         termination := Merge(d.termination, p.termination))
  }

  function Resolved(t: Option<Timing>, resolve: Timing -> Timing): Option<Timing> {
    if t.Some? then Some(resolve(t.value)) else None
  }

  function KernelAll(d: Details, writes: seq<Write>, resolve: Timing -> Timing): Details
    decreases |writes|
  {
    if writes == [] then d else KernelAll(Kernel(d, writes[0], resolve), writes[1..], resolve)
  }

  /** How far a configuration got before it was rolled back. */
  datatype Stage = OnlyDown | ParamsSet | MtuSet | BroughtUp

  function Configured(before: Details, r: Request, stage: Stage, resolve: Timing -> Timing): Details {
    var down := Kernel(before, BringDown, resolve);
    if stage.OnlyDown? then down
    else
      var set_ := Kernel(down, SetParams(ConfigureParams(r)), resolve);
      if stage.ParamsSet? then set_
      else
        var mtu := Kernel(set_, SetMtu(RequestedMtu(r)), resolve);
        if stage.MtuSet? then mtu else Kernel(mtu, BringUp, resolve)
  }

  /** The stage a configuration reaches when nothing fails. */
  function LastStage(before: Details): Stage { if before.isUp then BroughtUp else MtuSet }

  function EvidenceAt(before: Details, r: Request, stage: Stage): set<Mode> {
    if stage.OnlyDown? then {} else RestoreEvidence(before, r)
  }

  /** The restore sequence, every call succeeding. */
  function Restored(before: Details, evidence: set<Mode>, d: Details, resolve: Timing -> Timing): Details {
    var down := Kernel(d, BringDown, resolve);
    var mtu := if before.mtu.Some? then Kernel(down, SetMtu(before.mtu.value), resolve) else down;
    var params := Kernel(mtu, SetParams(RestoreParams(before, evidence)), resolve);
    if before.isUp then Kernel(params, BringUp, resolve) else params
  }

  /** The snapshot holds a value for everything that was written since it was taken. */
  predicate SnapshotCovers(before: Details, r: Request, stage: Stage) {
    && (!stage.OnlyDown? ==> before.nominal.Some? && before.restartMs.Some? && (r.data.Some? ==> before.data.Some?))
    && (stage.MtuSet? || stage.BroughtUp? ==> before.mtu.Some?)
  }

  /** Re-installing a complete timing gives that timing. */
  predicate ReinstallsSnapshot(before: Details, resolve: Timing -> Timing) {
    && (before.nominal.Some? ==> resolve(before.nominal.value) == before.nominal.value)
    && (before.data.Some? ==> resolve(before.data.value) == before.data.value)
  }

  /** Touching only the changed modes brings all nine back. */
  lemma ModesComeBack(before: Details, r: Request)
    ensures var evidence := RestoreEvidence(before, r);
            var after := UpdateModes(before.modes, ConfigureParams(r).modes);
            var back := UpdateModes(after, RestoreParams(before, evidence).modes);
            back.Some? && back.value == ModesOf(before)
  {
    var evidence := RestoreEvidence(before, r);
    var after := UpdateModes(before.modes, ConfigureParams(r).modes);
    var back := UpdateModes(after, RestoreParams(before, evidence).modes);
    forall m: Mode ensures m in back.value <==> m in ModesOf(before) {
      if m in CONFIGURED_MODES {
        assert m in after.value <==> m in RequestedModes(r);
        assert m in evidence <==> (m in ModesOf(before)) != (m in RequestedModes(r));
      } else {
        assert m !in evidence;
        assert m in after.value <==> m in ModesOf(before);
      }
    }
  }

  /** What a restore leaves in each field: the snapshot's value, or where it has none the link's. */
  lemma RestoredFields(before: Details, evidence: set<Mode>, d: Details, resolve: Timing -> Timing)
    requires ReinstallsSnapshot(before, resolve)
    ensures var back := Restored(before, evidence, d, resolve);
            && back.index == d.index && back.name == d.name && back.isUp == before.isUp
            && back.mtu == Merge(d.mtu, before.mtu) && back.nominal == Merge(d.nominal, before.nominal)
            && back.data == Merge(d.data, before.data) && back.restartMs == Merge(d.restartMs, before.restartMs)
            && back.termination == Merge(d.termination, before.termination)
            && back.modes == UpdateModes(d.modes, RestoreParams(before, evidence).modes)
  {
  }

  /** The modes are back after a rollback from any stage. */
  lemma RestoredModes(before: Details, r: Request, stage: Stage, resolve: Timing -> Timing)
    ensures var applied := Configured(before, r, stage, resolve);
            ModesOf(Restored(before, EvidenceAt(before, r, stage), applied, resolve)) == ModesOf(before)
  {
    ModesComeBack(before, r);
  }

  /**
    Rolling back from any stage returns the link to its snapshot, up to what a fingerprint sees,
    if and only if the snapshot has a value for each field the configuration had written by then.
   */
  lemma RollbackRestoresIff(before: Details, r: Request, stage: Stage, resolve: Timing -> Timing)
    requires ReinstallsSnapshot(before, resolve) && ValidRequest(r)
    requires stage.BroughtUp? ==> before.isUp
    ensures var applied := Configured(before, r, stage, resolve);
            SameLink(Restored(before, EvidenceAt(before, r, stage), applied, resolve), before) <==> SnapshotCovers(before, r, stage)
  {
    RestoredModes(before, r, stage, resolve);
    RestoredFields(before, EvidenceAt(before, r, stage), Configured(before, r, stage, resolve), resolve);
  }

  // ----- The sequences of writes -----

  /** The writes of a configuration, in order. */
  function ConfigureWrites(before: Details, r: Request): seq<Write> {
    (if before.isUp then [BringDown] else [])
    + ([SetParams(ConfigureParams(r))] + ([SetMtu(RequestedMtu(r))] + (if before.isUp then [BringUp] else [])))
  }

  datatype Snapshot = Snapshot(details: Details, fingerprint: Fingerprint, evidence: set<Mode>)

  /** The last writes of a restore: the parameters, and bringing the link up if it was. */
  function LastWrites(s: Snapshot): seq<Write> {
    [SetParams(RestoreParams(s.details, s.evidence))] + (if s.details.isUp then [BringUp] else [])
  }

  /** The writes of a restore, in order. */
  function RestoreWrites(s: Snapshot): seq<Write> {
    [BringDown] + ((if s.details.mtu.Some? then [SetMtu(s.details.mtu.value)] else []) + LastWrites(s))
  }

  lemma KernelTakes(d: Details, w: Write, rest: seq<Write>, resolve: Timing -> Timing)
    ensures KernelAll(d, [w] + rest, resolve) == KernelAll(Kernel(d, w, resolve), rest, resolve)
  {
    assert ([w] + rest)[1..] == rest;
  }

  lemma ConfigureWritesConfigure(before: Details, r: Request, resolve: Timing -> Timing)
    ensures KernelAll(before, ConfigureWrites(before, r), resolve) == Configured(before, r, LastStage(before), resolve)
  {
    var up: seq<Write> := if before.isUp then [BringUp] else [];
    var down := Kernel(before, BringDown, resolve);
    var params := Kernel(down, SetParams(ConfigureParams(r)), resolve);
    var mtu := Kernel(params, SetMtu(RequestedMtu(r)), resolve);
    KernelTakes(params, SetMtu(RequestedMtu(r)), up, resolve);
    KernelTakes(down, SetParams(ConfigureParams(r)), [SetMtu(RequestedMtu(r))] + up, resolve);
    if before.isUp {
      KernelTakes(before, BringDown, [SetParams(ConfigureParams(r))] + ([SetMtu(RequestedMtu(r))] + up), resolve);
      KernelTakes(mtu, BringUp, [], resolve);
    } else {
      assert down == before;
      assert ConfigureWrites(before, r) == [SetParams(ConfigureParams(r))] + ([SetMtu(RequestedMtu(r))] + up);
    }
  }

  lemma RestoreWritesRestore(s: Snapshot, d: Details, resolve: Timing -> Timing)
    ensures KernelAll(d, RestoreWrites(s), resolve) == Restored(s.details, s.evidence, d, resolve)
  {
    var params := SetParams(RestoreParams(s.details, s.evidence));
    var up: seq<Write> := if s.details.isUp then [BringUp] else [];
    var mtu: seq<Write> := if s.details.mtu.Some? then [SetMtu(s.details.mtu.value)] else [];
    var down := Kernel(d, BringDown, resolve);
    KernelTakes(d, BringDown, mtu + ([params] + up), resolve);
    var sized := down;
    if s.details.mtu.Some? {
      KernelTakes(down, SetMtu(s.details.mtu.value), [params] + up, resolve);
      sized := Kernel(down, SetMtu(s.details.mtu.value), resolve);
    } else {
      assert mtu + ([params] + up) == [params] + up;
    }
    KernelTakes(sized, params, up, resolve);
    if s.details.isUp { KernelTakes(Kernel(sized, params, resolve), BringUp, [], resolve); }
  }

  /** Parameters and MTU are written only to a link that is down at that moment. */
  predicate WrittenDown(d: Details, writes: seq<Write>, resolve: Timing -> Timing)
    decreases |writes|
  {
    writes == [] || ((writes[0].SetMtu? || writes[0].SetParams? ==> !d.isUp)
                     && WrittenDown(Kernel(d, writes[0], resolve), writes[1..], resolve))
  }

  lemma DownWrites(d: Details, w: Write, rest: seq<Write>, resolve: Timing -> Timing)
    requires (w.SetMtu? || w.SetParams? ==> !d.isUp) && WrittenDown(Kernel(d, w, resolve), rest, resolve)
    ensures WrittenDown(d, [w] + rest, resolve)
  {
    assert ([w] + rest)[1..] == rest;
  }

  /** Configuring writes parameters and MTU only while the link is down, and leaves it up or down as it was. */
  lemma ConfigureWritesDown(before: Details, r: Request, resolve: Timing -> Timing)
    ensures WrittenDown(before, ConfigureWrites(before, r), resolve)
    ensures KernelAll(before, ConfigureWrites(before, r), resolve).isUp == before.isUp
  {
    ConfigureWritesConfigure(before, r, resolve);
    var params, mtu := SetParams(ConfigureParams(r)), SetMtu(RequestedMtu(r));
    var up: seq<Write> := if before.isUp then [BringUp] else [];
    var down := Kernel(before, BringDown, resolve);
    DownWrites(Kernel(down, params, resolve), mtu, up, resolve);
    DownWrites(down, params, [mtu] + up, resolve);
    if before.isUp {
      DownWrites(before, BringDown, [params] + ([mtu] + up), resolve);
    } else {
      assert down == before;
      assert ConfigureWrites(before, r) == [params] + ([mtu] + up);
    }
  }

  /** So does a restore, and it leaves the link up or down as the snapshot was. */
  lemma RestoreWritesDown(s: Snapshot, d: Details, resolve: Timing -> Timing)
    ensures WrittenDown(d, RestoreWrites(s), resolve)
    ensures KernelAll(d, RestoreWrites(s), resolve).isUp == s.details.isUp
  {
    RestoreWritesRestore(s, d, resolve);
    var params := SetParams(RestoreParams(s.details, s.evidence));
    var up: seq<Write> := if s.details.isUp then [BringUp] else [];
    var mtu: seq<Write> := if s.details.mtu.Some? then [SetMtu(s.details.mtu.value)] else [];
    var down := Kernel(d, BringDown, resolve);
    var sized := if s.details.mtu.Some? then Kernel(down, SetMtu(s.details.mtu.value), resolve) else down;
    DownWrites(sized, params, up, resolve);
    if s.details.mtu.Some? {
      DownWrites(down, SetMtu(s.details.mtu.value), LastWrites(s), resolve);
    } else {
      assert mtu + LastWrites(s) == LastWrites(s);
    }
    DownWrites(d, BringDown, mtu + LastWrites(s), resolve);
  }

  /** A restore touches exactly the modes that configuring changed. */
  lemma RestoreTouchesIff(before: Details, r: Request, resolve: Timing -> Timing, m: Mode)
    ensures m in RestoreEvidence(before, r) <==>
            ((m in ModesOf(Configured(before, r, LastStage(before), resolve))) != (m in ModesOf(before)))
  {
  }

  // ----- A request that can be met is met -----

  /** A request with a bitrate, a sample point below one and a jump width of 16 bits, where it names them. */
  predicate Proper(t: BitTiming) {
    && t.bitrate > 0
    && (t.samplePoint.Some? ==> 1 <= t.samplePoint.value <= 999)
    && (t.sjw.Some? ==> 1 <= t.sjw.value <= U16_MAX)
  }

  /** A controller that keeps what it is asked for and fills in the rest with values it can report. */
  ghost predicate Obeys(resolve: Timing -> Timing) {
    forall t :: && resolve(t).bitrate == t.bitrate
                && (t.samplePoint != 0 ==> resolve(t).samplePoint == t.samplePoint)
                && (t.sjw != 0 ==> resolve(t).sjw == t.sjw)
                && (t.samplePoint == 0 ==> resolve(t).samplePoint <= 999)
                && (t.sjw == 0 ==> resolve(t).sjw <= U16_MAX)
  }

  /** On such a controller the configured link is readable and is what was requested. */
  lemma ConfiguredMeetsRequest(before: Details, r: Request, resolve: Timing -> Timing)
    requires ValidRequest(r) && Proper(r.nominal) && (r.data.Some? ==> Proper(r.data.value)) && Obeys(resolve)
    requires r.mode.ClassicMode? ==> before.data.None?
    ensures var a := Configured(before, r, LastStage(before), resolve);
            && ActiveConfig(a).Some? && LinkMeets(r, a) && a.isUp == before.isUp
            && (forall m: Mode :: m in ModesOf(a) <==>
                  match m
                  case Fd => r.mode.FdMode?
                  case ListenOnly => r.listenOnly
                  case Loopback => r.loopback
                  case _ => m in ModesOf(before))
  {
    var a := Configured(before, r, LastStage(before), resolve);
    forall m: Mode ensures m in ModesOf(a) <==> if m in CONFIGURED_MODES then m in RequestedModes(r) else m in ModesOf(before) {
    }
  }

  // ----- The interface: kernel, other writers and sysfs -----

  datatype Outcome = Failed | Done(after: Details)

  datatype Action = Observed(details: Details) | Attempted(write: Write)

  /** How many writes of a sequence succeeded before one failed, and the link then. */
  datatype Progress = Progress(done: nat, link: Details)

  /**
    One open netlink handle. `kernel` decides each write from the call number, the state it finds
    and the write; `external` is what somebody else makes of the link just before a call;
    `readable` and `identityOf` decide whether a query and an identity lookup succeed.
   */
  class Interface {
    const kernel: (nat, Details, Write) -> Outcome
    const external: nat -> Option<Details>
    const readable: nat -> bool
    const identityOf: (nat, string) -> Option<string>
    var calls: nat
    var link: Details
    /** Every successful query and every attempted write, in order. */
    ghost var trace: seq<Action>

    constructor (
      kernel: (nat, Details, Write) -> Outcome, external: nat -> Option<Details>, readable: nat -> bool,
      identityOf: (nat, string) -> Option<string>, link: Details)
      ensures this.kernel == kernel && this.external == external && this.readable == readable && this.identityOf == identityOf
      ensures this.link == link && calls == 0 && trace == []
    {
      this.kernel := kernel;
      this.external := external;
      this.readable := readable;
      this.identityOf := identityOf;
      this.calls := 0;
      this.link := link;
      this.trace := [];
    }

    /** Nobody else writes the link. */
    ghost predicate Quiet() { forall k :: external(k).None? }

    /** The link that call `k` finds when the calls before left `d`. */
    function Found(k: nat, d: Details): Details { if external(k).Some? then external(k).value else d }

    /** The fingerprint that a query as call `k` and the lookups after it give: identity included. */
    function Reads(k: nat, d: Details): Result<Fingerprint, LinkError> {
      var found := Found(k, d);
      if !readable(k) then Err(NetlinkFailed)
      else if found.name.None? || identityOf(k + 1, found.name.value).None? then Err(Unresolved)
      else Ok(FingerprintOf(found, identityOf(k + 1, found.name.value).value))
    }

    /** What becomes of writes that stop at the first failure. A failed write leaves the link it found. */
    function Run(k: nat, d: Details, writes: seq<Write>): Progress
      decreases |writes|
    {
      if writes == [] then Progress(0, d)
      else
        match kernel(k, Found(k, d), writes[0])
        case Failed => Progress(0, Found(k, d))
        case Done(after) =>
          var rest := Run(k + 1, after, writes[1..]);
          Progress(rest.done + 1, rest.link)
    }

    lemma RunTakes(k: nat, d: Details, w: Write, rest: seq<Write>)
      ensures Run(k, d, [w] + rest) ==
              match kernel(k, Found(k, d), w)
              case Failed => Progress(0, Found(k, d))
              case Done(after) => Progress(Run(k + 1, after, rest).done + 1, Run(k + 1, after, rest).link)
    {
      assert ([w] + rest)[1..] == rest;
    }

    method Apply(w: Write) returns (ok: bool)
      modifies this
      ensures calls == old(calls) + 1 && trace == old(trace) + [Attempted(w)]
      ensures match kernel(old(calls), Found(old(calls), old(link)), w)
              case Failed => !ok && link == Found(old(calls), old(link))
              case Done(after) => ok && link == after
    {
      link := Found(calls, link);
      var outcome := kernel(calls, link, w);
      ok := outcome.Done?;
      if ok { link := outcome.after; }
      calls := calls + 1;
      trace := trace + [Attempted(w)];
    }

    method Query() returns (r: Option<Details>)
      modifies this
      ensures calls == old(calls) + 1 && link == Found(old(calls), old(link))
      ensures r == if readable(old(calls)) then Some(link) else None
      ensures trace == old(trace) + if r.Some? then [Observed(link)] else []
    {
      link := Found(calls, link);
      r := None;
      if readable(calls) {
        r := Some(link);
        trace := trace + [Observed(link)];
      }
      calls := calls + 1;
    }

    /** The fingerprint of queried details; fails without a name or an identity. */
    method TakeFingerprint(d: Details) returns (r: Option<Fingerprint>)
      ensures r.Some? <==> d.name.Some? && identityOf(calls, d.name.value).Some?
      ensures r.Some? ==> r.value == FingerprintOf(d, identityOf(calls, d.name.value).value)
    {
      if d.name.None? { return None; }
      var identity := identityOf(calls, d.name.value);
      if identity.None? { return None; }
      r := Some(FingerprintOf(d, identity.value));
    }
  }

  datatype ConfigureFailure = ConfigureFailure(error: LinkError, rollbackRequired: bool, evidence: set<Mode>)

  /** Nobody else writes, and a write that succeeds is the masked update of the link. */
  ghost predicate MaskedWhenDone(i: Interface, resolve: Timing -> Timing) {
    i.Quiet() && forall k, d, w :: i.kernel(k, d, w).Done? ==> i.kernel(k, d, w).after == Kernel(d, w, resolve)
  }

  /** Moreover every write succeeds. */
  ghost predicate MaskedKernel(i: Interface, resolve: Timing -> Timing) {
    i.Quiet() && (forall k, d, w :: i.kernel(k, d, w) == Done(Kernel(d, w, resolve)))
  }

  /** Queries and identity lookups succeed, and the identity of a name does not change. */
  ghost predicate SteadyQueries(i: Interface, identity: string) {
    (forall k :: i.readable(k)) && (forall k, name :: i.identityOf(k, name) == Some(identity))
  }

  lemma {:induction false} MaskedRun(i: Interface, k: nat, d: Details, writes: seq<Write>, resolve: Timing -> Timing)
    requires MaskedWhenDone(i, resolve)
    ensures var p := i.Run(k, d, writes); p.done <= |writes| && p.link == KernelAll(d, writes[..p.done], resolve)
    decreases |writes|
  {
    if writes != [] && i.kernel(k, d, writes[0]).Done? {
      var after := Kernel(d, writes[0], resolve);
      MaskedRun(i, k + 1, after, writes[1..], resolve);
      var n := i.Run(k + 1, after, writes[1..]).done;
      assert writes[..n + 1] == [writes[0]] + writes[1..][..n];
      KernelTakes(d, writes[0], writes[1..][..n], resolve);
    }
  }

  /** Every write among calls `k` to `k + n` is the masked update of the link. */
  ghost predicate MaskedDuring(i: Interface, k: nat, n: nat, resolve: Timing -> Timing) {
    i.Quiet() && (forall j, d, w :: k <= j < k + n ==> i.kernel(j, d, w) == Done(Kernel(d, w, resolve)))
  }

  lemma {:induction false} EveryWriteSucceeds(i: Interface, k: nat, d: Details, writes: seq<Write>, resolve: Timing -> Timing)
    requires MaskedDuring(i, k, |writes|, resolve)
    ensures i.Run(k, d, writes) == Progress(|writes|, KernelAll(d, writes, resolve))
    decreases |writes|
  {
    if writes != [] { EveryWriteSucceeds(i, k + 1, Kernel(d, writes[0], resolve), writes[1..], resolve); }
  }

  // ----- Configure, restore, roll back -----

  /**
    Takes the link down, writes parameters and MTU, and brings it up again if it was up. A failure
    asks for a rollback exactly if some write succeeded, and only a successful parameter write leaves
    modes to restore.
   */
  method ConfigureLink(i: Interface, before: Details, request: Request) returns (r: Result<set<Mode>, ConfigureFailure>)
    modifies i
    ensures var writes := ConfigureWrites(before, request);
            var p := i.Run(old(i.calls), old(i.link), writes);
            && i.link == p.link
            && (r.Ok? <==> p.done == |writes|)
            && (r.Ok? ==> r.value == RestoreEvidence(before, request) && i.calls == old(i.calls) + |writes|)
            && (r.Err? ==> r.error == ConfigureFailure(NetlinkFailed, p.done > 0,
                                                       if p.done > (if before.isUp then 1 else 0) then RestoreEvidence(before, request) else {}))
  {
    var pending := RestoreEvidence(before, request);
    var rollbackRequired := false;
    var evidence: set<Mode> := {};
    ghost var up: seq<Write> := if before.isUp then [BringUp] else [];
    ghost var tail := [SetMtu(RequestedMtu(request))] + up;
    if before.isUp {
      i.RunTakes(i.calls, i.link, BringDown, [SetParams(ConfigureParams(request))] + tail);
      var down := i.Apply(BringDown);
      if !down { return Err(ConfigureFailure(NetlinkFailed, rollbackRequired, evidence)); }
      rollbackRequired := true;
    } else {
      assert ConfigureWrites(before, request) == [SetParams(ConfigureParams(request))] + tail;
    }
    i.RunTakes(i.calls, i.link, SetParams(ConfigureParams(request)), tail);
    var params := i.Apply(SetParams(ConfigureParams(request)));
    if !params { return Err(ConfigureFailure(NetlinkFailed, rollbackRequired, evidence)); }
    evidence := pending;
    rollbackRequired := true;
    i.RunTakes(i.calls, i.link, SetMtu(RequestedMtu(request)), up);
    var mtu := i.Apply(SetMtu(RequestedMtu(request)));
    if !mtu { return Err(ConfigureFailure(NetlinkFailed, rollbackRequired, evidence)); }
    if before.isUp {
      i.RunTakes(i.calls, i.link, BringUp, []);
      var isUp := i.Apply(BringUp);
      if !isUp { return Err(ConfigureFailure(NetlinkFailed, rollbackRequired, evidence)); }
    }
    r := Ok(evidence);
  }

  ghost predicate OnlyWrites(actions: seq<Action>) { forall k :: 0 <= k < |actions| ==> actions[k].Attempted? }

  /** What `now` has beyond `before`. */
  ghost function Since(before: seq<Action>, now: seq<Action>): seq<Action> {
    if |before| <= |now| then now[|before|..] else []
  }

  /** The last writes of a restore. */
  method RestoreRest(i: Interface, snapshot: Snapshot) returns (ok: bool)
    modifies i
    ensures var p := i.Run(old(i.calls), old(i.link), LastWrites(snapshot));
            && i.link == p.link && (ok <==> p.done == |LastWrites(snapshot)|)
            && (ok ==> i.calls == old(i.calls) + |LastWrites(snapshot)|)
    ensures old(i.trace) <= i.trace && OnlyWrites(Since(old(i.trace), i.trace))
  {
    ghost var up: seq<Write> := if snapshot.details.isUp then [BringUp] else [];
    i.RunTakes(i.calls, i.link, SetParams(RestoreParams(snapshot.details, snapshot.evidence)), up);
    ok := i.Apply(SetParams(RestoreParams(snapshot.details, snapshot.evidence)));
    if !ok { return; }
    if snapshot.details.isUp {
      i.RunTakes(i.calls, i.link, BringUp, []);
      ok := i.Apply(BringUp);
    }
  }

  method RestoreSnapshot(i: Interface, snapshot: Snapshot) returns (ok: bool)
    modifies i
    ensures var writes := RestoreWrites(snapshot);
            var p := i.Run(old(i.calls), old(i.link), writes);
            i.link == p.link && (ok <==> p.done == |writes|) && (ok ==> i.calls == old(i.calls) + |writes|)
    ensures old(i.trace) < i.trace && OnlyWrites(Since(old(i.trace), i.trace))
  {
    ghost var last := LastWrites(snapshot);
    ghost var mtu: seq<Write> := if snapshot.details.mtu.Some? then [SetMtu(snapshot.details.mtu.value)] else [];
    i.RunTakes(i.calls, i.link, BringDown, mtu + last);
    ok := i.Apply(BringDown);
    if !ok { return; }
    if snapshot.details.mtu.Some? {
      i.RunTakes(i.calls, i.link, SetMtu(snapshot.details.mtu.value), last);
      ok := i.Apply(SetMtu(snapshot.details.mtu.value));
      if !ok { return; }
    } else {
      assert mtu + last == last;
    }
    ghost var written := i.trace;
    ok := RestoreRest(i, snapshot);
    assert Since(old(i.trace), i.trace) == Since(old(i.trace), written) + Since(written, i.trace);
  }
}
