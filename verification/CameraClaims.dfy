/**
  Ownership of camera resources across sessions, capture workers and reapers, for the three camera
  adapters that share the claim protocol (adapters/v4l2, adapters/avfoundation,
  adapters/mediafoundation). One adapter instance has one set of claimed resources; opens, closes,
  drops, worker exits and reapers of all its sessions interleave freely.
 */
module CameraClaims {
  datatype Adapter = V4l2 | AvFoundation | MediaFoundation

  datatype Phase = Opening | Failed | Live | Dropped

  /**
    `hasWorker` is whether the session still owns its worker's join handle; `reaping` whether that
    handle went to a reaper that has not removed the claim yet. `exited` is about the thread itself.
   */
  datatype Session = Session(
    resource: nat,
    phase: Phase,
    hasWorker: bool,
    reaping: bool,
    exited: bool,
    quarantined: bool,
    closed: bool)

  datatype State = State(adapter: Adapter, claims: set<nat>, sessions: seq<Session>)

  /** `Close` is the part of close that decides about the worker; a close may be cancelled before or after it. */
  datatype Step =
    | Open(resource: nat)
    | StartFails(id: nat)
    | Ready(id: nat)
    | Close(id: nat)
    | CloseReturns(id: nat)
    | Drop(id: nat)
    | WorkerExits(id: nat)
    | Reap(id: nat)

  function Initial(adapter: Adapter): State { State(adapter, {}, []) }

  predicate Enabled(s: State, step: Step) {
    step.Open? || (step.id < |s.sessions| && EnabledFor(s.adapter, s.sessions[step.id], step))
  }

  predicate EnabledFor(adapter: Adapter, x: Session, step: Step) {
    match step
    case Open(_) => true
    case StartFails(_) => x.phase.Opening?
    case Ready(_) => x.phase.Opening?
    case Close(_) => x.phase.Live?
    case CloseReturns(_) => x.phase.Live? && adapter.AvFoundation? && !x.hasWorker && !x.reaping
    case Drop(_) => x.phase.Live?
    case WorkerExits(_) => (x.phase.Live? || x.phase.Dropped?) && !x.exited
    case Reap(_) => x.reaping && x.exited
  }

  /** The worker's handle goes to a reaper, which will remove the claim after the worker exits. */
  function Quarantine(x: Session): Session { x.(hasWorker := false, reaping := true) }

  /** The session after the step, and whether the step removes its resource from the claims. */
  function Act(adapter: Adapter, x: Session, step: Step): (Session, bool) {
    match step
    case Open(_) => (x, false)
    case StartFails(_) => (x.(phase := Failed), true)
    case Ready(_) => (x.(phase := Live, hasWorker := true), false)
    case Close(_) =>
      if x.closed then (x, false)
      else if adapter.AvFoundation? then
        if x.hasWorker then (Quarantine(x).(quarantined := true), false) else (x.(closed := true), !x.quarantined)
      else if x.hasWorker then (Quarantine(x).(quarantined := adapter.V4l2?, closed := true), false)
      else (x.(closed := true), adapter.V4l2?)
    case CloseReturns(_) => (x.(closed := true), false)
    case Drop(_) =>
      if x.hasWorker then (Quarantine(x).(phase := Dropped), false)
      else (x.(phase := Dropped), !adapter.MediaFoundation? && !x.quarantined)
    case WorkerExits(_) => (x.(exited := true), false)
    case Reap(_) => (x.(reaping := false), true)
  }

  function Next(s: State, step: Step): State
    requires Enabled(s, step)
  {
    if step.Open? then
      if step.resource in s.claims then s
      else s.(claims := s.claims + {step.resource},
              sessions := s.sessions + [Session(step.resource, Opening, false, false, false, false, false)])
    else
      var (x, releases) := Act(s.adapter, s.sessions[step.id], step);
      s.(claims := if releases then s.claims - {x.resource} else s.claims, sessions := s.sessions[step.id := x])
  }

  ghost predicate IsRun(trace: seq<State>, steps: seq<Step>) {
    && |trace| == |steps| + 1 && (exists adapter :: trace[0] == Initial(adapter))
    && forall k :: 0 <= k < |steps| ==> Taken(trace, steps, k)
  }

  ghost predicate Taken(trace: seq<State>, steps: seq<Step>, k: nat)
    requires |trace| == |steps| + 1 && k < |steps|
  {
    Enabled(trace[k], steps[k]) && trace[k + 1] == Next(trace[k], steps[k])
  }

  // ----- Who holds a claim -----

  /** A session that is still opening, owns its worker, or left it to a reaper. */
  predicate Holds(x: Session) { x.phase.Opening? || x.hasWorker || x.reaping }

  /** A worker that reported ready and has not exited. */
  predicate Running(x: Session) { (x.phase.Live? || x.phase.Dropped?) && !x.exited }

  predicate Consistent(adapter: Adapter, x: Session) {
    && (x.phase.Opening? || x.phase.Failed? ==> !x.hasWorker && !x.reaping && !x.closed && !x.exited && !x.quarantined)
    && (x.hasWorker ==> x.phase.Live? && !x.closed && !x.reaping)
    && (Running(x) ==> x.hasWorker || x.reaping)
    && (x.phase.Live? && !x.hasWorker ==> if adapter.MediaFoundation? then x.closed else x.quarantined)
    && (x.phase.Live? && !x.hasWorker && adapter.V4l2? ==> x.closed)
  }

  ghost predicate Inv(s: State) {
    && (forall i :: 0 <= i < |s.sessions| ==> Consistent(s.adapter, s.sessions[i]))
    && (forall i :: 0 <= i < |s.sessions| && Holds(s.sessions[i]) ==> s.sessions[i].resource in s.claims)
    && (forall r :: r in s.claims ==> HasHolder(s, r))
    && OneHolder(s)
  }

  ghost predicate HasHolder(s: State, r: nat) {
    exists i :: 0 <= i < |s.sessions| && Holds(s.sessions[i]) && s.sessions[i].resource == r
  }

  ghost predicate OneHolder(s: State) {
    forall i, j :: 0 <= i < j < |s.sessions| && Holds(s.sessions[i]) && Holds(s.sessions[j]) ==>
                     s.sessions[i].resource != s.sessions[j].resource
  }

  /** A session gives its claim up exactly when it stops holding it, and never takes one up again. */
  lemma ReleasesWhatItHolds(adapter: Adapter, x: Session, step: Step)
    requires Consistent(adapter, x) && EnabledFor(adapter, x, step)
    ensures var (x', releases) := Act(adapter, x, step);
            && Consistent(adapter, x') && x'.resource == x.resource
            && (releases <==> Holds(x) && !Holds(x')) && (Holds(x') ==> Holds(x))
  {
  }

  lemma OpenKeepsInv(s: State, resource: nat)
    requires Inv(s)
    ensures Inv(Next(s, Open(resource)))
  {
    var s' := Next(s, Open(resource));
    if resource !in s.claims {
      assert Holds(s'.sessions[|s.sessions|]) && s'.sessions[|s.sessions|].resource == resource;
      forall r | r in s'.claims ensures HasHolder(s', r) {
        if r != resource {
          var i :| 0 <= i < |s.sessions| && Holds(s.sessions[i]) && s.sessions[i].resource == r;
          assert s'.sessions[i] == s.sessions[i];
        }
      }
    }
  }

  lemma ActKeepsInv(s: State, step: Step)
    requires Inv(s) && Enabled(s, step) && !step.Open?
    ensures Inv(Next(s, step))
  {
    var s' := Next(s, step);
    ReleasesWhatItHolds(s.adapter, s.sessions[step.id], step);
    forall r | r in s'.claims ensures HasHolder(s', r) {
      var i :| 0 <= i < |s.sessions| && Holds(s.sessions[i]) && s.sessions[i].resource == r;
      assert Holds(s'.sessions[i]) && s'.sessions[i].resource == r;
    }
  }

  /** Every step of every session, worker and reaper keeps claims and holders in agreement. */
  lemma StepKeepsInv(s: State, step: Step)
    requires Inv(s) && Enabled(s, step)
    ensures Inv(Next(s, step)) && Next(s, step).adapter == s.adapter
  {
    if step.Open? { OpenKeepsInv(s, step.resource); } else { ActKeepsInv(s, step); }
  }

  lemma {:induction false} EveryStateOfEveryRun(trace: seq<State>, steps: seq<Step>, k: nat)
    requires IsRun(trace, steps) && k < |trace|
    ensures Inv(trace[k])
  {
    if k > 0 {
      EveryStateOfEveryRun(trace, steps, k - 1);
      assert Taken(trace, steps, k - 1);
      StepKeepsInv(trace[k - 1], steps[k - 1]);
    }
  }

  // ----- Claim safety -----

  /** At any time a camera has at most one session whose worker reported ready and has not exited. */
  lemma AtMostOneRunningWorker(trace: seq<State>, steps: seq<Step>, k: nat, i: nat, j: nat)
    requires IsRun(trace, steps) && k < |trace| && i < j < |trace[k].sessions|
    requires Running(trace[k].sessions[i]) && Running(trace[k].sessions[j])
    ensures trace[k].sessions[i].resource != trace[k].sessions[j].resource
  {
    EveryStateOfEveryRun(trace, steps, k);
    assert Consistent(trace[k].adapter, trace[k].sessions[i]);
    assert Consistent(trace[k].adapter, trace[k].sessions[j]);
  }

  /** An open is refused exactly while some earlier session is opening, has its worker, or waits for it to exit. */
  lemma OpenRefusedIff(trace: seq<State>, steps: seq<Step>, k: nat, resource: nat)
    requires IsRun(trace, steps) && k < |trace|
    ensures Next(trace[k], Open(resource)) == trace[k] <==> HasHolder(trace[k], resource)
  {
    EveryStateOfEveryRun(trace, steps, k);
    assert |Next(trace[k], Open(resource)).sessions| == |trace[k].sessions| <==> resource in trace[k].claims;
  }

  /**
    A claim disappears only through a step of the session that holds it, at the moment that session
    stops holding it; so no session ever removes a claim that belongs to another one.
   */
  lemma OnlyTheHolderReleases(trace: seq<State>, steps: seq<Step>, k: nat, r: nat)
    requires IsRun(trace, steps) && k < |steps|
    requires r in trace[k].claims && r !in trace[k + 1].claims
    ensures !steps[k].Open? && steps[k].id < |trace[k].sessions| == |trace[k + 1].sessions|
    ensures var x := trace[k].sessions[steps[k].id];
            && x.resource == r && Holds(x) && !Running(trace[k + 1].sessions[steps[k].id])
            && (forall j :: 0 <= j < |trace[k].sessions| && j != steps[k].id && Holds(trace[k].sessions[j]) ==>
                  trace[k].sessions[j].resource != r && trace[k].sessions[j].resource in trace[k + 1].claims)
  {
    EveryStateOfEveryRun(trace, steps, k);
    EveryStateOfEveryRun(trace, steps, k + 1);
    assert Taken(trace, steps, k);
    var id := steps[k].id;
    ReleasesWhatItHolds(trace[k].adapter, trace[k].sessions[id], steps[k]);
    assert Consistent(trace[k + 1].adapter, trace[k + 1].sessions[id]);
  }

  /** Once the worker has exited, its reaper can run and leaves the resource unclaimed. */
  predicate FreedByReaper(s: State, id: nat)
    requires id < |s.sessions|
  {
    var x := s.sessions[id];
    && (!x.exited ==> Enabled(s, WorkerExits(id)))
    && var e := if !x.exited && Enabled(s, WorkerExits(id)) then Next(s, WorkerExits(id)) else s;
       Enabled(e, Reap(id)) && x.resource !in Next(e, Reap(id)).claims
  }

  /**
    For all three adapters: closing or dropping a session leaves its claim to a reaper, if it still had
    its worker or its reaper still has, and that reaper frees the camera once the worker has exited.
   */
  lemma GivingUpFreesTheCamera(trace: seq<State>, steps: seq<Step>, k: nat, step: Step)
    requires IsRun(trace, steps) && k < |trace| && (step.Close? || step.Drop?) && Enabled(trace[k], step)
    ensures var s := Next(trace[k], step);
            && step.id < |s.sessions| && !s.sessions[step.id].hasWorker
            && (step.Drop? ==> s.sessions[step.id].phase.Dropped?)
            && (Holds(trace[k].sessions[step.id]) ==> s.sessions[step.id].reaping)
            && (s.sessions[step.id].reaping ==> FreedByReaper(s, step.id))
            && (!s.sessions[step.id].reaping ==> !Holds(s.sessions[step.id]))
  {
    EveryStateOfEveryRun(trace, steps, k);
    assert Consistent(trace[k].adapter, trace[k].sessions[step.id]);
  }

  /** At any time of any run a session that no longer has its worker holds its claim only through a reaper that will free it. */
  lemma ReaperFreesTheCamera(trace: seq<State>, steps: seq<Step>, k: nat, id: nat)
    requires IsRun(trace, steps) && k < |trace| && id < |trace[k].sessions|
    requires !trace[k].sessions[id].hasWorker && !trace[k].sessions[id].phase.Opening? && Holds(trace[k].sessions[id])
    ensures trace[k].sessions[id].reaping && FreedByReaper(trace[k], id)
  {
    EveryStateOfEveryRun(trace, steps, k);
    assert Consistent(trace[k].adapter, trace[k].sessions[id]);
  }

  /** An open of an unclaimed camera starts a session that claims it; ready, its worker runs; failed, the camera is free again. */
  lemma OpenClaimsTheCamera(trace: seq<State>, steps: seq<Step>, k: nat, resource: nat)
    requires IsRun(trace, steps) && k < |trace| && !HasHolder(trace[k], resource)
    ensures var id, s := |trace[k].sessions|, Next(trace[k], Open(resource));
            && |s.sessions| == id + 1 && s.sessions[id].resource == resource && s.claims == trace[k].claims + {resource}
            && Enabled(s, Ready(id)) && Running(Next(s, Ready(id)).sessions[id]) && resource in Next(s, Ready(id)).claims
            && Enabled(s, StartFails(id)) && !Holds(Next(s, StartFails(id)).sessions[id])
            && resource !in Next(s, StartFails(id)).claims
  {
    EveryStateOfEveryRun(trace, steps, k);
  }
}
