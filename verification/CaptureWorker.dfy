/**
  The AVFoundation capture worker: the worker thread, the sample-buffer callback queue and the
  notification queue share one locked `CaptureState` and hand capture requests to each other
  (adapters/avfoundation/src/native.rs). Every lock-protected section and every reply is one step;
  all interleavings are runs. Commands are numbered in the order in which the worker receives them.
 */
module CaptureWorker {
  import opened Prelude

  const STALL_THRESHOLD := 3

  datatype Goal = ToIdle | ToWait | ToTeardown

  datatype WorkerPc =
    | Idle                              // waiting for a command
    | Received(cmd: nat)                // before the connection check
    | Admit(cmd: nat, nested: bool)     // before looking at the pending request
    | Answer(cmd: nat, goal: Goal)
    | WaitCheck
    | WaitDeadline
    | WaitReceive
    | Expire
    | Cancel(goal: Goal)
    | Teardown
    | Ended

  datatype CallbackPc = Quiet | Publishing(cmd: nat) | Recording(cmd: nat) | Replying(cmd: nat, published: bool)

  datatype NotifierPc = Resting | Cancelling | Telling(cmd: nat)

  /**
    The first four fields are the shared state. The last six observe the run: how often each command
    was answered, the sequence numbers of frames the sink accepted, the deadline expiries counted
    since a frame was last recorded by the callback and since one was last accepted by the sink, how
    many expiries were still on record when that frame was accepted, and the commands that were told
    of success.
   */
  datatype State = State(
    pending: Option<nat>,
    nextSequence: nat,
    stalls: nat,
    unplugged: bool,
    worker: WorkerPc,
    callback: CallbackPc,
    notifier: NotifierPc,
    answers: seq<nat>,
    accepted: seq<nat>,
    sinceRecorded: nat,
    sinceAccepted: nat,
    outstanding: nat,
    served: seq<nat>)

  /** `disconnected` is what a device query finds, `expired` whether the deadline has passed. */
  datatype Step =
    | Work(disconnected: bool, expired: bool)
    | Receive
    | ReceiveClose
    | Sample
    | Deliver(published: bool)
    | Notify

  function Initial(unplugged: bool): State {
    State(None, 1, 0, unplugged, Idle, Quiet, Resting, [], [], 0, 0, 0, [])
  }

  predicate Enabled(s: State, step: Step) {
    match step
    case Work(_, _) => !s.worker.Ended? && (s.worker.Teardown? ==> s.callback.Quiet?)
    case Receive => s.worker.Idle? || s.worker.WaitReceive?
    case ReceiveClose => s.worker.Idle? || s.worker.WaitReceive?
    case Sample => s.callback.Quiet? && !s.worker.Ended?
    case Deliver(_) => !s.callback.Quiet?
    case Notify => true
  }

  function Go(goal: Goal): WorkerPc {
    match goal case ToIdle => Idle case ToWait => WaitCheck case ToTeardown => Teardown
  }

  function Answered(answers: seq<nat>, cmd: nat): seq<nat> {
    if cmd < |answers| then answers[cmd := answers[cmd] + 1] else answers
  }

  function WorkStep(s: State, disconnected: bool, expired: bool): State {
    match s.worker
    case Idle =>
      if s.unplugged || disconnected then s.(unplugged := true, worker := Cancel(ToIdle)) else s
    case Received(c) =>
      if s.unplugged || disconnected then s.(unplugged := true, worker := Answer(c, ToIdle))
      else s.(worker := Admit(c, false))
    case Admit(c, nested) =>
      if s.pending.Some? then s.(worker := Answer(c, if nested then ToWait else ToIdle))
      else s.(pending := Some(c), worker := WaitCheck)
    case Answer(c, goal) => s.(answers := Answered(s.answers, c), worker := Go(goal))
    case WaitCheck =>
      if s.unplugged || disconnected then s.(unplugged := true, worker := Cancel(ToIdle))
      else s.(worker := WaitDeadline)
    case WaitDeadline =>
      s.(worker := if s.pending.None? then Idle else if expired then Expire else WaitReceive)
    case WaitReceive => s.(worker := if expired then Expire else WaitCheck)
    case Expire =>
      var stalls := Min(s.stalls + 1, U32_MAX);
      s.(stalls := stalls, sinceRecorded := s.sinceRecorded + 1, sinceAccepted := s.sinceAccepted + 1,
         unplugged := s.unplugged || disconnected || (s.nextSequence > 1 && stalls >= STALL_THRESHOLD),
         worker := Cancel(ToIdle))
    case Cancel(goal) =>
      if s.pending.Some? then s.(pending := None, worker := Answer(s.pending.value, goal)) else s.(worker := Go(goal))
    case Teardown => s.(worker := Ended)
    case Ended => s
  }

  function DeliverStep(s: State, published: bool): State {
    match s.callback
    case Publishing(c) =>
      if published
      then s.(accepted := s.accepted + [s.nextSequence], sinceAccepted := 0, outstanding := s.sinceRecorded,
              callback := Recording(c))
      else s.(callback := Replying(c, false))
    case Recording(c) =>
      s.(nextSequence := Min(s.nextSequence + 1, U64_MAX), stalls := 0, sinceRecorded := 0, callback := Replying(c, true))
    case Replying(c, published) =>
      s.(answers := Answered(s.answers, c), served := if published then s.served + [c] else s.served, callback := Quiet)
    case Quiet => s
  }

  function NotifyStep(s: State): State {
    match s.notifier
    case Resting => if s.unplugged then s else s.(unplugged := true, notifier := Cancelling)
    case Cancelling =>
      if s.pending.Some? then s.(pending := None, notifier := Telling(s.pending.value)) else s.(notifier := Resting)
    case Telling(c) => s.(answers := Answered(s.answers, c), notifier := Resting)
  }

  function Next(s: State, step: Step): State {
    match step
    case Work(disconnected, expired) => WorkStep(s, disconnected, expired)
    case Receive =>
      s.(answers := s.answers + [0],
         worker := if s.worker.WaitReceive? then Admit(|s.answers|, true) else Received(|s.answers|))
    case ReceiveClose => s.(worker := Cancel(ToTeardown))
    case Sample =>
      if s.pending.Some? then s.(pending := None, callback := Publishing(s.pending.value)) else s
    case Deliver(published) => DeliverStep(s, published)
    case Notify => NotifyStep(s)
  }

  // ----- Runs -----

  datatype Run = Start(unplugged: bool) | Then(before: Run, step: Step)

  function End(run: Run): State {
    match run
    case Start(unplugged) => Initial(unplugged)
    case Then(before, step) => Next(End(before), step)
  }

  predicate Legal(run: Run) { run.Start? || (Legal(run.before) && Enabled(End(run.before), run.step)) }

  predicate Reaches(run: Run, longer: Run) { run == longer || (longer.Then? && Reaches(run, longer.before)) }

  // ----- Every command has one holder until it has one answer -----

  function WorkerHas(pc: WorkerPc): Option<nat> {
    match pc case Received(c) => Some(c) case Admit(c, _) => Some(c) case Answer(c, _) => Some(c) case _ => None
  }

  function CallbackHas(pc: CallbackPc): Option<nat> { if pc.Quiet? then None else Some(pc.cmd) }

  function NotifierHas(pc: NotifierPc): Option<nat> { if pc.Telling? then Some(pc.cmd) else None }

  predicate Holding(s: State, c: nat) {
    s.pending == Some(c) || WorkerHas(s.worker) == Some(c) || CallbackHas(s.callback) == Some(c)
    || NotifierHas(s.notifier) == Some(c)
  }

  predicate Below(a: Option<nat>, n: nat) { a.Some? ==> a.value < n }

  predicate Apart(a: Option<nat>, b: Option<nat>) { a.None? || a != b }

  ghost predicate Account(s: State) {
    && Below(s.pending, |s.answers|) && Below(WorkerHas(s.worker), |s.answers|)
    && Below(CallbackHas(s.callback), |s.answers|) && Below(NotifierHas(s.notifier), |s.answers|)
    && (forall c: nat :: c < |s.answers| ==> s.answers[c] == if Holding(s, c) then 0 else 1)
    && Apart(s.pending, WorkerHas(s.worker)) && Apart(s.pending, CallbackHas(s.callback))
    && Apart(s.pending, NotifierHas(s.notifier)) && Apart(WorkerHas(s.worker), CallbackHas(s.callback))
    && Apart(WorkerHas(s.worker), NotifierHas(s.notifier)) && Apart(CallbackHas(s.callback), NotifierHas(s.notifier))
  }

  /**
    Once the worker is past its last cancellation nothing is pending any more, and it outwaits the
    callback. While a request is pending the worker is on its way back to it.
   */
  ghost predicate Stopping(s: State) {
    && (s.worker.Teardown? || s.worker.Ended? || (s.worker.Answer? && s.worker.goal.ToTeardown?) ==> s.pending.None?)
    && (s.worker.Ended? ==> s.callback.Quiet?)
    && (s.pending.Some? ==> Waiting(s.worker))
  }

  /** Positions from which the worker comes back to a pending request. */
  predicate Waiting(pc: WorkerPc) {
    pc.WaitCheck? || pc.WaitDeadline? || pc.WaitReceive? || pc.Expire? || pc.Cancel?
    || (pc.Answer? && pc.goal.ToWait?) || (pc.Admit? && pc.nested)
  }

  /** Accepted frames are numbered 1, 2, 3 and so on; the counter lags while a frame is being recorded. */
  ghost predicate Sequenced(s: State) {
    && (forall k :: 0 <= k < |s.accepted| ==> s.accepted[k] == Min(k + 1, U64_MAX))
    && (s.callback.Recording? ==> |s.accepted| > 0)
    && s.nextSequence == Min(Recorded(s) + 1, U64_MAX)
    && |s.served| == Recorded(s) - (if s.callback.Replying? && s.callback.published then 1 else 0)
  }

  /** Accepted frames the callback has accounted for. */
  function Recorded(s: State): int { if s.callback.Recording? then |s.accepted| - 1 else |s.accepted| }

  ghost predicate StallsCounted(s: State) {
    && s.stalls == Min(s.sinceRecorded, U32_MAX)
    && (if s.callback.Recording? then s.sinceRecorded == s.outstanding + s.sinceAccepted
        else s.sinceRecorded <= s.sinceAccepted)
    && (!s.unplugged && s.nextSequence > 1 ==> s.sinceRecorded < STALL_THRESHOLD)
  }

  ghost predicate Inv(s: State) {
    match s
    case State(_, _, _, _, _, _, _, _, _, _, _, _, _) => Account(s) && Stopping(s) && Sequenced(s) && StallsCounted(s)
  }

  /** An answer goes to a command that its holder gives up with it. */
  lemma AnswerKeepsAccount(s: State, s': State, cmd: nat)
    requires Account(s) && cmd < |s.answers| && Holding(s, cmd)
    requires s'.answers == Answered(s.answers, cmd) && s'.pending == s.pending
    requires WorkerHas(s'.worker) == (if WorkerHas(s.worker) == Some(cmd) then None else WorkerHas(s.worker))
    requires CallbackHas(s'.callback) == (if CallbackHas(s.callback) == Some(cmd) then None else CallbackHas(s.callback))
    requires NotifierHas(s'.notifier) == (if NotifierHas(s.notifier) == Some(cmd) then None else NotifierHas(s.notifier))
    requires s.pending != Some(cmd)
    ensures Account(s')
  {
  }

  lemma SameHolders(s: State, s': State)
    requires Account(s) && s'.answers == s.answers && s'.pending == s.pending
    requires WorkerHas(s'.worker) == WorkerHas(s.worker) && s'.callback == s.callback && s'.notifier == s.notifier
    ensures Account(s')
  {
  }

  lemma WorkKeepsAccount(s: State, disconnected: bool, expired: bool)
    requires Account(s)
    ensures Account(WorkStep(s, disconnected, expired))
  {
    var s' := WorkStep(s, disconnected, expired);
    match s.worker
    case Answer(c, _) => AnswerKeepsAccount(s, s', c);
    case Admit(_, _) =>
    case Cancel(_) =>
    case Received(_) => SameHolders(s, s');
    case Idle => SameHolders(s, s');
    case WaitCheck => SameHolders(s, s');
    case WaitDeadline => SameHolders(s, s');
    case WaitReceive => SameHolders(s, s');
    case Expire => SameHolders(s, s');
    case Teardown => SameHolders(s, s');
    case Ended => SameHolders(s, s');
  }

  lemma DeliverKeepsAccount(s: State, published: bool)
    requires Account(s)
    ensures Account(DeliverStep(s, published))
  {
    match s.callback
    case Replying(c, _) => AnswerKeepsAccount(s, DeliverStep(s, published), c);
    case _ =>
  }

  lemma NotifyKeepsAccount(s: State)
    requires Account(s)
    ensures Account(NotifyStep(s))
  {
    match s.notifier
    case Telling(c) => AnswerKeepsAccount(s, NotifyStep(s), c);
    case Resting =>
    case Cancelling =>
  }

  lemma StepKeepsAccount(s: State, step: Step)
    requires Account(s) && Enabled(s, step)
    ensures Account(Next(s, step))
  {
    match step
    case Work(disconnected, expired) => WorkKeepsAccount(s, disconnected, expired);
    case Deliver(published) => DeliverKeepsAccount(s, published);
    case Notify => NotifyKeepsAccount(s);
    case Receive =>
    case ReceiveClose =>
    case Sample =>
  }

  lemma WorkKeepsStopping(s: State, disconnected: bool, expired: bool)
    requires Stopping(s) && Enabled(s, Work(disconnected, expired))
    ensures Stopping(WorkStep(s, disconnected, expired))
  {
    match s.worker
    case Idle =>
    case Received(_) =>
    case Admit(_, _) =>
    case Answer(_, _) =>
    case WaitCheck =>
    case WaitDeadline =>
    case WaitReceive =>
    case Expire =>
    case Cancel(_) =>
    case Teardown =>
    case Ended =>
  }

  lemma SameCounts(s: State, s': State)
    requires Sequenced(s) && StallsCounted(s) && (s.unplugged ==> s'.unplugged)
    requires s'.callback == s.callback && s'.accepted == s.accepted && s'.nextSequence == s.nextSequence
    requires s'.stalls == s.stalls && s'.sinceRecorded == s.sinceRecorded
    requires s'.sinceAccepted == s.sinceAccepted && s'.outstanding == s.outstanding && s'.served == s.served
    ensures Sequenced(s') && StallsCounted(s')
  {
  }

  lemma ExpiryKeepsCounts(s: State, disconnected: bool, expired: bool)
    requires Sequenced(s) && StallsCounted(s) && s.worker.Expire?
    ensures var s' := WorkStep(s, disconnected, expired); Sequenced(s') && StallsCounted(s')
  {
  }

  lemma RequestKeepsCounts(s: State, disconnected: bool, expired: bool)
    requires Sequenced(s) && StallsCounted(s)
    requires s.worker.Idle? || s.worker.Received? || s.worker.Admit? || s.worker.Answer? || s.worker.Cancel?
    ensures var s' := WorkStep(s, disconnected, expired); Sequenced(s') && StallsCounted(s')
  {
    SameCounts(s, WorkStep(s, disconnected, expired));
  }

  lemma WaitKeepsCounts(s: State, disconnected: bool, expired: bool)
    requires Sequenced(s) && StallsCounted(s)
    requires s.worker.WaitCheck? || s.worker.WaitDeadline? || s.worker.WaitReceive? || s.worker.Teardown? || s.worker.Ended?
    ensures var s' := WorkStep(s, disconnected, expired); Sequenced(s') && StallsCounted(s')
  {
    SameCounts(s, WorkStep(s, disconnected, expired));
  }

  lemma WorkKeepsCounts(s: State, disconnected: bool, expired: bool)
    requires Sequenced(s) && StallsCounted(s)
    ensures var s' := WorkStep(s, disconnected, expired); Sequenced(s') && StallsCounted(s')
  {
    if s.worker.Expire? {
      ExpiryKeepsCounts(s, disconnected, expired);
    } else if s.worker.Idle? || s.worker.Received? || s.worker.Admit? || s.worker.Answer? || s.worker.Cancel? {
      RequestKeepsCounts(s, disconnected, expired);
    } else {
      WaitKeepsCounts(s, disconnected, expired);
    }
  }

  lemma DeliverKeepsCounts(s: State, published: bool)
    requires Stopping(s) && Sequenced(s) && StallsCounted(s) && !s.callback.Quiet?
    ensures var s' := DeliverStep(s, published); Stopping(s') && Sequenced(s') && StallsCounted(s')
  {
    match s.callback
    case Publishing(_) =>
    case Recording(_) =>
    case Replying(_, _) =>
  }

  lemma RestKeepsCounts(s: State, step: Step)
    requires Stopping(s) && Sequenced(s) && StallsCounted(s) && Enabled(s, step) && !step.Work? && !step.Deliver?
    ensures var s' := Next(s, step); Stopping(s') && Sequenced(s') && StallsCounted(s')
  {
    match step
    case Notify => SameCounts(s, NotifyStep(s));
    case Receive => SameCounts(s, Next(s, step));
    case ReceiveClose => SameCounts(s, Next(s, step));
    case Sample =>
  }

  lemma StepKeepsCounts(s: State, step: Step)
    requires Stopping(s) && Sequenced(s) && StallsCounted(s) && Enabled(s, step)
    ensures Stopping(Next(s, step)) && Sequenced(Next(s, step)) && StallsCounted(Next(s, step))
  {
    match step
    case Work(disconnected, expired) =>
      WorkKeepsStopping(s, disconnected, expired);
      WorkKeepsCounts(s, disconnected, expired);
    case Deliver(published) => DeliverKeepsCounts(s, published);
    case _ => RestKeepsCounts(s, step);
  }

  lemma StepKeepsInv(s: State, step: Step)
    requires Inv(s) && Enabled(s, step)
    ensures Inv(Next(s, step))
  {
    StepKeepsAccount(s, step);
    StepKeepsCounts(s, step);
  }

  lemma {:induction false} EveryRunKeepsInv(run: Run)
    requires Legal(run)
    ensures Inv(End(run))
  {
    if run.Then? {
      EveryRunKeepsInv(run.before);
      StepKeepsInv(End(run.before), run.step);
    }
  }

  // ----- What every run keeps -----

  /**
    No command is ever answered twice. When the worker has ended every command it received has been
    answered, except one the notification queue may have in hand, which its next step answers.
   */
  lemma AnsweredExactlyOnce(run: Run, c: nat)
    requires Legal(run) && c < |End(run).answers|
    ensures End(run).answers[c] <= 1
    ensures End(run).worker.Ended? && End(run).notifier != Telling(c) ==> End(run).answers[c] == 1
    ensures End(run).notifier == Telling(c) ==> End(run).answers[c] == 0 && NotifyStep(End(run)).answers[c] == 1
  {
    EveryRunKeepsInv(run);
    assert End(run).answers[c] == if Holding(End(run), c) then 0 else 1;
  }

  /** The k-th frame a sink accepts has sequence number k + 1, until the 64-bit counter saturates. */
  lemma FramesAreNumberedInOrder(run: Run, k: nat)
    requires Legal(run) && k < |End(run).accepted|
    ensures End(run).accepted[k] == Min(k + 1, U64_MAX)
  {
    EveryRunKeepsInv(run);
  }

  /**
    Success is told exactly once for each frame the sink accepted, in their order; at rest of the
    callback there are as many successes as accepted frames.
   */
  lemma SuccessMeansAFrame(run: Run)
    requires Legal(run)
    ensures |End(run).served| <= |End(run).accepted|
    ensures End(run).callback.Quiet? ==> |End(run).served| == |End(run).accepted|
  {
    EveryRunKeepsInv(run);
  }

  predicate Onward(s: State, t: State) {
    && (s.unplugged ==> t.unplugged) && s.accepted <= t.accepted && |s.answers| <= |t.answers|
    && forall c :: 0 <= c < |s.answers| ==> s.answers[c] <= t.answers[c]
  }

  lemma StepIsOnward(s: State, step: Step)
    ensures Onward(s, Next(s, step))
  {
  }

  /** Unplugged never resets; no answer or accepted frame is taken back. */
  lemma {:induction false} RunsOnlyGoOnward(run: Run, longer: Run)
    requires Reaches(run, longer)
    ensures Onward(End(run), End(longer))
  {
    if run != longer {
      RunsOnlyGoOnward(run, longer.before);
      StepIsOnward(End(longer.before), longer.step);
    }
  }

  /** The step lets a deadline expire. */
  predicate IsExpiry(run: Run) { run.Then? && run.step.Work? && End(run.before).worker.Expire? }

  /** Deadline expiries since the callback last recorded a frame, read off the run. */
  function ExpiriesSinceRecorded(run: Run): nat {
    if run.Start? then 0
    else if IsExpiry(run) then ExpiriesSinceRecorded(run.before) + 1
    else if run.step.Deliver? && End(run.before).callback.Recording? then 0
    else ExpiriesSinceRecorded(run.before)
  }

  /** Deadline expiries since the sink last accepted a frame, read off the run. */
  function ExpiriesSinceAccepted(run: Run): nat {
    if run.Start? then 0
    else if IsExpiry(run) then ExpiriesSinceAccepted(run.before) + 1
    else if run.step.Deliver? && run.step.published && End(run.before).callback.Publishing? then 0
    else ExpiriesSinceAccepted(run.before)
  }

  function FramesAccepted(run: Run): nat {
    if run.Start? then 0
    else FramesAccepted(run.before) + if run.step.Deliver? && run.step.published && End(run.before).callback.Publishing? then 1 else 0
  }

  /** The counters are what the run shows. */
  lemma {:induction false} CountersAreObserved(run: Run)
    requires Legal(run)
    ensures End(run).sinceRecorded == ExpiriesSinceRecorded(run) && End(run).sinceAccepted == ExpiriesSinceAccepted(run)
    ensures |End(run).accepted| == FramesAccepted(run)
  {
    if run.Then? {
      CountersAreObserved(run.before);
      StepIsObserved(End(run.before), run.step);
    }
  }

  lemma StepIsObserved(s: State, step: Step)
    requires Enabled(s, step)
    ensures var s' := Next(s, step);
            var expires := step.Work? && s.worker.Expire?;
            var records := step.Deliver? && s.callback.Recording?;
            var accepts := step.Deliver? && step.published && s.callback.Publishing?;
            && s'.sinceRecorded == (if expires then s.sinceRecorded + 1 else if records then 0 else s.sinceRecorded)
            && s'.sinceAccepted == (if expires then s.sinceAccepted + 1 else if accepts then 0 else s.sinceAccepted)
            && |s'.accepted| == |s.accepted| + if accepts then 1 else 0
  {
    match step
    case Work(_, _) =>
    case Deliver(_) =>
    case Notify =>
    case Receive =>
    case ReceiveClose =>
    case Sample =>
  }

  /** The step lets a deadline expire and, with the device still there, only the stall rule can unplug. */
  predicate Expires(run: Run) { IsExpiry(run) && !run.step.disconnected && !End(run.before).unplugged }

  /** The stall rule unplugs exactly on the third expiry in a row after some frame was recorded. */
  lemma StallUnplugsIff(run: Run)
    requires Legal(run) && Expires(run)
    ensures End(run).unplugged <==> Recorded(End(run)) >= 1 && ExpiriesSinceRecorded(run) >= STALL_THRESHOLD
    ensures End(run).unplugged ==> ExpiriesSinceRecorded(run) == STALL_THRESHOLD
  {
    CountersAreObserved(run);
    EveryRunKeepsInv(run.before);
    EveryRunKeepsInv(run);
  }

  /**
    Counted from the last frame a sink accepted, the rule has seen three expiries unless that frame is
    still being recorded and was accepted with expiries on record; then it has seen fewer.
   */
  lemma ThreeExpiriesSinceAcceptedIff(run: Run)
    requires Legal(run) && Expires(run) && End(run).unplugged
    ensures ExpiriesSinceAccepted(run) >= STALL_THRESHOLD <==>
            !(End(run).callback.Recording? && End(run).outstanding > 0)
  {
    CountersAreObserved(run);
    EveryRunKeepsInv(run);
    StallUnplugsIff(run);
  }

  // ----- Every command is answered in time -----

  /** The worker takes its steps undisturbed and finds deadlines passed; each choice is what a device query finds. */
  function Alone(s: State, choices: seq<bool>): State
    decreases |choices|
  {
    if choices == [] then s else Alone(WorkStep(s, choices[0], true), choices[1..])
  }

  /** The callback takes its steps undisturbed; each choice is whether the sink accepts. */
  function Delivered(s: State, choices: seq<bool>): State
    decreases |choices|
  {
    if choices == [] then s else Delivered(DeliverStep(s, choices[0]), choices[1..])
  }

  /** The command is pending or with the worker. */
  predicate WithWorker(s: State, c: nat) { s.pending == Some(c) || WorkerHas(s.worker) == Some(c) }

  /** How many steps of the worker separate such a command from its answer at most, once its deadline has passed. */
  function StepsLeft(s: State, c: nat): nat {
    if WorkerHas(s.worker) == Some(c) then (if s.worker.Received? then 7 else if s.worker.Admit? then 6 else 1)
    else
      match s.worker
      case Admit(_, _) => 7
      case Answer(_, _) => 6
      case WaitCheck => 5
      case WaitDeadline => 4
      case WaitReceive => 4
      case Expire => 3
      case Cancel(_) => 2
      case _ => 0
  }

  lemma WorkerGetsOn(s: State, disconnected: bool, c: nat)
    requires Inv(s) && WithWorker(s, c)
    ensures var s' := WorkStep(s, disconnected, true);
            && Enabled(s, Work(disconnected, true)) && c < |s'.answers|
            && (s'.answers[c] == 1 || (WithWorker(s', c) && StepsLeft(s', c) < StepsLeft(s, c)))
  {
    match s.worker
    case Received(_) =>
    case Admit(_, _) =>
    case Answer(_, _) =>
    case WaitCheck =>
    case WaitDeadline =>
    case WaitReceive =>
    case Expire =>
    case Cancel(_) =>
    case Idle =>
    case Teardown =>
    case Ended =>
  }

  /** A command whose deadline has passed is answered after seven steps of the worker at the latest. */
  lemma {:induction false} WorkerAnswersInTime(s: State, choices: seq<bool>, c: nat)
    requires Inv(s) && WithWorker(s, c) && StepsLeft(s, c) <= |choices|
    ensures exists n :: 0 <= n <= |choices| && c < |Alone(s, choices[..n]).answers| && Alone(s, choices[..n]).answers[c] == 1
    decreases |choices|
  {
    WorkerGetsOn(s, choices[0], c);
    var s' := WorkStep(s, choices[0], true);
    if s'.answers[c] == 1 {
      assert choices[..1][1..] == [];
      assert Alone(s, choices[..1]) == s';
    } else {
      StepKeepsInv(s, Work(choices[0], true));
      WorkerAnswersInTime(s', choices[1..], c);
      var n :| 0 <= n <= |choices| - 1 && c < |Alone(s', choices[1..][..n]).answers| && Alone(s', choices[1..][..n]).answers[c] == 1;
      assert choices[..n + 1][1..] == choices[1..][..n];
      assert Alone(s, choices[..n + 1]) == Alone(s', choices[1..][..n]);
    }
  }

  function DeliveriesLeft(pc: CallbackPc): nat {
    match pc case Quiet => 0 case Publishing(_) => 3 case Recording(_) => 2 case Replying(_, _) => 1
  }

  lemma CallbackGetsOn(s: State, published: bool, c: nat)
    requires Inv(s) && CallbackHas(s.callback) == Some(c)
    ensures var s' := DeliverStep(s, published);
            && c < |s'.answers|
            && (|| s'.answers[c] == 1
                || (CallbackHas(s'.callback) == Some(c) && DeliveriesLeft(s'.callback) < DeliveriesLeft(s.callback)))
  {
  }

  /** A command the callback took is answered after three of its steps at the latest. */
  lemma {:induction false} CallbackAnswersInTime(s: State, choices: seq<bool>, c: nat)
    requires Inv(s) && CallbackHas(s.callback) == Some(c) && DeliveriesLeft(s.callback) <= |choices|
    ensures exists n :: 0 <= n <= |choices| && c < |Delivered(s, choices[..n]).answers| && Delivered(s, choices[..n]).answers[c] == 1
    decreases |choices|
  {
    CallbackGetsOn(s, choices[0], c);
    var s' := DeliverStep(s, choices[0]);
    if s'.answers[c] == 1 {
      assert choices[..1][1..] == [];
      assert Delivered(s, choices[..1]) == s';
    } else {
      StepKeepsInv(s, Deliver(choices[0]));
      CallbackAnswersInTime(s', choices[1..], c);
      var n :| 0 <= n <= |choices| - 1 && c < |Delivered(s', choices[1..][..n]).answers| && Delivered(s', choices[1..][..n]).answers[c] == 1;
      assert choices[..n + 1][1..] == choices[1..][..n];
      assert Delivered(s, choices[..n + 1]) == Delivered(s', choices[1..][..n]);
    }
  }

  /** At any time of any run a received command is answered, with the worker, with the callback, or with the notifier. */
  lemma UnansweredIsHeld(run: Run, c: nat)
    requires Legal(run) && c < |End(run).answers|
    ensures var s := End(run);
            s.answers[c] == 1 || WithWorker(s, c) || CallbackHas(s.callback) == Some(c) || s.notifier == Telling(c)
  {
    EveryRunKeepsInv(run);
    assert End(run).answers[c] == if Holding(End(run), c) then 0 else 1;
  }

  // ----- What unplugging does -----

  /** Whichever way the worker notices that the device is gone, the session is unplugged from then on. */
  lemma DisconnectUnplugs(run: Run, expired: bool)
    requires Legal(run)
    requires var pc := End(run).worker; pc.Idle? || pc.Received? || pc.WaitCheck? || pc.Expire?
    ensures Next(End(run), Work(true, expired)).unplugged
  {
  }

  lemma {:induction false} NotifierHasUnplugged(run: Run)
    requires Legal(run)
    ensures !End(run).notifier.Resting? ==> End(run).unplugged
  {
    if run.Then? {
      NotifierHasUnplugged(run.before);
      StepIsOnward(End(run.before), run.step);
    }
  }

  /** So does a notification. */
  lemma NotificationUnplugs(run: Run)
    requires Legal(run)
    ensures Next(End(run), Notify).unplugged
  {
    NotifierHasUnplugged(run);
  }

  /** The worker's steps undisturbed, each with what a device query finds and whether the deadline has passed. */
  function Works(s: State, choices: seq<(bool, bool)>): State
    decreases |choices|
  {
    if choices == [] then s else Works(WorkStep(s, choices[0].0, choices[0].1), choices[1..])
  }

  function UnpluggedLeft(s: State, c: nat): nat {
    if WorkerHas(s.worker) == Some(c) then (if s.worker.Received? then 2 else if s.worker.Admit? then 6 else 1)
    else
      match s.worker
      case Admit(_, _) => 6
      case Answer(_, _) => 4
      case WaitDeadline => 5
      case WaitReceive => 4
      case WaitCheck => 3
      case Expire => 3
      case Cancel(_) => 2
      case _ => 0
  }

  lemma UnpluggedGetsOn(s: State, disconnected: bool, expired: bool, c: nat)
    requires Inv(s) && WithWorker(s, c) && s.unplugged
    ensures var s' := WorkStep(s, disconnected, expired);
            && s'.unplugged && c < |s'.answers|
            && (s'.answers[c] == 1 || (WithWorker(s', c) && UnpluggedLeft(s', c) < UnpluggedLeft(s, c)))
  {
    match s.worker
    case Received(_) =>
    case Admit(_, _) =>
    case Answer(_, _) =>
    case WaitCheck =>
    case WaitDeadline =>
    case WaitReceive =>
    case Expire =>
    case Cancel(_) =>
    case Idle =>
    case Teardown =>
    case Ended =>
  }

  /** On an unplugged session a command is answered after six steps of the worker at the latest, deadline or not. */
  lemma {:induction false} UnpluggedAnswersInTime(s: State, choices: seq<(bool, bool)>, c: nat) returns (n: nat)
    requires Inv(s) && WithWorker(s, c) && s.unplugged && UnpluggedLeft(s, c) <= |choices|
    ensures n <= |choices| && c < |Works(s, choices[..n]).answers| && Works(s, choices[..n]).answers[c] == 1
    decreases |choices|
  {
    UnpluggedGetsOn(s, choices[0].0, choices[0].1, c);
    var s' := WorkStep(s, choices[0].0, choices[0].1);
    if s'.answers[c] == 1 {
      n := 1;
      assert choices[..1][1..] == [];
    } else {
      assert Enabled(s, Work(choices[0].0, choices[0].1));
      StepKeepsInv(s, Work(choices[0].0, choices[0].1));
      n := UnpluggedAnswersInTime(s', choices[1..], c);
      n := n + 1;
      assert choices[..n][1..] == choices[1..][..n - 1];
    }
  }

  /**
    A close, received at rest or while waiting, takes the waiting command with it: once the callback is
    quiet, three steps of the worker answer that command, leave none behind and end the worker.
   */
  lemma CloseEndsTheWorker(run: Run, first: (bool, bool), second: (bool, bool), third: (bool, bool))
    requires Legal(run) && Enabled(End(run), ReceiveClose) && End(run).callback.Quiet?
    ensures var s' := WorkStep(WorkStep(WorkStep(Next(End(run), ReceiveClose), first.0, first.1), second.0, second.1), third.0, third.1);
            && s'.worker.Ended? && s'.pending.None?
            && (End(run).pending.Some? ==>
                  End(run).pending.value < |s'.answers| && s'.answers[End(run).pending.value] == 1)
  {
    EveryRunKeepsInv(run);
    ClosedWorkerEnds(End(run), first, second, third);
  }

  lemma ClosedWorkerEnds(s: State, first: (bool, bool), second: (bool, bool), third: (bool, bool))
    requires Account(s)
    ensures var s' := WorkStep(WorkStep(WorkStep(Next(s, ReceiveClose), first.0, first.1), second.0, second.1), third.0, third.1);
            && s'.worker.Ended? && s'.pending.None?
            && (s.pending.Some? ==> s.pending.value < |s'.answers| && s'.answers[s.pending.value] == 1)
  {
    var s0 := Next(s, ReceiveClose);
    assert s0.worker == Cancel(ToTeardown);
    var s1 := WorkStep(s0, first.0, first.1);
    var s2 := WorkStep(s1, second.0, second.1);
    if s.pending.Some? {
      assert s1.worker == Answer(s.pending.value, ToTeardown) && s1.pending.None? && s1.answers == s.answers;
      assert s2.worker.Teardown? && s2.pending.None? && s2.answers == Answered(s.answers, s.pending.value);
    } else {
      assert s1.worker.Teardown? && s1.pending.None?;
      assert s2.worker.Ended? && s2.pending.None?;
    }
  }

  // ----- A stall counted against a frame that did arrive -----

  /** Nothing is going on between two requests. */
  predicate AtRest(s: State) {
    s.pending.None? && s.worker.Idle? && s.callback.Quiet? && s.notifier.Resting? && !s.unplugged
  }

  const LATE := Work(false, true)

  lemma Take(run: Run, step: Step) returns (longer: Run)
    requires Legal(run) && Enabled(End(run), step)
    ensures longer == Then(run, step) && Legal(longer) && End(longer) == Next(End(run), step)
  {
    longer := Then(run, step);
  }

  /** A request is admitted, with the device still there. */
  lemma RequestAdmitted(run: Run) returns (later: Run)
    requires Legal(run) && AtRest(End(run))
    ensures Legal(later) && End(later) == End(run).(pending := Some(|End(run).answers|), worker := WaitCheck,
                                                    answers := End(run).answers + [0])
  {
    later := Take(run, Receive);
    later := Take(later, LATE);
    later := Take(later, LATE);
  }

  /** Its deadline is found to have passed. */
  lemma RequestExpires(run: Run) returns (later: Run)
    requires Legal(run) && AtRest(End(run))
    ensures Legal(later) && End(later) == End(run).(pending := Some(|End(run).answers|), worker := Expire,
                                                    answers := End(run).answers + [0])
  {
    later := RequestAdmitted(run);
    later := Take(later, LATE);
    later := Take(later, LATE);
  }

  /** A request that nobody serves adds one stall. */
  lemma RequestStalls(run: Run) returns (later: Run)
    requires Legal(run) && AtRest(End(run)) && End(run).stalls < STALL_THRESHOLD - 1
    ensures Legal(later) && AtRest(End(later)) && End(later).stalls == End(run).stalls + 1
    ensures End(later).nextSequence == End(run).nextSequence && End(later).accepted == End(run).accepted
  {
    later := RequestExpires(run);
    later := Take(later, LATE);
    later := Take(later, LATE);
    later := Take(later, LATE);
  }

  /** A first request is served before its deadline is looked at. */
  lemma FirstFrame() returns (run: Run)
    ensures Legal(run) && AtRest(End(run))
    ensures End(run).stalls == 0 && End(run).nextSequence == 2 && |End(run).accepted| == 1
  {
    run := RequestAdmitted(Start(false));
    run := Take(run, Sample);
    run := Take(run, Deliver(true));
    run := Take(run, Deliver(true));
    run := Take(run, Deliver(true));
    run := Take(run, LATE);
    run := Take(run, LATE);
  }

  /** The stall rule fires with a single expiry since a sink accepted a frame. */
  predicate FiresEarly(run: Run) {
    Legal(run) && Expires(run) && End(run).unplugged && ExpiriesSinceAccepted(run) == 1 && FramesAccepted(run) == 2
  }

  /** It can: after two stalls, a third request is just being delivered when its deadline is noticed. */
  lemma UnpluggedDespiteFreshFrame()
    ensures exists run :: FiresEarly(run)
  {
    var run := FirstFrame();
    run := RequestStalls(run);
    run := RequestStalls(run);
    run := RequestExpires(run);
    run := Take(run, Sample);
    run := Take(run, Deliver(true));
    run := Take(run, LATE);
    CountersAreObserved(run);
    assert FiresEarly(run);
  }
}
