/**
  The serial worker session as a state machine: any interleaving of clients that enqueue
  commands, anyone who requests close, and the worker thread, one atomic action at a time
  (adapters/serialport/src/session.rs). The worker's loops inside one command are in `SerialIo`;
  here such a loop is a cycle of loading the lifecycle and starting one native transfer.
 */
module SerialActor {
  import opened Prelude

  datatype Lifecycle = Open | Closing | Closed

  /** How a command's operation ended, as far as the session cares. */
  datatype Outcome = Fine | ClosedOrGone | FlushTimeout | OtherError

  /** Where a command is, or how it ended: one reply, or its reply channel dropped. */
  datatype Status = Queued | InHand | Replied(outcome: Outcome) | Abandoned

  datatype Pc =
    | CheckOpen                              // head of the worker loop
    | Receive                                // waiting for a command
    | Recheck(cmd: nat)                      // lifecycle load after a receive
    | Load(cmd: nat)                         // lifecycle load before a native transfer
    | Transfer(cmd: nat)                     // the load found the session open
    | Escalate(cmd: nat)                     // a flush timed out: request close
    | Record(cmd: nat, outcome: Outcome)     // record a terminal error
    | Respond(cmd: nat, outcome: Outcome)    // send the reply
    | Drain                                  // reject what is still queued
    | DropPort
    | DropReceiver
    | UnwindReceiver                         // a panic drops the receiver, then the port
    | UnwindPort
    | Settle                                 // take the terminal error
    | LastRequest
    | MarkClosed
    | Publish
    | Done

  /** The completion's result: not settled yet, success, the error of a command, or the worker's panic. */
  datatype Report = Unsettled | Success | Failure(cmd: nat) | Panicked

  datatype State = State(
    lifecycle: Lifecycle,
    pc: Pc,
    queue: Option<nat>,
    commands: seq<Status>,
    senderAlive: bool,
    receiverAlive: bool,
    portAlive: bool,
    panicked: bool,
    terminal: Option<nat>,
    report: Report,
    completions: nat,
    firstFailure: Option<nat>,
    lateTransfers: nat)

  /**
    `direct` commands (control lines) go to the port without another lifecycle load. `again` is
    whether a native transfer's loop goes round once more.
   */
  datatype Step =
    | AskClose
    | Enqueue
    | DropSender
    | Work(direct: bool, again: bool, outcome: Outcome)
    | Panic

  const INITIAL := State(Open, CheckOpen, None, [], true, true, true, false, None, Unsettled, 0, None, 0)

  function AskedToClose(l: Lifecycle): Lifecycle { if l.Open? then Closing else l }

  function SetStatus(s: State, cmd: nat, status: Status): State {
    if cmd < |s.commands| then s.(commands := s.commands[cmd := status]) else s
  }

  /** The command a worker position holds. */
  function Held(pc: Pc): Option<nat> {
    match pc
    case Recheck(c) => Some(c)
    case Load(c) => Some(c)
    case Transfer(c) => Some(c)
    case Escalate(c) => Some(c)
    case Record(c, _) => Some(c)
    case Respond(c, _) => Some(c)
    case _ => None
  }

  predicate InsideActor(pc: Pc) {
    pc.CheckOpen? || pc.Receive? || Held(pc).Some? || pc.Drain? || pc.DropPort? || pc.DropReceiver?
  }

  predicate Enabled(s: State, step: Step) {
    match step
    case AskClose => true
    case Enqueue => s.senderAlive && s.receiverAlive && s.queue.None?
    case DropSender => s.senderAlive
    case Work(_, _, _) => !s.pc.Done?
    case Panic => InsideActor(s.pc)
  }

  /** A recordable failure: the session is closing and the error is not about the closing itself. */
  predicate Records(s: State, outcome: Outcome) {
    !s.lifecycle.Open? && (outcome.OtherError? || outcome.FlushTimeout?)
  }

  function DropQueue(s: State): State {
    var emptied := s.(queue := None, receiverAlive := false);
    if s.queue.Some? then SetStatus(emptied, s.queue.value, Abandoned) else emptied
  }

  /** The worker's next action while it holds a command. */
  function CommandStep(s: State, direct: bool, again: bool, outcome: Outcome): State {
    match s.pc
    case Recheck(c) =>
      if !s.lifecycle.Open? then SetStatus(s.(pc := Drain), c, Replied(ClosedOrGone))
      else s.(pc := if direct then Transfer(c) else Load(c))
    case Load(c) =>
      s.(pc := if !s.lifecycle.Open? then Record(c, ClosedOrGone)
               else if again then Transfer(c)
               else if outcome.FlushTimeout? then Escalate(c)
               else Record(c, outcome))
    case Transfer(c) =>
      s.(pc := if again then Load(c) else if outcome.FlushTimeout? then Escalate(c) else Record(c, outcome),
         lateTransfers := s.lateTransfers + if s.lifecycle.Open? then 0 else 1)
    case Escalate(c) => s.(lifecycle := AskedToClose(s.lifecycle), pc := Record(c, FlushTimeout))
    case Record(c, o) =>
      s.(pc := Respond(c, o),
         terminal := if Records(s, o) then Earlier(s.terminal, c) else s.terminal,
         firstFailure := if Records(s, o) then Earlier(s.firstFailure, c) else s.firstFailure)
    case Respond(c, o) => SetStatus(s.(pc := CheckOpen), c, Replied(o))
    case _ => s
  }

  function Earlier(first: Option<nat>, cmd: nat): Option<nat> { if first.None? then Some(cmd) else first }

  /** The worker's next action between commands and while it gives up the port and the receiver. */
  function LoopStep(s: State): State {
    match s.pc
    case CheckOpen => s.(pc := if s.lifecycle.Open? then Receive else Drain)
    case Receive =>
      if s.queue.Some? then SetStatus(s.(queue := None, pc := Recheck(s.queue.value)), s.queue.value, InHand)
      else if s.senderAlive then s.(pc := CheckOpen)
      else s.(lifecycle := AskedToClose(s.lifecycle), pc := Drain)
    case Drain =>
      if s.queue.Some? then SetStatus(s.(queue := None), s.queue.value, Replied(ClosedOrGone)) else s.(pc := DropPort)
    case DropPort => s.(portAlive := false, pc := DropReceiver)
    case DropReceiver => DropQueue(s).(pc := Settle)
    case UnwindReceiver => DropQueue(s).(pc := UnwindPort)
    case UnwindPort => s.(portAlive := false, pc := Settle)
    case _ => s
  }

  /** The worker's last actions, outside the actor proper. */
  function FinishStep(s: State): State {
    match s.pc
    case Settle =>
      s.(report := if s.panicked then Panicked else if s.terminal.Some? then Failure(s.terminal.value) else Success,
         terminal := if s.panicked then s.terminal else None, pc := LastRequest)
    case LastRequest => s.(lifecycle := AskedToClose(s.lifecycle), pc := MarkClosed)
    case MarkClosed => s.(lifecycle := Closed, pc := Publish)
    case Publish => s.(completions := s.completions + 1, pc := Done)
    case _ => s
  }

  /** The worker's next atomic action. */
  function WorkStep(s: State, direct: bool, again: bool, outcome: Outcome): State {
    if Held(s.pc).Some? then CommandStep(s, direct, again, outcome)
    else if AfterPort(s.pc) then FinishStep(s)
    else LoopStep(s)
  }

  function Next(s: State, step: Step): State {
    match step
    case AskClose => s.(lifecycle := AskedToClose(s.lifecycle))
    case Enqueue => s.(queue := Some(|s.commands|), commands := s.commands + [Queued])
    case DropSender => s.(senderAlive := false)
    case Work(direct, again, outcome) => WorkStep(s, direct, again, outcome)
    case Panic =>
      var unwinding := s.(panicked := true, pc := UnwindReceiver);
      if Held(s.pc).Some? then SetStatus(unwinding, Held(s.pc).value, Abandoned) else unwinding
  }

  // ----- Runs -----

  /** A run: each step enabled where it is taken. */
  ghost predicate IsRun(trace: seq<State>, steps: seq<Step>) {
    && |trace| == |steps| + 1 && trace[0] == INITIAL
    && forall k :: 0 <= k < |steps| ==> Taken(trace, steps, k)
  }

  ghost predicate Taken(trace: seq<State>, steps: seq<Step>, k: nat)
    requires |trace| == |steps| + 1 && k < |steps|
  {
    Enabled(trace[k], steps[k]) && trace[k + 1] == Next(trace[k], steps[k])
  }

  // ----- The invariant -----

  /** Every command is queued, in the worker's hand, or finished, and only one is each of the first two. */
  ghost predicate CommandsAccounted(s: State) {
    && (s.queue.Some? ==> s.queue.value < |s.commands| && s.receiverAlive)
    && (Held(s.pc).Some? ==> Held(s.pc).value < |s.commands|)
    && (forall c :: 0 <= c < |s.commands| ==> (s.commands[c].Queued? <==> s.queue == Some(c)))
    && (forall c :: 0 <= c < |s.commands| ==> (s.commands[c].InHand? <==> Held(s.pc) == Some(c)))
  }

  predicate AfterReceiver(pc: Pc) { pc.UnwindPort? || AfterPort(pc) }

  /** Positions after both the port and the receiver are gone. */
  predicate AfterPort(pc: Pc) { pc.Settle? || pc.LastRequest? || pc.MarkClosed? || pc.Publish? || pc.Done? }

  ghost predicate ResourcesAgree(s: State) {
    && (AfterPort(s.pc) || s.pc.DropReceiver? ==> !s.portAlive)
    && (AfterReceiver(s.pc) <==> !s.receiverAlive)
    && (s.pc.UnwindReceiver? || s.pc.UnwindPort? ==> s.panicked)
    && (s.panicked ==> !InsideActor(s.pc))
  }

  /** One transfer may already have passed its lifecycle check when the session starts closing; no more. */
  ghost predicate TransfersBounded(s: State) {
    && s.lateTransfers <= 1
    && (s.lateTransfers == 1 ==> !s.lifecycle.Open? && !s.pc.Transfer?)
  }

  /** The worker leaves its loop only for a closing session, and publishes its one completion at the very end. */
  ghost predicate CompletionAgrees(s: State) {
    && s.completions == (if s.pc.Done? then 1 else 0)
    && (!s.report.Unsettled? <==> s.pc.LastRequest? || s.pc.MarkClosed? || s.pc.Publish? || s.pc.Done?)
    && (s.pc.Publish? || s.pc.Done? ==> s.lifecycle.Closed?)
    && (s.pc.MarkClosed? ==> !s.lifecycle.Open?)
    && (s.lifecycle.Closed? ==> s.pc.Publish? || s.pc.Done?)
    && (s.pc.Drain? || s.pc.DropPort? || s.pc.DropReceiver? ==> !s.lifecycle.Open?)
  }

  /** The first recordable error is what a completion without a panic reports. */
  ghost predicate TerminalAgrees(s: State) {
    && (s.report.Unsettled? ==> s.terminal == s.firstFailure)
    && (!s.report.Unsettled? ==> s.report == Verdict(s))
  }

  /** A panic outweighs every error, the first recorded error every later one. */
  function Verdict(s: State): Report {
    if s.panicked then Panicked else if s.firstFailure.Some? then Failure(s.firstFailure.value) else Success
  }

  ghost predicate Inv(s: State) {
    match s
    case State(_, _, _, _, _, _, _, _, _, _, _, _, _) =>
      CommandsAccounted(s) && Rest(s)
  }

  ghost predicate Rest(s: State) {
    match s
    case State(_, _, _, _, _, _, _, _, _, _, _, _, _) =>
      ResourcesAgree(s) && TransfersBounded(s) && CompletionAgrees(s) && TerminalAgrees(s)
  }

  /** A step that moves no command keeps the account. */
  lemma NothingMoves(s: State, s': State)
    requires CommandsAccounted(s)
    requires s'.commands == s.commands && s'.queue == s.queue && Held(s'.pc) == Held(s.pc)
    requires s.receiverAlive ==> s'.receiverAlive
    ensures CommandsAccounted(s')
  {
  }

  /** One command changes its place: out of the queue or the hand, and into the hand or finished. */
  lemma OneMoves(s: State, s': State, cmd: nat, status: Status)
    requires CommandsAccounted(s) && cmd < |s.commands| && !status.Queued?
    requires s.queue == Some(cmd) || Held(s.pc) == Some(cmd)
    requires s'.commands == s.commands[cmd := status]
    requires s'.queue == (if s.queue == Some(cmd) then None else s.queue)
    requires Held(s'.pc) == (if status.InHand? then Some(cmd) else if Held(s.pc) == Some(cmd) then None else Held(s.pc))
    requires status.InHand? ==> Held(s.pc).None?
    requires s'.queue.Some? ==> s'.receiverAlive
    ensures CommandsAccounted(s')
  {
  }

  /** What the worker answers where it answers the command it holds. */
  function ReplyOf(pc: Pc): Status { Replied(if pc.Respond? then pc.outcome else ClosedOrGone) }

  lemma AnsweringKeepsAccount(s: State, direct: bool, again: bool, outcome: Outcome)
    requires CommandsAccounted(s) && (s.pc.Respond? || (s.pc.Recheck? && !s.lifecycle.Open?))
    ensures CommandsAccounted(CommandStep(s, direct, again, outcome))
  {
    OneMoves(s, CommandStep(s, direct, again, outcome), s.pc.cmd, ReplyOf(s.pc));
  }

  predicate SamePlaces(s: State, s': State) {
    s'.commands == s.commands && s'.queue == s.queue && s'.receiverAlive == s.receiverAlive && Held(s'.pc) == Held(s.pc)
  }

  lemma TransferringMovesNothing(s: State, direct: bool, again: bool, outcome: Outcome)
    requires (s.pc.Recheck? && s.lifecycle.Open?) || s.pc.Load? || s.pc.Transfer?
    ensures SamePlaces(s, CommandStep(s, direct, again, outcome))
  {
  }

  lemma RecordingMovesNothing(s: State, direct: bool, again: bool, outcome: Outcome)
    requires s.pc.Escalate? || s.pc.Record?
    ensures SamePlaces(s, CommandStep(s, direct, again, outcome))
  {
  }

  lemma ExecutingMovesNothing(s: State, direct: bool, again: bool, outcome: Outcome)
    requires Held(s.pc).Some? && !s.pc.Respond? && !(s.pc.Recheck? && !s.lifecycle.Open?)
    ensures SamePlaces(s, CommandStep(s, direct, again, outcome))
  {
    if s.pc.Escalate? || s.pc.Record? {
      RecordingMovesNothing(s, direct, again, outcome);
    } else {
      TransferringMovesNothing(s, direct, again, outcome);
    }
  }

  lemma TakingKeepsAccount(s: State)
    requires CommandsAccounted(s) && (s.pc.Receive? || s.pc.Drain?)
    ensures CommandsAccounted(LoopStep(s))
  {
    if s.queue.Some? {
      OneMoves(s, LoopStep(s), s.queue.value, if s.pc.Receive? then InHand else Replied(ClosedOrGone));
    } else {
      NothingMoves(s, LoopStep(s));
    }
  }

  lemma DroppingKeepsAccount(s: State)
    requires CommandsAccounted(s) && (s.pc.DropReceiver? || s.pc.UnwindReceiver?)
    ensures CommandsAccounted(LoopStep(s))
  {
    if s.queue.Some? { OneMoves(s, LoopStep(s), s.queue.value, Abandoned); }
  }

  lemma LoopKeepsAccount(s: State)
    requires CommandsAccounted(s) && Held(s.pc).None? && !AfterPort(s.pc)
    ensures CommandsAccounted(LoopStep(s))
  {
    if s.pc.Receive? || s.pc.Drain? {
      TakingKeepsAccount(s);
    } else if s.pc.DropReceiver? || s.pc.UnwindReceiver? {
      DroppingKeepsAccount(s);
    } else {
      NothingMoves(s, LoopStep(s));
    }
  }

  lemma CommandKeepsAccount(s: State, direct: bool, again: bool, outcome: Outcome)
    requires CommandsAccounted(s) && Held(s.pc).Some?
    ensures CommandsAccounted(CommandStep(s, direct, again, outcome))
  {
    if s.pc.Respond? || (s.pc.Recheck? && !s.lifecycle.Open?) {
      AnsweringKeepsAccount(s, direct, again, outcome);
    } else {
      ExecutingMovesNothing(s, direct, again, outcome);
      NothingMoves(s, CommandStep(s, direct, again, outcome));
    }
  }

  lemma FinishKeepsAccount(s: State)
    requires CommandsAccounted(s) && AfterPort(s.pc)
    ensures CommandsAccounted(FinishStep(s))
  {
    NothingMoves(s, FinishStep(s));
  }

  lemma WorkKeepsAccount(s: State, direct: bool, again: bool, outcome: Outcome)
    requires CommandsAccounted(s)
    ensures CommandsAccounted(WorkStep(s, direct, again, outcome))
  {
    if Held(s.pc).Some? {
      CommandKeepsAccount(s, direct, again, outcome);
    } else if AfterPort(s.pc) {
      FinishKeepsAccount(s);
    } else {
      LoopKeepsAccount(s);
    }
  }

  lemma CommandsStayAccounted(s: State, step: Step)
    requires CommandsAccounted(s) && Enabled(s, step)
    ensures CommandsAccounted(Next(s, step))
  {
    var s' := Next(s, step);
    match step
    case Work(direct, again, outcome) => WorkKeepsAccount(s, direct, again, outcome);
    case Enqueue =>
    case Panic =>
      if Held(s.pc).Some? { OneMoves(s, s', Held(s.pc).value, Abandoned); } else { NothingMoves(s, s'); }
    case _ => NothingMoves(s, s');
  }

  lemma TransferringKeepsRest(s: State, direct: bool, again: bool, outcome: Outcome)
    requires Rest(s) && (s.pc.Recheck? || s.pc.Load? || s.pc.Transfer?)
    ensures Rest(CommandStep(s, direct, again, outcome))
  {
  }

  lemma ReportingKeepsRest(s: State, direct: bool, again: bool, outcome: Outcome)
    requires Rest(s) && (s.pc.Escalate? || s.pc.Record? || s.pc.Respond?)
    ensures Rest(CommandStep(s, direct, again, outcome))
  {
  }

  lemma CommandKeepsRest(s: State, direct: bool, again: bool, outcome: Outcome)
    requires Rest(s) && Held(s.pc).Some?
    ensures Rest(CommandStep(s, direct, again, outcome))
  {
    if s.pc.Recheck? || s.pc.Load? || s.pc.Transfer? {
      TransferringKeepsRest(s, direct, again, outcome);
    } else {
      ReportingKeepsRest(s, direct, again, outcome);
    }
  }

  lemma ListeningKeepsRest(s: State)
    requires Rest(s) && (s.pc.CheckOpen? || s.pc.Receive? || s.pc.Drain?)
    ensures Rest(LoopStep(s))
  {
  }

  lemma LettingGoKeepsRest(s: State)
    requires Rest(s) && (s.pc.DropPort? || s.pc.DropReceiver? || s.pc.UnwindReceiver? || s.pc.UnwindPort?)
    ensures Rest(LoopStep(s))
  {
  }

  lemma LoopKeepsRest(s: State)
    requires Rest(s) && Held(s.pc).None? && !AfterPort(s.pc)
    ensures Rest(LoopStep(s))
  {
    if s.pc.CheckOpen? || s.pc.Receive? || s.pc.Drain? { ListeningKeepsRest(s); } else { LettingGoKeepsRest(s); }
  }

  lemma FinishKeepsRest(s: State)
    requires Rest(s) && AfterPort(s.pc)
    ensures Rest(FinishStep(s))
  {
  }

  lemma RestStep(s: State, step: Step)
    requires Rest(s) && Enabled(s, step)
    ensures Rest(Next(s, step))
  {
    match step
    case Work(direct, again, outcome) =>
      if Held(s.pc).Some? {
        CommandKeepsRest(s, direct, again, outcome);
      } else if AfterPort(s.pc) {
        FinishKeepsRest(s);
      } else {
        LoopKeepsRest(s);
      }
    case _ =>
  }

  /** Every step of every party keeps the invariant. */
  lemma InvariantStep(s: State, step: Step)
    requires Inv(s) && Enabled(s, step)
    ensures Inv(Next(s, step))
  {
    CommandsStayAccounted(s, step);
    RestStep(s, step);
  }

  lemma {:induction false} EveryStateOfEveryRun(trace: seq<State>, steps: seq<Step>, k: nat)
    requires IsRun(trace, steps) && k < |trace|
    ensures Inv(trace[k])
  {
    if k > 0 {
      EveryStateOfEveryRun(trace, steps, k - 1);
      assert Taken(trace, steps, k - 1);
      InvariantStep(trace[k - 1], steps[k - 1]);
    }
  }

  // ----- What never goes back -----

  function Rank(l: Lifecycle): nat { match l case Open => 0 case Closing => 1 case Closed => 2 }

  predicate Finished(status: Status) { status.Replied? || status.Abandoned? }

  /** From `s` on to `t`: the lifecycle only advances, no finished command is answered again, nothing is forgotten. */
  ghost predicate Onward(s: State, t: State) {
    match s
    case State(_, _, _, _, _, _, _, _, _, _, _, _, _) => Advances(s, t) && KeepsFinished(s.commands, t.commands)
  }

  predicate Advances(s: State, t: State) {
    && Rank(s.lifecycle) <= Rank(t.lifecycle)
    && s.lateTransfers <= t.lateTransfers
    && (s.firstFailure.Some? ==> t.firstFailure == s.firstFailure)
  }

  ghost predicate KeepsFinished(a: seq<Status>, b: seq<Status>) {
    |a| <= |b| && forall c :: 0 <= c < |a| && Finished(a[c]) ==> b[c] == a[c]
  }

  /** A command the worker holds leaves its hand only by being answered. */
  lemma CommandMoves(s: State, direct: bool, again: bool, outcome: Outcome)
    requires Held(s.pc).Some? && CommandsAccounted(s)
    ensures var s' := CommandStep(s, direct, again, outcome);
            && (s'.commands == s.commands || s'.commands == s.commands[Held(s.pc).value := ReplyOf(s.pc)])
            && s'.queue == s.queue && s'.receiverAlive == s.receiverAlive
  {
    if !s.pc.Respond? && !(s.pc.Recheck? && !s.lifecycle.Open?) {
      ExecutingMovesNothing(s, direct, again, outcome);
    }
  }

  lemma ExecutingAdvances(s: State, direct: bool, again: bool, outcome: Outcome)
    requires s.pc.Recheck? || s.pc.Load? || s.pc.Transfer? || s.pc.Escalate?
    ensures Advances(s, CommandStep(s, direct, again, outcome))
  {
  }

  lemma CommandAdvances(s: State, direct: bool, again: bool, outcome: Outcome)
    ensures Advances(s, CommandStep(s, direct, again, outcome))
  {
    if s.pc.Recheck? || s.pc.Load? || s.pc.Transfer? || s.pc.Escalate? { ExecutingAdvances(s, direct, again, outcome); }
  }

  lemma CommandIsOnward(s: State, direct: bool, again: bool, outcome: Outcome)
    requires Held(s.pc).Some? && CommandsAccounted(s)
    ensures Onward(s, CommandStep(s, direct, again, outcome))
  {
    assert s.commands[Held(s.pc).value].InHand?;
    CommandMoves(s, direct, again, outcome);
    CommandAdvances(s, direct, again, outcome);
  }

  /** Between commands only the queued one can move, and it is dropped only along with the receiver. */
  lemma LoopMoves(s: State)
    requires CommandsAccounted(s)
    ensures var s' := LoopStep(s);
            && (s'.queue == s.queue || s'.queue == None) && s'.panicked == s.panicked
            && (s'.receiverAlive ==> s.receiverAlive)
            && (|| s'.commands == s.commands
                || (s.queue.Some? && s'.commands == s.commands[s.queue.value := InHand])
                || (s.queue.Some? && s'.commands == s.commands[s.queue.value := Replied(ClosedOrGone)])
                || (s.queue.Some? && s'.commands == s.commands[s.queue.value := Abandoned] && !s'.receiverAlive))
  {
    match s.pc
    case CheckOpen =>
    case Receive =>
    case Drain =>
    case DropPort =>
    case DropReceiver =>
    case UnwindReceiver =>
    case UnwindPort =>
    case _ =>
  }

  lemma LoopAdvances(s: State)
    ensures Advances(s, LoopStep(s))
  {
    match s.pc
    case CheckOpen =>
    case Receive =>
    case Drain =>
    case DropPort =>
    case DropReceiver =>
    case UnwindReceiver =>
    case UnwindPort =>
    case _ =>
  }

  lemma LoopIsOnward(s: State)
    requires CommandsAccounted(s)
    ensures Onward(s, LoopStep(s))
  {
    if s.queue.Some? { assert s.commands[s.queue.value].Queued?; }
    LoopMoves(s);
    LoopAdvances(s);
  }

  lemma StepIsOnward(s: State, step: Step)
    requires Inv(s) && Enabled(s, step)
    ensures Onward(s, Next(s, step))
  {
    match step
    case Work(direct, again, outcome) =>
      if Held(s.pc).Some? {
        CommandIsOnward(s, direct, again, outcome);
      } else if AfterPort(s.pc) {
      } else {
        LoopIsOnward(s);
      }
    case Panic => if Held(s.pc).Some? { assert s.commands[Held(s.pc).value].InHand?; }
    case _ =>
  }

  lemma OnwardIsTransitive(a: State, b: State, c: State)
    requires Onward(a, b) && Onward(b, c)
    ensures Onward(a, c)
  {
  }

  lemma RunStepIsOnward(trace: seq<State>, steps: seq<Step>, k: nat)
    requires IsRun(trace, steps) && k < |steps|
    ensures Onward(trace[k], trace[k + 1])
  {
    EveryStateOfEveryRun(trace, steps, k);
    assert Taken(trace, steps, k);
    StepIsOnward(trace[k], steps[k]);
  }

  /** No run takes the lifecycle back, answers a command twice, or replaces the first recorded error. */
  lemma {:induction false} RunsOnlyGoOnward(trace: seq<State>, steps: seq<Step>, i: nat, j: nat)
    requires IsRun(trace, steps) && i <= j < |trace|
    ensures Onward(trace[i], trace[j])
    decreases j - i
  {
    if i < j {
      RunsOnlyGoOnward(trace, steps, i, j - 1);
      RunStepIsOnward(trace, steps, j - 1);
      OnwardIsTransitive(trace[i], trace[j - 1], trace[j]);
    }
  }

  /** The worker is about to start a native transfer although the session is no longer open. */
  predicate StartsLate(s: State, step: Step) { s.pc.Transfer? && !s.lifecycle.Open? && step.Work? }

  /** Once the session is closing, at most one native transfer is still started: the one already past its check. */
  lemma AtMostOneLateTransfer(trace: seq<State>, steps: seq<Step>, i: nat, j: nat)
    requires IsRun(trace, steps) && i < j < |steps|
    ensures !(StartsLate(trace[i], steps[i]) && StartsLate(trace[j], steps[j]))
  {
    EveryStateOfEveryRun(trace, steps, i);
    EveryStateOfEveryRun(trace, steps, j);
    assert Taken(trace, steps, i);
    RunsOnlyGoOnward(trace, steps, i + 1, j);
  }

  // ----- How a session ends -----

  /** The queue holds the newest command, and without a panic only a command sent behind the drain is dropped. */
  ghost predicate LossBounded(s: State) {
    && (s.queue.Some? ==> s.queue.value == |s.commands| - 1)
    && (!s.panicked ==> forall c :: 0 <= c < |s.commands| && s.commands[c].Abandoned? ==>
                          c == |s.commands| - 1 && !s.receiverAlive)
  }

  lemma CommandLosesNone(s: State, direct: bool, again: bool, outcome: Outcome)
    requires LossBounded(s) && CommandsAccounted(s) && Held(s.pc).Some?
    ensures LossBounded(CommandStep(s, direct, again, outcome))
  {
    CommandMoves(s, direct, again, outcome);
  }

  lemma LoopLosesLast(s: State)
    requires LossBounded(s) && CommandsAccounted(s)
    ensures LossBounded(LoopStep(s))
  {
    LoopMoves(s);
  }

  lemma LossStep(s: State, step: Step)
    requires Inv(s) && LossBounded(s) && Enabled(s, step)
    ensures LossBounded(Next(s, step))
  {
    match step
    case Work(direct, again, outcome) =>
      if Held(s.pc).Some? {
        CommandLosesNone(s, direct, again, outcome);
      } else if AfterPort(s.pc) {
      } else {
        LoopLosesLast(s);
      }
    case _ =>
  }

  lemma {:induction false} LossInEveryRun(trace: seq<State>, steps: seq<Step>, k: nat)
    requires IsRun(trace, steps) && k < |trace|
    ensures LossBounded(trace[k])
  {
    if k > 0 {
      LossInEveryRun(trace, steps, k - 1);
      EveryStateOfEveryRun(trace, steps, k - 1);
      assert Taken(trace, steps, k - 1);
      LossStep(trace[k - 1], steps[k - 1]);
    }
  }

  /**
    A worker that ended has released the port, closed the lifecycle, and published one completion,
    which reports the first recorded error or the panic. Every command it was ever sent is finished;
    without a panic all were answered, save possibly the last.
   */
  lemma EveryWorkerEnding(trace: seq<State>, steps: seq<Step>, k: nat)
    requires IsRun(trace, steps) && k < |trace|
    ensures var s := trace[k];
            && (s.completions > 0 <==> s.pc.Done?) && s.completions <= 1
            && (s.pc.Done? ==>
                  && !s.portAlive && !s.receiverAlive && s.lifecycle.Closed?
                  && s.report == Verdict(s)
                  && (forall c :: 0 <= c < |s.commands| ==> Finished(s.commands[c]))
                  && (!s.panicked ==> forall c :: 0 <= c < |s.commands| - 1 ==> s.commands[c].Replied?))
  {
    EveryStateOfEveryRun(trace, steps, k);
    LossInEveryRun(trace, steps, k);
  }

  /** How many of its own actions separate a closing worker from its end. */
  function Distance(s: State): nat {
    match s.pc
    case Done => 0
    case Publish => 1
    case MarkClosed => 2
    case LastRequest => 3
    case Settle => 4
    case UnwindPort => 5
    case UnwindReceiver => 6
    case DropReceiver => 5
    case DropPort => 6
    case Drain => if s.queue.Some? then 8 else 7
    case CheckOpen => 9
    case Respond(_, _) => 10
    case Record(_, _) => 11
    case Escalate(_) => 12
    case Load(_) => 12
    case Transfer(_) => 13
    case Recheck(_) => 14
    case Receive => 15
  }

  datatype Choice = Choice(direct: bool, again: bool, outcome: Outcome)

  /** The worker takes its actions undisturbed. */
  function Alone(s: State, choices: seq<Choice>): State
    decreases |choices|
  {
    if choices == [] then s
    else Alone(WorkStep(s, choices[0].direct, choices[0].again, choices[0].outcome), choices[1..])
  }

  lemma ClosingCommandAdvances(s: State, direct: bool, again: bool, outcome: Outcome)
    requires !s.lifecycle.Open? && Held(s.pc).Some?
    ensures Distance(CommandStep(s, direct, again, outcome)) < Distance(s)
  {
  }

  lemma ClosingLoopAdvances(s: State)
    requires !s.lifecycle.Open? && Held(s.pc).None? && !AfterPort(s.pc)
    ensures Distance(LoopStep(s)) < Distance(s)
  {
  }

  lemma ClosingFinishAdvances(s: State)
    requires !s.lifecycle.Open? && AfterPort(s.pc)
    ensures !FinishStep(s).lifecycle.Open? && (s.pc.Done? || Distance(FinishStep(s)) < Distance(s))
  {
  }

  lemma ClosingWorkerAdvances(s: State, direct: bool, again: bool, outcome: Outcome)
    requires !s.lifecycle.Open?
    ensures var s' := WorkStep(s, direct, again, outcome);
            !s'.lifecycle.Open? && if s.pc.Done? then s' == s else Distance(s') < Distance(s)
  {
    if Held(s.pc).Some? {
      CommandAdvances(s, direct, again, outcome);
      ClosingCommandAdvances(s, direct, again, outcome);
    } else if AfterPort(s.pc) {
      ClosingFinishAdvances(s);
    } else {
      LoopAdvances(s);
      ClosingLoopAdvances(s);
    }
  }

  /** A closing worker ends after fifteen actions of its own at the latest, whatever its port answers. */
  lemma {:induction false} ClosingWorkerEnds(s: State, choices: seq<Choice>)
    requires !s.lifecycle.Open? && Distance(s) <= |choices|
    ensures Alone(s, choices).pc.Done?
    decreases |choices|
  {
    if choices != [] {
      ClosingWorkerAdvances(s, choices[0].direct, choices[0].again, choices[0].outcome);
      ClosingWorkerEnds(WorkStep(s, choices[0].direct, choices[0].again, choices[0].outcome), choices[1..]);
    }
  }

  // ----- What an answer means -----

  /** The answer that a worker position has decided on. */
  function Due(pc: Pc): Option<(nat, Outcome)> {
    match pc
    case Escalate(c) => Some((c, FlushTimeout))
    case Record(c, o) => Some((c, o))
    case Respond(c, o) => Some((c, o))
    case _ => None
  }

  /**
    Why a command is answered as it is: its last transfer, or the look at the port that ended its loop,
    came out so; or the session was no longer open when the worker rechecked the command, looked
    before a transfer, or drained the queue, and that is what the command is told.
   */
  predicate Reason(s: State, step: Step, c: nat, o: Outcome) {
    && step.Work?
    && (|| (!step.again && step.outcome == o && (s.pc == Transfer(c) || (s.pc == Load(c) && s.lifecycle.Open?)))
        || (o.ClosedOrGone? && !s.lifecycle.Open?
            && (s.pc == Recheck(c) || s.pc == Load(c) || (s.pc.Drain? && s.queue == Some(c)))))
  }

  /** Between commands the worker takes at most one up for a recheck, and no failure is recorded. */
  predicate NoCommand(s: State, s': State) {
    (Held(s'.pc).None? || s'.pc.Recheck?) && s'.firstFailure == s.firstFailure
  }

  lemma LoopHasNoCommand(s: State)
    requires Held(s.pc).None? && !AfterPort(s.pc)
    ensures NoCommand(s, LoopStep(s))
  {
    match s.pc
    case CheckOpen =>
    case Receive =>
    case Drain =>
    case DropPort =>
    case DropReceiver =>
    case UnwindReceiver =>
    case UnwindPort =>
  }

  lemma FinishHasNoCommand(s: State)
    requires AfterPort(s.pc)
    ensures NoCommand(s, FinishStep(s))
  {
    match s.pc
    case Settle =>
    case LastRequest =>
    case MarkClosed =>
    case Publish =>
    case Done =>
  }

  lemma WorkOutsideCommands(s: State, direct: bool, again: bool, outcome: Outcome)
    requires Held(s.pc).None?
    ensures NoCommand(s, WorkStep(s, direct, again, outcome))
  {
    if AfterPort(s.pc) { FinishHasNoCommand(s); } else { LoopHasNoCommand(s); }
  }

  lemma PortDecides(s: State, direct: bool, again: bool, outcome: Outcome, c: nat, o: Outcome)
    requires s.pc.Recheck? || s.pc.Load? || s.pc.Transfer?
    requires Due(CommandStep(s, direct, again, outcome).pc) == Some((c, o))
    ensures Reason(s, Work(direct, again, outcome), c, o)
  {
  }

  lemma CommandDecides(s: State, direct: bool, again: bool, outcome: Outcome, c: nat, o: Outcome)
    requires Held(s.pc).Some? && Due(CommandStep(s, direct, again, outcome).pc) == Some((c, o))
    ensures Due(s.pc) == Some((c, o)) || Reason(s, Work(direct, again, outcome), c, o)
  {
    if s.pc.Recheck? || s.pc.Load? || s.pc.Transfer? { PortDecides(s, direct, again, outcome, c, o); }
  }

  lemma CommandRecordsTimeout(s: State, direct: bool, again: bool, outcome: Outcome, c: nat)
    requires Held(s.pc).Some? && CommandStep(s, direct, again, outcome).pc == Record(c, FlushTimeout)
    ensures s.pc == Escalate(c) && !CommandStep(s, direct, again, outcome).lifecycle.Open?
  {
    match s.pc
    case Recheck(_) =>
    case Load(_) =>
    case Transfer(_) =>
    case Escalate(_) =>
    case Record(_, _) =>
    case Respond(_, _) =>
  }

  lemma CommandKeepsFailure(s: State, direct: bool, again: bool, outcome: Outcome)
    requires Held(s.pc).Some?
    ensures CommandStep(s, direct, again, outcome).firstFailure ==
            if s.firstFailure.None? && FailsClosing(s, Work(direct, again, outcome)) then Some(s.pc.cmd) else s.firstFailure
  {
    match s.pc
    case Recheck(_) =>
    case Load(_) =>
    case Transfer(_) =>
    case Escalate(_) =>
    case Record(_, _) =>
    case Respond(_, _) =>
  }

  lemma StepDecides(s: State, step: Step, c: nat, o: Outcome)
    requires Enabled(s, step) && Due(Next(s, step).pc) == Some((c, o))
    ensures Due(s.pc) == Some((c, o)) || Reason(s, step, c, o)
  {
    match step
    case Work(direct, again, outcome) =>
      if Held(s.pc).Some? {
        CommandDecides(s, direct, again, outcome, c, o);
      } else {
        WorkOutsideCommands(s, direct, again, outcome);
      }
    case _ =>
  }

  lemma {:induction false} DecisionHasAReason(trace: seq<State>, steps: seq<Step>, k: nat, c: nat, o: Outcome) returns (i: nat)
    requires IsRun(trace, steps) && k < |trace| && Due(trace[k].pc) == Some((c, o))
    ensures i < k && Reason(trace[i], steps[i], c, o)
  {
    assert k > 0;
    assert Taken(trace, steps, k - 1);
    StepDecides(trace[k - 1], steps[k - 1], c, o);
    if Due(trace[k - 1].pc) == Some((c, o)) {
      i := DecisionHasAReason(trace, steps, k - 1, c, o);
    } else {
      i := k - 1;
    }
  }

  lemma OnlyAnsweringReplies(s: State, step: Step, c: nat, o: Outcome)
    requires Inv(s) && Enabled(s, step) && c < |Next(s, step).commands| && Next(s, step).commands[c] == Replied(o)
    ensures (c < |s.commands| && s.commands[c] == Replied(o)) || s.pc == Respond(c, o) || Reason(s, step, c, o)
  {
    if step.Work? {
      if Held(s.pc).Some? {
        CommandMoves(s, step.direct, step.again, step.outcome);
        if !s.pc.Respond? && !(s.pc.Recheck? && !s.lifecycle.Open?) { ExecutingMovesNothing(s, step.direct, step.again, step.outcome); }
      } else if AfterPort(s.pc) {
      } else {
        OnlyDrainReplies(s, c, o);
      }
    }
  }

  lemma OnlyDrainReplies(s: State, c: nat, o: Outcome)
    requires CommandsAccounted(s) && Held(s.pc).None? && !AfterPort(s.pc)
    requires c < |LoopStep(s).commands| && LoopStep(s).commands[c] == Replied(o)
    ensures (c < |s.commands| && s.commands[c] == Replied(o)) || (s.pc.Drain? && s.queue == Some(c) && o.ClosedOrGone?)
  {
    match s.pc
    case CheckOpen =>
    case Receive =>
    case Drain =>
    case DropPort =>
    case DropReceiver =>
    case UnwindReceiver =>
    case UnwindPort =>
  }

  /** In every run every answer has its reason, at the port or in the session's closing, and says so. */
  lemma {:induction false} EveryAnswerHasAReason(trace: seq<State>, steps: seq<Step>, j: nat, c: nat) returns (i: nat)
    requires IsRun(trace, steps) && j < |trace| && c < |trace[j].commands| && trace[j].commands[c].Replied?
    ensures i < j && Reason(trace[i], steps[i], c, trace[j].commands[c].outcome)
  {
    var o := trace[j].commands[c].outcome;
    assert j > 0;
    assert Taken(trace, steps, j - 1);
    EveryStateOfEveryRun(trace, steps, j - 1);
    OnlyAnsweringReplies(trace[j - 1], steps[j - 1], c, o);
    if c < |trace[j - 1].commands| && trace[j - 1].commands[c] == Replied(o) {
      i := EveryAnswerHasAReason(trace, steps, j - 1, c);
    } else if trace[j - 1].pc == Respond(c, o) {
      i := DecisionHasAReason(trace, steps, j - 1, c, o);
    } else {
      i := j - 1;
    }
  }

  /** A command taken up without another load is transferred, or lost to a panic, but never answered before. */
  lemma {:induction false} DirectCommandIsTransferred(trace: seq<State>, steps: seq<Step>, i: nat, j: nat, c: nat)
    requires IsRun(trace, steps) && i < j < |trace| && trace[i].pc == Recheck(c) && trace[i].lifecycle.Open?
    requires steps[i].Work? && steps[i].direct
    ensures || (exists k :: i < k < j && trace[k].pc == Transfer(c) && steps[k].Work?)
            || trace[j].pc == Transfer(c)
            || (c < |trace[j].commands| && trace[j].commands[c].Abandoned?)
    decreases j
  {
    assert Taken(trace, steps, j - 1);
    EveryStateOfEveryRun(trace, steps, j - 1);
    if j > i + 1 {
      DirectCommandIsTransferred(trace, steps, i, j - 1, c);
      StepIsOnward(trace[j - 1], steps[j - 1]);
      if trace[j - 1].pc == Transfer(c) && !steps[j - 1].Work? { WaitingTransfer(trace[j - 1], steps[j - 1], c); }
    }
  }

  lemma WaitingTransfer(s: State, step: Step, c: nat)
    requires Inv(s) && Enabled(s, step) && s.pc == Transfer(c) && !step.Work?
    ensures var s' := Next(s, step); s'.pc == Transfer(c) || (c < |s'.commands| && s'.commands[c].Abandoned?)
  {
  }

  /** A flush that timed out has asked the session to close before its error is recorded. */
  lemma {:induction false} FlushTimeoutCloses(trace: seq<State>, steps: seq<Step>, k: nat, c: nat)
    requires IsRun(trace, steps) && k < |trace| && trace[k].pc == Record(c, FlushTimeout)
    ensures !trace[k].lifecycle.Open?
  {
    assert k > 0;
    assert Taken(trace, steps, k - 1);
    FlushTimeoutStep(trace[k - 1], steps[k - 1], c);
    if trace[k - 1].pc == Record(c, FlushTimeout) { FlushTimeoutCloses(trace, steps, k - 1, c); }
  }

  lemma FlushTimeoutStep(s: State, step: Step, c: nat)
    requires Enabled(s, step) && Next(s, step).pc == Record(c, FlushTimeout)
    ensures (s.pc == Record(c, FlushTimeout) && (!s.lifecycle.Open? ==> !Next(s, step).lifecycle.Open?)) || !Next(s, step).lifecycle.Open?
  {
    match step
    case Work(direct, again, outcome) =>
      if Held(s.pc).Some? {
        CommandRecordsTimeout(s, direct, again, outcome, c);
      } else {
        WorkOutsideCommands(s, direct, again, outcome);
      }
    case _ =>
  }

  // ----- What closes a session -----

  /** Someone asks, a flush times out, the last client is gone with nothing queued, or the worker is on its way out. */
  predicate Closes(s: State, step: Step) {
    || step.AskClose?
    || (step.Work? && (s.pc.Escalate? || s.pc.LastRequest? || s.pc.MarkClosed?
                       || (s.pc.Receive? && s.queue.None? && !s.senderAlive)))
  }

  lemma CommandCloses(s: State, direct: bool, again: bool, outcome: Outcome)
    requires Held(s.pc).Some?
    ensures CommandStep(s, direct, again, outcome).lifecycle == if s.pc.Escalate? then AskedToClose(s.lifecycle) else s.lifecycle
  {
  }

  lemma LoopCloses(s: State)
    requires Held(s.pc).None? && !AfterPort(s.pc)
    ensures LoopStep(s).lifecycle ==
            if s.pc.Receive? && s.queue.None? && !s.senderAlive then AskedToClose(s.lifecycle) else s.lifecycle
  {
    match s.pc
    case CheckOpen =>
    case Receive =>
    case Drain =>
    case DropPort =>
    case DropReceiver =>
    case UnwindReceiver =>
    case UnwindPort =>
  }

  lemma StepCloses(s: State, step: Step)
    requires Enabled(s, step)
    ensures Next(s, step).lifecycle.Open? <==> s.lifecycle.Open? && !Closes(s, step)
  {
    if step.Work? {
      if Held(s.pc).Some? {
        CommandCloses(s, step.direct, step.again, step.outcome);
      } else if !AfterPort(s.pc) {
        LoopCloses(s);
      }
    }
  }

  /** In every run the session is open exactly as long as none of these has happened. */
  lemma {:induction false} OpenUntilClosed(trace: seq<State>, steps: seq<Step>, j: nat)
    requires IsRun(trace, steps) && j < |trace|
    ensures trace[j].lifecycle.Open? <==> forall i :: 0 <= i < j ==> !Closes(trace[i], steps[i])
  {
    if j > 0 {
      OpenUntilClosed(trace, steps, j - 1);
      assert Taken(trace, steps, j - 1);
      StepCloses(trace[j - 1], steps[j - 1]);
    }
  }

  // ----- Which error is the first -----

  /** A command's failure that is worth reporting: the session is closing and it is not the closing itself that failed it. */
  predicate FailsClosing(s: State, step: Step) {
    step.Work? && s.pc.Record? && !s.lifecycle.Open? && (s.pc.outcome.OtherError? || s.pc.outcome.FlushTimeout?)
  }

  lemma FailureIsKept(s: State, step: Step)
    requires Enabled(s, step)
    ensures Next(s, step).firstFailure ==
            if s.firstFailure.None? && FailsClosing(s, step) then Some(s.pc.cmd) else s.firstFailure
  {
    match step
    case Work(direct, again, outcome) =>
      if Held(s.pc).Some? {
        CommandKeepsFailure(s, direct, again, outcome);
      } else {
        WorkOutsideCommands(s, direct, again, outcome);
      }
    case _ =>
  }

  /** The failure on record is the first one of the run that is worth reporting, and there is none if there was none. */
  lemma {:induction false} FirstFailureIsFirst(trace: seq<State>, steps: seq<Step>, j: nat)
    requires IsRun(trace, steps) && j < |trace|
    ensures trace[j].firstFailure.None? ==> forall k :: 0 <= k < j ==> !FailsClosing(trace[k], steps[k])
    ensures trace[j].firstFailure.Some? ==>
              exists k :: && 0 <= k < j && FailsClosing(trace[k], steps[k]) && trace[k].pc.cmd == trace[j].firstFailure.value
                          && forall l :: 0 <= l < k ==> !FailsClosing(trace[l], steps[l])
  {
    if j > 0 {
      FirstFailureIsFirst(trace, steps, j - 1);
      assert Taken(trace, steps, j - 1);
      FailureIsKept(trace[j - 1], steps[j - 1]);
    }
  }

  // ----- Every command is served -----

  /** The command is queued or in the worker's hand, and the worker has not begun to give up its port. */
  predicate InService(s: State, c: nat) {
    && (s.queue == Some(c) || Held(s.pc) == Some(c))
    && (s.pc.CheckOpen? || s.pc.Receive? || s.pc.Drain? || Held(s.pc).Some?)
  }

  function CommandLeft(pc: Pc): nat {
    match pc
    case Recheck(_) => 6
    case Load(_) => 5
    case Transfer(_) => 5
    case Escalate(_) => 4
    case Record(_, _) => 3
    case Respond(_, _) => 2
    case _ => 0
  }

  /** How many of the worker's actions separate it from its answer at most, when no transfer is repeated. */
  function ServiceLeft(s: State, c: nat): nat {
    if Held(s.pc) == Some(c) then CommandLeft(s.pc)
    else if s.pc.Drain? then 1
    else if s.pc.Receive? then 7
    else if s.pc.CheckOpen? then 8
    else CommandLeft(s.pc) + 7
  }

  lemma CommandGetsShorter(s: State, direct: bool, outcome: Outcome)
    requires Held(s.pc).Some? && !s.pc.Respond? && !(s.pc.Recheck? && !s.lifecycle.Open?)
    ensures CommandLeft(CommandStep(s, direct, false, outcome).pc) < CommandLeft(s.pc)
  {
    match s.pc
    case Recheck(_) =>
    case Load(_) =>
    case Transfer(_) =>
    case Escalate(_) =>
    case Record(_, _) =>
  }

  lemma AnsweredCommandGetsOn(s: State, direct: bool, outcome: Outcome, c: nat)
    requires CommandsAccounted(s) && InService(s, c) && (s.pc.Respond? || (s.pc.Recheck? && !s.lifecycle.Open?))
    ensures var s' := CommandStep(s, direct, false, outcome);
            && c < |s'.commands|
            && (s'.commands[c].Replied? || (InService(s', c) && ServiceLeft(s', c) < ServiceLeft(s, c)))
  {
  }

  lemma HeldCommandGetsOn(s: State, direct: bool, outcome: Outcome, c: nat)
    requires CommandsAccounted(s) && Held(s.pc).Some? && InService(s, c)
    ensures var s' := CommandStep(s, direct, false, outcome);
            && c < |s'.commands|
            && (s'.commands[c].Replied? || (InService(s', c) && ServiceLeft(s', c) < ServiceLeft(s, c)))
  {
    if s.pc.Respond? || (s.pc.Recheck? && !s.lifecycle.Open?) {
      AnsweredCommandGetsOn(s, direct, outcome, c);
    } else {
      ExecutingMovesNothing(s, direct, false, outcome);
      CommandGetsShorter(s, direct, outcome);
    }
  }

  lemma QueuedCommandGetsOn(s: State, c: nat)
    requires CommandsAccounted(s) && Held(s.pc).None? && InService(s, c)
    ensures var s' := LoopStep(s);
            && c < |s'.commands|
            && (s'.commands[c].Replied? || (InService(s', c) && ServiceLeft(s', c) < ServiceLeft(s, c)))
  {
    match s.pc
    case CheckOpen =>
    case Receive =>
    case Drain =>
  }

  /** Whatever the port answers, a command in service is answered after thirteen undisturbed actions that repeat no transfer. */
  lemma {:induction false} CommandIsServed(s: State, choices: seq<Choice>, c: nat) returns (n: nat)
    requires Inv(s) && InService(s, c) && ServiceLeft(s, c) <= |choices|
    requires forall k :: 0 <= k < |choices| ==> !choices[k].again
    ensures n <= |choices| && c < |Alone(s, choices[..n]).commands| && Alone(s, choices[..n]).commands[c].Replied?
    decreases |choices|
  {
    var x := choices[0];
    var s' := WorkStep(s, x.direct, x.again, x.outcome);
    if Held(s.pc).Some? { HeldCommandGetsOn(s, x.direct, x.outcome, c); } else { QueuedCommandGetsOn(s, c); }
    if s'.commands[c].Replied? {
      n := 1;
      assert choices[..1][1..] == [];
    } else {
      InvariantStep(s, Work(x.direct, x.again, x.outcome));
      n := CommandIsServed(s', choices[1..], c);
      n := n + 1;
      assert choices[..n][1..] == choices[1..][..n - 1];
    }
  }
}
