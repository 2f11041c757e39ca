/**
 One command run: the runner task that executes it and any number of
 concurrent cancel requests. A step is one lock section, one await or one
 database statement, so every interleaving of the tasks is a sequence of steps.
 Killing, waiting and database statements succeed; spawning may fail.
 */
module CommandRun {
  import opened Wrappers

  datatype Status = Queued | Running | Success | Failed | Cancelled

  predicate Terminal(status: Status) {
    status.Success? || status.Failed? || status.Cancelled?
  }

  /** What one attempt, and finally the whole execution, came to. `Exited(None)` is death by a signal. */
  datatype Outcome = Exited(code: Option<int>) | TimedOut | CancelRequested | SpawnError

  datatype RetryPolicy = RetryPolicy(enabled: bool, maxRetries: int, delaySeconds: int) {
    predicate Valid() {
      1 <= maxRetries <= 10 && 1 <= delaySeconds <= 3600
    }

    predicate ShouldRetry(outcome: Outcome, attempt: int) {
      enabled && attempt <= maxRetries && outcome.Exited? && outcome.code != Some(0)
    }
  }

  /** A spawned shell. It is reaped as soon as it is no longer `Alive`. */
  datatype Shell = Alive | ExitedWith(code: Option<int>) | Killed

  datatype Attempt = Attempt(shell: Shell, groupKilled: bool)

  datatype Row = Row(status: Status, attemptCount: int, exitCode: Option<int>)

  /** Where `take_pending_cancel` was called from. */
  datatype Site = BeforeRunning | LoopTop | BeforeSpawn | AfterAttempt(outcome: Outcome)

  /** The runner's next step. */
  datatype Point =
    | TryReceive(site: Site)
    | CheckFlag(site: Site, closed: bool)
    | AwaitRequest(site: Site)
    | MarkRunning
    | SetAttempt
    | Spawn
    | WaitShell
    | KillGroup
    | Drain
    | KillForTimeout
    | KillForCancel(request: Option<int>)
    | Decide(outcome: Outcome)
    | RetryDelay
    | ClearAfterError
    | ReadRow
    | CheckFinish(rowCancelled: bool)
    | WriteRow(status: Status)
    | DropCanceller
    | ClearFlag
    | DropReceiver
    | Done

  /**
   The runner task: its next step, the number of the attempt it is at, the earlier
   attempts, this one once its shell is spawned, and what the execution came to.
   */
  datatype Runner = Runner(
    at: Point,
    attempt: int,
    past: seq<Attempt>,
    current: Option<Attempt>,
    result: Option<Outcome>)
  {
    function Spawned(): seq<Attempt> {
      past + if current.Some? then [current.value] else []
    }

    predicate ShellExited() {
      current.Some? && current.value.shell.ExitedWith?
    }
  }

  /** The one-shot sender of the run: in the registry, in a caller's hands, used up, or dropped unused. */
  datatype Sender = InRegistry | Held(caller: int) | Used | Dropped

  /** The receiving end of that channel. */
  datatype Mailbox = Empty | Full(caller: int) | Consumed

  datatype Marker = Nobody | By(caller: int)

  /**
   What the tasks share: the sender and the channel behind it, the run's entry in
   the cancelled set, and the requests answered with Ok or dropped unanswered.
   `marker` is the caller that last entered the run in the cancelled set.
   */
  datatype Shared = Shared(
    sender: Sender,
    mailbox: Mailbox,
    flag: bool,
    marker: Marker,
    answered: set<int>,
    lost: set<int>)
  {
    predicate Closed() {
      mailbox.Consumed? || (mailbox.Empty? && sender.Dropped?)
    }
  }

  datatype Reply = Replied(status: Status) | TimedOutReply | NotConfirmed | RequestLost | NoActiveProcess

  /** A `cancel_run` call: its next step, or its reply. */
  datatype Caller =
    | Checked
    | Marked
    | Holding
    | Sent
    | WriteCancelled
    | NoSender
    | NoSenderRead
    | SendFailed
    | LostClear(seen: Status)
    | Polling
    | Returned(reply: Reply)

  datatype State = State(
    policy: RetryPolicy,
    hasTimeout: bool,
    runner: Runner,
    row: Row,
    shared: Shared,
    callers: map<int, Caller>)

  /** The row was inserted as queued and the canceller registered; the runner task is about to start. */
  function Init(policy: RetryPolicy, hasTimeout: bool): State {
    State(policy, hasTimeout, Runner(TryReceive(BeforeRunning), 1, [], None, None), Row(Queued, 0, None),
          Shared(InRegistry, Empty, false, Nobody, {}, {}), map[])
  }

  // ---------------------------------------------------------------- runner

  /** What the environment contributes to a runner step. */
  datatype RunnerEvent = Proceed | ShellExits(code: Option<int>) | SpawnFails | TimeoutFires | RequestArrives

  predicate Taking(p: Point) {
    p.TryReceive? || p.CheckFlag? || p.AwaitRequest?
  }

  predicate Launching(p: Point) {
    p.MarkRunning? || p.SetAttempt? || p.Spawn?
  }

  predicate AwaitingShell(p: Point) {
    p.WaitShell? || p.KillGroup? || p.Drain?
  }

  predicate Concluding(p: Point) {
    p.KillForTimeout? || p.KillForCancel? || p.Decide? || p.RetryDelay?
  }

  /** The result is known and the row is not written yet. */
  predicate Finishing(p: Point) {
    p.ClearAfterError? || p.ReadRow? || p.CheckFinish? || p.WriteRow?
  }

  /** The final status is in the row. */
  predicate Written(p: Point) {
    p.DropCanceller? || p.ClearFlag? || p.DropReceiver? || p.Done?
  }

  function Goto(s: State, p: Point): State {
    s.(runner := s.runner.(at := p))
  }

  /** `return Ok(Cancelled)`: nothing more is attempted. */
  function Stop(s: State): State {
    s.(runner := s.runner.(at := ReadRow, result := Some(CancelRequested)))
  }

  /** A request is received and its completion answered with Ok. */
  function Answer(s: State, caller: int): State {
    s.(shared := s.shared.(mailbox := Consumed, answered := s.shared.answered + {caller}))
  }

  /** Where the runner goes when `take_pending_cancel` returned false. */
  function Onward(site: Site): Point {
    match site
    case BeforeRunning => MarkRunning
    case LoopTop => SetAttempt
    case BeforeSpawn => Spawn
    case AfterAttempt(outcome) => Decide(outcome)
  }

  function TakePending(s: State): Option<State>
    requires Taking(s.runner.at)
  {
    match s.runner.at
    case TryReceive(site) =>
      if s.shared.mailbox.Full? then Some(Stop(Answer(s, s.shared.mailbox.caller)))
      else Some(Goto(s, CheckFlag(site, s.shared.Closed())))
    case CheckFlag(site, closed) =>
      if !s.shared.flag then Some(Goto(s, Onward(site)))
      else if closed then Some(Stop(s))
      else Some(Goto(s, AwaitRequest(site)))
    case AwaitRequest(_) =>
      if s.shared.mailbox.Full? then Some(Stop(Answer(s, s.shared.mailbox.caller)))
      else if s.shared.Closed() then Some(Stop(s))
      else None
  }

  /** The steps that lead to an attempt. */
  function Launch(s: State, e: RunnerEvent): Option<State>
    requires Launching(s.runner.at)
  {
    match s.runner.at
    case MarkRunning =>
      if e.Proceed? then Some(Goto(s.(row := s.row.(status := Running)), TryReceive(LoopTop))) else None
    case SetAttempt =>
      if e.Proceed? then
        Some(Goto(s.(row := s.row.(attemptCount := s.runner.attempt, exitCode := None)), TryReceive(BeforeSpawn)))
      else None
    case Spawn =>
      if e.Proceed? then
        Some(s.(runner := s.runner.(at := WaitShell, current := Some(Attempt(Alive, false)))))
      else if e.SpawnFails? then Some(Goto(s, TryReceive(AfterAttempt(SpawnError))))
      else None
  }

  /** `terminate_process_tree`: the process group is killed and the shell is reaped. */
  function Terminate(current: Option<Attempt>): Option<Attempt> {
    match current
    case Some(Attempt(shell, _)) => Some(Attempt(if shell.Alive? then Killed else shell, true))
    case None => None
  }

  /** The `select!` of `wait_for_child`: the shell's own end, the timeout or a cancel request. */
  function WaitForChild(s: State, e: RunnerEvent): Option<State>
    requires AwaitingShell(s.runner.at)
  {
    match e
    case TimeoutFires =>
      if s.hasTimeout then Some(Goto(s, KillForTimeout)) else None
    case RequestArrives =>
      if s.shared.mailbox.Full? then
        Some(Goto(s.(shared := s.shared.(mailbox := Consumed)), KillForCancel(Some(s.shared.mailbox.caller))))
      else if s.shared.Closed() then Some(Goto(s, KillForCancel(None)))
      else None
    case ShellExits(code) =>
      if s.runner.at.WaitShell? then
        Some(s.(runner := s.runner.(
                at := if code == Some(0) then Drain else KillGroup,
                current := Some(Attempt(ExitedWith(code), false)))))
      else None
    case Proceed =>
      if s.runner.at.KillGroup? then
        Some(s.(runner := s.runner.(at := Drain, current := Terminate(s.runner.current))))
      else if s.runner.at.Drain? && s.runner.ShellExited() then
        Some(Goto(s, TryReceive(AfterAttempt(Exited(s.runner.current.value.shell.code)))))
      else None
    case SpawnFails => None
  }

  /** The steps after an attempt was interrupted or judged. */
  function Conclude(s: State, e: RunnerEvent): Option<State>
    requires Concluding(s.runner.at)
  {
    match s.runner.at
    case KillForTimeout =>
      if e.Proceed? then
        Some(s.(runner := s.runner.(at := TryReceive(AfterAttempt(TimedOut)), current := Terminate(s.runner.current))))
      else None
    case KillForCancel(request) =>
      if e.Proceed? then
        var killed := s.(runner := s.runner.(current := Terminate(s.runner.current)));
        Some(Stop(if request.Some? then Answer(killed, request.value) else killed))
      else None
    case Decide(outcome) =>
      if !e.Proceed? then None
      else if s.policy.ShouldRetry(outcome, s.runner.attempt) then Some(Goto(s, RetryDelay))
      else
        Some(s.(runner := s.runner.(at := if outcome.SpawnError? then ClearAfterError else ReadRow,
                                    result := Some(outcome))))
    case RetryDelay =>
      if e.Proceed? then
        Some(s.(runner := s.runner.(at := TryReceive(LoopTop), attempt := s.runner.attempt + 1,
                                    past := s.runner.Spawned(), current := None)))
      else if e.RequestArrives? && s.shared.mailbox.Full? then Some(Stop(Answer(s, s.shared.mailbox.caller)))
      else if e.RequestArrives? && s.shared.Closed() then Some(Stop(s))
      else None
  }

  function Verdict(outcome: Outcome): Status {
    match outcome
    case Exited(code) => if code == Some(0) then Success else Failed
    case CancelRequested => Cancelled
    case TimedOut => Failed
    case SpawnError => Failed
  }

  function CodeOf(outcome: Outcome): Option<int> {
    if outcome.Exited? then outcome.code else None
  }

  /** `finish_run_with_status` and the write of `finish_run`. */
  function Finish(s: State): Option<State>
    requires Finishing(s.runner.at)
  {
    match s.runner.at
    case ClearAfterError => Some(Goto(s.(shared := s.shared.(flag := false)), ReadRow))
    case ReadRow => Some(Goto(s, CheckFinish(s.row.status.Cancelled?)))
    case CheckFinish(rowCancelled) =>
      if s.runner.result.None? then None
      else Some(Goto(s, WriteRow(if s.shared.flag || rowCancelled then Cancelled else Verdict(s.runner.result.value))))
    case WriteRow(status) =>
      if s.runner.result.None? then None
      else Some(Goto(s.(row := s.row.(status := status, exitCode := CodeOf(s.runner.result.value))), DropCanceller))
  }

  /** The registries are cleaned up and the task ends, dropping its receiver. */
  function CleanUp(s: State): Option<State>
    requires Written(s.runner.at)
  {
    match s.runner.at
    case DropCanceller =>
      Some(Goto(s.(shared := s.shared.(sender := if s.shared.sender.InRegistry? then Dropped else s.shared.sender)),
                ClearFlag))
    case ClearFlag => Some(Goto(s.(shared := s.shared.(flag := false)), DropReceiver))
    case DropReceiver =>
      var lost := if s.shared.mailbox.Full? then {s.shared.mailbox.caller} else {};
      Some(Goto(s.(shared := s.shared.(mailbox := if s.shared.mailbox.Full? then Consumed else s.shared.mailbox,
                                       lost := s.shared.lost + lost)),
                Done))
    case Done => None
  }

  function RunnerStep(s: State, e: RunnerEvent): Option<State> {
    var p := s.runner.at;
    if Launching(p) then Launch(s, e)
    else if AwaitingShell(p) then WaitForChild(s, e)
    else if Concluding(p) then Conclude(s, e)
    else if !e.Proceed? then None
    else if Taking(p) then TakePending(s)
    else if Finishing(p) then Finish(s)
    else CleanUp(s)
  }

  // --------------------------------------------------------------- callers

  /** `GiveUp` is a five-second timeout. */
  datatype CallerEvent = Advance | GiveUp

  function Move(s: State, c: int, caller: Caller): State {
    s.(callers := s.callers[c := caller])
  }

  function Unflag(s: State): State {
    s.(shared := s.shared.(flag := false))
  }

  /** The first read of the row: a finished run is returned as it is. */
  function Arrive(s: State, c: int): State {
    Move(s, c, if Terminal(s.row.status) then Returned(Replied(s.row.status)) else Checked)
  }

  /** Marking the run cancelled, taking the sender out of the registry and sending the request. */
  function Claim(s: State, c: int): Option<State>
    requires c in s.callers
  {
    match s.callers[c]
    case Checked =>
      if s.shared.flag then Some(Move(s, c, Polling))
      else Some(Move(s.(shared := s.shared.(flag := true, marker := By(c))), c, Marked))
    case Marked =>
      if s.shared.sender.InRegistry? then Some(Move(s.(shared := s.shared.(sender := Held(c))), c, Holding))
      else Some(Move(s, c, NoSender))
    case Holding =>
      if s.runner.at.Done? then Some(Move(s.(shared := s.shared.(sender := Dropped)), c, SendFailed))
      else Some(Move(s.(shared := s.shared.(sender := Used, mailbox := Full(c))), c, Sent))
    case _ => None
  }

  /** What follows the answer, the loss of the request, or the lack of a sender. */
  function Resolve(s: State, c: int): Option<State>
    requires c in s.callers
  {
    match s.callers[c]
    case Sent =>
      if c in s.shared.answered then Some(Move(s, c, WriteCancelled))
      else if c !in s.shared.lost then None
      else if Terminal(s.row.status) then Some(Move(s, c, LostClear(s.row.status)))
      else Some(Move(s, c, Returned(RequestLost)))
    case WriteCancelled =>
      Some(Move(s.(row := s.row.(status := Cancelled)), c, Returned(Replied(Cancelled))))
    case NoSender => Some(Move(Unflag(s), c, NoSenderRead))
    case NoSenderRead =>
      Some(Move(s, c, Returned(if Terminal(s.row.status) then Replied(s.row.status) else NoActiveProcess)))
    case SendFailed => Some(Move(Unflag(s), c, Polling))
    case LostClear(seen) => Some(Move(Unflag(s), c, Returned(Replied(seen))))
    case Polling =>
      if Terminal(s.row.status) then Some(Move(s, c, Returned(Replied(s.row.status)))) else None
    case _ => None
  }

  function Abandon(s: State, c: int): Option<State>
    requires c in s.callers
  {
    match s.callers[c]
    case Sent => Some(Move(s, c, Returned(TimedOutReply)))
    case Polling => Some(Move(s, c, Returned(NotConfirmed)))
    case _ => None
  }

  predicate Claiming(caller: Caller) {
    caller.Checked? || caller.Marked? || caller.Holding?
  }

  function CallerStep(s: State, c: int, e: CallerEvent): Option<State> {
    if c !in s.callers then
      if e.Advance? then Some(Arrive(s, c)) else None
    else if e.GiveUp? then Abandon(s, c)
    else if Claiming(s.callers[c]) then Claim(s, c)
    else Resolve(s, c)
  }

  // ------------------------------------------------------------------ runs

  datatype Event = RunnerDoes(run: RunnerEvent) | CallerDoes(caller: int, call: CallerEvent)

  function Step(s: State, e: Event): Option<State> {
    match e
    case RunnerDoes(run) => RunnerStep(s, run)
    case CallerDoes(c, call) => CallerStep(s, c, call)
  }

  /** The state after a sequence of steps, or None when one of them is not enabled. */
  function After(s: State, events: seq<Event>): Option<State>
    decreases |events|
  {
    if events == [] then Some(s)
    else
      var next := Step(s, events[0]);
      if next.None? then None else After(next.value, events[1..])
  }
}
