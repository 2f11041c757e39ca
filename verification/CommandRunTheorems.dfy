/** What holds of every run of the command protocol, for all interleavings. */
module CommandRunTheorems {
  import opened Wrappers
  import opened CommandRun
  import opened CommandRunInvariant

  /** Some sequence of runner and caller steps leads here from a freshly queued run. */
  ghost predicate Reachable(s: State) {
    exists policy: RetryPolicy, hasTimeout, events ::
      policy.Valid() && After(Init(policy, hasTimeout), events) == Some(s)
  }

  lemma StepKeepsInv(s: State, e: Event, t: State)
    requires Inv(s) && Step(s, e) == Some(t)
    ensures Inv(t)
  {
    match e {
      case RunnerDoes(run) => RunnerKeepsInv(s, run, t);
      case CallerDoes(c, call) => CallerKeepsInv(s, c, call, t);
    }
  }

  lemma {:induction false} RunKeepsInv(s: State, events: seq<Event>, t: State)
    requires Inv(s) && After(s, events) == Some(t)
    ensures Inv(t)
    decreases |events|
  {
    if events != [] {
      var next := Step(s, events[0]).value;
      StepKeepsInv(s, events[0], next);
      hide Inv;
      RunKeepsInv(next, events[1..], t);
    }
  }

  lemma ReachableInv(s: State)
    requires Reachable(s)
    ensures Inv(s)
  {
    var policy: RetryPolicy, hasTimeout, events :| policy.Valid() && After(Init(policy, hasTimeout), events) == Some(s);
    InitInv(policy, hasTimeout);
    hide Inv;
    RunKeepsInv(Init(policy, hasTimeout), events, s);
  }

  // ---------------------------------------------------- answered cancels

  /** The execution was cancelled and its shells are all gone. */
  predicate Stopped(s: State, spawned: seq<Attempt>) {
    && Cancelling(s.runner)
    && s.runner.Spawned() == spawned
    && (Terminal(s.row.status) ==> s.row.status.Cancelled?)
    && (s.runner.at.Done? ==> s.row.status.Cancelled?)
  }

  lemma StoppedStep(s: State, e: Event, t: State)
    requires Inv(s) && Stopped(s, s.runner.Spawned()) && Step(s, e) == Some(t)
    ensures Stopped(t, s.runner.Spawned())
  {
    assert !Active(s.runner.at);
    StepKeepsInv(s, e, t);
    hide Launch, WaitForChild, Conclude, TakePending, InvAttempts, InvFlag, InvChannel, CallerStep;
    match e {
      case RunnerDoes(run) =>
      case CallerDoes(c, call) => CallerKeepsRunner(s, c, call, t);
    }
  }

  lemma {:induction false} StoppedRun(s: State, events: seq<Event>, t: State)
    requires Inv(s) && Stopped(s, s.runner.Spawned()) && After(s, events) == Some(t)
    ensures Inv(t) && Stopped(t, s.runner.Spawned())
    decreases |events|
  {
    if events != [] {
      var next := Step(s, events[0]).value;
      StepKeepsInv(s, events[0], next);
      StoppedStep(s, events[0], next);
      hide Inv;
      StoppedRun(next, events[1..], t);
    }
  }

  /**
   Once the runner has answered a cancel request, every shell it spawned is
   reaped, whatever happens next no attempt is spawned, and the row ends cancelled.
   */
  lemma AnsweredCancelIsFinal(s: State, c: int, events: seq<Event>, t: State)
    requires Reachable(s) && c in s.shared.answered && After(s, events) == Some(t)
    ensures forall a :: a in s.runner.Spawned() ==> !a.shell.Alive?
    ensures t.runner.Spawned() == s.runner.Spawned()
    ensures t.runner.result == Some(CancelRequested)
    ensures Terminal(t.row.status) || t.runner.at.Done? ==> t.row.status.Cancelled?
  {
    ReachableInv(s);
    assert Cancelling(s.runner);
    StoppedRun(s, events, t);
  }

  // -------------------------------------------------------------- status

  predicate Moves(from: Status, to: Status) {
    || to == from
    || (from.Queued? && (to.Running? || to.Cancelled?))
    || (from.Running? && Terminal(to))
  }

  lemma LaunchMoves(s: State, e: RunnerEvent, t: State)
    requires InvRow(s.runner, s.row) && InvResult(s.runner)
    requires if Launching(s.runner.at) then Launch(s, e) == Some(t) else Finishing(s.runner.at) && Finish(s) == Some(t)
    ensures Moves(s.row.status, t.row.status)
  {
  }

  lemma OtherStepsKeepRow(s: State, e: RunnerEvent, t: State)
    requires RunnerStep(s, e) == Some(t) && !Launching(s.runner.at) && !Finishing(s.runner.at)
    ensures t.row == s.row
  {
    hide Terminate, Onward;
  }

  lemma CallerMoves(s: State, c: int, e: CallerEvent, t: State)
    requires InvControl(s) && CallerStep(s, c, e) == Some(t)
    ensures Moves(s.row.status, t.row.status)
  {
    if c in s.callers { assert CallerFits(s.runner, s.row, s.shared, c, s.callers[c]); }
  }

  lemma StepMoves(s: State, e: Event, t: State)
    requires Inv(s) && Step(s, e) == Some(t)
    ensures Moves(s.row.status, t.row.status)
  {
    assert InvRow(s.runner, s.row) && InvResult(s.runner);
    hide InvControl, InvAttempts, InvRow, InvResult, Launch, WaitForChild, Conclude, TakePending, Finish, CleanUp, CallerStep;
    match e {
      case RunnerDoes(run) =>
        if Launching(s.runner.at) || Finishing(s.runner.at) {
          LaunchMoves(s, run, t);
        } else {
          OtherStepsKeepRow(s, run, t);
        }
      case CallerDoes(c, call) => CallerMoves(s, c, call, t);
    }
  }

  /** A status only moves forward, and a terminal status never changes. */
  lemma StatusMovesForward(s: State, e: Event, t: State)
    requires Reachable(s) && Step(s, e) == Some(t)
    ensures Moves(s.row.status, t.row.status)
  {
    ReachableInv(s);
    hide Inv;
    StepMoves(s, e, t);
  }

  lemma {:induction false} TerminalRun(s: State, events: seq<Event>, t: State)
    requires Inv(s) && Terminal(s.row.status) && After(s, events) == Some(t)
    ensures t.row.status == s.row.status
    decreases |events|
  {
    if events != [] {
      var next := Step(s, events[0]).value;
      StepKeepsInv(s, events[0], next);
      StepMoves(s, events[0], next);
      hide Inv;
      TerminalRun(next, events[1..], t);
    }
  }

  /** Late and duplicate cancels included: what was final stays. */
  lemma TerminalStatusStays(s: State, events: seq<Event>, t: State)
    requires Reachable(s) && Terminal(s.row.status) && After(s, events) == Some(t)
    ensures t.row.status == s.row.status
  {
    ReachableInv(s);
    TerminalRun(s, events, t);
  }

  /** The row says what the execution came to: the exit status of its last shell, a timeout or a failed spawn. */
  predicate Tells(row: Row, spawned: seq<Attempt>, outcome: Outcome) {
    match outcome
    case Exited(code) =>
      && spawned != [] && spawned[|spawned| - 1].shell == ExitedWith(code) && row.exitCode == code
      && (row.status.Cancelled? || row.status == if code == Some(0) then Success else Failed)
    case TimedOut =>
      && spawned != [] && !spawned[|spawned| - 1].shell.Alive? && row.exitCode.None?
      && (row.status.Cancelled? || row.status.Failed?)
    case SpawnError => row.exitCode.None? && (row.status.Cancelled? || row.status.Failed?)
    case CancelRequested => row.exitCode.None? && row.status.Cancelled?
  }

  /** The final row tells what the execution came to, unless a cancel overrode its status. */
  lemma FinalStatus(s: State)
    requires Reachable(s) && s.runner.at.Done?
    ensures s.runner.result.Some? && Tells(s.row, s.runner.Spawned(), s.runner.result.value)
  {
    ReachableInv(s);
  }

  // ------------------------------------------------------------- replies

  /**
   A status returned by `cancel_run` is the row's final status. No request is
   lost while the run is still live, and "no active process" is only ever said
   of a run whose shell could not be spawned.
   */
  lemma RepliesAreTrue(s: State, c: int, reply: Reply, events: seq<Event>, t: State)
    requires Reachable(s) && c in s.callers && s.callers[c] == Returned(reply) && After(s, events) == Some(t)
    ensures reply.Replied? ==> Terminal(reply.status) && t.row.status == reply.status
    ensures !reply.RequestLost?
    ensures reply.NoActiveProcess? ==> s.runner.result == Some(SpawnError)
  {
    ReachableInv(s);
    assert CallerFits(s.runner, s.row, s.shared, c, s.callers[c]);
    if reply.Replied? {
      TerminalRun(s, events, t);
    }
  }

  ghost predicate AllReturned(s: State) {
    forall c :: c in s.callers ==> s.callers[c].Returned?
  }

  lemma OwnersReturn(s: State)
    requires InvFlag(s) && s.runner.at.Done? && AllReturned(s)
    ensures !s.shared.flag && !s.shared.sender.Held?
  {
  }

  /** Once the runner is done and every cancel has returned, the run is in neither registry. */
  lemma RegistriesEmptyAtRest(s: State)
    requires Reachable(s) && s.runner.at.Done? && AllReturned(s)
    ensures !s.shared.flag && !s.shared.sender.InRegistry? && !s.shared.sender.Held?
  {
    ReachableInv(s);
    OwnersReturn(s);
  }

  // ------------------------------------------------------------ blocking

  predicate Enabled(s: State, e: RunnerEvent) {
    RunnerStep(s, e).Some?
  }

  /** The runner waits for a request that is not in the channel yet. */
  predicate Blocked(s: State) {
    s.runner.at.AwaitRequest? && s.shared.mailbox.Empty?
  }

  /** The two or one steps left to a caller that has entered the run in the cancelled set. */
  function Delivery(s: State, c: int): seq<Event>
    requires c in s.callers
  {
    if s.callers[c].Marked? then [CallerDoes(c, Advance), CallerDoes(c, Advance)] else [CallerDoes(c, Advance)]
  }

  /** A runner that is not done can step, unless it is blocked. */
  lemma RunnerProgress(s: State)
    requires Reachable(s) && !s.runner.at.Done? && !Blocked(s)
    ensures exists e :: Enabled(s, e)
  {
    ReachableInv(s);
    var e := if s.runner.at.WaitShell? then ShellExits(None) else Proceed;
    assert Enabled(s, e);
  }

  /** A blocked runner has a caller that set the flag and whose next steps deliver the request. */
  lemma BlockedBehindSender(s: State) returns (c: int)
    requires Reachable(s) && Blocked(s)
    ensures c in s.callers && (s.callers[c].Marked? || s.callers[c].Holding?)
    ensures After(s, Delivery(s, c)).Some?
    ensures
      var t := After(s, Delivery(s, c)).value;
      t.shared.mailbox == Full(c) && t.runner == s.runner && Enabled(t, Proceed)
  {
    ReachableInv(s);
    c := if s.shared.sender.Held? then s.shared.sender.caller else s.shared.marker.caller;
    var first := Step(s, CallerDoes(c, Advance)).value;
    if s.callers[c].Marked? {
      assert Delivery(s, c)[1..] == [CallerDoes(c, Advance)];
      assert After(first, [CallerDoes(c, Advance)]) == Step(first, CallerDoes(c, Advance));
    } else {
      assert Delivery(s, c)[1..] == [];
    }
  }

  // ------------------------------------------------------------- retries

  /** At most one attempt when retries are off, and one more than the allowed retries otherwise. */
  function AttemptLimit(policy: RetryPolicy): int {
    if policy.enabled then policy.maxRetries + 1 else 1
  }

  /**
   Every attempt but the last failed and had its process group killed before the
   next was spawned. The stored count is the number spawned, or one more when the
   last one was cancelled or failed before spawning.
   */
  lemma RetriesAreBounded(s: State)
    requires Reachable(s)
    ensures |s.runner.Spawned()| <= AttemptLimit(s.policy) <= 11
    ensures forall k :: 0 <= k < |s.runner.Spawned()| - 1 ==> FailedCleanly(s.runner.Spawned()[k])
    ensures s.runner.result.Some? ==>
              || s.row.attemptCount == |s.runner.Spawned()|
              || (s.row.attemptCount == |s.runner.Spawned()| + 1
                  && (s.runner.result.value.CancelRequested? || s.runner.result.value.SpawnError?))
  {
    ReachableInv(s);
    assert forall k :: 0 <= k < |s.runner.past| ==> s.runner.Spawned()[k] == s.runner.past[k];
  }

  lemma OnlySpawnSpawns(s: State, e: RunnerEvent, t: State)
    requires RunnerStep(s, e) == Some(t) && !s.runner.at.Spawn?
    requires AwaitingShell(s.runner.at) ==> s.runner.current.Some?
    ensures |t.runner.Spawned()| == |s.runner.Spawned()|
  {
    if Launching(s.runner.at) {
    } else if AwaitingShell(s.runner.at) {
    } else if Concluding(s.runner.at) {
    } else {
      assert t.runner.past == s.runner.past && t.runner.current == s.runner.current;
    }
  }

  /** A new shell is only spawned when every earlier one failed and its group is gone. */
  lemma SpawnsOnlyAfterFailure(s: State, e: RunnerEvent, t: State)
    requires Reachable(s) && RunnerStep(s, e) == Some(t) && |t.runner.Spawned()| > |s.runner.Spawned()|
    ensures t.runner.Spawned() == s.runner.Spawned() + [Attempt(Alive, false)]
    ensures forall a :: a in s.runner.Spawned() ==> FailedCleanly(a)
    ensures t.row.attemptCount == |t.runner.Spawned()|
  {
    ReachableInv(s);
    if !s.runner.at.Spawn? {
      assert AwaitingShell(s.runner.at) ==> s.runner.current.Some?;
      hide Inv;
      OnlySpawnSpawns(s, e, t);
    }
  }

  function SiteRank(site: Site): nat {
    match site
    case BeforeRunning => 27
    case LoopTop => 23
    case BeforeSpawn => 19
    case AfterAttempt(_) => 10
  }

  function PointRank(p: Point): nat {
    match p
    case TryReceive(site) => SiteRank(site) + 2
    case CheckFlag(site, _) => SiteRank(site) + 1
    case AwaitRequest(site) => SiteRank(site)
    case MarkRunning => 26
    case SetAttempt => 22
    case Spawn => 18
    case WaitShell => 17
    case KillGroup => 16
    case Drain => 15
    case KillForTimeout => 14
    case KillForCancel(_) => 13
    case Decide(_) => 9
    case RetryDelay => 8
    case ClearAfterError => 7
    case ReadRow => 6
    case CheckFinish(_) => 5
    case WriteRow(_) => 4
    case DropCanceller => 3
    case ClearFlag => 2
    case DropReceiver => 1
    case Done => 0
  }

  /** How many steps the runner can still take. */
  function Rank(s: State): int {
    18 * (s.policy.maxRetries + 1 - s.runner.attempt) + PointRank(s.runner.at)
  }

  lemma TakeDescends(s: State, t: State)
    requires Taking(s.runner.at) && TakePending(s) == Some(t)
    ensures Rank(t) < Rank(s)
  {
  }

  lemma LaunchDescends(s: State, e: RunnerEvent, t: State)
    requires Launching(s.runner.at) && Launch(s, e) == Some(t)
    ensures Rank(t) < Rank(s)
  {
  }

  lemma WaitDescends(s: State, e: RunnerEvent, t: State)
    requires AwaitingShell(s.runner.at) && WaitForChild(s, e) == Some(t)
    ensures Rank(t) < Rank(s)
  {
  }

  lemma ConcludeDescends(s: State, e: RunnerEvent, t: State)
    requires Concluding(s.runner.at) && Conclude(s, e) == Some(t)
    ensures Rank(t) < Rank(s)
  {
  }

  lemma EndDescends(s: State, t: State)
    requires (Finishing(s.runner.at) && Finish(s) == Some(t)) || (Written(s.runner.at) && CleanUp(s) == Some(t))
    ensures Rank(t) < Rank(s)
  {
    assert PointRank(t.runner.at) < PointRank(s.runner.at);
  }

  lemma RunnerStepDescends(s: State, e: RunnerEvent, t: State)
    requires RunnerStep(s, e) == Some(t)
    ensures Rank(t) < Rank(s)
  {
    hide Rank, Launch, WaitForChild, Conclude, TakePending, Finish, CleanUp;
    if Launching(s.runner.at) {
      LaunchDescends(s, e, t);
    } else if AwaitingShell(s.runner.at) {
      WaitDescends(s, e, t);
    } else if Concluding(s.runner.at) {
      ConcludeDescends(s, e, t);
    } else if Taking(s.runner.at) {
      TakeDescends(s, t);
    } else {
      EndDescends(s, t);
    }
  }

  function RunnerSteps(events: seq<Event>): nat {
    if events == [] then 0
    else (if events[0].RunnerDoes? then 1 else 0) + RunnerSteps(events[1..])
  }

  lemma {:induction false} RunnerStepsWithinRank(s: State, events: seq<Event>, t: State)
    requires After(s, events) == Some(t)
    ensures RunnerSteps(events) + Rank(t) <= Rank(s)
    decreases |events|
  {
    if events != [] {
      var next := Step(s, events[0]).value;
      if events[0].RunnerDoes? {
        RunnerStepDescends(s, events[0].run, next);
      } else {
        assert next.runner == s.runner && next.policy == s.policy;
      }
      hide Rank;
      RunnerStepsWithinRank(next, events[1..], t);
    }
  }

  /** The runner terminates: in no interleaving does it take more steps than this. */
  lemma RunnerTerminates(policy: RetryPolicy, hasTimeout: bool, events: seq<Event>)
    requires policy.Valid() && After(Init(policy, hasTimeout), events).Some?
    ensures RunnerSteps(events) <= 18 * policy.maxRetries + 29 <= 209
  {
    var s := Init(policy, hasTimeout);
    var t := After(s, events).value;
    InitInv(policy, hasTimeout);
    RunnerStepsWithinRank(s, events, t);
    RunKeepsInv(s, events, t);
  }

  // -------------------------------------------------------- marked runs

  /** The runner has not yet looked at the flag for the last time. */
  predicate Undecided(p: Point) {
    Active(p) || p.ClearAfterError? || p.ReadRow? || p.CheckFinish?
  }

  /**
   A caller is about to clear a mark in passing: it found no sender, or will find
   none, because the sender is gone or another caller takes it first.
   */
  ghost predicate ClearerUnderWay(s: State) {
    || (exists c :: c in s.callers && s.callers[c].NoSender?)
    || (exists c :: c in s.callers && s.callers[c].Marked? && !s.shared.sender.InRegistry?)
    || (exists c, d :: c in s.callers && d in s.callers && c != d && s.callers[c].Marked? && s.callers[d].Marked?)
  }

  /**
   The states in which a mark can still be lost: the spawn has failed, the runner
   has looked for a cancel after it, and its own clearing of the mark is ahead, or
   is past while a caller's is ahead.
   */
  ghost predicate MayBeLost(s: State) {
    || s.runner.at == Decide(SpawnError)
    || s.runner.at.ClearAfterError?
    || (s.runner.result == Some(SpawnError) && ClearerUnderWay(s))
  }

  /** The run is bound to end cancelled. */
  ghost predicate Doomed(s: State) {
    || (Undecided(s.runner.at) && s.shared.flag && !MayBeLost(s))
    || (s.runner.at.WriteRow? && s.runner.at.status.Cancelled?)
    || (Written(s.runner.at) && s.row.status.Cancelled?)
  }

  lemma DoomedRunnerStep(s: State, e: RunnerEvent, t: State)
    requires InvControl(s) && Doomed(s) && RunnerStep(s, e) == Some(t)
    ensures Doomed(t)
  {
    hide InvCallers, InvRow, InvFlag;
    if Active(s.runner.at) {
      ActiveStepKeepsMark(s, e, t);
    } else {
      assert t.callers == s.callers;
    }
  }

  lemma ActiveStepKeepsMark(s: State, e: RunnerEvent, t: State)
    requires Active(s.runner.at) && s.runner.at != Decide(SpawnError) && s.shared.flag && RunnerStep(s, e) == Some(t)
    requires InvResult(s.runner)
    ensures Undecided(t.runner.at) && t.shared.flag && t.runner.at != Decide(SpawnError) && !t.runner.at.ClearAfterError?
    ensures t.runner.result != Some(SpawnError)
  {
    if Launching(s.runner.at) {
    } else if AwaitingShell(s.runner.at) {
    } else if Concluding(s.runner.at) {
    } else {
    }
  }

  lemma DoomedCallerStep(s: State, c: int, e: CallerEvent, t: State)
    requires InvControl(s) && Doomed(s) && CallerStep(s, c, e) == Some(t)
    ensures Doomed(t)
  {
    CallerKeepsRunner(s, c, e, t);
    if c in s.callers {
      assert CallerFits(s.runner, s.row, s.shared, c, s.callers[c]);
    }
  }

  lemma {:induction false} DoomedRun(s: State, events: seq<Event>, t: State)
    requires Inv(s) && Doomed(s) && After(s, events) == Some(t)
    ensures Doomed(t)
    decreases |events|
  {
    if events != [] {
      var next := Step(s, events[0]).value;
      StepKeepsInv(s, events[0], next);
      hide Doomed, RunnerStep, CallerStep;
      match events[0] {
        case RunnerDoes(run) => DoomedRunnerStep(s, run, next);
        case CallerDoes(c, call) => DoomedCallerStep(s, c, call, next);
      }
      hide Inv;
      DoomedRun(next, events[1..], t);
    }
  }

  lemma {:induction false} Extend(s: State, events: seq<Event>, m: State, e: Event) returns (longer: seq<Event>, t: State)
    requires After(s, events) == Some(m) && Step(m, e).Some?
    ensures t == Step(m, e).value && longer == events + [e] && After(s, longer) == Some(t)
    decreases |events|
  {
    longer, t := events + [e], Step(m, e).value;
    if events == [] {
      assert longer[1..] == [];
    } else {
      var tail, _ := Extend(Step(s, events[0]).value, events[1..], m, e);
      assert longer[1..] == tail;
    }
  }

  lemma ProceedTwice(s: State, events: seq<Event>, m: State) returns (longer: seq<Event>, t: State)
    requires After(s, events) == Some(m) && RunnerStep(m, Proceed).Some?
    requires RunnerStep(RunnerStep(m, Proceed).value, Proceed).Some?
    ensures t == RunnerStep(RunnerStep(m, Proceed).value, Proceed).value && After(s, longer) == Some(t)
  {
    hide After, RunnerStep;
    longer, t := Extend(s, events, m, RunnerDoes(Proceed));
    longer, t := Extend(s, longer, t, RunnerDoes(Proceed));
  }

  function At(policy: RetryPolicy, hasTimeout: bool, p: Point, row: Row): State {
    Init(policy, hasTimeout).(runner := Runner(p, 1, [], None, None), row := row)
  }

  lemma UntilFirstAttempt(policy: RetryPolicy, hasTimeout: bool) returns (events: seq<Event>)
    ensures After(Init(policy, hasTimeout), events) == Some(At(policy, hasTimeout, SetAttempt, Row(Running, 0, None)))
  {
    var start := Init(policy, hasTimeout);
    var s;
    events, s := ProceedTwice(start, [], start);
    hide After;
    events, s := Extend(start, events, s, RunnerDoes(Proceed));
    events, s := ProceedTwice(start, events, s);
  }

  /** The spawn has failed and the runner has seen no cancel. */
  lemma UntilSpawnError(policy: RetryPolicy, hasTimeout: bool) returns (events: seq<Event>)
    ensures After(Init(policy, hasTimeout), events) == Some(At(policy, hasTimeout, Decide(SpawnError), Row(Running, 1, None)))
  {
    var start := Init(policy, hasTimeout);
    var s := At(policy, hasTimeout, SetAttempt, Row(Running, 0, None));
    events := UntilFirstAttempt(policy, hasTimeout);
    hide After;
    events, s := Extend(start, events, s, RunnerDoes(Proceed));
    events, s := ProceedTwice(start, events, s);
    events, s := Extend(start, events, s, RunnerDoes(SpawnFails));
    events, s := ProceedTwice(start, events, s);
  }

  lemma Prepend(s: State, e: Event, events: seq<Event>)
    requires Step(s, e).Some?
    ensures After(s, [e] + events) == After(Step(s, e).value, events)
  {
    assert ([e] + events)[1..] == events;
  }

  /** The spawn has failed and nothing marks the run: left alone, the runner records a failure. */
  predicate Losing(s: State) {
    if Written(s.runner.at) then s.row.status.Failed?
    else if s.runner.at == Decide(SpawnError) then s.row.status.Running?
    else
      && s.runner.result == Some(SpawnError)
      && match s.runner.at
         case ClearAfterError => s.row.status.Running?
         case ReadRow => s.row.status.Running? && !s.shared.flag
         case CheckFinish(rowCancelled) => !rowCancelled && !s.shared.flag
         case WriteRow(status) => status.Failed?
         case _ => false
  }

  lemma LoseStep(s: State)
    requires Losing(s) && !s.runner.at.Done?
    ensures RunnerStep(s, Proceed).Some? && Losing(RunnerStep(s, Proceed).value)
  {
  }

  lemma {:induction false} LoseRun(s: State) returns (events: seq<Event>)
    requires Losing(s)
    ensures After(s, events).Some?
    ensures After(s, events).value.runner.at.Done? && After(s, events).value.row.status.Failed?
    decreases PointRank(s.runner.at)
  {
    if s.runner.at.Done? {
      events := [];
    } else {
      LoseStep(s);
      LosingDescends(s);
      hide Losing, RunnerStep;
      var t := RunnerStep(s, Proceed).value;
      events := LoseRun(t);
      Prepend(s, RunnerDoes(Proceed), events);
      events := [RunnerDoes(Proceed)] + events;
    }
  }

  lemma LosingDescends(s: State)
    requires Losing(s) && RunnerStep(s, Proceed).Some?
    ensures PointRank(RunnerStep(s, Proceed).value.runner.at) < PointRank(s.runner.at)
  {
  }

  /** The steps of callers that clear the mark. */
  lemma ClearMark(s: State) returns (events: seq<Event>, t: State)
    requires ClearerUnderWay(s)
    ensures After(s, events) == Some(t) && t.runner == s.runner && t.row == s.row && !t.shared.flag
  {
    if c :| c in s.callers && s.callers[c].NoSender? {
      events, t := Extend(s, [], s, CallerDoes(c, Advance));
    } else if c :| c in s.callers && s.callers[c].Marked? && !s.shared.sender.InRegistry? {
      events, t := ClearWithoutSender(s, [], s, c);
    } else {
      var c, d :| c in s.callers && d in s.callers && c != d && s.callers[c].Marked? && s.callers[d].Marked?;
      var m;
      events, m := Extend(s, [], s, CallerDoes(c, Advance));
      hide After;
      events, t := ClearWithoutSender(s, events, m, d);
    }
  }

  lemma ClearWithoutSender(s: State, before: seq<Event>, m: State, c: int) returns (events: seq<Event>, t: State)
    requires After(s, before) == Some(m)
    requires c in m.callers && m.callers[c].Marked? && !m.shared.sender.InRegistry?
    ensures After(s, events) == Some(t) && t.runner == m.runner && t.row == m.row && !t.shared.flag
  {
    hide After, RunnerStep;
    events, t := Extend(s, before, m, CallerDoes(c, Advance));
    events, t := Extend(s, events, t, CallerDoes(c, Advance));
  }

  lemma {:induction false} AfterConcat(s: State, a: seq<Event>, b: seq<Event>, m: State)
    requires After(s, a) == Some(m)
    ensures After(s, a + b) == After(m, b)
    decreases |a|
  {
    if a == [] {
      assert a + b == b;
    } else {
      AfterConcat(Step(s, a[0]).value, a[1..], b, m);
      assert (a + b)[1..] == a[1..] + b;
    }
  }

  lemma LoseMark(s: State) returns (events: seq<Event>)
    requires Inv(s) && Undecided(s.runner.at) && MayBeLost(s)
    ensures !EndsCancelled(s, events)
  {
    if s.runner.at == Decide(SpawnError) || s.runner.at.ClearAfterError? {
      events := LoseRun(s);
    } else {
      var m;
      events, m := ClearMark(s);
      assert Losing(m);
      hide Losing, After;
      var rest := LoseRun(m);
      AfterConcat(s, events, rest, m);
      events := events + rest;
    }
  }

  /** If these steps end the run, it ends cancelled. */
  ghost predicate EndsCancelled(s: State, events: seq<Event>) {
    After(s, events).Some? && After(s, events).value.runner.at.Done? ==> After(s, events).value.row.status.Cancelled?
  }

  /**
   Entering the run in the cancelled set before the runner's last look makes it end
   cancelled in every continuation, even if the caller times out or the shell exits
   first, exactly when the mark is not set where it may be lost.
   */
  lemma MarkedRunEndsCancelled(s: State)
    requires Reachable(s) && s.shared.flag && Undecided(s.runner.at)
    ensures (forall events :: EndsCancelled(s, events)) <==> !MayBeLost(s)
  {
    ReachableInv(s);
    if MayBeLost(s) {
      var events := LoseMark(s);
    } else {
      forall events ensures EndsCancelled(s, events) {
        if After(s, events).Some? { DoomedRun(s, events, After(s, events).value); }
      }
    }
  }

  /** Before the spawn fails, or while the runner still looks for a cancel after it, no mark can be lost. */
  lemma EarlyMarkIsKept(s: State)
    requires Reachable(s) && Active(s.runner.at) && s.runner.at != Decide(SpawnError)
    ensures !MayBeLost(s)
  {
    ReachableInv(s);
  }

  /**
   Such states are reached: the runner clears the mark after a failed spawn, so a
   cancel request that marked the run just before is overtaken and the run ends failed.
   */
  lemma MarkLostToSpawnError(policy: RetryPolicy, hasTimeout: bool)
    returns (before: seq<Event>, s: State, after: seq<Event>, t: State)
    ensures After(Init(policy, hasTimeout), before) == Some(s) && s.shared.flag && Undecided(s.runner.at)
    ensures After(s, after) == Some(t) && t.runner.at.Done? && t.row.status.Failed?
  {
    var start := Init(policy, hasTimeout);
    before := UntilSpawnError(policy, hasTimeout);
    hide After;
    s := At(policy, hasTimeout, Decide(SpawnError), Row(Running, 1, None));
    before, s := Extend(start, before, s, CallerDoes(0, Advance));
    before, s := Extend(start, before, s, CallerDoes(0, Advance));
    hide RunnerStep;
    after := LoseRun(s);
    t := After(s, after).value;
  }
}
