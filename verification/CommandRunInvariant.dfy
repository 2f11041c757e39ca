/** What every step of a command run keeps, whatever the interleaving. */
module CommandRunInvariant {
  import opened Wrappers
  import opened CommandRun

  /** `execute_with_retries` has not returned, or the run never got that far. */
  predicate Active(p: Point) {
    !Finishing(p) && !Written(p)
  }

  /** The runner itself has cleared the cancelled flag, or may have been overtaken by it. */
  predicate Cleared(r: Runner) {
    Written(r.at) || (Finishing(r.at) && !r.at.ClearAfterError? && r.result == Some(SpawnError))
  }

  predicate Cancelling(r: Runner) {
    r.result == Some(CancelRequested)
  }

  // --------------------------------------------------------------- control

  predicate SiteOf(p: Point, site: Site) {
    Taking(p) && p.site == site
  }

  predicate InvResult(r: Runner) {
    && (Active(r.at) <==> r.result.None?)
    && (r.at.ClearAfterError? ==> r.result == Some(SpawnError))
    && !SiteOf(r.at, AfterAttempt(CancelRequested))
    && r.at != Decide(CancelRequested)
  }

  predicate InvChannel(r: Runner, h: Shared) {
    && (r.at.KillForCancel? ==> r.at.request.Some?)
    && (r.at.CheckFlag? ==> !r.at.closed)
    && (r.at.KillForCancel? || Cancelling(r) ==> h.mailbox.Consumed?)
    && (h.mailbox.Consumed? ==> r.at.KillForCancel? || Cancelling(r) || r.at.Done?)
    && (h.sender.Used? <==> !h.mailbox.Empty?)
    && (h.sender.Dropped? ==> r.at.ClearFlag? || r.at.DropReceiver? || r.at.Done?)
    && (h.sender.InRegistry? ==> !r.at.ClearFlag? && !r.at.DropReceiver? && !r.at.Done?)
    && (h.answered != {} ==> Cancelling(r))
    && (h.lost != {} ==> r.at.Done?)
  }

  /** Until the runner clears it, a set flag has exactly one owner; later its owner will clear it. */
  predicate InvFlag(s: State) {
    var h := s.shared;
    && (h.sender.Held? ==> h.sender.caller in s.callers && s.callers[h.sender.caller].Holding?)
    && (s.runner.at.AwaitRequest? ==> h.flag)
    && (!Cleared(s.runner) && !h.flag ==> h.sender.InRegistry?)
    && (!Cleared(s.runner) && h.flag && h.sender.InRegistry? ==>
          h.marker.By? && h.marker.caller in s.callers && s.callers[h.marker.caller].Marked?)
    && ((s.runner.at.DropReceiver? || s.runner.at.Done?) && h.flag ==>
          && h.marker.By? && h.marker.caller in s.callers
          && (s.callers[h.marker.caller].Marked? || s.callers[h.marker.caller].NoSender?))
  }

  // ------------------------------------------------------------------- row

  predicate BeforeRun(p: Point) {
    p.MarkRunning? || SiteOf(p, BeforeRunning)
  }

  predicate InvRow(r: Runner, row: Row) {
    && (Active(r.at) ==> row.status == if BeforeRun(r.at) then Queued else Running)
    && (Finishing(r.at) ==> !row.status.Success? && !row.status.Failed?)
    && (Finishing(r.at) && !Cancelling(r) ==> row.status.Running?)
    && (r.at.CheckFinish? && r.at.rowCancelled ==> row.status.Cancelled?)
    && (r.at.WriteRow? && r.result.Some? ==> r.at.status.Cancelled? || r.at.status == Verdict(r.result.value))
    && (Written(r.at) && r.result.Some? ==>
          && (row.status.Cancelled? || row.status == Verdict(r.result.value))
          && row.exitCode == CodeOf(r.result.value))
  }

  // --------------------------------------------------------------- callers

  /** What a caller's position says about the shared state and the row. */
  predicate CallerFits(r: Runner, row: Row, h: Shared, c: int, caller: Caller) {
    match caller
    case Marked => Cleared(r) || (h.flag && h.sender.InRegistry? && h.marker == By(c))
    case Holding => h.sender == Held(c)
    case WriteCancelled => c in h.answered
    case SendFailed => r.at.Done?
    case NoSender => Cleared(r)
    case NoSenderRead => Cleared(r)
    case LostClear(status) => Written(r.at) && Terminal(status) && row.status == status
    case Returned(Replied(status)) => Terminal(status) && row.status == status
    case Returned(NoActiveProcess) => r.result == Some(SpawnError)
    case Returned(RequestLost) => false
    case _ => true
  }

  ghost predicate InvCallers(s: State) {
    forall c :: c in s.callers ==> CallerFits(s.runner, s.row, s.shared, c, s.callers[c])
  }

  // -------------------------------------------------------------- attempts

  predicate FailedCleanly(a: Attempt) {
    a.shell.ExitedWith? && a.shell.code != Some(0) && a.groupKilled
  }

  ghost predicate AllFailed(attempts: seq<Attempt>) {
    forall k :: 0 <= k < |attempts| ==> FailedCleanly(attempts[k])
  }

  /** How far the current attempt has come. */
  datatype Stage = Uncounted | Counted | Spawned | Over(outcome: Outcome)

  function SiteStage(site: Site): Stage {
    match site
    case BeforeRunning => Uncounted
    case LoopTop => Uncounted
    case BeforeSpawn => Counted
    case AfterAttempt(outcome) => Over(outcome)
  }

  function StageOf(p: Point, result: Option<Outcome>): Stage {
    if Taking(p) then SiteStage(p.site)
    else if p.Spawn? then Counted
    else if Launching(p) then Uncounted
    else if p.Decide? then Over(p.outcome)
    else if result.Some? then Over(result.value)
    else Spawned
  }

  predicate StageFits(current: Option<Attempt>, attempt: int, count: int, stage: Stage) {
    match stage
    case Uncounted => current.None? && count == attempt - 1
    case Counted => current.None? && count == attempt
    case Spawned => current.Some? && count == attempt
    case Over(Exited(code)) =>
      && current.Some? && current.value.shell == ExitedWith(code)
      && (code == Some(0) || current.value.groupKilled) && count == attempt
    case Over(TimedOut) => current.Some? && !current.value.shell.Alive? && count == attempt
    case Over(SpawnError) => current.None? && count == attempt
    case Over(CancelRequested) =>
      if current.Some? then !current.value.shell.Alive? && count == attempt
      else attempt - 1 <= count <= attempt
  }

  ghost predicate InvAttempts(policy: RetryPolicy, r: Runner, count: int) {
    && 1 <= r.attempt <= policy.maxRetries + 1
    && |r.past| == r.attempt - 1
    && AllFailed(r.past)
    && (r.attempt > 1 || r.at.RetryDelay? ==> policy.enabled)
    && (r.at.RetryDelay? ==> r.attempt <= policy.maxRetries)
    && StageFits(r.current, r.attempt, count, StageOf(r.at, r.result))
    && (r.at.KillGroup? || r.at.Drain? ==> r.ShellExited())
    && (r.at.KillGroup? ==> r.current.value.shell.code != Some(0))
    && (r.at.Drain? ==> r.current.value.shell.code == Some(0) || r.current.value.groupKilled)
    && (r.at.RetryDelay? ==> r.current.Some? && FailedCleanly(r.current.value))
  }

  // ------------------------------------------------------------ everything

  ghost predicate InvControl(s: State) {
    && InvResult(s.runner)
    && InvChannel(s.runner, s.shared)
    && InvFlag(s)
    && InvRow(s.runner, s.row)
    && InvCallers(s)
  }

  ghost predicate Inv(s: State) {
    s.policy.Valid() && InvControl(s) && InvAttempts(s.policy, s.runner, s.row.attemptCount)
  }

  lemma InitInv(policy: RetryPolicy, hasTimeout: bool)
    requires policy.Valid()
    ensures Inv(Init(policy, hasTimeout))
  {
  }

  // ---------------------------------------------------------- runner steps

  lemma TakeKeepsControl(s: State, t: State)
    requires Taking(s.runner.at) && TakePending(s) == Some(t) && InvControl(s)
    ensures InvControl(t)
  {
  }

  lemma SameStage(policy: RetryPolicy, r: Runner, count: int, q: Runner)
    requires InvAttempts(policy, r, count)
    requires q.past == r.past && q.current == r.current && q.attempt == r.attempt
    requires StageOf(q.at, q.result) == StageOf(r.at, r.result)
    requires !q.at.KillGroup? && !q.at.Drain? && !q.at.RetryDelay?
    ensures InvAttempts(policy, q, count)
  {
  }

  /** Wherever a cancel is taken before or after an attempt, the attempts fit a cancelled run. */
  lemma StoppedStage(policy: RetryPolicy, r: Runner, count: int)
    requires Taking(r.at) && InvResult(r) && InvAttempts(policy, r, count)
    ensures InvAttempts(policy, r.(at := ReadRow, result := Some(CancelRequested)), count)
  {
  }

  lemma TakeKeepsAttempts(s: State, t: State)
    requires Taking(s.runner.at) && TakePending(s) == Some(t) && InvResult(s.runner)
    requires InvAttempts(s.policy, s.runner, s.row.attemptCount)
    ensures InvAttempts(t.policy, t.runner, t.row.attemptCount)
  {
    StoppedStage(s.policy, s.runner, s.row.attemptCount);
    hide InvAttempts;
    if t.runner.result.None? {
      SameStage(s.policy, s.runner, s.row.attemptCount, t.runner);
    }
  }

  lemma LaunchKeepsShared(s: State, e: RunnerEvent, t: State)
    requires Launching(s.runner.at) && Launch(s, e) == Some(t) && InvControl(s)
    ensures InvResult(t.runner) && InvChannel(t.runner, t.shared) && InvFlag(t)
  {
    hide InvCallers, InvRow;
  }

  lemma LaunchKeepsRow(s: State, e: RunnerEvent, t: State)
    requires Launching(s.runner.at) && Launch(s, e) == Some(t) && InvControl(s)
    ensures InvRow(t.runner, t.row) && InvCallers(t)
  {
    hide InvFlag;
  }

  lemma LaunchKeepsControl(s: State, e: RunnerEvent, t: State)
    requires Launching(s.runner.at) && Launch(s, e) == Some(t) && InvControl(s)
    ensures InvControl(t)
  {
    LaunchKeepsShared(s, e, t);
    LaunchKeepsRow(s, e, t);
    hide InvResult, InvChannel, InvFlag, InvRow, InvCallers;
  }

  lemma LaunchKeepsAttempts(s: State, e: RunnerEvent, t: State)
    requires Launching(s.runner.at) && Launch(s, e) == Some(t) && InvResult(s.runner)
    requires InvAttempts(s.policy, s.runner, s.row.attemptCount)
    ensures InvAttempts(t.policy, t.runner, t.row.attemptCount)
  {
  }

  lemma WaitKeepsShared(s: State, e: RunnerEvent, t: State)
    requires AwaitingShell(s.runner.at) && WaitForChild(s, e) == Some(t) && InvControl(s)
    ensures InvResult(t.runner) && InvChannel(t.runner, t.shared) && InvFlag(t)
  {
    hide InvCallers, InvRow;
  }

  lemma WaitKeepsRow(s: State, e: RunnerEvent, t: State)
    requires AwaitingShell(s.runner.at) && WaitForChild(s, e) == Some(t) && InvControl(s)
    ensures InvRow(t.runner, t.row) && InvCallers(t)
  {
    hide InvFlag;
  }

  lemma WaitKeepsControl(s: State, e: RunnerEvent, t: State)
    requires AwaitingShell(s.runner.at) && WaitForChild(s, e) == Some(t) && InvControl(s)
    ensures InvControl(t)
  {
    WaitKeepsShared(s, e, t);
    WaitKeepsRow(s, e, t);
    hide InvResult, InvChannel, InvFlag, InvRow, InvCallers;
  }

  lemma WaitKeepsAttempts(s: State, e: RunnerEvent, t: State)
    requires AwaitingShell(s.runner.at) && WaitForChild(s, e) == Some(t) && InvResult(s.runner)
    requires InvAttempts(s.policy, s.runner, s.row.attemptCount)
    ensures InvAttempts(t.policy, t.runner, t.row.attemptCount)
  {
  }

  lemma ConcludeKeepsShared(s: State, e: RunnerEvent, t: State)
    requires Concluding(s.runner.at) && Conclude(s, e) == Some(t) && InvControl(s)
    ensures InvResult(t.runner) && InvChannel(t.runner, t.shared) && InvFlag(t)
  {
    hide InvCallers, InvRow;
  }

  lemma ConcludeKeepsRow(s: State, e: RunnerEvent, t: State)
    requires Concluding(s.runner.at) && Conclude(s, e) == Some(t) && InvControl(s)
    ensures InvRow(t.runner, t.row) && InvCallers(t)
  {
    hide InvFlag;
  }

  lemma ConcludeKeepsControl(s: State, e: RunnerEvent, t: State)
    requires Concluding(s.runner.at) && Conclude(s, e) == Some(t) && InvControl(s)
    ensures InvControl(t)
  {
    ConcludeKeepsShared(s, e, t);
    ConcludeKeepsRow(s, e, t);
    hide InvResult, InvChannel, InvFlag, InvRow, InvCallers;
  }

  lemma ConcludeKeepsAttempts(s: State, e: RunnerEvent, t: State)
    requires Concluding(s.runner.at) && Conclude(s, e) == Some(t) && InvResult(s.runner)
    requires InvAttempts(s.policy, s.runner, s.row.attemptCount)
    ensures InvAttempts(t.policy, t.runner, t.row.attemptCount)
  {
    if s.runner.at.Decide? && t.runner.result.Some? {
      hide InvAttempts;
      SameStage(s.policy, s.runner, s.row.attemptCount, t.runner);
    }
  }

  lemma FinishKeepsControl(s: State, t: State)
    requires Finishing(s.runner.at) && Finish(s) == Some(t) && InvControl(s)
    ensures InvControl(t)
  {
  }

  lemma CleanUpKeepsControl(s: State, t: State)
    requires Written(s.runner.at) && CleanUp(s) == Some(t) && InvControl(s)
    ensures InvControl(t)
  {
  }

  lemma FinishKeepsAttempts(s: State, t: State)
    requires (Finishing(s.runner.at) && Finish(s) == Some(t)) || (Written(s.runner.at) && CleanUp(s) == Some(t))
    requires InvAttempts(s.policy, s.runner, s.row.attemptCount)
    ensures InvAttempts(t.policy, t.runner, t.row.attemptCount)
  {
    hide InvAttempts;
    SameStage(s.policy, s.runner, s.row.attemptCount, t.runner);
  }

  lemma ControlHasResult(s: State)
    requires InvControl(s)
    ensures InvResult(s.runner)
  {
  }

  lemma RunnerKeepsPolicy(s: State, e: RunnerEvent, t: State)
    requires RunnerStep(s, e) == Some(t)
    ensures t.policy == s.policy
  {
    hide Terminate, Onward;
  }

  lemma RunnerKeepsInv(s: State, e: RunnerEvent, t: State)
    requires RunnerStep(s, e) == Some(t) && Inv(s)
    ensures Inv(t)
  {
    hide InvControl, InvAttempts, InvResult, Launch, WaitForChild, Conclude, TakePending, Finish, CleanUp;
    ControlHasResult(s);
    RunnerKeepsPolicy(s, e, t);
    if Launching(s.runner.at) {
      LaunchKeepsControl(s, e, t);
      LaunchKeepsAttempts(s, e, t);
    } else if AwaitingShell(s.runner.at) {
      WaitKeepsControl(s, e, t);
      WaitKeepsAttempts(s, e, t);
    } else if Concluding(s.runner.at) {
      ConcludeKeepsControl(s, e, t);
      ConcludeKeepsAttempts(s, e, t);
    } else if Taking(s.runner.at) {
      TakeKeepsControl(s, t);
      TakeKeepsAttempts(s, t);
    } else if Finishing(s.runner.at) {
      FinishKeepsControl(s, t);
      FinishKeepsAttempts(s, t);
    } else {
      CleanUpKeepsControl(s, t);
      FinishKeepsAttempts(s, t);
    }
  }

  // ---------------------------------------------------------- caller steps

  lemma ArriveKeepsControl(s: State, c: int)
    requires c !in s.callers && InvControl(s)
    ensures InvControl(Arrive(s, c))
  {
  }

  lemma ClaimKeepsControl(s: State, c: int, t: State)
    requires c in s.callers && Claim(s, c) == Some(t) && InvControl(s)
    ensures InvControl(t)
  {
    assert CallerFits(s.runner, s.row, s.shared, c, s.callers[c]);
  }

  lemma ResolveKeepsShared(s: State, c: int, t: State)
    requires c in s.callers && Resolve(s, c) == Some(t) && InvControl(s)
    ensures InvResult(t.runner) && InvChannel(t.runner, t.shared) && InvFlag(t)
  {
    assert CallerFits(s.runner, s.row, s.shared, c, s.callers[c]);
    hide InvCallers, InvRow;
  }

  /** The steps that only read. */
  lemma ReadKeepsRow(s: State, c: int, t: State)
    requires c in s.callers && Resolve(s, c) == Some(t) && InvControl(s)
    requires s.callers[c].Sent? || s.callers[c].NoSenderRead? || s.callers[c].Polling?
    ensures InvRow(t.runner, t.row) && InvCallers(t)
  {
    assert CallerFits(s.runner, s.row, s.shared, c, s.callers[c]);
    assert t.runner == s.runner && t.row == s.row && t.shared == s.shared;
    assert CallerFits(t.runner, t.row, t.shared, c, t.callers[c]);
    hide InvFlag, InvRow, InvResult, InvChannel, CallerFits;
  }

  /** The steps that clear the mark. */
  lemma UnflagKeepsRow(s: State, c: int, t: State)
    requires c in s.callers && Resolve(s, c) == Some(t) && InvControl(s)
    requires s.callers[c].NoSender? || s.callers[c].SendFailed? || s.callers[c].LostClear?
    ensures InvRow(t.runner, t.row) && InvCallers(t)
  {
    assert CallerFits(s.runner, s.row, s.shared, c, s.callers[c]);
    hide InvFlag, InvRow;
  }

  lemma CancelKeepsRow(s: State, c: int, t: State)
    requires c in s.callers && Resolve(s, c) == Some(t) && InvControl(s) && s.callers[c].WriteCancelled?
    ensures InvRow(t.runner, t.row) && InvCallers(t)
  {
    assert CallerFits(s.runner, s.row, s.shared, c, s.callers[c]);
    hide InvFlag;
  }

  lemma ResolveKeepsRow(s: State, c: int, t: State)
    requires c in s.callers && Resolve(s, c) == Some(t) && InvControl(s)
    ensures InvRow(t.runner, t.row) && InvCallers(t)
  {
    var caller := s.callers[c];
    if caller.NoSender? || caller.SendFailed? || caller.LostClear? {
      hide InvControl, InvRow, InvCallers;
      UnflagKeepsRow(s, c, t);
    } else if caller.WriteCancelled? {
      hide InvControl, InvRow, InvCallers;
      CancelKeepsRow(s, c, t);
    } else {
      hide InvControl, InvRow, InvCallers;
      ReadKeepsRow(s, c, t);
    }
  }

  lemma ResolveKeepsControl(s: State, c: int, t: State)
    requires c in s.callers && Resolve(s, c) == Some(t) && InvControl(s)
    ensures InvControl(t)
  {
    ResolveKeepsShared(s, c, t);
    ResolveKeepsRow(s, c, t);
    hide InvResult, InvChannel, InvFlag, InvRow, InvCallers;
  }

  lemma AbandonKeepsControl(s: State, c: int, t: State)
    requires c in s.callers && Abandon(s, c) == Some(t) && InvControl(s)
    ensures InvControl(t)
  {
    assert CallerFits(s.runner, s.row, s.shared, c, s.callers[c]);
  }

  lemma CallerKeepsRunner(s: State, c: int, e: CallerEvent, t: State)
    requires CallerStep(s, c, e) == Some(t)
    ensures t.policy == s.policy && t.runner == s.runner && t.row.attemptCount == s.row.attemptCount
  {
  }

  lemma CallerKeepsInv(s: State, c: int, e: CallerEvent, t: State)
    requires CallerStep(s, c, e) == Some(t) && Inv(s)
    ensures Inv(t)
  {
    CallerKeepsRunner(s, c, e, t);
    hide InvControl, InvAttempts, Arrive, Claim, Resolve, Abandon;
    if c !in s.callers {
      ArriveKeepsControl(s, c);
    } else if e.GiveUp? {
      AbandonKeepsControl(s, c, t);
    } else if Claiming(s.callers[c]) {
      ClaimKeepsControl(s, c, t);
    } else {
      ResolveKeepsControl(s, c, t);
    }
  }
}
