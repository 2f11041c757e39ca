/** What a command run comes to: without a cancel, after retries, and when its running shell is cancelled. */
module CommandRunOutcome {
  import opened Wrappers
  import opened CommandRun
  import opened CommandRunInvariant
  import opened CommandRunTheorems

  // -------------------------------------------------------- without cancels

  /** Nobody has asked for a cancel, and nothing looks like it. */
  predicate Quiet(s: State) {
    && !s.shared.flag && s.shared.mailbox.Empty? && !s.shared.sender.Used? && !s.shared.sender.Held?
    && !Cancelling(s.runner) && !s.runner.at.KillForCancel? && !s.row.status.Cancelled?
    && (s.runner.at.CheckFinish? ==> !s.runner.at.rowCancelled)
    && (s.runner.at.WriteRow? ==> !s.runner.at.status.Cancelled?)
  }

  lemma QuietStep(s: State, e: RunnerEvent, t: State)
    requires InvControl(s) && Quiet(s) && RunnerStep(s, e) == Some(t)
    ensures Quiet(t) && t.callers == s.callers
  {
    hide InvCallers, InvRow, InvFlag;
  }

  lemma CallersStay(s: State, e: Event, t: State)
    requires Step(s, e) == Some(t) && t.callers == map[]
    ensures s.callers == map[] && e.RunnerDoes?
  {
    match e {
      case RunnerDoes(run) => RunnerKeepsCallers(s, run, t);
      case CallerDoes(c, call) => CallerStays(s, c, call, t);
    }
  }

  lemma RunnerKeepsCallers(s: State, e: RunnerEvent, t: State)
    requires RunnerStep(s, e) == Some(t)
    ensures t.callers == s.callers
  {
    hide Terminate, Onward;
  }

  lemma CallerStays(s: State, c: int, e: CallerEvent, t: State)
    requires CallerStep(s, c, e) == Some(t)
    ensures c in t.callers
  {
  }

  lemma {:induction false} NoCallersBefore(s: State, events: seq<Event>, t: State)
    requires After(s, events) == Some(t) && t.callers == map[]
    ensures s.callers == map[]
    decreases |events|
  {
    if events != [] {
      var next := Step(s, events[0]).value;
      hide Step;
      NoCallersBefore(next, events[1..], t);
      CallersStay(s, events[0], next);
    }
  }

  lemma {:induction false} QuietRun(s: State, events: seq<Event>, t: State)
    requires Inv(s) && Quiet(s) && After(s, events) == Some(t) && t.callers == map[]
    ensures Quiet(t)
    decreases |events|
  {
    if events != [] {
      var next := Step(s, events[0]).value;
      NoCallersBefore(next, events[1..], t);
      CallersStay(s, events[0], next);
      StepKeepsInv(s, events[0], next);
      hide Quiet, RunnerStep;
      QuietStep(s, events[0].run, next);
      hide Inv, Step;
      QuietRun(next, events[1..], t);
    }
  }

  lemma UncancelledQuiet(s: State)
    requires Reachable(s) && s.callers == map[]
    ensures Quiet(s)
  {
    var policy: RetryPolicy, hasTimeout, events :| policy.Valid() && After(Init(policy, hasTimeout), events) == Some(s);
    InitInv(policy, hasTimeout);
    QuietRun(Init(policy, hasTimeout), events, s);
  }

  /**
   A run that nobody tries to cancel is never cancelled: its final status is success
   exactly when its last shell exited with 0, and failed otherwise.
   */
  lemma UncancelledRun(s: State)
    requires Reachable(s) && s.callers == map[]
    ensures !s.row.status.Cancelled?
    ensures s.runner.at.Done? ==>
              s.row.status == if s.runner.result == Some(Exited(Some(0))) then Success else Failed
  {
    UncancelledQuiet(s);
    if s.runner.at.Done? { FinalStatus(s); }
  }

  // ---------------------------------------------------- timeouts and retries

  predicate Concerns(r: Runner, outcome: Outcome) {
    r.result == Some(outcome) || SiteOf(r.at, AfterAttempt(outcome)) || r.at == Decide(outcome)
  }

  /** Only a run with a timeout times out, and a failure is final only when no retry is left. */
  predicate InvOutcome(s: State) {
    && (s.runner.at.KillForTimeout? || Concerns(s.runner, TimedOut) ==> s.hasTimeout)
    && (s.runner.result.Some? && s.runner.result.value.Exited? && s.runner.result.value.code != Some(0) ==>
          !s.policy.enabled || s.runner.attempt > s.policy.maxRetries)
  }

  lemma RunnerKeepsOutcome(s: State, e: RunnerEvent, t: State)
    requires InvResult(s.runner) && InvOutcome(s) && RunnerStep(s, e) == Some(t)
    ensures InvOutcome(t)
  {
    if Launching(s.runner.at) {
    } else if AwaitingShell(s.runner.at) {
    } else if Concluding(s.runner.at) {
    } else {
    }
  }

  lemma CallerKeepsSetting(s: State, c: int, e: CallerEvent, t: State)
    requires CallerStep(s, c, e) == Some(t)
    ensures t.hasTimeout == s.hasTimeout
  {
  }

  lemma {:induction false} RunKeepsOutcome(s: State, events: seq<Event>, t: State)
    requires Inv(s) && InvOutcome(s) && After(s, events) == Some(t)
    ensures InvOutcome(t)
    decreases |events|
  {
    if events != [] {
      var next := Step(s, events[0]).value;
      StepKeepsInv(s, events[0], next);
      ControlHasResult(s);
      match events[0] {
        case RunnerDoes(run) => RunnerKeepsOutcome(s, run, next);
        case CallerDoes(c, call) =>
          CallerKeepsRunner(s, c, call, next);
          CallerKeepsSetting(s, c, call, next);
      }
      hide Inv, InvOutcome, Step;
      RunKeepsOutcome(next, events[1..], t);
    }
  }

  lemma ReachableOutcome(s: State)
    requires Reachable(s)
    ensures InvOutcome(s)
  {
    var policy: RetryPolicy, hasTimeout, events :| policy.Valid() && After(Init(policy, hasTimeout), events) == Some(s);
    InitInv(policy, hasTimeout);
    RunKeepsOutcome(Init(policy, hasTimeout), events, s);
  }

  /** An execution that ends with a failed shell has made every attempt it is allowed. */
  lemma RetriesAreExhausted(s: State)
    requires Reachable(s) && s.runner.result.Some? && s.runner.result.value.Exited?
    ensures s.runner.result.value.code != Some(0) ==>
              |s.runner.Spawned()| == if s.policy.enabled then s.policy.maxRetries + 1 else 1
  {
    ReachableInv(s);
    ReachableOutcome(s);
  }

  /** Only a run with a timeout times out. */
  lemma TimeoutsAreSet(s: State)
    requires Reachable(s) && s.runner.result == Some(TimedOut)
    ensures s.hasTimeout
  {
    ReachableOutcome(s);
  }

  /** An undisturbed runner judges a timeout as the result of the run. */
  lemma TimeoutIsJudged(s: State, before: seq<Event>, m: State) returns (events: seq<Event>, t: State)
    requires After(s, before) == Some(m) && !m.shared.flag && !m.shared.mailbox.Full? && !m.shared.Closed()
    requires m.runner.at == TryReceive(AfterAttempt(TimedOut))
    ensures After(s, events) == Some(t) && t == m.(runner := m.runner.(at := ReadRow, result := Some(TimedOut)))
  {
    hide After, CallerStep, Launch, WaitForChild, Finish, CleanUp;
    var e := RunnerDoes(Proceed);
    events, t := Extend(s, before, m, e);
    assert t == Goto(m, CheckFlag(AfterAttempt(TimedOut), false));
    events, t := Extend(s, events, t, e);
    assert t == Goto(m, Decide(TimedOut));
    events, t := Extend(s, events, t, e);
  }

  lemma TimeoutIsWritten(s: State, before: seq<Event>, m: State) returns (events: seq<Event>, t: State)
    requires After(s, before) == Some(m) && !m.shared.flag && !m.row.status.Cancelled?
    requires m.runner.at.ReadRow? && m.runner.result == Some(TimedOut)
    ensures After(s, events) == Some(t) && t.row.status.Failed? && t.row.exitCode == None
    ensures t.runner.Spawned() == m.runner.Spawned() && t.callers == m.callers
  {
    hide After, CallerStep, Launch, WaitForChild, Conclude, TakePending, CleanUp;
    var e := RunnerDoes(Proceed);
    events, t := Extend(s, before, m, e);
    assert t == Goto(m, CheckFinish(false));
    events, t := Extend(s, events, t, e);
    assert t == Goto(m, WriteRow(Failed));
    events, t := Extend(s, events, t, e);
  }

  /**
   A timeout that is set works: when it fires on a shell that nobody tries to cancel,
   the runner alone kills the group and the run ends failed, whatever retries remain.
   */
  lemma TimeoutStopsShell(s: State) returns (events: seq<Event>, t: State)
    requires Reachable(s) && s.callers == map[] && s.hasTimeout
    requires s.runner.at.WaitShell? && s.runner.current == Some(Attempt(Alive, false))
    ensures After(s, events) == Some(t) && t.callers == map[]
    ensures t.row.status.Failed? && t.row.exitCode == None
    ensures t.runner.Spawned() == s.runner.past + [Attempt(Killed, true)]
  {
    QuietAtShell(s);
    hide CallerStep, Quiet, Inv;
    NoEvents(s);
    hide After;
    events, t := Extend(s, [], s, RunnerDoes(TimeoutFires));
    assert t == Goto(s, KillForTimeout);
    events, t := Extend(s, events, t, RunnerDoes(Proceed));
    assert t.shared == s.shared && t.row == s.row;
    assert t.runner == s.runner.(at := TryReceive(AfterAttempt(TimedOut)), current := Some(Attempt(Killed, true)));
    events, t := TimeoutIsJudged(s, events, t);
    events, t := TimeoutIsWritten(s, events, t);
  }

  lemma NoEvents(s: State)
    ensures After(s, []) == Some(s)
  {
  }

  lemma QuietAtShell(s: State)
    requires Reachable(s) && s.callers == map[] && s.runner.at.WaitShell?
    ensures !s.shared.flag && !s.shared.mailbox.Full? && !s.shared.Closed() && !s.row.status.Cancelled?
  {
    ReachableInv(s);
    UncancelledQuiet(s);
  }

  // --------------------------------------------------------------- a cancel

  /** The caller marks the run, takes the sender and sends its request. */
  lemma RequestIsSent(s: State, c: int) returns (events: seq<Event>, t: State)
    requires s.row.status.Running? && c !in s.callers && !s.shared.flag && s.shared.sender.InRegistry?
    requires s.runner.at.WaitShell?
    ensures After(s, events) == Some(t) && t.runner == s.runner && t.row == s.row
    ensures t.callers == s.callers[c := Sent] && t.shared.mailbox == Full(c)
  {
    hide RunnerStep;
    var e := CallerDoes(c, Advance);
    events, t := Extend(s, [], s, e);
    hide After;
    assert t == Move(s, c, Checked);
    events, t := Extend(s, events, t, e);
    assert t.callers[c].Marked? && t.shared.sender.InRegistry?;
    events, t := Extend(s, events, t, e);
    assert t.callers[c].Holding?;
    events, t := Extend(s, events, t, e);
    assert t.callers == s.callers[c := Sent];
  }

  /** The runner kills the shell and answers. */
  lemma RequestIsServed(s: State, before: seq<Event>, m: State, c: int) returns (events: seq<Event>, t: State)
    requires After(s, before) == Some(m)
    requires m.runner.at.WaitShell? && m.runner.current == Some(Attempt(Alive, false)) && m.shared.mailbox == Full(c)
    ensures After(s, events) == Some(t) && t.row == m.row && t.callers == m.callers && c in t.shared.answered
    ensures t.runner.current == Some(Attempt(Killed, true)) && t.runner.past == m.runner.past
  {
    hide After, CallerStep;
    events, t := Extend(s, before, m, RunnerDoes(RequestArrives));
    assert t.runner.at == KillForCancel(Some(c)) && t.runner.current == m.runner.current;
    events, t := Extend(s, events, t, RunnerDoes(Proceed));
  }

  lemma AnswerIsReturned(s: State, before: seq<Event>, m: State, c: int) returns (events: seq<Event>, t: State)
    requires After(s, before) == Some(m) && c in m.callers && m.callers[c].Sent? && c in m.shared.answered
    ensures After(s, events) == Some(t) && t.runner == m.runner
    ensures t.row.status.Cancelled? && t.callers == m.callers[c := Returned(Replied(Cancelled))]
  {
    hide After, RunnerStep;
    events, t := Extend(s, before, m, CallerDoes(c, Advance));
    assert t.callers == m.callers[c := WriteCancelled];
    events, t := Extend(s, events, t, CallerDoes(c, Advance));
  }

  /**
   Cancelling works: while a shell runs that nobody else has tried to cancel, steps of
   the caller and the runner alone kill the shell with its group, make the run
   cancelled and return that to the caller.
   */
  lemma CancelStopsShell(s: State, c: int) returns (events: seq<Event>, t: State)
    requires Reachable(s) && s.runner.at.WaitShell? && c !in s.callers
    requires !s.shared.flag && s.shared.sender.InRegistry?
    requires s.runner.current == Some(Attempt(Alive, false))
    ensures After(s, events) == Some(t) && t.callers == s.callers[c := Returned(Replied(Cancelled))]
    ensures t.row.status.Cancelled? && t.runner.Spawned() == s.runner.past + [Attempt(Killed, true)]
  {
    ReachableInv(s);
    hide Inv, After;
    RunningAtShell(s);
    events, t := RequestIsSent(s, c);
    events, t := RequestIsServed(s, events, t, c);
    events, t := AnswerIsReturned(s, events, t, c);
  }

  lemma RunningAtShell(s: State)
    requires Inv(s) && s.runner.at.WaitShell?
    ensures s.row.status.Running?
  {
  }
}
