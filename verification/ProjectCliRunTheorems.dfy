/** What holds of every run of the project command line, for all interleavings. */
module ProjectCliRunTheorems {
  import opened Wrappers
  import opened ProjectCliRuns

  // --------------------------------------------------------------- registry

  /** At most four runs are live, and these are exactly the runs that have a driver. */
  lemma AtMostFourLive(s: State)
    requires Reachable(s)
    ensures |s.live| <= 4 && s.live == s.drivers.Keys
  {
    ReachableInv(s);
  }

  /** A spawn is refused exactly when four runs are live. */
  lemma RefusedExactlyWhenFull(s: State, c: nat)
    requires Reachable(s) && c !in s.calls && s.holder.None?
    ensures Step(s, SpawnCheck(c)) == Some(s) <==> |s.live| == 4
    ensures Step(s, SpawnCheck(c)).Some?
  {
    ReachableInv(s);
    if |s.live| < 4 {
      assert c in Step(s, SpawnCheck(c)).value.calls;
    }
  }

  /** Whoever holds the lock can release it in at most two steps of its own. */
  lemma LockIsReleased(s: State) returns (events: seq<Event>)
    requires Reachable(s) && s.holder.Some?
    ensures 1 <= |events| <= 2
    ensures forall e :: e in events ==> IsCall(e) && e.c == s.holder.value
    ensures After(s, events).Some? && After(s, events).value.holder.None?
  {
    ReachableInv(s);
    var c := s.holder.value;
    assert c in s.calls && HoldsLock(s.calls[c]);
    hide Inv, FailedRows, FailedLogs, Interrupted, Logged;
    var last := if s.calls[c].Reconciling? then ReconcileUpdate(c, true) else SpawnRegister(c);
    if s.calls[c].SpawnChecked? {
      events := [SpawnInsert(c, true), last];
      TwoSteps(s, events[0], Insert(s, c), last);
      assert Step(Insert(s, c), last) == Some(Register(Insert(s, c), c, s.nextId));
    } else {
      events := [last];
      assert events[1..] == [];
      assert After(s, events) == Continue(s, last);
    }
  }

  lemma TwoSteps(s: State, e: Event, m: State, f: Event)
    requires Step(s, e) == Some(m)
    ensures After(s, [e, f]) == Step(m, f)
  {
    hide Step;
    assert [e, f][1..] == [f] && [f][1..] == [];
    assert After(m, [f]) == if Step(m, f).None? then None else After(Step(m, f).value, []);
  }

  // --------------------------------------------------------------- statuses

  predicate SameData(s: State, t: State) {
    t.rows == s.rows && t.statuses == s.statuses && t.signalled == s.signalled
  }

  /** What a step changes in the table of runs and among the notified cancels. */
  predicate Effect(s: State, e: Event, t: State) {
    || SameData(s, t)
    || (&& e.SpawnInsert? && SameData(Write(s, s.nextId, Running), t))
    || (&& e.PruneDelete? && e.c in s.calls && s.calls[e.c].PruneRead? && SameData(Prune(s, s.calls[e.c].cutoff), t))
    || (&& e.ReconcileUpdate? && e.c in s.calls && s.calls[e.c].Reconciling?
        && SameData(FailInterrupted(s, s.calls[e.c].kept), t))
    || (&& e.RecordResult? && e.ok && e.run in s.drivers && s.drivers[e.run].Ended?
        && SameData(Write(s, e.run, s.drivers[e.run].status), t))
    || (&& e.CancelNotify? && e.c in s.calls && s.calls[e.c].Signalling?
        && SameData(s.(signalled := s.signalled + {s.calls[e.c].run}), t))
  }

  /** The steps of a call that touch neither the table nor the notified cancels. */
  lemma QuietCallEffect(s: State, e: Event, t: State)
    requires IsCall(e) && e.c in s.calls && Continue(s, e) == Some(t)
    requires !e.SpawnInsert? && !e.PruneDelete? && !e.ReconcileUpdate? && !e.CancelNotify?
    ensures SameData(s, t)
  {
    hide Newer, IsCutoff;
  }

  lemma OtherCallEffect(s: State, e: Event, t: State)
    requires IsCall(e) && e.c in s.calls && Continue(s, e) == Some(t)
    requires e.SpawnInsert? || e.PruneDelete? || e.ReconcileUpdate? || e.CancelNotify?
    ensures Effect(s, e, t)
  {
    hide Logged, FailedRows, FailedLogs, Interrupted, Pruned;
  }

  lemma CallEffect(s: State, e: Event, t: State)
    requires IsCall(e) && e.c in s.calls && Continue(s, e) == Some(t)
    ensures Effect(s, e, t)
  {
    hide Continue;
    if e.SpawnInsert? || e.PruneDelete? || e.ReconcileUpdate? || e.CancelNotify? {
      OtherCallEffect(s, e, t);
    } else {
      QuietCallEffect(s, e, t);
      SameIsEffect(s, e, t);
    }
  }

  lemma DriverEffect(s: State, e: Event, t: State)
    requires !IsCall(e) && !e.Restart? && Drive(s, e) == Some(t)
    ensures Effect(s, e, t)
  {
    hide Logged, FailedRows, FailedLogs, Interrupted, Pruned;
  }

  lemma StepEffect(s: State, e: Event, t: State)
    requires Step(s, e) == Some(t)
    ensures Effect(s, e, t)
  {
    hide Effect, Continue, Drive;
    if e.Restart? {
      SameIsEffect(s, e, t);
    } else if !IsCall(e) {
      DriverEffect(s, e, t);
    } else if e.c in s.calls {
      CallEffect(s, e, t);
    } else {
      SameIsEffect(s, e, t);
    }
  }

  lemma SameIsEffect(s: State, e: Event, t: State)
    requires SameData(s, t)
    ensures Effect(s, e, t)
  {
  }

  lemma StatusesGrow(s: State, e: Event, t: State)
    requires Effect(s, e, t)
    ensures s.statuses.Keys <= t.statuses.Keys
    ensures forall run :: run in s.statuses ==> s.statuses[run] <= t.statuses[run]
  {
    hide Pruned, FailedRows, Interrupted;
  }

  lemma {:induction false} HistoryGrows(s: State, events: seq<Event>, t: State, run: int)
    requires After(s, events) == Some(t) && run in s.statuses
    ensures run in t.statuses && s.statuses[run] <= t.statuses[run]
    decreases |events|
  {
    if events != [] {
      var next := Step(s, events[0]).value;
      hide Step;
      StepEffect(s, events[0], next);
      StatusesGrow(s, events[0], next);
      hide Effect;
      HistoryGrows(next, events[1..], t, run);
    }
  }

  /** A run receives at most one terminal status, and what was final stays, whatever happens next. */
  lemma AtMostOneVerdict(s: State, events: seq<Event>, t: State, run: int)
    requires Reachable(s) && After(s, events) == Some(t) && run in s.statuses
    ensures run in t.statuses && OneVerdict(t.statuses[run])
    ensures |s.statuses[run]| == 2 ==> t.statuses[run] == s.statuses[run]
    ensures run in t.rows ==> t.rows[run] == t.statuses[run][|t.statuses[run]| - 1]
  {
    ReachableInv(s);
    RunKeepsInv(s, events, t);
    HistoryGrows(s, events, t, run);
  }

  /**
   A status is only ever changed by the driver of the run, to what its process came
   to, or by a reconciliation that fails a run without a process.
   */
  lemma WhoWrites(s: State, e: Event, t: State, run: int)
    requires Reachable(s) && Step(s, e) == Some(t)
    requires run in s.rows && run in t.rows && s.rows[run] != t.rows[run]
    ensures
      || (e == RecordResult(run, true) && run in s.drivers && s.drivers[run] == Ended(t.rows[run]))
      || (e.ReconcileUpdate? && run !in s.drivers && t.rows[run].Failed?)
  {
    hide Step, Logged, FailedLogs;
    ReachableInv(s);
    StepEffect(s, e, t);
    if e.ReconcileUpdate? && e.c in s.calls { CallInv(s, e.c); }
  }

  lemma NewSignal(s: State, e: Event, t: State, run: int)
    requires Step(s, e) == Some(t) && run in t.signalled && run !in s.signalled
    ensures e.CancelNotify? && e.c in s.calls && s.calls[e.c] == Signalling(run)
  {
    hide Step, Logged, FailedRows, FailedLogs, Interrupted, Pruned;
    StepEffect(s, e, t);
  }

  /** The step after the first `k` is a notification of the run's cancel. */
  ghost predicate NotifiesAt(s: State, events: seq<Event>, k: nat, run: int) {
    && k < |events| && events[k].CancelNotify? && After(s, events[..k]).Some?
    && var m := After(s, events[..k]).value;
       events[k].c in m.calls && m.calls[events[k].c] == Signalling(run)
  }

  lemma {:induction false} SignalWasNotified(s: State, events: seq<Event>, t: State, run: int) returns (k: nat)
    requires After(s, events) == Some(t) && run in t.signalled && run !in s.signalled
    ensures NotifiesAt(s, events, k, run)
    decreases |events|
  {
    var next := Step(s, events[0]).value;
    hide Step;
    if run in next.signalled {
      NewSignal(s, events[0], next, run);
      k := 0;
    } else {
      k := SignalWasNotified(next, events[1..], t, run);
      assert events[..k + 1][1..] == events[1..][..k];
      k := k + 1;
    }
  }

  /** A row is cancelled only when, earlier in the same run of the system, a call notified its cancel. */
  lemma CancelledWasAsked(events: seq<Event>, s: State, run: int) returns (k: nat)
    requires After(Init(), events) == Some(s) && run in s.rows && s.rows[run].Cancelled?
    ensures NotifiesAt(Init(), events, k, run)
  {
    ReachableInv(s);
    k := SignalWasNotified(Init(), events, s, run);
  }

  /** A process that ends on its own, its result recorded, frees its place and leaves its own verdict. */
  lemma ProcessFinishes(s: State, run: int, success: bool)
    requires Reachable(s) && s.holder.None? && run in s.drivers && s.drivers[run].Executing?
    ensures
      var after := After(s, [ProcessEnds(run, success), RecordResult(run, true), Unregister(run)]);
      && after.Some? && after.value.live == s.live - {run} && run in after.value.statuses
      && after.value.statuses[run] == [Running, if success then Success else Failed]
  {
    ReachableInv(s);
    var e1, e2, e3 := ProcessEnds(run, success), RecordResult(run, true), Unregister(run);
    var verdict := if success then Success else Failed;
    var s1 := Drove(s, run, Ended(verdict));
    var s2 := Record(s1, run, verdict, true);
    assert [e1, e2, e3][1..] == [e2, e3] && [e2, e3][1..] == [e3] && [e3][1..] == [];
    assert Step(s, e1) == Some(s1) && Step(s1, e2) == Some(s2) && Step(s2, e3) == Some(Remove(s2, run));
    assert s.statuses[run] == [Running];
    hide Step;
    assert After(s, [e1, e2, e3]) == After(s1, [e2, e3]) == After(s2, [e3]) == Some(Remove(s2, run));
  }

  lemma ThreeSteps(s: State, e1: Event, s1: State, e2: Event, s2: State, e3: Event)
    requires Step(s, e1) == Some(s1) && Step(s1, e2) == Some(s2)
    ensures After(s, [e1, e2, e3]) == Step(s2, e3)
  {
    hide Step;
    TwoSteps(s1, e2, s2, e3);
    assert [e1, e2, e3][1..] == [e2, e3];
  }

  /** A process that is stopped by its cancel, its result recorded, frees its place and leaves a cancelled row. */
  lemma ProcessIsCancelled(s: State, run: int)
    requires Reachable(s) && s.holder.None? && run in s.drivers && s.drivers[run].Executing? && run in s.signalled
    ensures
      var after := After(s, [ProcessCancelled(run), RecordResult(run, true), Unregister(run)]);
      && after.Some? && after.value.live == s.live - {run}
      && run in after.value.rows && after.value.rows[run].Cancelled?
      && run in after.value.statuses && after.value.statuses[run] == [Running, Cancelled]
  {
    ReachableInv(s);
    assert run in s.rows && s.statuses[run] == [Running];
    hide Inv;
    var s1 := Drove(s, run, Ended(Cancelled));
    var s2 := Record(s1, run, Cancelled, true);
    assert Step(s, ProcessCancelled(run)) == Some(s1);
    assert Step(s1, RecordResult(run, true)) == Some(s2);
    assert Step(s2, Unregister(run)) == Some(Remove(s2, run));
    ThreeSteps(s, ProcessCancelled(run), s1, RecordResult(run, true), s2, Unregister(run));
  }

  /** A cancel call for a live run notifies it. */
  lemma CancelReachesRun(s: State, c: nat, run: int)
    requires Reachable(s) && s.holder.None? && c !in s.calls && run in s.live
    ensures
      var after := After(s, [CancelLook(c, run), CancelNotify(c)]);
      && after.Some? && run in after.value.signalled && after.value.calls == s.calls && after.value.holder.None?
      && after.value.drivers == s.drivers && after.value.rows == s.rows
  {
    var m := Enter(s, c, Signalling(run));
    TwoSteps(s, CancelLook(c, run), m, CancelNotify(c));
    assert m.calls - {c} == s.calls;
  }

  /** A cancel call for a run without a process fails its row if that still says running. */
  lemma CancelOfDeadRun(s: State, c: nat, run: int)
    requires Reachable(s) && s.holder.None? && c !in s.calls && run !in s.live && run in s.rows
    ensures
      var after := After(s, [CancelLook(c, run), ReconcileLock(c), ReconcileUpdate(c, true)]);
      && after.Some? && run in after.value.rows
      && after.value.rows[run] == if s.rows[run].Running? then Failed else s.rows[run]
  {
    var m := Enter(s, c, NotLive);
    var n := Enter(m, c, Reconciling(s.live));
    ThreeSteps(s, CancelLook(c, run), m, ReconcileLock(c), n, ReconcileUpdate(c, true));
  }

  lemma NextIdIsFresh(s: State)
    requires Reachable(s)
    ensures s.nextId !in s.rows && s.nextId !in s.live
  {
    ReachableInv(s);
  }

  /** A spawn below the limit adds one running row under a new id, and that run is live with its process started. */
  lemma SpawnStarts(s: State, c: nat)
    requires Reachable(s) && s.holder.None? && c !in s.calls && |s.live| < 4
    ensures
      var after := After(s, [SpawnCheck(c), SpawnInsert(c, true), SpawnRegister(c)]);
      && after.Some? && after.value.holder.None? && s.nextId !in s.rows && s.nextId !in s.live
      && after.value.live == s.live + {s.nextId} && after.value.rows == s.rows[s.nextId := Running]
      && after.value.drivers == s.drivers[s.nextId := Executing]
  {
    hide Inv, Logged, Drive, After;
    NextIdIsFresh(s);
    var m := Enter(s, c, SpawnChecked);
    var n := Insert(m, c);
    assert Step(s, SpawnCheck(c)) == Some(m);
    assert Step(m, SpawnInsert(c, true)) == Some(n);
    assert Step(n, SpawnRegister(c)) == Some(Register(n, c, s.nextId));
    hide Continue, Arrive, Step;
    ThreeSteps(s, SpawnCheck(c), m, SpawnInsert(c, true), n, SpawnRegister(c));
  }

  // -------------------------------------------------------- reconciliation

  /** Exactly the running rows without a process are failed; afterwards every running row is live. */
  lemma ReconcileIsExact(s: State, c: nat, t: State)
    requires Reachable(s) && c in s.calls && Step(s, ReconcileUpdate(c, true)) == Some(t)
    ensures t.rows.Keys == s.rows.Keys && t.live == s.live
    ensures forall run :: run in s.rows ==>
              t.rows[run] == if s.rows[run].Running? && run !in s.drivers then Failed else s.rows[run]
    ensures forall run :: run in t.rows && t.rows[run].Running? ==> run in t.live
  {
    ReachableInv(s);
  }

  /** After a restart one reconciliation leaves no row running. */
  lemma RestartRecovers(s: State, c: nat)
    requires Reachable(s)
    ensures
      var after := After(s, [Restart, ReconcileLock(c), ReconcileUpdate(c, true)]);
      && after.Some? && after.value.rows.Keys == s.rows.Keys
      && forall run :: run in s.rows ==>
           after.value.rows[run] == if s.rows[run].Running? then Failed else s.rows[run]
  {
    var e1, e2, e3 := Restart, ReconcileLock(c), ReconcileUpdate(c, true);
    assert [e1, e2, e3][1..] == [e2, e3] && [e2, e3][1..] == [e3] && [e3][1..] == [];
    var s1 := Reboot(s);
    var s2 := Enter(s1, c, Reconciling({}));
    assert Step(s, e1) == Some(s1) && Step(s1, e2) == Some(s2);
    var s3 := Leave(FailInterrupted(s2, {}), c);
    assert Step(s2, e3) == Some(s3);
    hide Step;
    assert After(s, [e1, e2, e3]) == After(s1, [e2, e3]) == After(s2, [e3]) == Some(s3);
  }

  // ---------------------------------------------------------------- pruning

  /** Whether a row is one of the 500 newest. */
  predicate Recent(rows: map<int, Status>, run: int) {
    |Newer(rows, run)| < 500
  }

  lemma WhoDeletes(s: State, e: Event, t: State, run: int)
    requires Step(s, e) == Some(t) && run in s.rows && run !in t.rows
    ensures e.PruneDelete? && e.c in s.calls && s.calls[e.c].PruneRead?
    ensures run <= s.calls[e.c].cutoff && !s.rows[run].Running?
  {
    hide Step, FailedLogs, Interrupted, Logged;
    StepEffect(s, e, t);
  }

  /** No step of any interleaving loses a running row or one of the 500 newest. */
  lemma OnlyOldFinishedRowsGo(s: State, e: Event, t: State, run: int)
    requires Reachable(s) && Step(s, e) == Some(t) && run in s.rows && run !in t.rows
    ensures !s.rows[run].Running? && !Recent(s.rows, run)
  {
    ReachableInv(s);
    WhoDeletes(s, e, t, run);
    hide Step;
    CallInv(s, e.c);
    hide Inv;
    SubsetSize(Newer(s.rows, s.calls[e.c].cutoff), Newer(s.rows, run));
  }

  /** A prune without another one or a spawn in between keeps exactly the running rows and the 500 newest. */
  lemma PruneIsExact(s: State, c: nat, cutoff: int, run: int)
    requires c in s.calls && s.calls[c].PruneStart? && IsCutoff(s.rows, Some(cutoff)) && run in s.rows
    ensures
      var after := After(s, [PruneQuery(c, Some(cutoff)), PruneDelete(c, true)]);
      after.Some? && (run in after.value.rows <==> s.rows[run].Running? || Recent(s.rows, run))
  {
    var e1, e2 := PruneQuery(c, Some(cutoff)), PruneDelete(c, true);
    assert [e1, e2][1..] == [e2] && [e2][1..] == [];
    var s1 := Enter(s, c, PruneRead(cutoff));
    var s2 := Leave(Prune(s1, cutoff), c);
    assert Step(s, e1) == Some(s1) && Step(s1, e2) == Some(s2);
    hide Step;
    assert After(s, [e1, e2]) == After(s1, [e2]) == Some(s2);
    var newer := Newer(s.rows, run);
    if run <= cutoff {
      SubsetSize(Newer(s.rows, cutoff), newer);
    } else {
      SubsetSize(newer + {run}, Newer(s.rows, cutoff));
      assert |newer + {run}| == |newer| + 1;
    }
  }

  /** With no more than 500 rows there is nothing to prune: all are recent. */
  lemma FewRowsAreRecent(rows: map<int, Status>, run: int)
    requires IsCutoff(rows, None) && run in rows
    ensures Recent(rows, run)
  {
    SubsetSize(Newer(rows, run) + {run}, rows.Keys);
    assert |Newer(rows, run) + {run}| == |Newer(rows, run)| + 1;
  }

  lemma {:induction false} OldestOf(ids: set<int>) returns (oldest: int)
    requires ids != {}
    ensures oldest in ids && forall id :: id in ids ==> oldest <= id
    decreases ids
  {
    var some := Pick(ids);
    var rest := ids - {some};
    oldest := some;
    if rest != {} {
      var other := OldestOf(rest);
      oldest := if other < some then other else some;
    }
    assert forall id :: id in ids ==> id == some || id in rest;
  }

  function Above(ids: set<int>, id: int): set<int> {
    set other | other in ids && id < other
  }

  lemma {:induction false} RankedId(ids: set<int>, n: nat) returns (id: int)
    requires n < |ids|
    ensures id in ids && |Above(ids, id)| == n
    decreases ids
  {
    var oldest := OldestOf(ids);
    var rest := ids - {oldest};
    if n == |rest| {
      id := oldest;
      assert Above(ids, id) == rest;
    } else {
      id := RankedId(rest, n);
      assert Above(ids, id) == Above(rest, id);
    }
  }

  /** The query always has an answer, and only one. */
  lemma CutoffExists(rows: map<int, Status>) returns (cutoff: Option<int>)
    ensures IsCutoff(rows, cutoff)
    ensures forall other :: IsCutoff(rows, other) ==> other == cutoff
  {
    if |rows| <= MAX_RUNS_KEPT {
      cutoff := None;
      forall other | IsCutoff(rows, other) ensures other == cutoff {
        if other.Some? { FewRowsAreRecent(rows, other.value); }
      }
    } else {
      var id := RankedId(rows.Keys, MAX_RUNS_KEPT);
      cutoff := Some(id);
      assert Newer(rows, id) == Above(rows.Keys, id);
      forall other | IsCutoff(rows, other) ensures other == cutoff {
        if other.value < id { NewerShrinks(rows, other.value, id); }
        if id < other.value { NewerShrinks(rows, id, other.value); }
      }
    }
  }

  lemma NewerShrinks(rows: map<int, Status>, low: int, high: int)
    requires low < high && high in rows
    ensures |Newer(rows, high)| < |Newer(rows, low)|
  {
    SubsetSize(Newer(rows, high) + {high}, Newer(rows, low));
    assert |Newer(rows, high) + {high}| == |Newer(rows, high)| + 1;
  }
}
