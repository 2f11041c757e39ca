/**
 The runs of the project's command line: the bounded registry of live processes,
 the reconciliation of interrupted runs and the pruning of the history. A step is
 one lock section, one database statement or one event of a process, so every
 interleaving of any number of calls, drivers and restarts is a sequence of steps.
 Statements may fail, and a call may be abandoned wherever it awaits.
 */
module ProjectCliRuns {
  import opened Wrappers

  const MAX_ACTIVE_RUNS := 4
  const MAX_RUNS_KEPT := 500

  datatype Status = Running | Success | Failed | Cancelled

  /** Where a call is. The first three hold the registry's lock. */
  datatype Call =
    | SpawnChecked
    | SpawnInserted(run: int)
    | Reconciling(kept: set<int>)
    | PruneStart
    | PruneRead(cutoff: int)
    | Signalling(run: int)
    | NotLive

  predicate HoldsLock(call: Call) {
    call.SpawnChecked? || call.SpawnInserted? || call.Reconciling?
  }

  /** The background task of a run: its process lives, has ended, or its result is recorded. */
  datatype Driver = Executing | Ended(status: Status) | Recorded

  /**
   `rows` is the table of runs, `statuses` every status ever written to a row,
   oldest first, and `nextId` the next value of the id sequence. `live` is the
   registry, `holder` the call that holds its lock, and `signalled` the runs whose
   cancel was notified.
   */
  datatype State = State(
    rows: map<int, Status>,
    statuses: map<int, seq<Status>>,
    nextId: int,
    live: set<int>,
    holder: Option<nat>,
    drivers: map<int, Driver>,
    calls: map<nat, Call>,
    signalled: set<int>)

  function Init(): State {
    State(map[], map[], 1, {}, None, map[], map[], {})
  }

  datatype Event =
    | SpawnCheck(c: nat)
    | SpawnInsert(c: nat, ok: bool)
    | SpawnRegister(c: nat)
    | PruneQuery(c: nat, cutoff: Option<int>)
    | PruneDelete(c: nat, ok: bool)
    | ReconcileLock(c: nat)
    | ReconcileUpdate(c: nat, ok: bool)
    | CancelLook(c: nat, run: int)
    | CancelNotify(c: nat)
    | Abandon(c: nat)
    | ProcessEnds(run: int, success: bool)
    | ProcessCancelled(run: int)
    | RecordResult(run: int, ok: bool)
    | Unregister(run: int)
    | Restart

  predicate IsCall(e: Event) {
    !e.ProcessEnds? && !e.ProcessCancelled? && !e.RecordResult? && !e.Unregister? && !e.Restart?
  }

  // ----------------------------------------------------------------- calls

  function Enter(s: State, c: nat, call: Call): State {
    s.(calls := s.calls[c := call], holder := if HoldsLock(call) then Some(c) else s.holder)
  }

  /** The call returns; if it holds the lock, the guard is dropped. */
  function Leave(s: State, c: nat): State {
    s.(calls := s.calls - {c}, holder := if s.holder == Some(c) then None else s.holder)
  }

  function Logged(statuses: map<int, seq<Status>>, run: int, status: Status): map<int, seq<Status>> {
    statuses[run := (if run in statuses then statuses[run] else []) + [status]]
  }

  function Write(s: State, run: int, status: Status): State {
    s.(rows := s.rows[run := status], statuses := Logged(s.statuses, run, status))
  }

  /** The rows a reconciliation fails: running, and not among the runs that were live. */
  function Interrupted(rows: map<int, Status>, kept: set<int>): set<int> {
    set run | run in rows && rows[run].Running? && run !in kept
  }

  function FailedRows(rows: map<int, Status>, gone: set<int>): (r: map<int, Status>)
    ensures r.Keys == rows.Keys
  {
    map run | run in rows :: if run in gone then Failed else rows[run]
  }

  function FailedLogs(statuses: map<int, seq<Status>>, gone: set<int>): (r: map<int, seq<Status>>)
    ensures r.Keys == statuses.Keys
  {
    map run | run in statuses :: statuses[run] + if run in gone then [Failed] else []
  }

  function FailInterrupted(s: State, kept: set<int>): State {
    var gone := Interrupted(s.rows, kept);
    s.(rows := FailedRows(s.rows, gone), statuses := FailedLogs(s.statuses, gone))
  }

  function Newer(rows: map<int, Status>, run: int): set<int> {
    set other | other in rows && run < other
  }

  /** What `offset(MAX_RUNS_KEPT)` from the newest row finds. */
  predicate IsCutoff(rows: map<int, Status>, cutoff: Option<int>) {
    match cutoff
    case Some(run) => run in rows && |Newer(rows, run)| == MAX_RUNS_KEPT
    case None => |rows| <= MAX_RUNS_KEPT
  }

  function Pruned(rows: map<int, Status>, cutoff: int): map<int, Status> {
    map run | run in rows && !(run <= cutoff && !rows[run].Running?) :: rows[run]
  }

  function Arrive(s: State, e: Event): Option<State>
    requires IsCall(e)
  {
    match e
    case SpawnCheck(c) =>
      if s.holder.Some? then None
      else if |s.live| >= MAX_ACTIVE_RUNS then Some(s)
      else Some(Enter(s, c, SpawnChecked))
    case ReconcileLock(c) =>
      if s.holder.Some? then None else Some(Enter(s, c, Reconciling(s.live)))
    case CancelLook(c, run) =>
      if s.holder.Some? then None
      else if run in s.live then Some(Enter(s, c, Signalling(run)))
      else Some(Enter(s, c, NotLive))
    case _ => None
  }

  function Insert(s: State, c: nat): State {
    Enter(Write(s, s.nextId, Running).(nextId := s.nextId + 1), c, SpawnInserted(s.nextId))
  }

  /** The run enters the registry, the lock is released and the driver is started. */
  function Register(s: State, c: nat, run: int): State {
    Enter(s.(live := s.live + {run}, drivers := s.drivers[run := Executing], holder := None), c, PruneStart)
  }

  function Prune(s: State, cutoff: int): State {
    s.(rows := Pruned(s.rows, cutoff))
  }

  function Continue(s: State, e: Event): Option<State>
    requires IsCall(e) && e.c in s.calls
  {
    var call := s.calls[e.c];
    match e
    case SpawnInsert(c, ok) =>
      if !call.SpawnChecked? then None else Some(if ok then Insert(s, c) else Leave(s, c))
    case SpawnRegister(c) =>
      if call.SpawnInserted? then Some(Register(s, c, call.run)) else None
    case PruneQuery(c, cutoff) =>
      if !call.PruneStart? || !IsCutoff(s.rows, cutoff) then None
      else Some(if cutoff.None? then Leave(s, c) else Enter(s, c, PruneRead(cutoff.value)))
    case PruneDelete(c, ok) =>
      if call.PruneRead? then Some(Leave(if ok then Prune(s, call.cutoff) else s, c)) else None
    case ReconcileLock(c) =>
      if call.NotLive? && s.holder.None? then Some(Enter(s, c, Reconciling(s.live))) else None
    case ReconcileUpdate(c, ok) =>
      if call.Reconciling? then Some(Leave(if ok then FailInterrupted(s, call.kept) else s, c)) else None
    case CancelNotify(c) =>
      if call.Signalling? then Some(Leave(s.(signalled := s.signalled + {call.run}), c)) else None
    case Abandon(c) => Some(Leave(s, c))
    case _ => None
  }

  // --------------------------------------------------------------- drivers

  function Drove(s: State, run: int, driver: Driver): State {
    s.(drivers := s.drivers[run := driver])
  }

  /** A result whose row is gone, or whose update fails, is only logged. */
  function Record(s: State, run: int, status: Status, ok: bool): State {
    Drove(if ok && run in s.rows then Write(s, run, status) else s, run, Recorded)
  }

  function Remove(s: State, run: int): State {
    s.(live := s.live - {run}, drivers := s.drivers - {run})
  }

  /** The steps of `drive`. */
  function Drive(s: State, e: Event): Option<State>
    requires !IsCall(e) && !e.Restart?
  {
    if e.run !in s.drivers then None
    else
      var driver := s.drivers[e.run];
      match e
      case ProcessEnds(run, success) =>
        if driver.Executing? then Some(Drove(s, run, Ended(if success then Success else Failed))) else None
      case ProcessCancelled(run) =>
        if driver.Executing? && run in s.signalled then Some(Drove(s, run, Ended(Cancelled))) else None
      case RecordResult(run, ok) =>
        if driver.Ended? then Some(Record(s, run, driver.status, ok)) else None
      case Unregister(run) =>
        if driver.Recorded? && s.holder.None? then Some(Remove(s, run)) else None
  }

  /** Only the database survives a restart of the server; the processes are killed with it. */
  function Reboot(s: State): State {
    s.(live := {}, holder := None, drivers := map[], calls := map[])
  }

  // ------------------------------------------------------------------ runs

  function Step(s: State, e: Event): Option<State> {
    if e.Restart? then Some(Reboot(s))
    else if !IsCall(e) then Drive(s, e)
    else if e.c in s.calls then Continue(s, e)
    else Arrive(s, e)
  }

  /** The state after a sequence of steps, or None when one of them is not enabled. */
  function After(s: State, events: seq<Event>): Option<State>
    decreases |events|
  {
    if events == [] then Some(s)
    else
      var next := Step(s, events[0]);
      if next.None? then None else After(next.value, events[1..])
  }

  ghost predicate Reachable(s: State) {
    exists events :: After(Init(), events) == Some(s)
  }

  // ------------------------------------------------------------- invariant

  predicate InvLock(holder: Option<nat>, calls: map<nat, Call>) {
    && (forall c :: c in calls && HoldsLock(calls[c]) ==> holder == Some(c))
    && (holder.Some? ==> holder.value in calls && HoldsLock(calls[holder.value]))
  }

  predicate InvRegistry(live: set<int>, drivers: map<int, Driver>, statuses: map<int, seq<Status>>) {
    live == drivers.Keys && live <= statuses.Keys && |live| <= MAX_ACTIVE_RUNS
  }

  /** What a call may rely on until its next step. */
  predicate CallFits(call: Call, live: set<int>, rows: map<int, Status>) {
    match call
    case SpawnChecked => |live| < MAX_ACTIVE_RUNS
    case SpawnInserted(run) => |live| < MAX_ACTIVE_RUNS && run !in live && run in rows && rows[run].Running?
    case Reconciling(kept) => kept == live
    case PruneRead(cutoff) => |Newer(rows, cutoff)| >= MAX_RUNS_KEPT
    case _ => true
  }

  predicate InvCalls(calls: map<nat, Call>, live: set<int>, rows: map<int, Status>) {
    forall c :: c in calls ==> CallFits(calls[c], live, rows)
  }

  /** `Running`, then at most one terminal status. */
  predicate OneVerdict(statuses: seq<Status>) {
    && 1 <= |statuses| <= 2
    && statuses[0].Running?
    && (|statuses| == 2 ==> !statuses[1].Running?)
  }

  predicate InvRows(rows: map<int, Status>, statuses: map<int, seq<Status>>, nextId: int) {
    && (forall run :: run in statuses ==> run < nextId && OneVerdict(statuses[run]))
    && (forall run :: run in rows ==> run in statuses && rows[run] == statuses[run][|statuses[run]| - 1])
  }

  /** Until its driver records a result, a run's row exists and is running. */
  predicate InvDrivers(drivers: map<int, Driver>, rows: map<int, Status>) {
    forall run :: run in drivers && !drivers[run].Recorded? ==>
      && run in rows && rows[run].Running?
      && (drivers[run].Ended? ==> !drivers[run].status.Running?)
  }

  predicate InvCancels(drivers: map<int, Driver>, statuses: map<int, seq<Status>>, signalled: set<int>) {
    && (forall run :: run in drivers && drivers[run] == Ended(Cancelled) ==> run in signalled)
    && (forall run :: run in statuses && Cancelled in statuses[run] ==> run in signalled)
  }

  predicate Inv(s: State) {
    && InvLock(s.holder, s.calls)
    && InvRegistry(s.live, s.drivers, s.statuses)
    && InvCalls(s.calls, s.live, s.rows)
    && InvRows(s.rows, s.statuses, s.nextId)
    && InvDrivers(s.drivers, s.rows)
    && InvCancels(s.drivers, s.statuses, s.signalled)
  }

  // --------------------------------------------------------- preservation

  /** A call without the lock stays good while rows are only added or updated. */
  lemma CallStays(call: Call, live: set<int>, rows: map<int, Status>, nowLive: set<int>, later: map<int, Status>)
    requires CallFits(call, live, rows) && !HoldsLock(call) && rows.Keys <= later.Keys
    ensures CallFits(call, nowLive, later)
  {
    if call.PruneRead? { SubsetSize(Newer(rows, call.cutoff), Newer(later, call.cutoff)); }
  }

  lemma CallsStay(s: State, t: State, c: nat)
    requires InvLock(s.holder, s.calls) && InvCalls(s.calls, s.live, s.rows)
    requires s.holder.None? || s.holder == Some(c)
    requires s.rows.Keys <= t.rows.Keys
    requires t.calls - {c} == s.calls - {c} && (c in t.calls ==> CallFits(t.calls[c], t.live, t.rows))
    ensures InvCalls(t.calls, t.live, t.rows)
  {
    forall d | d in t.calls ensures CallFits(t.calls[d], t.live, t.rows) {
      if d != c {
        assert d in t.calls - {c};
        CallStays(s.calls[d], s.live, s.rows, t.live, t.rows);
      }
    }
  }

  lemma EnterKeepsInv(s: State, c: nat, call: Call)
    requires Inv(s) && CallFits(call, s.live, s.rows)
    requires if HoldsLock(call) then s.holder.None? else c !in s.calls || !HoldsLock(s.calls[c])
    ensures Inv(Enter(s, c, call))
  {
  }

  lemma LeaveKeepsInv(s: State, c: nat)
    requires Inv(s)
    ensures Inv(Leave(s, c))
  {
  }

  lemma InsertKeepsRows(s: State, c: nat)
    requires InvRows(s.rows, s.statuses, s.nextId) && InvDrivers(s.drivers, s.rows)
    requires InvCancels(s.drivers, s.statuses, s.signalled)
    ensures
      var t := Insert(s, c);
      && InvRows(t.rows, t.statuses, t.nextId) && InvDrivers(t.drivers, t.rows)
      && InvCancels(t.drivers, t.statuses, t.signalled) && s.nextId !in s.statuses
  {
    var t := Insert(s, c);
    assert s.nextId !in s.statuses && t.statuses[s.nextId] == [Running];
    assert forall run :: run in s.statuses ==> t.statuses[run] == s.statuses[run];
  }

  lemma InsertKeepsCalls(s: State, c: nat)
    requires InvLock(s.holder, s.calls) && InvCalls(s.calls, s.live, s.rows)
    requires c in s.calls && s.calls[c].SpawnChecked? && s.nextId !in s.live
    ensures
      var t := Insert(s, c);
      && InvLock(t.holder, t.calls) && InvCalls(t.calls, t.live, t.rows)
      && t.statuses.Keys == s.statuses.Keys + {s.nextId}
  {
    var t := Insert(s, c);
    assert t.calls - {c} == s.calls - {c};
    assert CallFits(s.calls[c], s.live, s.rows);
    assert CallFits(t.calls[c], t.live, t.rows);
    hide CallFits, InvCalls;
    CallsStay(s, t, c);
  }

  lemma InsertKeepsInv(s: State, c: nat)
    requires Inv(s) && c in s.calls && s.calls[c].SpawnChecked?
    ensures Inv(Insert(s, c))
  {
    hide InvRows, InvDrivers, InvCancels, Logged, CallFits, InvLock, InvCalls;
    InsertKeepsRows(s, c);
    InsertKeepsCalls(s, c);
  }

  lemma RegisterKeepsInv(s: State, c: nat)
    requires Inv(s) && c in s.calls && s.calls[c].SpawnInserted?
    ensures Inv(Register(s, c, s.calls[c].run))
  {
    var t := Register(s, c, s.calls[c].run);
    CallsStay(s, t, c);
  }

  lemma PruneLeavesEnough(rows: map<int, Status>, used: int, cutoff: int)
    requires |Newer(rows, used)| >= MAX_RUNS_KEPT && |Newer(rows, cutoff)| >= MAX_RUNS_KEPT
    ensures |Newer(Pruned(rows, used), cutoff)| >= MAX_RUNS_KEPT
  {
    var left := Newer(Pruned(rows, used), cutoff);
    SubsetSize(if used <= cutoff then Newer(rows, cutoff) else Newer(rows, used), left);
  }

  lemma PruneKeepsInv(s: State, cutoff: int)
    requires Inv(s) && |Newer(s.rows, cutoff)| >= MAX_RUNS_KEPT
    ensures Inv(Prune(s, cutoff))
  {
    forall c | c in s.calls ensures CallFits(s.calls[c], s.live, Pruned(s.rows, cutoff)) {
      if s.calls[c].PruneRead? { PruneLeavesEnough(s.rows, cutoff, s.calls[c].cutoff); }
    }
  }

  lemma FailKeepsInv(s: State, c: nat)
    requires Inv(s) && c in s.calls && s.calls[c].Reconciling?
    ensures Inv(FailInterrupted(s, s.calls[c].kept))
  {
    var t := FailInterrupted(s, s.calls[c].kept);
    assert s.calls[c].kept == s.live;
    assert t.rows.Keys == s.rows.Keys && t.statuses.Keys == s.statuses.Keys;
    FailKeepsRows(s, s.live);
    hide FailInterrupted, InvRows, InvDrivers, InvCancels;
    CallsStay(s, t, c);
  }

  lemma FailKeepsRows(s: State, kept: set<int>)
    requires InvRows(s.rows, s.statuses, s.nextId) && InvDrivers(s.drivers, s.rows) && s.drivers.Keys <= kept
    requires InvCancels(s.drivers, s.statuses, s.signalled)
    ensures
      var t := FailInterrupted(s, kept);
      && InvRows(t.rows, t.statuses, t.nextId) && InvDrivers(t.drivers, t.rows)
      && InvCancels(t.drivers, t.statuses, t.signalled)
  {
    var gone := Interrupted(s.rows, kept);
    FailedLogsAre(s.rows, s.statuses, s.nextId, gone);
    hide FailedLogs;
    assert InvDrivers(s.drivers, FailedRows(s.rows, gone));
    hide InvDrivers;
  }

  lemma FailedLogsAre(rows: map<int, Status>, statuses: map<int, seq<Status>>, nextId: int, gone: set<int>)
    requires InvRows(rows, statuses, nextId)
    requires forall run :: run in gone ==> run in rows && rows[run].Running?
    ensures forall run :: run in statuses ==>
              FailedLogs(statuses, gone)[run] == if run in gone then [Running, Failed] else statuses[run]
  {
    forall run | run in statuses
      ensures FailedLogs(statuses, gone)[run] == if run in gone then [Running, Failed] else statuses[run]
    {
      if run in gone { assert statuses[run] == [Running]; }
    }
  }

  lemma NotifyKeepsInv(s: State, run: int)
    requires Inv(s)
    ensures Inv(s.(signalled := s.signalled + {run}))
  {
  }

  lemma DroveKeepsInv(s: State, run: int, status: Status)
    requires Inv(s) && run in s.drivers && s.drivers[run].Executing? && !status.Running?
    requires status.Cancelled? ==> run in s.signalled
    ensures Inv(Drove(s, run, Ended(status)))
  {
    assert s.live + {run} == s.live;
  }

  lemma RecordKeepsRows(s: State, run: int)
    requires Inv(s) && run in s.drivers && s.drivers[run].Ended?
    ensures
      var t := Record(s, run, s.drivers[run].status, true);
      && InvRows(t.rows, t.statuses, t.nextId) && InvDrivers(t.drivers, t.rows)
      && InvCancels(t.drivers, t.statuses, t.signalled)
  {
    var status, t := s.drivers[run].status, Record(s, run, s.drivers[run].status, true);
    assert run in s.rows && s.statuses[run] == [Running] && t.statuses[run] == [Running, status];
    assert forall other :: other in s.statuses && other != run ==> t.statuses[other] == s.statuses[other];
  }

  lemma RecordKeepsInv(s: State, run: int, ok: bool)
    requires Inv(s) && run in s.drivers && s.drivers[run].Ended?
    ensures Inv(Record(s, run, s.drivers[run].status, ok))
  {
    assert run in s.rows && run in s.live && run in s.statuses;
    if ok {
      RecordKeepsRows(s, run);
      RecordKeepsCalls(s.calls, s.live, s.rows, run, s.drivers[run].status);
    } else {
      DroppedResultKeepsRows(s, run);
    }
    hide InvRows, InvCancels, InvCalls, InvDrivers, InvLock;
    RecordKeepsKeys(s, run, ok);
  }

  lemma RecordKeepsKeys(s: State, run: int, ok: bool)
    requires run in s.drivers && s.drivers[run].Ended? && run in s.statuses
    ensures
      var t := Record(s, run, s.drivers[run].status, ok);
      t.drivers.Keys == s.drivers.Keys && t.statuses.Keys == s.statuses.Keys
  {
  }

  /** A call relies on rows only as far as they exist, and on the status of a run that is not live. */
  lemma RecordKeepsCalls(calls: map<nat, Call>, live: set<int>, rows: map<int, Status>, run: int, status: Status)
    requires InvCalls(calls, live, rows) && run in live && run in rows
    ensures InvCalls(calls, live, rows[run := status])
  {
    var later := rows[run := status];
    forall c | c in calls ensures CallFits(calls[c], live, later) {
      assert CallFits(calls[c], live, rows);
      if calls[c].PruneRead? { assert Newer(later, calls[c].cutoff) == Newer(rows, calls[c].cutoff); }
    }
  }

  lemma DroppedResultKeepsRows(s: State, run: int)
    requires InvDrivers(s.drivers, s.rows) && InvCancels(s.drivers, s.statuses, s.signalled) && run in s.drivers
    ensures
      var t := Record(s, run, Success, false);
      InvDrivers(t.drivers, t.rows) && InvCancels(t.drivers, t.statuses, t.signalled)
  {
  }

  lemma RemoveKeepsInv(s: State, run: int)
    requires Inv(s) && s.holder.None? && run in s.drivers && s.drivers[run].Recorded?
    ensures Inv(Remove(s, run))
  {
    var t := Remove(s, run);
    SubsetSize(t.live, s.live);
    forall c | c in t.calls ensures CallFits(t.calls[c], t.live, t.rows) {
      CallStays(s.calls[c], s.live, s.rows, t.live, t.rows);
    }
  }

  lemma DriveKeepsInv(s: State, e: Event, t: State)
    requires Inv(s) && !IsCall(e) && !e.Restart? && Drive(s, e) == Some(t)
    ensures Inv(t)
  {
    hide Inv, Drove, Record, Remove;
    match e {
      case ProcessEnds(run, success) => DroveKeepsInv(s, run, if success then Success else Failed);
      case ProcessCancelled(run) => DroveKeepsInv(s, run, Cancelled);
      case RecordResult(run, ok) => RecordKeepsInv(s, run, ok);
      case Unregister(run) => RemoveKeepsInv(s, run);
    }
  }

  lemma ArriveKeepsInv(s: State, e: Event, t: State)
    requires Inv(s) && IsCall(e) && e.c !in s.calls && Arrive(s, e) == Some(t)
    ensures Inv(t)
  {
    hide Enter;
    if t != s {
      match e {
        case SpawnCheck(c) => EnterKeepsInv(s, c, SpawnChecked);
        case ReconcileLock(c) => EnterKeepsInv(s, c, Reconciling(s.live));
        case CancelLook(c, run) => EnterKeepsInv(s, c, if run in s.live then Signalling(run) else NotLive);
      }
    }
  }

  lemma CallInv(s: State, c: nat)
    requires Inv(s) && c in s.calls
    ensures CallFits(s.calls[c], s.live, s.rows) && (HoldsLock(s.calls[c]) ==> s.holder == Some(c))
  {
  }

  lemma ContinueKeepsInv(s: State, e: Event, t: State)
    requires Inv(s) && IsCall(e) && e.c in s.calls && Continue(s, e) == Some(t)
    ensures Inv(t)
  {
    CallInv(s, e.c);
    hide Inv, Insert, Register, Prune, FailInterrupted, Enter, Leave;
    match e {
      case SpawnInsert(c, ok) => if ok { InsertKeepsInv(s, c); } else { LeaveKeepsInv(s, c); }
      case SpawnRegister(c) => RegisterKeepsInv(s, c);
      case PruneQuery(c, cutoff) =>
        if cutoff.None? { LeaveKeepsInv(s, c); } else { EnterKeepsInv(s, c, PruneRead(cutoff.value)); }
      case PruneDelete(c, ok) =>
        if ok { PruneKeepsInv(s, s.calls[c].cutoff); }
        LeaveKeepsInv(if ok then Prune(s, s.calls[c].cutoff) else s, c);
      case ReconcileLock(c) => EnterKeepsInv(s, c, Reconciling(s.live));
      case ReconcileUpdate(c, ok) =>
        if ok { FailKeepsInv(s, c); }
        LeaveKeepsInv(if ok then FailInterrupted(s, s.calls[c].kept) else s, c);
      case CancelNotify(c) =>
        NotifyKeepsInv(s, s.calls[c].run);
        LeaveKeepsInv(s.(signalled := s.signalled + {s.calls[c].run}), c);
      case Abandon(c) => LeaveKeepsInv(s, c);
    }
  }

  lemma StepKeepsInv(s: State, e: Event, t: State)
    requires Inv(s) && Step(s, e) == Some(t)
    ensures Inv(t)
  {
    hide Drive, Continue, Arrive;
    if e.Restart? {
    } else if !IsCall(e) {
      DriveKeepsInv(s, e, t);
    } else if e.c in s.calls {
      ContinueKeepsInv(s, e, t);
    } else {
      ArriveKeepsInv(s, e, t);
    }
  }

  lemma {:induction false} RunKeepsInv(s: State, events: seq<Event>, t: State)
    requires Inv(s) && After(s, events) == Some(t)
    ensures Inv(t)
    decreases |events|
  {
    if events != [] {
      var next := Step(s, events[0]).value;
      hide Inv, Step;
      StepKeepsInv(s, events[0], next);
      RunKeepsInv(next, events[1..], t);
    }
  }

  lemma ReachableInv(s: State)
    requires Reachable(s)
    ensures Inv(s)
  {
    var events :| After(Init(), events) == Some(s);
    RunKeepsInv(Init(), events, s);
  }
}
