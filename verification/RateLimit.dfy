/**
 The sliding-window rate limiter: one bucket of call times per key, pruned on
 every call. Times are nanoseconds of a monotone clock.
 */
module RateLimit {
  import opened Wrappers

  const NANOS_PER_SECOND := 1_000_000_000
  const DEFAULT_WINDOW_SECONDS := 60
  const MAX_USIZE := 0xFFFF_FFFF_FFFF_FFFF

  /** The window of a rule; a negative number of seconds means the default. */
  function Nanos(windowSeconds: int): nat {
    (if windowSeconds < 0 then DEFAULT_WINDOW_SECONDS else windowSeconds) * NANOS_PER_SECOND
  }

  /** One call for a key, under the rule as it stands at that moment. */
  datatype Call = Call(now: int, limitCount: int, windowSeconds: int) {
    function Window(): nat {
      Nanos(windowSeconds)
    }

    function Capacity(): nat {
      if limitCount < 0 then MAX_USIZE else limitCount
    }

    /** The entry is still inside the window; a time after `now` counts as no time ago. */
    predicate Recent(entry: int) {
      (if entry < now then now - entry else 0) <= Window()
    }
  }

  /** The recent entries, in order. */
  function Keep(entries: seq<int>, call: Call): (r: seq<int>)
    ensures |r| <= |entries|
    ensures forall t :: t in r ==> t in entries && call.Recent(t)
  {
    if entries == [] then []
    else Keep(entries[..|entries| - 1], call) + if call.Recent(entries[|entries| - 1]) then [entries[|entries| - 1]] else []
  }

  /** The bucket after a call, and whether the call was limited. */
  datatype Served = Served(bucket: seq<int>, limited: bool)

  function Serve(bucket: seq<int>, call: Call): Served {
    var kept := Keep(bucket, call);
    if |kept| >= call.Capacity() then Served(kept, true) else Served(kept + [call.now], false)
  }

  class RateLimiter {
    var buckets: map<string, seq<int>>

    constructor ()
      ensures buckets == map[]
    {
      buckets := map[];
    }

    function Bucket(key: string): seq<int>
      reads this
    {
      if key in buckets then buckets[key] else []
    }

    method IncrementAndCheck(key: string, call: Call) returns (limited: bool)
      modifies this
      ensures limited == Serve(old(Bucket(key)), call).limited
      ensures buckets == old(buckets)[key := Serve(old(Bucket(key)), call).bucket]
    {
      var entries := Bucket(key);
      var kept: seq<int> := [];
      for i := 0 to |entries|
        invariant kept == Keep(entries[..i], call)
      {
        assert entries[..i + 1][..i] == entries[..i];
        if call.Recent(entries[i]) {
          kept := kept + [entries[i]];
        }
      }
      assert entries[..|entries|] == entries;
      if |kept| >= call.Capacity() {
        buckets := buckets[key := kept];
        return true;
      }
      buckets := buckets[key := kept + [call.now]];
      return false;
    }
  }

  // ------------------------------------------------ against the full history

  /** A key's history: the time of every accepted call, and the decision on every call. */
  datatype History = History(accepted: seq<int>, limited: seq<bool>)

  /** The limiter that never forgets: it decides on every call ever accepted. */
  function Judge(h: History, call: Call): History {
    if |Keep(h.accepted, call)| >= call.Capacity() then h.(limited := h.limited + [true])
    else History(h.accepted + [call.now], h.limited + [false])
  }

  function FullRun(calls: seq<Call>): (h: History)
    ensures |h.limited| == |calls|
  {
    if calls == [] then History([], []) else Judge(FullRun(calls[..|calls| - 1]), calls[|calls| - 1])
  }

  /** The limiter as it is: only the bucket survives from call to call. */
  datatype Pruned = Pruned(bucket: seq<int>, limited: seq<bool>)

  function PrunedRun(calls: seq<Call>): (p: Pruned)
    ensures |p.limited| == |calls|
  {
    if calls == [] then Pruned([], [])
    else
      var before := PrunedRun(calls[..|calls| - 1]);
      var served := Serve(before.bucket, calls[|calls| - 1]);
      Pruned(served.bucket, before.limited + [served.limited])
  }

  /** The clock never runs backwards. */
  ghost predicate Monotone(calls: seq<Call>) {
    forall i, j :: 0 <= i < j < |calls| ==> calls[i].now <= calls[j].now
  }

  /** After the first call no window is wider than an earlier one. */
  ghost predicate NeverWidened(calls: seq<Call>) {
    forall i, j :: 1 <= i < j < |calls| ==> calls[j].Window() <= calls[i].Window()
  }

  lemma {:induction false} KeepSplit(a: seq<int>, b: seq<int>, call: Call)
    ensures Keep(a + b, call) == Keep(a, call) + Keep(b, call)
  {
    if b == [] {
      assert a + b == a;
    } else {
      var n, ab := |b| - 1, a + b;
      KeepSplit(a, b[..n], call);
      assert ab[..|ab| - 1] == a + b[..n] && ab[|ab| - 1] == b[n];
      var last := if call.Recent(b[n]) then [b[n]] else [];
      assert Keep(ab, call) == Keep(a + b[..n], call) + last;
      assert Keep(b, call) == Keep(b[..n], call) + last;
      hide Keep;
      Regroup(Keep(a, call), Keep(b[..n], call), last);
    }
  }

  /** What one call prunes is also stale for every later call with no wider window. */
  lemma {:induction false} KeepAgain(entries: seq<int>, first: Call, later: Call)
    requires first.now <= later.now && later.Window() <= first.Window()
    ensures Keep(Keep(entries, first), later) == Keep(entries, later)
  {
    if entries != [] {
      var n := |entries| - 1;
      KeepAgain(entries[..n], first, later);
      var last := if first.Recent(entries[n]) then [entries[n]] else [];
      KeepSplit(Keep(entries[..n], first), last, later);
      assert Keep(last, later) == if later.Recent(entries[n]) then [entries[n]] else [];
    }
  }

  lemma OneMore(calls: seq<Call>, call: Call)
    ensures FullRun(calls + [call]) == Judge(FullRun(calls), call)
    ensures
      var served := Serve(PrunedRun(calls).bucket, call);
      PrunedRun(calls + [call]) == Pruned(served.bucket, PrunedRun(calls).limited + [served.limited])
  {
    assert (calls + [call])[..|calls|] == calls;
  }

  lemma KeepOne(entry: int, call: Call)
    ensures Keep([entry], call) == if call.Recent(entry) then [entry] else []
  {
    assert [entry][..0] == [];
  }

  lemma {:induction false} BucketIsRecentHistory(calls: seq<Call>)
    requires Monotone(calls) && NeverWidened(calls)
    ensures PrunedRun(calls).limited == FullRun(calls).limited
    ensures calls != [] ==> PrunedRun(calls).bucket == Keep(FullRun(calls).accepted, calls[|calls| - 1])
  {
    if calls != [] {
      var n := |calls| - 1;
      assert Monotone(calls[..n]) && NeverWidened(calls[..n]) && calls[..n] + [calls[n]] == calls;
      assert n > 0 ==> calls[n - 1].now <= calls[n].now && (n > 1 ==> calls[n].Window() <= calls[n - 1].Window());
      hide PrunedRun, FullRun, Keep, Monotone, NeverWidened;
      BucketIsRecentHistory(calls[..n]);
      if n > 0 { BucketKept(calls[..n], calls[n]); } else { NothingKept(calls[n]); }
      SameDecision(calls[..n], calls[n]);
    }
  }

  /** A call that finds the same recent entries is decided alike and leaves the same ones. */
  lemma SameDecision(front: seq<Call>, call: Call)
    requires PrunedRun(front).limited == FullRun(front).limited
    requires Keep(PrunedRun(front).bucket, call) == Keep(FullRun(front).accepted, call)
    ensures PrunedRun(front + [call]).limited == FullRun(front + [call]).limited
    ensures PrunedRun(front + [call]).bucket == Keep(FullRun(front + [call]).accepted, call)
  {
    OneMore(front, call);
    hide PrunedRun, FullRun, Keep;
    KeepSplit(FullRun(front).accepted, [call.now], call);
    KeepOne(call.now, call);
  }

  lemma NothingKept(call: Call)
    ensures Keep(PrunedRun([]).bucket, call) == Keep(FullRun([]).accepted, call)
  {
  }

  lemma BucketKept(front: seq<Call>, call: Call)
    requires front != [] && PrunedRun(front).bucket == Keep(FullRun(front).accepted, front[|front| - 1])
    requires front[|front| - 1].now <= call.now
    requires |front| > 1 ==> call.Window() <= front[|front| - 1].Window()
    ensures Keep(PrunedRun(front).bucket, call) == Keep(FullRun(front).accepted, call)
  {
    if |front| == 1 {
      FirstCall(front[0]);
      assert front == [front[0]];
    } else {
      hide PrunedRun, FullRun, Keep;
      KeepAgain(FullRun(front).accepted, front[|front| - 1], call);
    }
  }

  /** The first call finds nothing to prune, whatever its window. */
  lemma FirstCall(call: Call)
    ensures PrunedRun([call]).bucket == FullRun([call]).accepted
  {
    assert [call][..0] == [];
  }

  ghost predicate Agree(calls: seq<Call>) {
    PrunedRun(calls).limited == FullRun(calls).limited
  }

  /** Calls at any times and under any limits, with these windows. */
  ghost predicate Uses(calls: seq<Call>, windows: seq<int>) {
    |calls| == |windows| && forall i :: 0 <= i < |calls| ==> calls[i].windowSeconds == windows[i]
  }

  /** The limits that the rule editor accepts. */
  ghost predicate PositiveLimits(calls: seq<Call>) {
    forall i :: 0 <= i < |calls| ==> calls[i].limitCount > 0
  }

  ghost predicate NoneWidens(windows: seq<int>) {
    forall i, j :: 1 <= i < j < |windows| ==> Nanos(windows[j]) <= Nanos(windows[i])
  }

  /** What is decided once does not depend on later calls. */
  lemma {:induction false} DecisionsStand(calls: seq<Call>, m: nat)
    requires m <= |calls|
    ensures PrunedRun(calls[..m]).limited == PrunedRun(calls).limited[..m]
    ensures FullRun(calls[..m]).limited == FullRun(calls).limited[..m]
    decreases |calls|
  {
    if m == |calls| {
      assert calls[..m] == calls;
    } else {
      var front := calls[..|calls| - 1];
      assert front[..m] == calls[..m];
      DecisionsStand(front, m);
    }
  }

  function Zeros(n: nat): seq<int> {
    if n == 0 then [] else Zeros(n - 1) + [0]
  }

  lemma ZerosCount(n: nat)
    ensures |Zeros(n)| == n
  {
  }

  lemma KeepNone(call: Call)
    ensures Keep([], call) == []
  {
  }

  lemma {:induction false} KeepZeros(n: nat, call: Call)
    ensures Keep(Zeros(n), call) == if call.Recent(0) then Zeros(n) else []
  {
    KeepNone(call);
    hide Keep;
    if n > 0 {
      KeepZeros(n - 1, call);
      KeepSplit(Zeros(n - 1), [0], call);
      KeepOne(0, call);
    }
  }

  /** The first calls come at 0, the others just after the window of the k-th call has passed. */
  function Burst(windows: seq<int>, k: nat): (calls: seq<Call>)
    requires k < |windows|
    ensures |calls| == |windows|
  {
    seq(|windows|, i requires 0 <= i < |windows| =>
      Call(if i < k then 0 else Nanos(windows[k]) + 1, k + 1, windows[i]))
  }

  lemma RunTo(calls: seq<Call>, m: nat)
    requires m < |calls|
    ensures FullRun(calls[..m + 1]) == Judge(FullRun(calls[..m]), calls[m])
    ensures
      var served := Serve(PrunedRun(calls[..m]).bucket, calls[m]);
      PrunedRun(calls[..m + 1]) == Pruned(served.bucket, PrunedRun(calls[..m]).limited + [served.limited])
  {
    hide FullRun, PrunedRun, Serve, Judge;
    assert calls[..m + 1] == calls[..m] + [calls[m]];
    OneMore(calls[..m], calls[m]);
  }

  lemma {:induction false} EarlyCalls(windows: seq<int>, k: nat, m: nat)
    requires m <= k < |windows|
    ensures PrunedRun(Burst(windows, k)[..m]).bucket == FullRun(Burst(windows, k)[..m]).accepted == Zeros(m)
    decreases m
  {
    hide Burst, Keep, Call.Recent, Call.Capacity, Nanos;
    var calls := Burst(windows, k);
    if m == 0 {
      assert calls[..0] == [];
    } else {
      hide FullRun, PrunedRun;
      EarlyCall(windows, k, m - 1);
      EarlyCalls(windows, k, m - 1);
      RunTo(calls, m - 1);
      KeepZeros(m - 1, calls[m - 1]);
      ZerosCount(m - 1);
    }
  }

  lemma EarlyCall(windows: seq<int>, k: nat, i: nat)
    requires i < k < |windows|
    ensures
      var call := Burst(windows, k)[i];
      call.now == 0 && call.Recent(0) && call.Capacity() == k + 1
  {
  }

  /** The k-th call prunes the early ones from the bucket. */
  lemma KthCall(windows: seq<int>, k: nat)
    requires k < |windows|
    ensures PrunedRun(Burst(windows, k)[..k + 1]).bucket == [Nanos(windows[k]) + 1]
    ensures FullRun(Burst(windows, k)[..k + 1]).accepted == Zeros(k) + [Nanos(windows[k]) + 1]
  {
    var calls := Burst(windows, k);
    var call := calls[k];
    assert !call.Recent(0);
    EarlyCalls(windows, k, k);
    RunTo(calls, k);
    hide Burst, FullRun, PrunedRun, Keep;
    KeepZeros(k, call);
  }

  lemma NextSeesAll(window: int, next: Call)
    requires next.now == Nanos(window) + 1 && Nanos(window) < Nanos(next.windowSeconds)
    ensures next.Recent(0) && next.Recent(next.now)
  {
  }

  /** With the wider window of the next call the history counts the early ones again. */
  lemma LateCalls(windows: seq<int>, k: nat)
    requires 1 <= k && k + 1 < |windows| && Nanos(windows[k]) < Nanos(windows[k + 1])
    ensures !PrunedRun(Burst(windows, k)[..k + 2]).limited[k + 1] && FullRun(Burst(windows, k)[..k + 2]).limited[k + 1]
  {
    hide FullRun, PrunedRun, Keep, Zeros, Nanos;
    var calls := Burst(windows, k);
    var now, next := Nanos(windows[k]) + 1, calls[k + 1];
    assert next.Capacity() == k + 1;
    NextSeesAll(windows[k], next);
    KthCall(windows, k);
    RunTo(calls, k + 1);
    hide Burst;
    KeepZeros(k, next);
    ZerosCount(k);
    KeepSplit(Zeros(k), [now], next);
    KeepOne(now, next);
  }

  /**
   A window that widens after the first call makes the two differ, even under one
   positive limit for all calls: the bucket has forgotten what the history counts.
   */
  lemma WideningForgets(windows: seq<int>, k: nat) returns (calls: seq<Call>)
    requires 1 <= k && k + 1 < |windows| && Nanos(windows[k]) < Nanos(windows[k + 1])
    ensures Uses(calls, windows) && Monotone(calls) && PositiveLimits(calls) && !Agree(calls)
    ensures forall i :: 0 <= i < |calls| ==> calls[i].limitCount == k + 1
  {
    calls := Burst(windows, k);
    BurstFits(windows, k);
    hide PrunedRun, FullRun, Burst;
    LateCalls(windows, k);
    DecisionsStand(calls, k + 2);
    assert PrunedRun(calls).limited[..k + 2][k + 1] == PrunedRun(calls).limited[k + 1];
    assert FullRun(calls).limited[..k + 2][k + 1] == FullRun(calls).limited[k + 1];
  }

  lemma BurstFits(windows: seq<int>, k: nat)
    requires k < |windows|
    ensures
      var calls := Burst(windows, k);
      && Uses(calls, windows) && Monotone(calls) && PositiveLimits(calls)
      && forall i :: 0 <= i < |calls| ==> calls[i].limitCount == k + 1
  {
    var calls := Burst(windows, k);
    assert forall i :: 0 <= i < |calls| ==> calls[i].now == if i < k then 0 else Nanos(windows[k]) + 1;
  }

  lemma {:induction false} FindWidening(windows: seq<int>, i: nat, j: nat) returns (k: nat)
    requires i < j < |windows| && Nanos(windows[i]) < Nanos(windows[j])
    ensures i <= k < j && Nanos(windows[k]) < Nanos(windows[k + 1])
    decreases j - i
  {
    if Nanos(windows[i]) < Nanos(windows[i + 1]) {
      k := i;
    } else {
      k := FindWidening(windows, i + 1, j);
    }
  }

  lemma UsesNeverWidened(calls: seq<Call>, windows: seq<int>)
    requires NoneWidens(windows) && Uses(calls, windows)
    ensures NeverWidened(calls)
  {
  }

  /**
   Forgetting pruned entries changes no decision, for every monotone clock and all
   limits, positive or not, exactly when no window after the first call is wider than an earlier one.
   */
  lemma PruningChangesNoDecision(windows: seq<int>)
    ensures (forall calls :: Uses(calls, windows) && Monotone(calls) ==> Agree(calls)) <==> NoneWidens(windows)
    ensures (forall calls :: Uses(calls, windows) && Monotone(calls) && PositiveLimits(calls) ==> Agree(calls))
       <==> NoneWidens(windows)
  {
    if NoneWidens(windows) {
      forall calls | Uses(calls, windows) && Monotone(calls) ensures Agree(calls) {
        UsesNeverWidened(calls, windows);
        BucketIsRecentHistory(calls);
      }
    } else {
      var i: nat, j: nat :| 1 <= i < j < |windows| && Nanos(windows[i]) < Nanos(windows[j]);
      var k := FindWidening(windows, i, j);
      var calls := WideningForgets(windows, k);
    }
  }

  // ---------------------------------------------------------- the guarantee

  /** How many entries lie in the closed interval from `low` to `high`. */
  function CountWithin(entries: seq<int>, low: int, high: int): (n: nat)
    ensures n <= |entries|
  {
    if entries == [] then 0
    else
      var last := entries[|entries| - 1];
      CountWithin(entries[..|entries| - 1], low, high) + if low <= last <= high then 1 else 0
  }

  ghost predicate FixedRule(calls: seq<Call>, limit: nat, windowSeconds: nat) {
    forall i :: 0 <= i < |calls| ==> calls[i].limitCount == limit && calls[i].windowSeconds == windowSeconds
  }

  lemma {:induction false} RecentCoversInterval(entries: seq<int>, call: Call, low: int, high: int)
    requires low <= call.now <= low + call.Window()
    ensures CountWithin(entries, low, high) <= |Keep(entries, call)|
  {
    if entries != [] {
      RecentCoversInterval(entries[..|entries| - 1], call, low, high);
    }
  }

  lemma AcceptKeepsLimit(h: History, call: Call, limit: nat, low: int)
    requires call.Capacity() == limit && CountWithin(h.accepted, low, low + call.Window()) <= limit
    ensures CountWithin(Judge(h, call).accepted, low, low + call.Window()) <= limit
  {
    var longer := h.accepted + [call.now];
    assert longer[..|longer| - 1] == h.accepted;
    if low <= call.now <= low + call.Window() {
      RecentCoversInterval(h.accepted, call, low, low + call.Window());
    }
  }

  ghost predicate SameRule(calls: seq<Call>, limit: nat, window: nat) {
    forall i :: 0 <= i < |calls| ==> calls[i].Capacity() == limit && calls[i].Window() == window
  }

  lemma LimitStep(front: seq<Call>, call: Call, limit: nat, window: nat, low: int)
    requires call.Capacity() == limit && call.Window() == window
    requires CountWithin(FullRun(front).accepted, low, low + window) <= limit
    ensures CountWithin(FullRun(front + [call]).accepted, low, low + window) <= limit
  {
    hide FullRun, Judge, CountWithin;
    OneMore(front, call);
    AcceptKeepsLimit(FullRun(front), call, limit, low);
  }

  lemma {:induction false} NeverMoreWithin(calls: seq<Call>, limit: nat, window: nat, low: int)
    requires SameRule(calls, limit, window)
    ensures CountWithin(FullRun(calls).accepted, low, low + window) <= limit
  {
    if calls != [] {
      var n := |calls| - 1;
      assert calls[..n] + [calls[n]] == calls;
      assert SameRule(calls[..n], limit, window);
      hide FullRun, CountWithin;
      NeverMoreWithin(calls[..n], limit, window, low);
      LimitStep(calls[..n], calls[n], limit, window, low);
    }
  }

  lemma FixedIsSame(calls: seq<Call>, limit: nat, windowSeconds: nat)
    requires FixedRule(calls, limit, windowSeconds)
    ensures SameRule(calls, limit, Nanos(windowSeconds))
  {
  }

  /**
   Under a fixed rule no closed interval as long as the window ever holds more
   accepted calls than the limit, wherever the interval starts.
   */
  lemma NeverMoreThanLimit(calls: seq<Call>, limit: nat, windowSeconds: nat, low: int)
    requires FixedRule(calls, limit, windowSeconds)
    ensures CountWithin(FullRun(calls).accepted, low, low + windowSeconds * NANOS_PER_SECOND) <= limit
  {
    assert Nanos(windowSeconds) == windowSeconds * NANOS_PER_SECOND;
    hide FullRun, CountWithin, FixedRule, SameRule, Nanos;
    FixedIsSame(calls, limit, windowSeconds);
    NeverMoreWithin(calls, limit, Nanos(windowSeconds), low);
  }

  /** The same guarantee for the calls the real limiter lets through. */
  lemma RealLimiterHonoursLimit(calls: seq<Call>, limit: nat, windowSeconds: nat, low: int)
    requires Monotone(calls) && FixedRule(calls, limit, windowSeconds)
    ensures CountWithin(Admitted(calls, PrunedRun(calls).limited), low, low + windowSeconds * NANOS_PER_SECOND) <= limit
  {
    BucketIsRecentHistory(calls);
    AdmittedIsAccepted(calls);
    hide PrunedRun, FullRun, Admitted;
    NeverMoreThanLimit(calls, limit, windowSeconds, low);
  }

  /** The times of the calls that were not limited. */
  function Admitted(calls: seq<Call>, limited: seq<bool>): seq<int>
    requires |limited| == |calls|
  {
    if calls == [] then []
    else
      var n := |calls| - 1;
      Admitted(calls[..n], limited[..n]) + if limited[n] then [] else [calls[n].now]
  }

  lemma {:induction false} AdmittedIsAccepted(calls: seq<Call>)
    ensures Admitted(calls, FullRun(calls).limited) == FullRun(calls).accepted
  {
    if calls != [] {
      var n := |calls| - 1;
      AdmittedIsAccepted(calls[..n]);
      assert FullRun(calls).limited[..n] == FullRun(calls[..n]).limited;
    }
  }

  // --------------------------------------------------------- exact decisions

  /** With no entry after the call, the entries it keeps are those in the closed interval before it. */
  lemma {:induction false} KeepCounts(entries: seq<int>, call: Call)
    requires forall i :: 0 <= i < |entries| ==> entries[i] <= call.now
    ensures |Keep(entries, call)| == CountWithin(entries, call.now - call.Window(), call.now)
  {
    if entries != [] {
      KeepCounts(entries[..|entries| - 1], call);
    }
  }

  lemma {:induction false} AdmittedAreEarlier(calls: seq<Call>, limited: seq<bool>, now: int)
    requires |limited| == |calls| && forall i :: 0 <= i < |calls| ==> calls[i].now <= now
    ensures forall i :: 0 <= i < |Admitted(calls, limited)| ==> Admitted(calls, limited)[i] <= now
  {
    if calls != [] {
      var n := |calls| - 1;
      AdmittedAreEarlier(calls[..n], limited[..n], now);
    }
  }

  /** How many of the admitted calls lie in the closed interval that ends at this call. */
  function Seen(calls: seq<Call>, limited: seq<bool>, i: nat): nat
    requires |limited| == |calls| && i < |calls|
  {
    var seconds := if calls[i].windowSeconds < 0 then 60 else calls[i].windowSeconds;
    CountWithin(Admitted(calls[..i], limited[..i]), calls[i].now - seconds * 1_000_000_000, calls[i].now)
  }

  lemma SeenInWindow(calls: seq<Call>, limited: seq<bool>, i: nat)
    requires |limited| == |calls| && i < |calls|
    ensures Seen(calls, limited, i)
         == CountWithin(Admitted(calls[..i], limited[..i]), calls[i].now - calls[i].Window(), calls[i].now)
  {
  }

  lemma DecidedHere(calls: seq<Call>, i: nat)
    requires i < |calls|
    ensures FullRun(calls).limited[..i] == FullRun(calls[..i]).limited
    ensures FullRun(calls).limited[i] == (|Keep(FullRun(calls[..i]).accepted, calls[i])| >= calls[i].Capacity())
  {
    hide PrunedRun, FullRun, Keep, Serve;
    RunTo(calls, i);
    DecisionsStand(calls, i);
    DecisionsStand(calls, i + 1);
    var all, here := FullRun(calls).limited, FullRun(calls[..i + 1]).limited;
    assert all[..i + 1][i] == all[i] && |calls[..i]| == i;
    assert here[i] == (|Keep(FullRun(calls[..i]).accepted, calls[i])| >= calls[i].Capacity());
  }

  lemma AcceptedAreEarlier(front: seq<Call>, now: int)
    requires forall i :: 0 <= i < |front| ==> front[i].now <= now
    ensures forall i :: 0 <= i < |FullRun(front).accepted| ==> FullRun(front).accepted[i] <= now
  {
    AdmittedIsAccepted(front);
    AdmittedAreEarlier(front, FullRun(front).limited, now);
  }

  lemma KeptInWindow(calls: seq<Call>, i: nat)
    requires Monotone(calls) && i < |calls|
    ensures
      var accepted := FullRun(calls[..i]).accepted;
      |Keep(accepted, calls[i])| == CountWithin(accepted, calls[i].now - calls[i].Window(), calls[i].now)
  {
    hide FullRun, Keep, Admitted, CountWithin, Nanos;
    assert forall j :: 0 <= j < i ==> calls[..i][j].now <= calls[i].now;
    hide Monotone;
    AcceptedAreEarlier(calls[..i], calls[i].now);
    KeepCounts(FullRun(calls[..i]).accepted, calls[i]);
  }

  /** The full history limits a call exactly when the calls admitted in the window before it have used up the limit. */
  lemma FullDecision(calls: seq<Call>, i: nat)
    requires Monotone(calls) && i < |calls|
    ensures FullRun(calls).limited[i]
       <==> Seen(calls, FullRun(calls).limited, i)
            >= if calls[i].limitCount < 0 then 0xFFFF_FFFF_FFFF_FFFF else calls[i].limitCount
  {
    hide FullRun, Keep, Admitted, CountWithin, Monotone, Seen, Nanos;
    SeenInWindow(calls, FullRun(calls).limited, i);
    DecidedHere(calls, i);
    AdmittedIsAccepted(calls[..i]);
    KeptInWindow(calls, i);
  }

  /**
   The limiter's decision, exactly: with a monotone clock, and no window after the
   first call wider than an earlier one, a call is limited if and only if the calls
   it admitted in the window before the call have used up the limit.
   */
  lemma DecisionIsExact(calls: seq<Call>, i: nat)
    requires Monotone(calls) && NeverWidened(calls) && i < |calls|
    ensures PrunedRun(calls).limited[i]
       <==> Seen(calls, PrunedRun(calls).limited, i)
            >= if calls[i].limitCount < 0 then 0xFFFF_FFFF_FFFF_FFFF else calls[i].limitCount
  {
    BucketIsRecentHistory(calls);
    FullDecision(calls, i);
  }

  /** Under a fixed rule a call is limited exactly when `limit` calls were admitted in the window before it. */
  lemma FixedRuleDecision(calls: seq<Call>, limit: nat, windowSeconds: nat, i: nat)
    requires Monotone(calls) && FixedRule(calls, limit, windowSeconds) && i < |calls|
    ensures
      var admitted := Admitted(calls[..i], PrunedRun(calls).limited[..i]);
      PrunedRun(calls).limited[i]
      <==> CountWithin(admitted, calls[i].now - windowSeconds * 1_000_000_000, calls[i].now) >= limit
  {
    hide PrunedRun, CountWithin, Admitted, FixedRule, NeverWidened, Monotone, Seen;
    FixedIsNotWidened(calls, limit, windowSeconds, i);
    SeenFixed(calls, PrunedRun(calls).limited, i);
    DecisionIsExact(calls, i);
  }

  lemma SeenFixed(calls: seq<Call>, limited: seq<bool>, i: nat)
    requires |limited| == |calls| && i < |calls| && calls[i].windowSeconds >= 0
    ensures
      Seen(calls, limited, i)
      == CountWithin(Admitted(calls[..i], limited[..i]),
                     calls[i].now - calls[i].windowSeconds * 1_000_000_000, calls[i].now)
  {
  }

  lemma FixedIsNotWidened(calls: seq<Call>, limit: nat, windowSeconds: nat, i: nat)
    requires FixedRule(calls, limit, windowSeconds) && i < |calls|
    ensures NeverWidened(calls) && calls[i].limitCount == limit && calls[i].windowSeconds == windowSeconds
  {
  }
}
