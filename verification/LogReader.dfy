/**
 A reader that polls the log of a run while the writer appends rows and deletes
 the oldest ones. Each statement of the writer and each poll is one step.
 */
module LogReader {
  import opened Wrappers
  import opened RollingLog

  const DETAIL_CHUNK_LIMIT := 1000

  /**
   `table` holds the stored rows and `ever` every row ever inserted. `after` is the
   last number the reader saw, 0 at first, and `seen` the rows it was given. `passed`
   collects the numbers that were deleted before the reader reached them.
   */
  datatype State = State(table: seq<LogRow>, ever: seq<LogRow>, after: int, seen: seq<LogRow>, passed: set<int>)

  datatype Event = Append(rows: seq<LogRow>) | Drop(through: int) | Poll

  function Init(): State {
    State([], [], 0, [], {})
  }

  /** The oldest rows after `after`, at most a thousand. */
  function Chunk(table: seq<LogRow>, after: int): seq<LogRow> {
    var rows := Beyond(table, after);
    if |rows| > DETAIL_CHUNK_LIMIT then rows[..DETAIL_CHUNK_LIMIT] else rows
  }

  function LastSeq(rows: seq<LogRow>, default: int): int {
    if rows == [] then default else rows[|rows| - 1].seqNo
  }

  /** The numbers still stored and not reached that a delete through `through` takes away. */
  function TakenAway(table: seq<LogRow>, after: int, through: int): set<int> {
    set row | row in table && after < row.seqNo <= through :: row.seqNo
  }

  /** New rows are numbered upwards from the last one. */
  ghost predicate Continues(ever: seq<LogRow>, rows: seq<LogRow>) {
    Ascending(rows) && forall row :: row in rows ==> LastSeq(ever, 0) < row.seqNo
  }

  ghost function Step(s: State, e: Event): Option<State> {
    match e
    case Append(rows) =>
      if Continues(s.ever, rows) then Some(s.(table := s.table + rows, ever := s.ever + rows)) else None
    case Drop(through) =>
      Some(s.(table := Beyond(s.table, through), passed := s.passed + TakenAway(s.table, s.after, through)))
    case Poll =>
      var chunk := Chunk(s.table, s.after);
      Some(s.(after := LastSeq(chunk, s.after), seen := s.seen + chunk))
  }

  ghost function After(s: State, events: seq<Event>): Option<State>
    decreases |events|
  {
    if events == [] then Some(s)
    else
      var next := Step(s, events[0]);
      if next.None? then None else After(next.value, events[1..])
  }

  ghost predicate Reachable(s: State) {
    exists events :: After(Init(), events) == Some(s)
  }

  // ------------------------------------------------------------- invariant

  predicate Numbers(ever: seq<LogRow>) {
    Ascending(ever) && forall row :: row in ever ==> 0 < row.seqNo
  }

  /** The log is cut at `low`, the rows before it deleted, and the reader is at `at`. */
  ghost predicate Cut(s: State, low: nat, at: nat) {
    && low <= |s.ever| && s.table == s.ever[low..]
    && at <= |s.ever| && s.after == LastSeq(s.ever[..at], 0)
    && s.seen == Without(s.ever[..at], s.passed)
    && (forall i :: at <= i < |s.ever| ==> (s.ever[i].seqNo in s.passed <==> i < low))
    && (forall n :: n in s.passed ==> n <= LastSeq(s.ever, 0))
  }

  ghost predicate Inv(s: State) {
    Numbers(s.ever) && exists low, at :: Cut(s, low, at)
  }

  lemma NumbersInOrder(ever: seq<LogRow>, i: nat, j: nat)
    requires Numbers(ever) && i <= j <= |ever|
    ensures LastSeq(ever[..i], 0) <= LastSeq(ever[..j], 0)
    ensures j < |ever| ==> LastSeq(ever[..i], 0) < ever[j].seqNo
  {
    if j < |ever| { assert ever[j] in ever; }
    if j > 0 { assert ever[j - 1] in ever; }
  }

  lemma AppendKeepsNumbers(ever: seq<LogRow>, rows: seq<LogRow>)
    requires Numbers(ever) && Continues(ever, rows)
    ensures Numbers(ever + rows) && LastSeq(ever, 0) <= LastSeq(ever + rows, 0)
    ensures forall i :: |ever| <= i < |ever + rows| ==> LastSeq(ever, 0) < (ever + rows)[i].seqNo
  {
    var n, all := |ever|, ever + rows;
    if n > 0 { assert ever[n - 1] in ever; }
    forall i | n <= i < |all| ensures LastSeq(ever, 0) < all[i].seqNo {
      assert all[i] == rows[i - n] && rows[i - n] in rows;
    }
    forall i, j | 0 <= i < j < |all| ensures all[i].seqNo < all[j].seqNo {
      if i < n <= j {
        assert ever[i].seqNo <= LastSeq(ever, 0);
      }
    }
  }

  lemma AppendKeepsInv(s: State, rows: seq<LogRow>, low: nat, at: nat)
    requires Numbers(s.ever) && Cut(s, low, at) && Continues(s.ever, rows)
    ensures var t := Step(s, Append(rows)).value; Numbers(t.ever) && Cut(t, low, at)
  {
    hide Without;
    AppendKeepsNumbers(s.ever, rows);
    SliceConcat(s.ever, rows, low, at);
    AppendKeepsPassed(s.ever, rows, s.passed, low, at);
    hide Continues, Numbers, LastSeq;
  }

  lemma SliceConcat<T>(a: seq<T>, b: seq<T>, low: nat, at: nat)
    requires low <= |a| && at <= |a|
    ensures (a + b)[..at] == a[..at] && (a + b)[low..] == a[low..] + b
  {
  }

  lemma AppendKeepsPassed(ever: seq<LogRow>, rows: seq<LogRow>, passed: set<int>, low: nat, at: nat)
    requires Numbers(ever) && Continues(ever, rows) && low <= |ever|
    requires forall i :: at <= i < |ever| ==> (ever[i].seqNo in passed <==> i < low)
    requires forall n :: n in passed ==> n <= LastSeq(ever, 0)
    ensures forall i :: at <= i < |ever + rows| ==> ((ever + rows)[i].seqNo in passed <==> i < low)
  {
    AppendKeepsNumbers(ever, rows);
  }

  lemma {:induction false} FindCut(rows: seq<LogRow>, through: int) returns (k: nat)
    requires Ascending(rows)
    ensures k <= |rows| && (k > 0 ==> rows[k - 1].seqNo <= through) && (k < |rows| ==> through < rows[k].seqNo)
    decreases |rows|
  {
    if rows == [] || rows[|rows| - 1].seqNo <= through {
      k := |rows|;
    } else {
      k := FindCut(rows[..|rows| - 1], through);
    }
  }

  lemma TakenIsBelow(s: State, through: int, low: nat, k: nat, i: nat)
    requires Ascending(s.ever) && low <= |s.ever| && s.table == s.ever[low..] && low <= i < |s.ever|
    requires k <= |s.table| && (k > 0 ==> s.table[k - 1].seqNo <= through) && (k < |s.table| ==> through < s.table[k].seqNo)
    requires s.after < s.ever[i].seqNo
    ensures s.ever[i].seqNo in TakenAway(s.table, s.after, through) <==> i < low + k
  {
    assert s.ever[i] == s.table[i - low] && s.table[i - low] in s.table;
    if i < low + k {
      assert s.table[i - low].seqNo <= through;
    } else {
      assert through < s.table[i - low].seqNo;
    }
  }

  lemma TakenWasUnread(s: State, through: int, low: nat, at: nat)
    requires Numbers(s.ever) && Cut(s, low, at)
    ensures Without(s.ever[..at], s.passed + TakenAway(s.table, s.after, through)) == s.seen
  {
    var read, taken := s.ever[..at], TakenAway(s.table, s.after, through);
    forall i | 0 <= i < at ensures read[i].seqNo !in taken {
      assert i < at - 1 ==> s.ever[i].seqNo < s.ever[at - 1].seqNo;
    }
    WithoutMore(read, s.passed, taken);
  }

  lemma DropKeepsInv(s: State, through: int, low: nat, at: nat) returns (lower: nat)
    requires Numbers(s.ever) && Cut(s, low, at)
    ensures Cut(Step(s, Drop(through)).value, lower, at)
  {
    hide Without, Beyond, LastSeq, TakenAway, Numbers, Ascending;
    TakenWasUnread(s, through, low, at);
    EndAscends(s.ever, low);
    var k := FindCut(s.table, through);
    BeyondIsEnd(s.table, through, k);
    DropTwice(s.ever, low, k);
    lower := low + k;
    TakenIsOld(s, through);
    DropKeepsPassed(s, through, low, at, k);
  }

  lemma EndAscends(rows: seq<LogRow>, low: nat)
    requires Numbers(rows) && low <= |rows|
    ensures Ascending(rows) && Ascending(rows[low..])
  {
  }

  lemma DropKeepsPassed(s: State, through: int, low: nat, at: nat, k: nat)
    requires Numbers(s.ever) && Cut(s, low, at)
    requires k <= |s.table| && (k > 0 ==> s.table[k - 1].seqNo <= through) && (k < |s.table| ==> through < s.table[k].seqNo)
    ensures forall i :: at <= i < |s.ever| ==>
              (s.ever[i].seqNo in s.passed + TakenAway(s.table, s.after, through) <==> i < low + k)
  {
    forall i | at <= i < |s.ever|
      ensures s.ever[i].seqNo in s.passed + TakenAway(s.table, s.after, through) <==> i < low + k
    {
      NumbersInOrder(s.ever, at, i);
      hide LastSeq, TakenAway;
      if low <= i {
        TakenIsBelow(s, through, low, k, i);
      } else {
        assert s.ever[i].seqNo in s.passed;
      }
    }
  }

  lemma TakenIsOld(s: State, through: int)
    requires Ascending(s.ever) && (forall row :: row in s.table ==> row in s.ever)
    ensures forall n :: n in TakenAway(s.table, s.after, through) ==> n <= LastSeq(s.ever, 0)
  {
    forall row | row in s.table ensures row.seqNo <= LastSeq(s.ever, 0) {
      var i :| 0 <= i < |s.ever| && s.ever[i] == row;
    }
  }

  lemma ChunkOf(s: State, from: nat) returns (to: nat)
    requires from <= |s.ever| && Beyond(s.table, s.after) == s.ever[from..]
    ensures from <= to <= |s.ever| && Chunk(s.table, s.after) == s.ever[from..to]
    ensures to == |s.ever| || to == from + DETAIL_CHUNK_LIMIT
  {
    hide Beyond;
    to := if |s.ever| - from > DETAIL_CHUNK_LIMIT then from + DETAIL_CHUNK_LIMIT else |s.ever|;
    assert s.ever[from..to] == if to == |s.ever| then s.ever[from..] else s.ever[from..][..DETAIL_CHUNK_LIMIT];
  }

  lemma BeyondReader(s: State, low: nat, at: nat)
    requires Numbers(s.ever) && Cut(s, low, at)
    ensures Beyond(s.table, s.after) == s.ever[if at < low then low else at..]
  {
    assert Ascending(s.table);
    hide Without, Beyond;
    var from := if at < low then low else at;
    if from < |s.ever| { NumbersInOrder(s.ever, at, from); }
    BeyondIsEnd(s.table, s.after, from - low);
    assert s.table[from - low..] == s.ever[from..];
  }

  /** Where a poll leaves the reader: after the chunk, which starts where both the log and the reader allow. */
  lemma PollReads(s: State, low: nat, at: nat) returns (from: nat, to: nat)
    requires Numbers(s.ever) && Cut(s, low, at)
    ensures from == (if at < low then low else at) && from <= to <= |s.ever|
    ensures Beyond(s.table, s.after) == s.ever[from..] && Chunk(s.table, s.after) == s.ever[from..to]
    ensures to == |s.ever| || to == from + DETAIL_CHUNK_LIMIT
  {
    from := if at < low then low else at;
    BeyondReader(s, low, at);
    hide Beyond, Without, Chunk, Numbers;
    to := ChunkOf(s, from);
  }

  lemma SeenGrows(ever: seq<LogRow>, passed: set<int>, low: nat, at: nat, from: nat, to: nat)
    requires at <= from <= to <= |ever| && low <= from && (from == at || from == low)
    requires forall i :: at <= i < |ever| ==> (ever[i].seqNo in passed <==> i < low)
    ensures Without(ever[..to], passed) == Without(ever[..at], passed) + ever[from..to]
  {
    hide Without;
    var skipped, chunk := ever[at..from], ever[from..to];
    WithoutAll(skipped, passed);
    WithoutNone(chunk, passed);
    SplitPrefix(ever, at, from);
    SplitPrefix(ever, from, to);
    WithoutConcat(ever[..at], skipped, passed);
    WithoutConcat(ever[..from], chunk, passed);
  }

  lemma SplitPrefix<T>(s: seq<T>, i: nat, j: nat)
    requires i <= j <= |s|
    ensures s[..j] == s[..i] + s[i..j]
  {
  }

  lemma PollKeepsInv(s: State, low: nat, at: nat) returns (from: nat, to: nat, next: nat)
    requires Numbers(s.ever) && Cut(s, low, at)
    ensures Cut(Step(s, Poll).value, low, next)
    ensures low <= from <= to <= |s.ever| && Beyond(s.table, s.after) == s.ever[from..]
    ensures to == |s.ever| || to == from + 1000
    ensures if from == to then next == at && (from == at || from == low > at) else next == to
  {
    from, to := PollReads(s, low, at);
    hide Without, Beyond, Chunk, Ascending;
    next := if from == to then at else to;
    if from < to {
      SeenGrows(s.ever, s.passed, low, at, from, to);
      LastOfSlice(s.ever, from, to, s.after);
    }
  }

  lemma LastOfSlice(rows: seq<LogRow>, from: nat, to: nat, default: int)
    requires from < to <= |rows|
    ensures LastSeq(rows[from..to], default) == LastSeq(rows[..to], 0)
  {
  }

  lemma StepKeepsInv(s: State, e: Event, t: State)
    requires Inv(s) && Step(s, e) == Some(t)
    ensures Inv(t)
  {
    var low: nat, at: nat :| Cut(s, low, at);
    hide Cut;
    match e {
      case Append(rows) => AppendKeepsInv(s, rows, low, at);
      case Drop(through) => var lower := DropKeepsInv(s, through, low, at);
      case Poll => var _, _, next := PollKeepsInv(s, low, at);
    }
  }

  lemma {:induction false} RunKeepsInv(s: State, events: seq<Event>, t: State)
    requires Inv(s) && After(s, events) == Some(t)
    ensures Inv(t)
    decreases |events|
  {
    if events != [] {
      var next := Step(s, events[0]).value;
      hide Inv, Step;
      StepKeepsInv(s, events[0], next);
      RunKeepsInv(next, events[1..], t);
    }
  }

  lemma ReachableInv(s: State)
    requires Reachable(s)
    ensures Inv(s)
  {
    var events :| After(Init(), events) == Some(s);
    assert Cut(Init(), 0, 0);
    RunKeepsInv(Init(), events, s);
  }

  // -------------------------------------------------------------- promises

  lemma AscendingSnoc(rows: seq<LogRow>, last: LogRow)
    requires Ascending(rows) && forall row :: row in rows ==> row.seqNo < last.seqNo
    ensures Ascending(rows + [last])
  {
  }

  lemma {:induction false} WithoutAscends(rows: seq<LogRow>, passed: set<int>)
    requires Ascending(rows)
    ensures Ascending(Without(rows, passed))
    decreases |rows|
  {
    if rows != [] {
      var before, last := rows[..|rows| - 1], rows[|rows| - 1];
      WithoutAscends(before, passed);
      if last.seqNo !in passed {
        forall row | row in Without(before, passed) ensures row.seqNo < last.seqNo {
          WithoutMember(before, passed, row);
        }
        AscendingSnoc(Without(before, passed), last);
      } else {
        assert Without(before, passed) + [] == Without(before, passed);
      }
    }
  }

  lemma ReadUpTo(ever: seq<LogRow>, at: nat, row: LogRow)
    requires Numbers(ever) && at <= |ever|
    ensures row in ever[..at] <==> row in ever && row.seqNo <= LastSeq(ever[..at], 0)
  {
    if row in ever {
      var i :| 0 <= i < |ever| && ever[i] == row;
      if i < at {
        assert ever[..at][i] == row;
        assert i < at - 1 ==> ever[i].seqNo < ever[at - 1].seqNo;
      } else {
        NumbersInOrder(ever, at, i);
      }
    }
  }

  /**
   The reader sees strictly ascending numbers, so nothing twice, and of the rows up
   to where it is exactly those that were not deleted before it reached them.
   */
  lemma ReaderSees(s: State)
    requires Reachable(s)
    ensures Ascending(s.seen)
    ensures forall row :: row in s.seen <==> row in s.ever && row.seqNo <= s.after && row.seqNo !in s.passed
  {
    ReachableInv(s);
    var low: nat, at: nat :| Cut(s, low, at);
    hide Without, LastSeq;
    var read := s.ever[..at];
    WithoutAscends(read, s.passed);
    forall row ensures row in s.seen <==> row in s.ever && row.seqNo <= s.after && row.seqNo !in s.passed {
      WithoutMember(read, s.passed, row);
      ReadUpTo(s.ever, at, row);
    }
  }

  /** The step after the first `k` deletes number `n` before the reader has reached it. */
  ghost predicate DropsUnread(s: State, events: seq<Event>, k: nat, n: int) {
    && k < |events| && events[k].Drop? && n <= events[k].through
    && After(s, events[..k]).Some? && After(s, events[..k]).value.after < n
  }

  lemma {:induction false} PassedWasDropped(s: State, events: seq<Event>, t: State, n: int) returns (k: nat)
    requires After(s, events) == Some(t) && n in t.passed && n !in s.passed
    ensures DropsUnread(s, events, k, n)
    decreases |events|
  {
    var next := Step(s, events[0]).value;
    if n in next.passed {
      k := 0;
    } else {
      k := PassedWasDropped(next, events[1..], t, n);
      assert events[..k + 1][1..] == events[1..][..k];
      k := k + 1;
    }
  }

  /** Whatever the reader missed was deleted, in the same run, before the reader reached it. */
  lemma MissedWasDropped(events: seq<Event>, s: State, row: LogRow) returns (k: nat)
    requires After(Init(), events) == Some(s)
    requires row in s.ever && row.seqNo <= s.after && row !in s.seen
    ensures DropsUnread(Init(), events, k, row.seqNo)
  {
    ReaderSees(s);
    k := PassedWasDropped(Init(), events, s, row.seqNo);
  }

  lemma DeletedUnread(s: State, low: nat, at: nat)
    requires Cut(s, low, at) && at < low
    ensures s.ever[at].seqNo in s.passed
  {
  }

  lemma NothingLeft(s: State, low: nat, at: nat)
    requires Numbers(s.ever) && Cut(s, low, at) && s.passed == {} && Beyond(s.table, s.after) == []
    ensures at == |s.ever|
  {
    hide Cut;
    var from, to := PollReads(s, low, at);
    if at < low { DeletedUnread(s, low, at); }
  }

  /** A reader that nothing was deleted from and that has caught up has the whole log. */
  lemma CompleteReader(s: State)
    requires Reachable(s) && s.passed == {} && Beyond(s.table, s.after) == []
    ensures s.seen == s.ever
  {
    ReachableInv(s);
    var low: nat, at: nat :| Cut(s, low, at);
    NothingLeft(s, low, at);
    assert s.ever[..|s.ever|] == s.ever;
    hide Beyond, LastSeq, Ascending;
    WithoutNone(s.ever, {});
  }

  lemma PollLeaves(s: State, low: nat, at: nat)
    requires Numbers(s.ever) && Cut(s, low, at)
    ensures
      var t := Step(s, Poll).value;
      var behind := |Beyond(s.table, s.after)|;
      |Beyond(t.table, t.after)| == if behind > 1000 then behind - 1000 else 0
  {
    var t := Step(s, Poll).value;
    var from, to, next := PollKeepsInv(s, low, at);
    hide Cut, Without, Beyond, Chunk, Numbers;
    var nextFrom, _ := PollReads(t, low, next);
    assert nextFrom == to;
  }

  /** Every poll brings the reader a thousand rows nearer to the end of the log, or there. */
  lemma PollAdvances(s: State)
    requires Reachable(s)
    ensures
      var t := Step(s, Poll).value;
      var behind := |Beyond(s.table, s.after)|;
      |Beyond(t.table, t.after)| == if behind > 1000 then behind - 1000 else 0
  {
    ReachableInv(s);
    var low: nat, at: nat :| Cut(s, low, at);
    hide Cut, Step;
    PollLeaves(s, low, at);
  }

  // ------------------------------------------------------------ the writer

  /** The reader's system holds the writer's table, and has seen every insert that succeeded. */
  ghost predicate Follows(s: State, w: LogWriter)
    reads w
  {
    s.table == w.table && s.ever == Present(w.Made(), 0, w.lost)
  }

  lemma NumberedAscends(lines: seq<Line>, lastSeq: int)
    ensures Ascending(Numbered(lines, lastSeq))
    ensures forall row :: row in Numbered(lines, lastSeq) ==> lastSeq < row.seqNo
  {
  }

  /** What the writer inserts next always continues the log. */
  lemma WriterContinues(made: seq<LogRow>, lost: set<int>, lines: seq<Line>)
    requires Counted(made)
    ensures Continues(Present(made, 0, lost), Numbered(lines, |made|))
  {
    var ever := Present(made, 0, lost);
    NumberedAscends(lines, |made|);
    if ever != [] {
      var last := ever[|ever| - 1];
      PresentMember(made, 0, lost, last);
      NumberedAt(made, last);
    }
  }

  lemma {:induction false} AfterConcat(s: State, a: seq<Event>, b: seq<Event>, m: State)
    requires After(s, a) == Some(m)
    ensures After(s, a + b) == After(m, b)
    decreases |a|
  {
    if a == [] {
      assert a + b == b;
    } else {
      AfterConcat(Step(s, a[0]).value, a[1..], b, m);
      assert (a + b)[1..] == a[1..] + b;
    }
  }

  lemma StillReachable(s: State, events: seq<Event>, t: State)
    requires Reachable(s) && After(s, events) == Some(t)
    ensures Reachable(t)
  {
    var before :| After(Init(), before) == Some(s);
    AfterConcat(Init(), before, events, s);
  }

  /** The writer's statements of one round, as steps of the reader's system. */
  function RoundSteps(rows: seq<LogRow>, insertOk: bool, deletes: bool, through: int): seq<Event> {
    if !insertOk then [] else if deletes then [Append(rows), Drop(through)] else [Append(rows)]
  }

  lemma RoundRuns(s: State, rows: seq<LogRow>, insertOk: bool, deletes: bool, through: int) returns (t: State)
    requires Continues(s.ever, rows)
    ensures After(s, RoundSteps(rows, insertOk, deletes, through)) == Some(t)
    ensures t.ever == s.ever + if insertOk then rows else []
    ensures
      t.table == if !insertOk then s.table else if deletes then Beyond(s.table + rows, through) else s.table + rows
    ensures t.after == s.after && t.seen == s.seen
  {
    var e, f := Append(rows), Drop(through);
    t := s;
    if insertOk {
      var m := Step(s, e).value;
      t := if deletes then Step(m, f).value else m;
      assert [e][1..] == [] && [e, f][1..] == [f] && [f][1..] == [];
      hide Step;
      assert After(m, [f]) == if Step(m, f).None? then None else After(Step(m, f).value, []);
      assert deletes ==> After(s, [e, f]) == After(m, [f]);
    } else {
      assert s.ever + [] == s.ever;
    }
  }

  lemma RoundFollows(
      s: State, made: seq<LogRow>, lost: set<int>, lines: seq<Line>, insertOk: bool, deletes: bool, through: int)
    returns (events: seq<Event>, t: State)
    requires Counted(made) && s.ever == Present(made, 0, lost) && forall n :: n in lost ==> n <= |made|
    ensures
      var rows := Numbered(lines, |made|);
      && events == RoundSteps(rows, insertOk, deletes, through) && After(s, events) == Some(t)
      && t.ever == Present(made + rows, 0, lost + (if insertOk then {} else NumbersOf(rows)))
      && t.table == (if !insertOk then s.table else if deletes then Beyond(s.table + rows, through) else s.table + rows)
      && t.after == s.after && t.seen == s.seen
  {
    hide Counted, Present, Beyond, Numbered, Continues, NumbersOf, After, RoundSteps;
    var rows := Numbered(lines, |made|);
    WriterContinues(made, lost, lines);
    events := RoundSteps(rows, insertOk, deletes, through);
    t := RoundRuns(s, rows, insertOk, deletes, through);
    if insertOk {
      InsertPresents(made, lines, 0, lost);
      assert lost + {} == lost;
    } else {
      LossPresents(made, lines, 0, lost);
      assert s.ever + [] == s.ever;
    }
  }

  /**
   Every round of the writer, whichever of its statements succeed, is an append, an
   append and a delete, or nothing in the reader's system: what is proved of the
   reader holds beside this writer.
   */
  method WriterRound(
      w: LogWriter, batch: seq<Line>, insertOk: bool, deleteOk: bool, updateOk: bool, ghost s: State)
    returns (ghost events: seq<Event>, ghost t: State)
    requires w.Valid() && batch != [] && Follows(s, w)
    modifies w
    ensures w.Valid() && Follows(t, w) && After(s, events) == Some(t) && t.after == s.after && t.seen == s.seen
    ensures events == RoundSteps(Numbered(Merged(batch), old(w.stats.lastSeq)), insertOk,
                                 deleteOk && w.gone != old(w.gone), |w.gone|)
    ensures Reachable(s) ==> Reachable(t)
  {
    assert Counted(w.Made()) && w.stats.lastSeq == |w.Made()|;
    assert forall n :: n in w.lost ==> n <= |w.Made()|;
    hide Booked, Counted, Trim, Total, Present, Beyond, Numbered, Merged, NumbersOf, Reachable, After, RoundSteps, Entries;
    ghost var made, lost, gone := w.Made(), w.lost, w.gone;
    w.Store(batch, insertOk, deleteOk, updateOk);
    ghost var deletes := deleteOk && w.gone != gone;
    events, t := RoundFollows(s, made, lost, Merged(batch), insertOk, deletes, |w.gone|);
    if Reachable(s) { StillReachable(s, events, t); }
  }
}
