/** The stored output of a run: rows of merged lines, of which the oldest are dropped above a size limit. */
module RollingLog {
  import opened Utf8
  import opened Wrappers

  const LOG_ROW_BYTES := 16 * 1024
  const MAX_STORED_OUTPUT_BYTES := 2 * 1024 * 1024

  datatype Line = Line(stream: string, text: Bytes)

  datatype LogRow = LogRow(seqNo: int, line: Line)

  datatype LogStats = LogStats(lastSeq: int, bytes: int, truncated: bool)

  // --------------------------------------------------------------- merging

  predicate Joins(last: Line, line: Line) {
    last.stream == line.stream && |last.text| < LOG_ROW_BYTES
  }

  function AddLine(rows: seq<Line>, line: Line): seq<Line> {
    if rows != [] && Joins(rows[|rows| - 1], line) then
      rows[..|rows| - 1] + [Line(line.stream, rows[|rows| - 1].text + line.text)]
    else
      rows + [line]
  }

  function Merged(lines: seq<Line>): (rows: seq<Line>)
    ensures |rows| <= |lines| && (lines != [] ==> rows != [])
  {
    if lines == [] then [] else AddLine(Merged(lines[..|lines| - 1]), lines[|lines| - 1])
  }

  lemma MergedNext(lines: seq<Line>, i: nat)
    requires i < |lines|
    ensures Merged(lines[..i + 1]) == AddLine(Merged(lines[..i]), lines[i])
  {
    assert lines[..i + 1][..i] == lines[..i];
  }

  method MergeLines(lines: seq<Line>) returns (rows: seq<Line>)
    ensures rows == Merged(lines)
  {
    rows := [];
    assert lines[..0] == [] && Merged([]) == [];
    hide Merged;
    for i := 0 to |lines|
      invariant rows == Merged(lines[..i])
    {
      MergedNext(lines, i);
      var line := lines[i];
      if rows != [] && rows[|rows| - 1].stream == line.stream && |rows[|rows| - 1].text| < LOG_ROW_BYTES {
        var last := |rows| - 1;
        rows := rows[..last] + [Line(line.stream, rows[last].text + line.text)];
      } else {
        rows := rows + [line];
      }
    }
    assert lines[..|lines|] == lines;
  }

  /** One byte of output and the stream it came from. */
  datatype Tag = Tag(stream: string, byte: Byte)

  function TagLine(line: Line): seq<Tag> {
    seq(|line.text|, i requires 0 <= i < |line.text| => Tag(line.stream, line.text[i]))
  }

  function Tagged(lines: seq<Line>): seq<Tag> {
    if lines == [] then [] else Tagged(lines[..|lines| - 1]) + TagLine(lines[|lines| - 1])
  }

  lemma {:induction false} TaggedConcat(a: seq<Line>, b: seq<Line>)
    ensures Tagged(a + b) == Tagged(a) + Tagged(b)
    decreases |b|
  {
    if b == [] {
      assert a + b == a;
    } else {
      assert (a + b)[..|a + b| - 1] == a + b[..|b| - 1];
      TaggedConcat(a, b[..|b| - 1]);
    }
  }

  lemma AddLineKeepsText(rows: seq<Line>, line: Line)
    ensures Tagged(AddLine(rows, line)) == Tagged(rows) + TagLine(line)
  {
    if rows != [] && Joins(rows[|rows| - 1], line) {
      var last, joined := rows[|rows| - 1], Line(line.stream, rows[|rows| - 1].text + line.text);
      assert TagLine(joined) == TagLine(last) + TagLine(line);
      assert AddLine(rows, line)[..|rows| - 1] == rows[..|rows| - 1];
    } else {
      assert (rows + [line])[..|rows|] == rows;
    }
  }

  /** Merging loses, adds and reorders nothing, and every byte keeps its stream. */
  lemma {:induction false} MergedKeepsText(lines: seq<Line>)
    ensures Tagged(Merged(lines)) == Tagged(lines)
    decreases |lines|
  {
    if lines != [] {
      MergedKeepsText(lines[..|lines| - 1]);
      AddLineKeepsText(Merged(lines[..|lines| - 1]), lines[|lines| - 1]);
    }
  }

  ghost predicate Greedy(rows: seq<Line>, longest: nat) {
    && (forall i, j :: 0 <= i < j < |rows| && j == i + 1 ==>
          rows[i].stream != rows[j].stream || |rows[i].text| >= 16_384)
    && (forall i :: 0 <= i < |rows| ==> |rows[i].text| < 16_384 + longest)
  }

  lemma AddLineStaysGreedy(rows: seq<Line>, line: Line, longest: nat)
    requires Greedy(rows, longest) && |line.text| <= longest
    ensures Greedy(AddLine(rows, line), longest)
  {
    var next := AddLine(rows, line);
    forall i, j | 0 <= i < j < |next| && j == i + 1
      ensures next[i].stream != next[j].stream || |next[i].text| >= 16_384
    {
      assert next[i] == rows[i];
      if j < |rows| { assert rows[i].stream != rows[j].stream || |rows[i].text| >= 16_384; }
    }
  }

  /**
   As few rows as the size allows: a row ends only at a change of stream or when it
   has reached 16 KiB, which it exceeds by less than one line.
   */
  lemma {:induction false} MergedIsGreedy(lines: seq<Line>, longest: nat)
    requires forall i :: 0 <= i < |lines| ==> |lines[i].text| <= longest
    ensures Greedy(Merged(lines), longest)
    decreases |lines|
  {
    if lines != [] {
      var before := lines[..|lines| - 1];
      assert forall i :: 0 <= i < |before| ==> before[i] == lines[i];
      MergedIsGreedy(before, longest);
      AddLineStaysGreedy(Merged(before), lines[|lines| - 1], longest);
    }
  }

  // -------------------------------------------------------------- trimming

  function Total(rows: seq<LogRow>): nat {
    if rows == [] then 0 else |rows[0].line.text| + Total(rows[1..])
  }

  /** What the limit leaves of a log: old rows are dropped while it is too large and more than one is left. */
  function Trim(rows: seq<LogRow>): (kept: seq<LogRow>)
    ensures |kept| <= |rows|
  {
    if Total(rows) > MAX_STORED_OUTPUT_BYTES && |rows| > 1 then Trim(rows[1..]) else rows
  }

  lemma {:induction false} TotalConcat(a: seq<LogRow>, b: seq<LogRow>)
    ensures Total(a + b) == Total(a) + Total(b)
    decreases |a|
  {
    if a == [] {
      assert a + b == b;
    } else {
      assert (a + b)[1..] == a[1..] + b;
      TotalConcat(a[1..], b);
    }
  }

  /** The limit keeps the longest end of the log that fits, and the newest row in any case. */
  lemma {:induction false} TrimIsLongest(rows: seq<LogRow>, k: nat)
    requires rows != [] && k < |rows|
    ensures
      var kept := Trim(rows);
      |rows| - k <= |kept| <==> k == |rows| - 1 || Total(rows[k..]) <= 2_097_152
    decreases |rows|
  {
    if Total(rows) > MAX_STORED_OUTPUT_BYTES && |rows| > 1 {
      if k > 0 {
        TrimIsLongest(rows[1..], k - 1);
        assert rows[1..][k - 1..] == rows[k..];
      } else {
        assert rows[0..] == rows;
      }
    } else {
      TotalConcat(rows[..k], rows[k..]);
      assert rows[..k] + rows[k..] == rows;
    }
  }

  /** Trimming batch by batch keeps the same rows as trimming the whole log once. */
  lemma {:induction false} TrimAbsorbs(a: seq<LogRow>, b: seq<LogRow>)
    ensures Trim(Trim(a) + b) == Trim(a + b)
    decreases |a|
  {
    if Total(a) > MAX_STORED_OUTPUT_BYTES && |a| > 1 {
      TotalConcat(a, b);
      assert (a + b)[1..] == a[1..] + b;
      TrimAbsorbs(a[1..], b);
    }
  }

  // --------------------------------------------------------------- batches

  function Numbered(lines: seq<Line>, lastSeq: int): (rows: seq<LogRow>)
    ensures |rows| == |lines|
  {
    seq(|lines|, i requires 0 <= i < |lines| => LogRow(lastSeq + 1 + i, lines[i]))
  }

  function Lines(rows: seq<LogRow>): (lines: seq<Line>)
    ensures |lines| == |rows|
  {
    seq(|rows|, i requires 0 <= i < |rows| => rows[i].line)
  }

  /** The entries of the writer's deque: sequence number and size. */
  datatype Entry = Entry(seqNo: int, size: int)

  function Entries(rows: seq<LogRow>): (entries: seq<Entry>)
    ensures |entries| == |rows|
  {
    seq(|rows|, i requires 0 <= i < |rows| => Entry(rows[i].seqNo, |rows[i].line.text|))
  }

  /** What a query for `seq > after` selects. */
  function Beyond(rows: seq<LogRow>, after: int): seq<LogRow> {
    if rows == [] then []
    else (if rows[0].seqNo > after then [rows[0]] else []) + Beyond(rows[1..], after)
  }

  predicate Ascending(rows: seq<LogRow>) {
    forall i, j :: 0 <= i < j < |rows| ==> rows[i].seqNo < rows[j].seqNo
  }

  lemma {:induction false} BeyondIsEnd(rows: seq<LogRow>, after: int, k: nat)
    requires Ascending(rows) && k <= |rows|
    requires k > 0 ==> rows[k - 1].seqNo <= after
    requires k < |rows| ==> after < rows[k].seqNo
    ensures Beyond(rows, after) == rows[k..]
    decreases |rows|
  {
    if rows != [] {
      BeyondIsEnd(rows[1..], after, if k > 0 then k - 1 else 0);
    }
  }

  /** The rows numbered 1, 2, 3, ... */
  predicate Counted(rows: seq<LogRow>) {
    forall i :: 0 <= i < |rows| ==> rows[i].seqNo == i + 1
  }

  // ------------------------------------------------ deleted and lost rows

  /** The rows whose number is not in `passed`. */
  function Without(rows: seq<LogRow>, passed: set<int>): seq<LogRow> {
    if rows == [] then []
    else Without(rows[..|rows| - 1], passed) + if rows[|rows| - 1].seqNo in passed then [] else [rows[|rows| - 1]]
  }

  lemma {:induction false} WithoutConcat(a: seq<LogRow>, b: seq<LogRow>, passed: set<int>)
    ensures Without(a + b, passed) == Without(a, passed) + Without(b, passed)
    decreases |b|
  {
    if b == [] {
      assert a + b == a;
    } else {
      assert (a + b)[..|a + b| - 1] == a + b[..|b| - 1];
      WithoutConcat(a, b[..|b| - 1], passed);
    }
  }

  lemma {:induction false} WithoutAll(rows: seq<LogRow>, passed: set<int>)
    requires forall i :: 0 <= i < |rows| ==> rows[i].seqNo in passed
    ensures Without(rows, passed) == []
    decreases |rows|
  {
    if rows != [] { WithoutAll(rows[..|rows| - 1], passed); }
  }

  lemma {:induction false} WithoutNone(rows: seq<LogRow>, passed: set<int>)
    requires forall i :: 0 <= i < |rows| ==> rows[i].seqNo !in passed
    ensures Without(rows, passed) == rows
    decreases |rows|
  {
    if rows != [] { WithoutNone(rows[..|rows| - 1], passed); }
  }

  /** What is not among the rows does not matter. */
  lemma {:induction false} WithoutMore(rows: seq<LogRow>, passed: set<int>, more: set<int>)
    requires forall i :: 0 <= i < |rows| ==> rows[i].seqNo !in more
    ensures Without(rows, passed + more) == Without(rows, passed)
    decreases |rows|
  {
    if rows != [] { WithoutMore(rows[..|rows| - 1], passed, more); }
  }

  lemma {:induction false} WithoutMember(rows: seq<LogRow>, passed: set<int>, row: LogRow)
    ensures row in Without(rows, passed) <==> row in rows && row.seqNo !in passed
    decreases |rows|
  {
    if rows != [] {
      WithoutMember(rows[..|rows| - 1], passed, row);
      assert rows == rows[..|rows| - 1] + [rows[|rows| - 1]];
    }
  }

  lemma {:induction false} BeyondConcat(a: seq<LogRow>, b: seq<LogRow>, after: int)
    ensures Beyond(a + b, after) == Beyond(a, after) + Beyond(b, after)
    decreases |a|
  {
    if a == [] {
      assert a + b == b;
    } else {
      assert (a + b)[1..] == a[1..] + b;
      BeyondConcat(a[1..], b, after);
    }
  }

  lemma {:induction false} BeyondAll(rows: seq<LogRow>, after: int)
    requires forall i :: 0 <= i < |rows| ==> after < rows[i].seqNo
    ensures Beyond(rows, after) == rows
    decreases |rows|
  {
    if rows != [] { BeyondAll(rows[1..], after); }
  }

  lemma BeyondOne(row: LogRow, after: int)
    ensures Beyond([row], after) == if row.seqNo > after then [row] else []
  {
    assert [row][1..] == [];
  }

  lemma WithoutOne(row: LogRow, lost: set<int>)
    ensures Without([row], lost) == if row.seqNo in lost then [] else [row]
  {
    assert [row][..0] == [];
  }

  lemma {:induction false} BeyondMember(rows: seq<LogRow>, after: int, row: LogRow)
    ensures row in Beyond(rows, after) <==> row in rows && row.seqNo > after
    decreases |rows|
  {
    if rows != [] {
      assert rows == [rows[0]] + rows[1..];
      BeyondMember(rows[1..], after, row);
    }
  }

  lemma {:induction false} BeyondTwice(rows: seq<LogRow>, from: int, after: int)
    requires from <= after
    ensures Beyond(Beyond(rows, from), after) == Beyond(rows, after)
    decreases |rows|
  {
    if rows != [] {
      var head, tail := rows[0], rows[1..];
      BeyondTwice(tail, from, after);
      BeyondOne(head, from);
      BeyondOne(head, after);
      BeyondConcat([head], tail, from);
      BeyondConcat([head], tail, after);
      assert rows == [head] + tail;
      BeyondConcat(Beyond([head], from), Beyond(tail, from), after);
      hide Beyond;
      BeyondNone(after);
    } else {
      BeyondNone(after);
    }
  }

  lemma BeyondNone(after: int)
    ensures Beyond([], after) == []
  {
  }

  lemma {:induction false} BeyondWithout(rows: seq<LogRow>, after: int, lost: set<int>)
    ensures Beyond(Without(rows, lost), after) == Without(Beyond(rows, after), lost)
    decreases |rows|
  {
    if rows != [] {
      var front, last := rows[..|rows| - 1], rows[|rows| - 1];
      assert rows == front + [last];
      hide Beyond, Without;
      BeyondWithout(front, after, lost);
      WithoutConcat(front, [last], lost);
      BeyondConcat(front, [last], after);
      BeyondConcat(Without(front, lost), Without([last], lost), after);
      WithoutConcat(Beyond(front, after), Beyond([last], after), lost);
      OneCommutes(last, after, lost);
    }
  }

  lemma OneCommutes(row: LogRow, after: int, lost: set<int>)
    ensures Beyond(Without([row], lost), after) == Without(Beyond([row], after), lost)
  {
    WithoutOne(row, lost);
    BeyondOne(row, after);
  }

  /** What is left of the rows made: those after the last delete, without those whose insert failed. */
  function Present(made: seq<LogRow>, deletedThrough: int, lost: set<int>): seq<LogRow> {
    Without(Beyond(made, deletedThrough), lost)
  }

  lemma PresentInsert(made: seq<LogRow>, rows: seq<LogRow>, deletedThrough: int, lost: set<int>)
    requires forall i :: 0 <= i < |rows| ==> deletedThrough < rows[i].seqNo && rows[i].seqNo !in lost
    ensures Present(made + rows, deletedThrough, lost) == Present(made, deletedThrough, lost) + rows
  {
    hide Beyond, Without;
    BeyondConcat(made, rows, deletedThrough);
    BeyondAll(rows, deletedThrough);
    WithoutConcat(Beyond(made, deletedThrough), rows, lost);
    WithoutNone(rows, lost);
  }

  lemma PresentLoss(made: seq<LogRow>, rows: seq<LogRow>, deletedThrough: int, lost: set<int>, more: set<int>)
    requires forall i :: 0 <= i < |rows| ==> deletedThrough < rows[i].seqNo && rows[i].seqNo in more
    requires forall row :: row in made ==> row.seqNo !in more
    ensures Present(made + rows, deletedThrough, lost + more) == Present(made, deletedThrough, lost)
  {
    hide Without;
    BeyondConcat(made, rows, deletedThrough);
    BeyondAll(rows, deletedThrough);
    var left := Beyond(made, deletedThrough);
    WithoutConcat(left, rows, lost + more);
    WithoutAll(rows, lost + more);
    forall i | 0 <= i < |left| ensures left[i].seqNo !in more {
      BeyondMember(made, deletedThrough, left[i]);
    }
    WithoutMore(left, lost, more);
  }

  lemma PresentDelete(made: seq<LogRow>, from: int, through: int, lost: set<int>)
    requires from <= through
    ensures Beyond(Present(made, from, lost), through) == Present(made, through, lost)
  {
    BeyondWithout(Beyond(made, from), through, lost);
    BeyondTwice(made, from, through);
  }

  lemma PresentMember(made: seq<LogRow>, deletedThrough: int, lost: set<int>, row: LogRow)
    ensures row in Present(made, deletedThrough, lost)
       <==> row in made && row.seqNo > deletedThrough && row.seqNo !in lost
  {
    WithoutMember(Beyond(made, deletedThrough), lost, row);
    BeyondMember(made, deletedThrough, row);
  }

  // ------------------------------------------------------ the books

  /** Dropping the first of several rows that are too large together. */
  lemma DropFirst(rows: seq<LogRow>)
    requires Total(rows) > MAX_STORED_OUTPUT_BYTES && |rows| > 1
    ensures Entries(rows)[0] == Entry(rows[0].seqNo, |rows[0].line.text|)
    ensures Entries(rows)[1..] == Entries(rows[1..])
    ensures Total(rows) == |rows[0].line.text| + Total(rows[1..])
    ensures Trim(rows) == Trim(rows[1..])
  {
  }

  /** The book-keeping of a writer that dropped the rows `gone` and keeps the rows `kept` of all it made. */
  ghost predicate Booked(gone: seq<LogRow>, kept: seq<LogRow>, received: seq<Line>) {
    && Counted(gone + kept)
    && Tagged(Lines(gone + kept)) == Tagged(received)
    && Trim(kept) == Trim(gone + kept)
  }

  lemma BatchText(made: seq<LogRow>, received: seq<Line>, batch: seq<Line>)
    requires Tagged(Lines(made)) == Tagged(received)
    ensures Tagged(Lines(made + Numbered(Merged(batch), |made|))) == Tagged(received + batch)
  {
    var rows := Numbered(Merged(batch), |made|);
    assert Lines(rows) == Merged(batch) && Lines(made + rows) == Lines(made) + Lines(rows);
    hide Tagged, Merged;
    TaggedConcat(Lines(made), Lines(rows));
    TaggedConcat(received, batch);
    MergedKeepsText(batch);
  }

  lemma NumberedNext(lines: seq<Line>, i: nat, lastSeq: int)
    requires i < |lines|
    ensures Numbered(lines[..i + 1], lastSeq) == Numbered(lines[..i], lastSeq) + [LogRow(lastSeq + i + 1, lines[i])]
  {
  }

  lemma OneRow(row: LogRow)
    ensures Entries([row]) == [Entry(row.seqNo, |row.line.text|)] && Total([row]) == |row.line.text|
  {
  }

  lemma NumberedCounts(made: seq<LogRow>, lines: seq<Line>)
    requires Counted(made)
    ensures Counted(made + Numbered(lines, |made|))
  {
  }

  lemma EntriesConcat(a: seq<LogRow>, b: seq<LogRow>)
    ensures Entries(a + b) == Entries(a) + Entries(b)
  {
  }

  lemma TrimBoth(gone: seq<LogRow>, kept: seq<LogRow>, rows: seq<LogRow>)
    requires Trim(kept) == Trim(gone + kept)
    ensures Trim(kept + rows) == Trim(gone + kept + rows)
  {
    hide Trim;
    TrimAbsorbs(kept, rows);
    TrimAbsorbs(gone + kept, rows);
  }

  lemma Grown(gone: seq<LogRow>, kept: seq<LogRow>, rows: seq<LogRow>, received: seq<Line>, batch: seq<Line>)
    requires Booked(gone, kept, received) && rows == Numbered(Merged(batch), |gone| + |kept|)
    ensures Booked(gone, kept + rows, received + batch)
  {
    hide Trim, Counted, Tagged, Lines, Merged, Numbered;
    Regroup(gone, kept, rows);
    TrimBoth(gone, kept, rows);
    NumberedCounts(gone + kept, Merged(batch));
    BatchText(gone + kept, received, batch);
  }

  /** The rows the limit takes from the front. */
  function Excess(rows: seq<LogRow>): seq<LogRow> {
    rows[..|rows| - |Trim(rows)|]
  }

  lemma {:induction false} TrimIsEnd(rows: seq<LogRow>)
    ensures Excess(rows) + Trim(rows) == rows
    decreases |rows|
  {
    if Total(rows) > MAX_STORED_OUTPUT_BYTES && |rows| > 1 {
      TrimIsEnd(rows[1..]);
      assert Excess(rows) == [rows[0]] + Excess(rows[1..]);
    }
  }

  lemma FrontIsExcess(rows: seq<LogRow>, front: seq<LogRow>)
    requires front + Trim(rows) == rows
    ensures front == Excess(rows)
  {
  }

  /** Dropping the excess keeps the books; the last number dropped is the number of rows dropped so far. */
  lemma Settled(gone: seq<LogRow>, kept: seq<LogRow>, received: seq<Line>)
    requires Booked(gone, kept, received)
    ensures Booked(gone + Excess(kept), Trim(kept), received) && Trim(kept) == Trim(gone + kept)
    ensures var e := Excess(kept); e != [] ==> e[|e| - 1].seqNo == |gone + e|
  {
    var e := Excess(kept);
    TrimIsEnd(kept);
    hide Tagged, Lines, Trim, Excess;
    assert gone + e + Trim(kept) == gone + kept;
    TrimAbsorbs(kept, []);
    assert Trim(kept) + [] == Trim(kept) && kept + [] == kept;
    if e != [] { LastCounted(gone, e, Trim(kept)); }
  }

  lemma LastCounted(a: seq<LogRow>, b: seq<LogRow>, c: seq<LogRow>)
    requires Counted(a + b + c) && b != []
    ensures b[|b| - 1].seqNo == |a + b|
  {
    assert (a + b + c)[|a| + |b| - 1] == b[|b| - 1];
  }

  /** The popping loop has moved `front` off the rows and `rest` remains. */
  ghost predicate Popped(rows: seq<LogRow>, front: seq<LogRow>, rest: seq<LogRow>) {
    front + rest == rows && Trim(rest) == Trim(rows)
  }

  lemma PopOne(rows: seq<LogRow>, front: seq<LogRow>, rest: seq<LogRow>)
    requires Popped(rows, front, rest) && Total(rest) > MAX_STORED_OUTPUT_BYTES && |rest| > 1
    ensures Popped(rows, front + [rest[0]], rest[1..])
  {
    DropFirst(rest);
    hide Trim, Total;
    HeadAndTail(front, rest);
  }

  lemma PoppedAll(rows: seq<LogRow>, front: seq<LogRow>, rest: seq<LogRow>)
    requires Popped(rows, front, rest) && (Total(rest) <= MAX_STORED_OUTPUT_BYTES || |rest| <= 1)
    ensures rest == Trim(rows) && front == Excess(rows)
  {
    FrontIsExcess(rows, front);
  }

  ghost function NumbersOf(rows: seq<LogRow>): set<int> {
    set row | row in rows :: row.seqNo
  }

  lemma NewNumbers(made: seq<LogRow>, lines: seq<Line>)
    ensures forall n :: n in NumbersOf(Numbered(lines, |made|)) <==> |made| < n <= |made| + |lines|
  {
    var rows := Numbered(lines, |made|);
    forall n ensures n in NumbersOf(rows) <==> |made| < n <= |made| + |lines| {
      if |made| < n <= |made| + |lines| { assert rows[n - |made| - 1] in rows; }
    }
  }

  /** A successful insert leaves the table with the new rows present. */
  lemma InsertPresents(made: seq<LogRow>, lines: seq<Line>, through: int, lost: set<int>)
    requires through <= |made| && forall n :: n in lost ==> n <= |made|
    ensures Present(made + Numbered(lines, |made|), through, lost) == Present(made, through, lost) + Numbered(lines, |made|)
  {
    PresentInsert(made, Numbered(lines, |made|), through, lost);
  }

  /** A failed insert leaves the table as it is, and the new rows lost. */
  lemma LossPresents(made: seq<LogRow>, lines: seq<Line>, through: int, lost: set<int>)
    requires Counted(made) && through <= |made|
    ensures
      var rows := Numbered(lines, |made|);
      Present(made + rows, through, lost + NumbersOf(rows)) == Present(made, through, lost)
  {
    var rows := Numbered(lines, |made|);
    NewNumbers(made, lines);
    assert forall i :: 0 <= i < |rows| ==> rows[i] in rows;
    PresentLoss(made, rows, through, lost, NumbersOf(rows));
  }

  lemma EmptyBooks()
    ensures Booked([], [], []) && Present([] + [], 0, {}) == [] && Entries([]) == [] && Total([]) == 0 && Trim([] + []) == []
  {
  }

  /**
   The writer of one run's log. `table` holds the stored rows and `column` the
   figures in the run's row. `gone` and `kept` are the rows made so far, dropped
   by the limit or not, and `received` every line. `lost` are the numbers of the
   rows whose insert failed, and the last delete that succeeded took all numbers
   up to `deletedThrough`.
   */
  class LogWriter {
    var stats: LogStats
    var stored: seq<Entry>
    var table: seq<LogRow>
    var column: LogStats
    ghost var gone: seq<LogRow>
    ghost var kept: seq<LogRow>
    ghost var received: seq<Line>
    ghost var lost: set<int>
    ghost var deletedThrough: int

    constructor ()
      ensures Valid() && received == [] && Made() == [] && table == [] && lost == {} && deletedThrough == 0
    {
      stats, column := LogStats(0, 0, false), LogStats(0, 0, false);
      stored, table, gone, kept, received, lost, deletedThrough := [], [], [], [], [], {}, 0;
      EmptyBooks();
      hide Booked, Present, Entries, Total, Trim;
    }

    ghost function Made(): seq<LogRow>
      reads this
    {
      gone + kept
    }

    ghost predicate Counts()
      reads this
    {
      && Booked(gone, kept, received)
      && stored == Entries(kept)
      && stats == LogStats(|gone| + |kept|, Total(kept), gone != [])
    }

    /** The table is what deletes and failed inserts have left of the rows made. */
    ghost predicate Stands()
      reads this
    {
      && table == Present(gone + kept, deletedThrough, lost)
      && 0 <= deletedThrough <= |gone|
      && forall n :: n in lost ==> 1 <= n <= |gone| + |kept|
    }

    /** Only a failed insert leaves more rows than the limit allows, and then the newest is lost. */
    ghost predicate Valid()
      reads this
    {
      Counts() && Stands() && (stats.lastSeq !in lost ==> kept == Trim(Made()))
    }

    /** No row that should be there is lost, and no dropped row is left over. */
    ghost predicate Intact()
      reads this
    {
      && (forall n :: |gone| < n <= |gone| + |kept| ==> n !in lost)
      && (forall n :: deletedThrough < n <= |gone| ==> n in lost)
    }

    /** Merges a batch into rows, numbers them and enters them in the deque. */
    method Number(batch: seq<Line>) returns (rows: seq<LogRow>)
      modifies this`stats, this`stored
      ensures rows == Numbered(Merged(batch), old(stats.lastSeq))
      ensures stats.lastSeq == old(stats.lastSeq) + |rows| && stats.truncated == old(stats.truncated)
      ensures stats.bytes == old(stats.bytes) + Total(rows)
      ensures stored == old(stored) + Entries(rows)
    {
      var lines := MergeLines(batch);
      rows := [];
      for i := 0 to |lines|
        invariant rows == Numbered(lines[..i], old(stats.lastSeq))
        invariant stats == old(stats).(lastSeq := old(stats.lastSeq) + i, bytes := old(stats.bytes) + Total(rows))
        invariant stored == old(stored) + Entries(rows)
      {
        var row := LogRow(stats.lastSeq + 1, lines[i]);
        NumberedNext(lines, i, old(stats.lastSeq));
        EntriesConcat(rows, [row]);
        TotalConcat(rows, [row]);
        OneRow(row);
        hide Numbered, Entries, Total;
        stats := stats.(lastSeq := row.seqNo, bytes := stats.bytes + |lines[i].text|);
        stored := stored + [Entry(row.seqNo, |lines[i].text|)];
        rows := rows + [row];
      }
      assert lines[..|lines|] == lines;
    }

    /** Drops the oldest entries above the limit; `through` is the last one dropped. */
    method Shrink(ghost rows: seq<LogRow>) returns (dropped: bool, through: int)
      requires stored == Entries(rows) && stats.bytes == Total(rows)
      modifies this`stats, this`stored
      ensures stored == Entries(Trim(rows))
      ensures stats == old(stats).(bytes := Total(Trim(rows)))
      ensures dropped <==> Excess(rows) != []
      ensures dropped ==> through == Excess(rows)[|Excess(rows)| - 1].seqNo
    {
      dropped, through := false, 0;
      ghost var front, rest := [], rows;
      assert Popped(rows, front, rest);
      hide Trim, Total, Entries, Excess, Popped;
      while stats.bytes > MAX_STORED_OUTPUT_BYTES && |stored| > 1
        invariant Popped(rows, front, rest)
        invariant stored == Entries(rest)
        invariant stats == old(stats).(bytes := Total(rest))
        invariant dropped <==> front != []
        invariant dropped ==> through == front[|front| - 1].seqNo
        decreases |stored|
      {
        PopOne(rows, front, rest);
        DropFirst(rest);
        var entry := stored[0];
        stored := stored[1..];
        stats := stats.(bytes := stats.bytes - entry.size);
        dropped, through := true, entry.seqNo;
        front, rest := front + [rest[0]], rest[1..];
      }
      PoppedAll(rows, front, rest);
    }

    /** What follows a successful insert: the limit, the delete and the figures in the run's row. */
    method Settle(deleteOk: bool, updateOk: bool)
      requires Counts() && Stands()
      modifies this`stats, this`stored, this`table, this`column, this`gone, this`kept, this`deletedThrough
      ensures Counts() && Stands() && Made() == old(Made()) && kept == Trim(Made())
      ensures column == if updateOk then stats else old(column)
      ensures |gone| >= |old(gone)|
      ensures deletedThrough == if deleteOk && gone != old(gone) then |gone| else old(deletedThrough)
      ensures table == if deleteOk && gone != old(gone) then Beyond(old(table), |gone|) else old(table)
    {
      hide Booked, Trim, Total, Beyond, Entries, Excess, Present;
      ghost var e, k := Excess(kept), Trim(kept);
      TrimIsEnd(kept);
      Settled(gone, kept, received);
      Regroup(gone, e, k);
      var dropped, through := Shrink(kept);
      if dropped {
        stats := stats.(truncated := true);
        if deleteOk {
          PresentDelete(gone + kept, deletedThrough, through, lost);
          table := Beyond(table, through);
          deletedThrough := through;
        }
      }
      if updateOk {
        column := stats;
      }
      assert gone + e != gone <==> e != [];
      gone, kept := gone + e, k;
    }

    /**
     One round of `write_logs`, given which of its three statements succeed. After a
     failed insert the other two are not tried.
     */
    method Store(batch: seq<Line>, insertOk: bool, deleteOk: bool, updateOk: bool)
      requires Valid() && batch != []
      modifies this
      ensures Valid()
      ensures received == old(received) + batch
      ensures Made() == old(Made()) + Numbered(Merged(batch), old(stats.lastSeq))
      ensures |gone| >= |old(gone)| && (insertOk ==> kept == Trim(Made()))
      ensures lost == old(lost) + if insertOk then {} else NumbersOf(Numbered(Merged(batch), old(stats.lastSeq)))
      ensures column == if insertOk && updateOk then stats else old(column)
      ensures !insertOk ==> gone == old(gone) && table == old(table) && deletedThrough == old(deletedThrough)
      ensures insertOk ==>
                var dropped, all := gone != old(gone), old(table) + Numbered(Merged(batch), old(stats.lastSeq));
                && table == (if deleteOk && dropped then Beyond(all, |gone|) else all)
                && deletedThrough == if deleteOk && dropped then |gone| else old(deletedThrough)
    {
      hide Booked, Trim, Total, Tagged, Merged, Entries, Numbered, Present, NumbersOf;
      var rows := Number(batch);
      BooksGrow(gone, kept, rows, received, batch);
      NewNumbers(gone + kept, Merged(batch));
      if insertOk {
        InsertPresents(gone + kept, Merged(batch), deletedThrough, lost);
        kept, received := kept + rows, received + batch;
        table := table + rows;
        Settle(deleteOk, updateOk);
      } else {
        LossPresents(gone + kept, Merged(batch), deletedThrough, lost);
        kept, received := kept + rows, received + batch;
        lost := lost + NumbersOf(rows);
      }
    }
  }

  lemma BooksGrow(gone: seq<LogRow>, kept: seq<LogRow>, rows: seq<LogRow>, received: seq<Line>, batch: seq<Line>)
    requires Booked(gone, kept, received) && rows == Numbered(Merged(batch), |gone| + |kept|)
    ensures Booked(gone, kept + rows, received + batch) && Counted(gone + kept)
    ensures Entries(kept + rows) == Entries(kept) + Entries(rows)
    ensures Total(kept + rows) == Total(kept) + Total(rows)
    ensures gone + (kept + rows) == gone + kept + rows
  {
    assert Counted(gone + kept);
    hide Booked, Total, Entries;
    Grown(gone, kept, rows, received, batch);
    EntriesConcat(kept, rows);
    TotalConcat(kept, rows);
    Regroup(gone, kept, rows);
  }

  // -------------------------------------------------------------- promises

  lemma TextOfEnd(gone: seq<LogRow>, kept: seq<LogRow>)
    ensures Tagged(Lines(gone + kept)) == Tagged(Lines(gone)) + Tagged(Lines(kept))
  {
    assert Lines(gone + kept) == Lines(gone) + Lines(kept);
    TaggedConcat(Lines(gone), Lines(kept));
  }

  lemma {:induction false} TrimFits(rows: seq<LogRow>)
    ensures Total(Trim(rows)) <= MAX_STORED_OUTPUT_BYTES || |Trim(rows)| == 1
    decreases |rows|
  {
    if Total(rows) > MAX_STORED_OUTPUT_BYTES && |rows| > 1 {
      TrimFits(rows[1..]);
    }
  }

  lemma NumberedAt(rows: seq<LogRow>, row: LogRow)
    requires Counted(rows) && row in rows
    ensures 1 <= row.seqNo <= |rows| && rows[row.seqNo - 1] == row
  {
  }

  /** The rows dropped are all deleted or lost, and no row kept is lost: the table is what is kept. */
  lemma KeptIsPresent(gone: seq<LogRow>, kept: seq<LogRow>, deletedThrough: int, lost: set<int>)
    requires Counted(gone + kept) && deletedThrough <= |gone|
    requires forall n :: |gone| < n <= |gone| + |kept| ==> n !in lost
    requires forall n :: deletedThrough < n <= |gone| ==> n in lost
    ensures Present(gone + kept, deletedThrough, lost) == kept
  {
    var left := Beyond(gone, deletedThrough);
    assert forall i :: 0 <= i < |gone| ==> gone[i] == (gone + kept)[i];
    assert forall i :: 0 <= i < |kept| ==> kept[i] == (gone + kept)[|gone| + i];
    assert Counted(gone);
    forall i | 0 <= i < |left| ensures left[i].seqNo in lost {
      BeyondMember(gone, deletedThrough, left[i]);
      NumberedAt(gone, left[i]);
    }
    PresentInsert(gone, kept, deletedThrough, lost);
    WithoutAll(left, lost);
  }

  /** The converse: a table that is what is kept lacks no kept row and has no other left over. */
  lemma PresentIsKept(gone: seq<LogRow>, kept: seq<LogRow>, deletedThrough: int, lost: set<int>)
    requires Counted(gone + kept) && 0 <= deletedThrough <= |gone|
    requires Present(gone + kept, deletedThrough, lost) == kept
    ensures forall n :: |gone| < n <= |gone| + |kept| ==> n !in lost
    ensures forall n :: deletedThrough < n <= |gone| ==> n in lost
  {
    var made := gone + kept;
    forall n | |gone| < n <= |gone| + |kept| ensures n !in lost {
      assert made[n - 1] == kept[n - 1 - |gone|] && made[n - 1] in kept;
      PresentMember(made, deletedThrough, lost, made[n - 1]);
    }
    forall n | deletedThrough < n <= |gone| ensures n in lost {
      assert made[n - 1] in made;
      PresentMember(made, deletedThrough, lost, made[n - 1]);
      assert forall i :: 0 <= i < |kept| ==> kept[i] == made[|gone| + i];
    }
  }

  lemma NewestIsKept(w: LogWriter)
    requires w.Valid() && w.Made() != []
    ensures Trim(w.Made()) != [] && w.kept != [] && Counted(w.Made())
    ensures w.kept[|w.kept| - 1].seqNo == w.stats.lastSeq
    ensures Trim(w.Made())[|Trim(w.Made())| - 1].seqNo == w.stats.lastSeq
  {
    var made := w.Made();
    TrimIsLongest(made, |made| - 1);
    TrimIsEnd(made);
    assert made[|made| - 1] == Trim(made)[|Trim(made)| - 1] == w.kept[|w.kept| - 1];
  }

  /**
   Whatever statements have failed, the table holds exactly what the limit leaves of
   all rows made if and only if no kept row is lost and every dropped row is deleted
   or lost.
   */
  lemma TableIsExact(w: LogWriter)
    requires w.Valid()
    ensures w.table == Trim(w.Made()) <==> w.Intact()
  {
    if w.Made() == [] {
      assert w.gone == [] && w.kept == [];
    } else {
      NewestIsKept(w);
      hide Trim, Present, Booked;
      if w.stats.lastSeq in w.lost {
        NewestIsMissing(w);
      } else if w.Intact() {
        KeptIsPresent(w.gone, w.kept, w.deletedThrough, w.lost);
      } else if w.table == w.kept {
        PresentIsKept(w.gone, w.kept, w.deletedThrough, w.lost);
      }
    }
  }

  lemma NewestIsMissing(w: LogWriter)
    requires w.Valid() && w.Made() != [] && w.stats.lastSeq in w.lost
    ensures w.table != Trim(w.Made()) && !w.Intact()
  {
    NewestIsKept(w);
    var last := Trim(w.Made())[|Trim(w.Made())| - 1];
    PresentMember(w.Made(), w.deletedThrough, w.lost, last);
    hide Trim, Present, Booked;
    assert last in Trim(w.Made());
  }

  lemma NumberIsPlace(made: seq<LogRow>)
    requires Counted(made)
    ensures forall i :: 0 <= i < |made| ==> made[i].seqNo == i + 1
  {
  }

  /**
   While the table is intact, after every batch the stored rows are a block of
   numbers ending at the last one, their text is the end of everything received,
   `bytes` is their size and within the limit unless one row alone exceeds it, and
   `truncated` says exactly whether a row was dropped.
   */
  lemma AfterEveryBatch(w: LogWriter) returns (dropped: seq<Tag>)
    requires w.Valid() && w.Intact()
    ensures w.table == Trim(w.Made())
    ensures forall i :: 0 <= i < |w.table| ==> w.table[i].seqNo == w.stats.lastSeq - |w.table| + 1 + i
    ensures Tagged(w.received) == dropped + Tagged(Lines(w.table))
    ensures w.stats.bytes == Total(w.table)
    ensures w.stats.bytes <= 2_097_152 || |w.table| == 1
    ensures w.stats.truncated <==> |w.table| < w.stats.lastSeq
  {
    hide Trim, Tagged, Lines, Total, Present, Counted;
    TableIsExact(w);
    IntactIsKept(w);
    dropped := Tagged(Lines(w.gone));
    TextOfEnd(w.gone, w.kept);
    TrimFits(w.Made());
    NumberIsPlace(w.Made());
    forall i | 0 <= i < |w.table| ensures w.table[i].seqNo == |w.gone| + i + 1 {
      assert w.table[i] == w.Made()[|w.gone| + i];
    }
  }

  lemma IntactIsKept(w: LogWriter)
    requires w.Valid() && w.Intact()
    ensures w.kept == Trim(w.Made())
  {
    if w.Made() != [] { NewestIsKept(w); }
  }

  /** Any row dropped counts as truncated; the table lacks a row exactly when one was deleted or lost. */
  lemma MissingRows(w: LogWriter)
    requires w.Valid()
    ensures w.stats.truncated <==> w.gone != []
    ensures w.table == w.Made() <==> w.deletedThrough == 0 && w.lost == {}
  {
    assert Counted(w.Made());
    hide Booked, Present, Trim, Counted;
    if w.deletedThrough == 0 && w.lost == {} {
      AllPresent(w.Made());
    } else {
      var n := 1;
      if w.deletedThrough == 0 { n := Pick(w.lost); }
      OneMissing(w.Made(), w.deletedThrough, w.lost, n);
    }
  }

  lemma AllPresent(made: seq<LogRow>)
    requires Counted(made)
    ensures Present(made, 0, {}) == made
  {
    assert [] + made == made;
    KeptIsPresent([], made, 0, {});
  }

  lemma OneMissing(made: seq<LogRow>, deletedThrough: int, lost: set<int>, n: int)
    requires Counted(made) && 1 <= n <= |made| && (n <= deletedThrough || n in lost)
    ensures Present(made, deletedThrough, lost) != made
  {
    assert made[n - 1] in made;
    PresentMember(made, deletedThrough, lost, made[n - 1]);
  }

  /**
   A failed insert: lines have been received, the table stays as it was and does not
   hold all rows, and `truncated` does not say so. No later round finds the rows again.
   */
  method FailedInsertIsSilent(w: LogWriter, batch: seq<Line>)
    requires w.Valid() && batch != [] && !w.stats.truncated
    modifies w
    ensures w.Valid() && w.received == old(w.received) + batch && w.table == old(w.table)
    ensures w.table != w.Made() && !w.stats.truncated
    ensures w.stats.lastSeq in w.lost
  {
    NewNumbers(w.Made(), Merged(batch));
    w.Store(batch, false, true, true);
    MissingRows(w);
  }

  /**
   A round whose insert and delete succeed keeps an intact table intact. When it drops
   rows it also removes what failed deletes left over: then the table is intact unless
   a kept row is lost, whatever failed before.
   */
  method SuccessfulRound(w: LogWriter, batch: seq<Line>, updateOk: bool)
    requires w.Valid() && batch != []
    modifies w
    ensures w.Valid() && w.lost == old(w.lost)
    ensures old(w.Intact()) ==> w.Intact()
    ensures w.gone != old(w.gone) ==>
              (w.Intact() <==> forall n :: |w.gone| < n <= w.stats.lastSeq ==> n !in w.lost)
  {
    w.Store(batch, true, true, updateOk);
  }
}
