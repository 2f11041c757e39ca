/** The stored tail of a command's output: at most 20000 bytes, cut at a character boundary. */
module OutputTail {
  import opened Wrappers
  import opened Utf8

  const OUTPUT_TAIL_LIMIT := 20_000

  /** The first character boundary at or after `i`. */
  function NextBoundary(s: Bytes, i: nat): (k: nat)
    requires i <= |s|
    ensures i <= k <= |s| && IsBoundary(s, k)
    ensures forall j :: i <= j < k ==> !IsBoundary(s, j)
    decreases |s| - i
  {
    if IsBoundary(s, i) then i else NextBoundary(s, i + 1)
  }

  function Tail(s: Bytes): Bytes {
    if |s| > OUTPUT_TAIL_LIMIT then s[NextBoundary(s, |s| - OUTPUT_TAIL_LIMIT)..] else s
  }

  method TruncateOutputTail(text: Bytes) returns (tail: Bytes)
    ensures tail == Tail(text)
  {
    tail := text;
    if |tail| > OUTPUT_TAIL_LIMIT {
      var keepFrom := |tail| - OUTPUT_TAIL_LIMIT;
      while !IsBoundary(tail, keepFrom)
        invariant |tail| - OUTPUT_TAIL_LIMIT <= keepFrom <= |tail|
        invariant NextBoundary(tail, keepFrom) == NextBoundary(tail, |tail| - OUTPUT_TAIL_LIMIT)
        decreases |tail| - keepFrom
      {
        keepFrom := keepFrom + 1;
      }
      tail := tail[keepFrom..];
    }
  }

  /** The `output_tail` column of a run, written by one log writer. */
  class RunOutput {
    var outputTail: Option<Bytes>
    ghost var received: Bytes

    /** The column is the tail of everything received so far. */
    ghost predicate Valid()
      reads this
    {
      && Utf8.Valid(received)
      && match outputTail
         case None => received == []
         case Some(tail) => tail == Tail(received)
    }

    constructor ()
      ensures Valid() && received == [] && outputTail == None
    {
      outputTail := None;
      received := [];
    }

    method UpdateTail(chunk: Bytes)
      requires Valid() && Utf8.Valid(chunk)
      modifies this
      ensures Valid() && received == old(received) + chunk
      ensures outputTail == Some(Tail(old(received) + chunk))
    {
      var tail := if outputTail.Some? then outputTail.value else [];
      tail := tail + chunk;
      tail := TruncateOutputTail(tail);
      TailAbsorbs(received, chunk);
      ConcatValid(received, chunk);
      outputTail := Some(tail);
      received := received + chunk;
    }
  }

  ghost predicate IsSuffix(tail: Bytes, s: Bytes) {
    |tail| <= |s| && s[|s| - |tail|..] == tail
  }

  /**
   The tail is well-formed, it is the longest suffix of at most 20000 bytes that
   starts on a character boundary, and no more than three bytes are given up.
   */
  lemma TailIsLongest(s: Bytes)
    requires Utf8.Valid(s)
    ensures IsSuffix(Tail(s), s) && Utf8.Valid(Tail(s)) && |Tail(s)| <= 20_000
    ensures forall k: nat :: k <= |s| && IsBoundary(s, k) && |s| - k <= 20_000 ==> |s| - k <= |Tail(s)|
    ensures |s| > 20_000 ==> |Tail(s)| >= 19_997
  {
    hide Utf8.Valid;
    if |s| > OUTPUT_TAIL_LIMIT {
      var from := |s| - OUTPUT_TAIL_LIMIT;
      var cut := NextBoundary(s, from);
      SuffixValid(s, cut);
      var k := BoundaryWithinThree(s, from);
      assert cut <= k;
      hide IsBoundary;
      assert |Tail(s)| == |s| - cut;
    }
  }

  /** A boundary of a suffix is a boundary of the whole, when the suffix starts on one. */
  lemma BoundaryOfSuffix(s: Bytes, from: nat, i: nat)
    requires from <= i <= |s| && IsBoundary(s, from)
    ensures IsBoundary(s[from..], i - from) <==> IsBoundary(s, i)
  {
  }

  lemma {:induction false} NextBoundaryOfSuffix(s: Bytes, from: nat, i: nat)
    requires from <= i <= |s| && IsBoundary(s, from)
    ensures NextBoundary(s[from..], i - from) == NextBoundary(s, i) - from
    decreases |s| - i
  {
    BoundaryOfSuffix(s, from, i);
    if !IsBoundary(s, i) {
      NextBoundaryOfSuffix(s, from, i + 1);
    }
  }

  lemma BoundaryOfPrefix(a: Bytes, b: Bytes, i: nat)
    requires i <= |a| && Utf8.Valid(b)
    ensures IsBoundary(a + b, i) <==> IsBoundary(a, i)
  {
    if i == |a| && b != [] {
      assert (a + b)[i] == b[0];
    }
  }

  /** When the new output leaves the old cut inside the limit, the cut is still the first boundary. */
  lemma CutStands(a: Bytes, b: Bytes)
    requires Utf8.Valid(b) && |a| > OUTPUT_TAIL_LIMIT
    requires |a + b| - OUTPUT_TAIL_LIMIT <= NextBoundary(a, |a| - OUTPUT_TAIL_LIMIT)
    ensures NextBoundary(a + b, |a + b| - OUTPUT_TAIL_LIMIT) == NextBoundary(a, |a| - OUTPUT_TAIL_LIMIT)
  {
    var cut, high := NextBoundary(a, |a| - OUTPUT_TAIL_LIMIT), |a + b| - OUTPUT_TAIL_LIMIT;
    BoundaryOfPrefix(a, b, cut);
    forall j | high <= j < cut ensures !IsBoundary(a + b, j) {
      BoundaryOfPrefix(a, b, j);
    }
  }

  /** Output cut at a boundary before the limit has the same tail. */
  lemma TailOfEnd(s: Bytes, cut: nat)
    requires |s| > OUTPUT_TAIL_LIMIT && cut < |s| - OUTPUT_TAIL_LIMIT && IsBoundary(s, cut)
    ensures Tail(s[cut..]) == Tail(s)
  {
    var high := |s| - OUTPUT_TAIL_LIMIT;
    hide Utf8.Valid, IsBoundary, NextBoundary;
    NextBoundaryOfSuffix(s, cut, high);
    DropTwice(s, cut, NextBoundary(s, high) - cut);
  }

  /** Truncating what was already truncated, plus more output, is truncating everything once. */
  lemma TailAbsorbs(a: Bytes, b: Bytes)
    requires Utf8.Valid(b)
    ensures Tail(Tail(a) + b) == Tail(a + b)
  {
    if |a| > OUTPUT_TAIL_LIMIT {
      var cut := NextBoundary(a, |a| - OUTPUT_TAIL_LIMIT);
      BoundaryOfPrefix(a, b, cut);
      DropConcat(a, b, cut);
      hide Utf8.Valid, IsBoundary, NextBoundary;
      if |a + b| - OUTPUT_TAIL_LIMIT <= cut {
        CutStands(a, b);
      } else {
        TailOfEnd(a + b, cut);
      }
    }
  }

  function Concat(chunks: seq<Bytes>): Bytes {
    if chunks == [] then [] else Concat(chunks[..|chunks| - 1]) + chunks[|chunks| - 1]
  }

  /** The stored tail after each chunk in turn was appended and the result truncated. */
  function Appended(chunks: seq<Bytes>): Bytes {
    if chunks == [] then [] else Tail(Appended(chunks[..|chunks| - 1]) + chunks[|chunks| - 1])
  }

  /** However the output is cut into chunks, the stored tail is that of the whole output. */
  lemma {:induction false} ChunkingDoesNotMatter(chunks: seq<Bytes>)
    requires forall c :: c in chunks ==> Utf8.Valid(c)
    ensures Appended(chunks) == Tail(Concat(chunks))
  {
    if chunks != [] {
      var n := |chunks| - 1;
      ChunkingDoesNotMatter(chunks[..n]);
      TailAbsorbs(Concat(chunks[..n]), chunks[n]);
    }
  }
}
