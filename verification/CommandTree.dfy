/** Sorting the CLI's commands so that each is followed by its subcommands. */
module CommandTree {
  import opened Wrappers

  type Path = seq<string>

  datatype Command<T> = Command(path: Path, spec: T)

  predicate IsChild(path: Path, prefix: Path) {
    |path| == |prefix| + 1 && prefix <= path
  }

  /** `path` lies strictly below `prefix`. */
  predicate Extends(path: Path, prefix: Path) {
    |prefix| < |path| && prefix <= path
  }

  ghost predicate HasPath<T>(cmds: seq<Command<T>>, path: Path) {
    exists i :: 0 <= i < |cmds| && cmds[i].path == path
  }

  /** `path` lies below `prefix` and every command on the way down is there. */
  ghost predicate Anchored<T>(cmds: seq<Command<T>>, prefix: Path, path: Path) {
    Extends(path, prefix) && forall k :: |prefix| < k <= |path| ==> HasPath(cmds, path[..k])
  }

  ghost predicate DistinctPaths<T>(cmds: seq<Command<T>>) {
    forall i, j :: 0 <= i < j < |cmds| ==> cmds[i].path != cmds[j].path
  }

  function Longest<T>(cmds: seq<Command<T>>): (n: nat)
    ensures forall i :: 0 <= i < |cmds| ==> |cmds[i].path| <= n
  {
    if cmds == [] then 0
    else
      var rest := Longest(cmds[1..]);
      if rest < |cmds[0].path| then |cmds[0].path| else rest
  }

  /** The children of `prefix` from position `from` on, in input order, each followed by its own block. */
  function Block<T>(cmds: seq<Command<T>>, prefix: Path, from: nat): seq<Command<T>>
    decreases Longest(cmds) - |prefix|, |cmds| - from
  {
    if from >= |cmds| then []
    else if IsChild(cmds[from].path, prefix) then
      [cmds[from]] + Block(cmds, cmds[from].path, 0) + Block(cmds, prefix, from + 1)
    else Block(cmds, prefix, from + 1)
  }

  // ------------------------------------------------------------ pending slots

  type Slots<T> = seq<Option<Command<T>>>

  /** Every slot still holds its command or has been taken from. */
  ghost predicate Fits<T>(cmds: seq<Command<T>>, slots: Slots<T>) {
    |slots| == |cmds| && forall j :: 0 <= j < |cmds| ==> slots[j] == None || slots[j] == Some(cmds[j])
  }

  ghost function Bag<T>(slots: Slots<T>): multiset<Command<T>> {
    if slots == [] then multiset{}
    else
      var n := |slots| - 1;
      Bag(slots[..n]) + if slots[n].Some? then multiset{slots[n].value} else multiset{}
  }

  lemma {:induction false} TakeOne<T>(slots: Slots<T>, i: nat)
    requires i < |slots| && slots[i].Some?
    ensures Bag(slots) == Bag(slots[i := None]) + multiset{slots[i].value}
  {
    var n := |slots| - 1;
    var rest := slots[i := None];
    if i < n {
      TakeOne(slots[..n], i);
      assert rest[..n] == slots[..n][i := None];
    } else {
      assert rest[..n] == slots[..n];
    }
  }

  /** Between output and pending slots nothing was lost or repeated, and nothing went back. */
  ghost predicate Conserved<T>(out: seq<Command<T>>, slots: Slots<T>, out2: seq<Command<T>>, slots2: Slots<T>) {
    multiset(out2) + Bag(slots2) == multiset(out) + Bag(slots) && |Bag(slots2)| <= |Bag(slots)|
  }

  lemma TakeConserves<T>(out: seq<Command<T>>, slots: Slots<T>, i: nat)
    requires i < |slots| && slots[i].Some?
    ensures Conserved(out, slots, out + [slots[i].value], slots[i := None])
    ensures |Bag(slots[i := None])| < |Bag(slots)|
  {
    TakeOne(slots, i);
  }

  lemma ConservedChain<T>(
    out: seq<Command<T>>, slots: Slots<T>, out2: seq<Command<T>>, slots2: Slots<T>, out3: seq<Command<T>>, slots3: Slots<T>)
    requires Conserved(out, slots, out2, slots2) && Conserved(out2, slots2, out3, slots3)
    ensures Conserved(out, slots, out3, slots3) && |Bag(slots3)| <= |Bag(slots2)|
  {
  }

  /** Everything below `prefix` that can be reached is still pending. */
  ghost predicate BelowPending<T>(cmds: seq<Command<T>>, prefix: Path, slots: Slots<T>) {
    |slots| == |cmds| && forall j :: 0 <= j < |cmds| && Anchored(cmds, prefix, cmds[j].path) ==> slots[j].Some?
  }

  /** The slots after everything below `prefix` was taken. */
  ghost predicate TakenBelow<T>(cmds: seq<Command<T>>, prefix: Path, before: Slots<T>, after: Slots<T>) {
    && |before| == |after| == |cmds|
    && forall j :: 0 <= j < |cmds| ==>
         after[j] == if Anchored(cmds, prefix, cmds[j].path) then None else before[j]
  }

  /** Command j is one of the first `n` children of `prefix`, or lies below one. */
  ghost predicate Reached<T>(cmds: seq<Command<T>>, prefix: Path, n: nat, j: nat)
    requires j < |cmds|
  {
    exists i :: 0 <= i < n && i < |cmds| && Via(cmds, prefix, i, j)
  }

  ghost predicate Via<T>(cmds: seq<Command<T>>, prefix: Path, i: nat, j: nat)
    requires i < |cmds| && j < |cmds|
  {
    IsChild(cmds[i].path, prefix) && (i == j || Anchored(cmds, cmds[i].path, cmds[j].path))
  }

  lemma ViaIsAnchored<T>(cmds: seq<Command<T>>, prefix: Path, i: nat, j: nat)
    requires i < |cmds| && j < |cmds| && Via(cmds, prefix, i, j)
    ensures Anchored(cmds, prefix, cmds[j].path)
  {
    var p, q := cmds[i].path, cmds[j].path;
    forall k | |prefix| < k <= |q| ensures HasPath(cmds, q[..k]) {
      if k == |p| { assert q[..k] == p; }
    }
    assert q[..|prefix|] == p[..|prefix|];
  }

  lemma AnchoredIsVia<T>(cmds: seq<Command<T>>, prefix: Path, j: nat) returns (i: nat)
    requires j < |cmds| && Anchored(cmds, prefix, cmds[j].path) && DistinctPaths(cmds)
    ensures i < |cmds| && Via(cmds, prefix, i, j)
  {
    var q := cmds[j].path;
    assert HasPath(cmds, q[..|prefix| + 1]);
    i :| 0 <= i < |cmds| && cmds[i].path == q[..|prefix| + 1];
    if |q| == |prefix| + 1 {
      assert q[..|q|] == q;
    }
  }

  /** Two different children of one prefix have nothing in common below them. */
  lemma ViaIsUnique<T>(cmds: seq<Command<T>>, prefix: Path, i: nat, m: nat, j: nat)
    requires i < |cmds| && m < |cmds| && j < |cmds| && DistinctPaths(cmds)
    requires Via(cmds, prefix, i, j) && Via(cmds, prefix, m, j)
    ensures i == m
  {
    var n := |prefix| + 1;
    assert cmds[i].path == cmds[j].path[..n] && cmds[m].path == cmds[j].path[..n];
  }

  /** What the visit has taken after looking at the first `n` slots. */
  ghost predicate TakenSoFar<T>(cmds: seq<Command<T>>, prefix: Path, n: nat, before: Slots<T>, now: Slots<T>) {
    && |before| == |now| == |cmds|
    && forall j :: 0 <= j < |cmds| ==> now[j] == if Reached(cmds, prefix, n, j) then None else before[j]
  }

  /** Passing a slot that is no child. */
  lemma SkipStep<T>(cmds: seq<Command<T>>, prefix: Path, n: nat, before: Slots<T>, now: Slots<T>)
    requires TakenSoFar(cmds, prefix, n, before, now) && n < |cmds| && !IsChild(cmds[n].path, prefix)
    ensures TakenSoFar(cmds, prefix, n + 1, before, now)
  {
    forall j | 0 <= j < |cmds| ensures Reached(cmds, prefix, n + 1, j) <==> Reached(cmds, prefix, n, j) {
      if i :| 0 <= i < n + 1 && i < |cmds| && Via(cmds, prefix, i, j) {
        assert i != n;
      }
    }
  }

  /** Before child n is visited, it and everything below it are still pending. */
  lemma ChildIsPending<T>(cmds: seq<Command<T>>, prefix: Path, n: nat, before: Slots<T>, now: Slots<T>)
    requires TakenSoFar(cmds, prefix, n, before, now) && BelowPending(cmds, prefix, before) && DistinctPaths(cmds)
    requires n < |cmds| && IsChild(cmds[n].path, prefix)
    ensures now[n].Some? && BelowPending(cmds, cmds[n].path, now[n := None])
  {
    forall j | 0 <= j < |cmds| && Via(cmds, prefix, n, j) ensures now[j].Some? {
      ViaIsAnchored(cmds, prefix, n, j);
      if i :| 0 <= i < n && i < |cmds| && Via(cmds, prefix, i, j) {
        ViaIsUnique(cmds, prefix, i, n, j);
      }
    }
    assert Via(cmds, prefix, n, n);
  }

  lemma VisitStep<T>(cmds: seq<Command<T>>, prefix: Path, n: nat, before: Slots<T>, now: Slots<T>, after: Slots<T>)
    requires TakenSoFar(cmds, prefix, n, before, now) && DistinctPaths(cmds)
    requires n < |cmds| && IsChild(cmds[n].path, prefix)
    requires TakenBelow(cmds, cmds[n].path, now[n := None], after)
    ensures TakenSoFar(cmds, prefix, n + 1, before, after)
  {
    forall j | 0 <= j < |cmds| ensures after[j] == if Reached(cmds, prefix, n + 1, j) then None else before[j] {
      if Via(cmds, prefix, n, j) {
        assert Reached(cmds, prefix, n + 1, j);
      } else {
        assert Reached(cmds, prefix, n + 1, j) <==> Reached(cmds, prefix, n, j);
      }
    }
  }

  lemma AllReached<T>(cmds: seq<Command<T>>, prefix: Path, before: Slots<T>, now: Slots<T>)
    requires TakenSoFar(cmds, prefix, |cmds|, before, now) && DistinctPaths(cmds)
    ensures TakenBelow(cmds, prefix, before, now)
  {
    forall j | 0 <= j < |cmds| ensures Reached(cmds, prefix, |cmds|, j) <==> Anchored(cmds, prefix, cmds[j].path) {
      if i :| 0 <= i < |cmds| && Via(cmds, prefix, i, j) {
        ViaIsAnchored(cmds, prefix, i, j);
      }
      if Anchored(cmds, prefix, cmds[j].path) {
        var i := AnchoredIsVia(cmds, prefix, j);
      }
    }
  }

  lemma NothingTaken<T>(cmds: seq<Command<T>>, prefix: Path, slots: Slots<T>)
    requires |slots| == |cmds|
    ensures TakenSoFar(cmds, prefix, 0, slots, slots)
  {
  }

  lemma BlockStep<T>(cmds: seq<Command<T>>, prefix: Path, n: nat, out: seq<Command<T>>)
    requires n < |cmds|
    ensures
      if IsChild(cmds[n].path, prefix) then
        out + Block(cmds, prefix, n) == out + [cmds[n]] + Block(cmds, cmds[n].path, 0) + Block(cmds, prefix, n + 1)
      else Block(cmds, prefix, n) == Block(cmds, prefix, n + 1)
  {
  }

  lemma BlockEnd<T>(cmds: seq<Command<T>>, prefix: Path, n: nat, out: seq<Command<T>>)
    requires n >= |cmds|
    ensures out + Block(cmds, prefix, n) == out
  {
  }

  /** The slots let the visit deliver its whole block. */
  ghost predicate Orderly<T>(cmds: seq<Command<T>>, prefix: Path, slots: Slots<T>) {
    DistinctPaths(cmds) && BelowPending(cmds, prefix, slots)
  }

  /** How far a visit has come that looked at the first `n` slots. */
  ghost predicate Progress<T>(
    cmds: seq<Command<T>>, prefix: Path, n: nat, out: seq<Command<T>>, before: Slots<T>, r: seq<Command<T>>, now: Slots<T>)
  {
    && Fits(cmds, now) && Conserved(out, before, r, now)
    && (Orderly(cmds, prefix, before) ==>
          r + Block(cmds, prefix, n) == out + Block(cmds, prefix, 0) && TakenSoFar(cmds, prefix, n, before, now))
  }

  lemma ProgressStart<T>(cmds: seq<Command<T>>, prefix: Path, out: seq<Command<T>>, before: Slots<T>)
    requires Fits(cmds, before)
    ensures Progress(cmds, prefix, 0, out, before, out, before)
  {
    NothingTaken(cmds, prefix, before);
    hide TakenSoFar, Block;
  }

  lemma ProgressSkip<T>(
    cmds: seq<Command<T>>, prefix: Path, n: nat, out: seq<Command<T>>, before: Slots<T>, r: seq<Command<T>>, now: Slots<T>)
    requires Progress(cmds, prefix, n, out, before, r, now) && n < |cmds|
    requires now[n].None? || !IsChild(cmds[n].path, prefix)
    ensures Progress(cmds, prefix, n + 1, out, before, r, now)
  {
    BlockStep(cmds, prefix, n, r);
    hide Block, Conserved, BelowPending, DistinctPaths, TakenSoFar;
    if Orderly(cmds, prefix, before) {
      if IsChild(cmds[n].path, prefix) {
        ChildIsPending(cmds, prefix, n, before, now);
      } else {
        SkipStep(cmds, prefix, n, before, now);
      }
    }
  }

  lemma ProgressChild<T>(
    cmds: seq<Command<T>>, prefix: Path, n: nat, out: seq<Command<T>>, before: Slots<T>,
    r: seq<Command<T>>, now: Slots<T>, after: seq<Command<T>>, left: Slots<T>)
    requires Progress(cmds, prefix, n, out, before, r, now) && n < |cmds|
    requires now[n] == Some(cmds[n]) && IsChild(cmds[n].path, prefix) && Fits(cmds, left)
    requires Conserved(r + [cmds[n]], now[n := None], after, left)
    requires Orderly(cmds, cmds[n].path, now[n := None]) ==>
               && after == r + [cmds[n]] + Block(cmds, cmds[n].path, 0)
               && TakenBelow(cmds, cmds[n].path, now[n := None], left)
    ensures Progress(cmds, prefix, n + 1, out, before, after, left)
  {
    BlockStep(cmds, prefix, n, r);
    hide Block, Conserved, BelowPending, DistinctPaths, TakenSoFar, TakenBelow, Fits, IsChild, Bag;
    TakeConserves(r, now, n);
    ConservedChain(out, before, r, now, r + [cmds[n]], now[n := None]);
    ConservedChain(out, before, r + [cmds[n]], now[n := None], after, left);
    if Orderly(cmds, prefix, before) {
      ChildIsPending(cmds, prefix, n, before, now);
      VisitStep(cmds, prefix, n, before, now, left);
    }
  }

  lemma ProgressEnd<T>(
    cmds: seq<Command<T>>, prefix: Path, out: seq<Command<T>>, before: Slots<T>, r: seq<Command<T>>, now: Slots<T>)
    requires Progress(cmds, prefix, |cmds|, out, before, r, now)
    ensures Fits(cmds, now) && Conserved(out, before, r, now)
    ensures Orderly(cmds, prefix, before) ==>
              r == out + Block(cmds, prefix, 0) && TakenBelow(cmds, prefix, before, now)
  {
    BlockEnd(cmds, prefix, |cmds|, r);
    hide Block, Conserved, TakenSoFar, TakenBelow;
    if Orderly(cmds, prefix, before) {
      AllReached(cmds, prefix, before, now);
    }
  }

  /**
   Moves the children of `prefix`, each with everything below it, from the pending
   slots to the output. Nothing is lost or repeated; when paths are distinct and
   everything below is still pending, the output grows by exactly the block.
   */
  method Visit<T>(prefix: Path, pending: array<Option<Command<T>>>, out: seq<Command<T>>, ghost cmds: seq<Command<T>>)
    returns (r: seq<Command<T>>)
    requires Fits(cmds, pending[..])
    modifies pending
    ensures Fits(cmds, pending[..])
    ensures Conserved(out, old(pending[..]), r, pending[..])
    ensures Orderly(cmds, prefix, old(pending[..])) ==>
              r == out + Block(cmds, prefix, 0) && TakenBelow(cmds, prefix, old(pending[..]), pending[..])
    decreases |Bag(pending[..])|
  {
    hide Orderly, TakenBelow, TakenSoFar, Block, Bag, BelowPending, DistinctPaths;
    ghost var before := pending[..];
    ProgressStart(cmds, prefix, out, before);
    r := out;
    for index := 0 to pending.Length
      invariant Progress(cmds, prefix, index, out, before, r, pending[..])
    {
      ghost var start, now := r, pending[..];
      if pending[index].Some? && IsChild(pending[index].value.path, prefix) {
        var command := pending[index].value;
        TakeConserves(r, now, index);
        pending[index] := None;
        assert pending[..] == now[index := None];
        r := r + [command];
        r := Visit(command.path, pending, r, cmds);
        ProgressChild(cmds, prefix, index, out, before, start, now, r, pending[..]);
      } else {
        ProgressSkip(cmds, prefix, index, out, before, r, now);
      }
    }
    ProgressEnd(cmds, prefix, out, before, r, pending[..]);
  }

  // -------------------------------------------------------------- the order

  /** What lies below a command follows it at once, without a gap. */
  ghost predicate Preorder<T>(out: seq<Command<T>>) {
    && (forall a, b :: 0 <= a < |out| && 0 <= b < |out| && Extends(out[b].path, out[a].path) ==> a < b)
    && (forall a, b, c :: 0 <= a < b < c < |out| && Extends(out[c].path, out[a].path) ==> Extends(out[b].path, out[a].path))
  }

  predicate Siblings(p: Path, q: Path) {
    |p| == |q| > 0 && p[..|p| - 1] == q[..|q| - 1]
  }

  ghost predicate ComesBefore<T>(cmds: seq<Command<T>>, c: Command<T>, d: Command<T>) {
    exists i, j :: 0 <= i < j < |cmds| && cmds[i] == c && cmds[j] == d
  }

  /** Commands with the same parent keep their order. */
  ghost predicate SiblingsInOrder<T>(cmds: seq<Command<T>>, out: seq<Command<T>>) {
    forall a, b :: 0 <= a < b < |out| && Siblings(out[a].path, out[b].path) ==> ComesBefore(cmds, out[a], out[b])
  }

  /** A member of a block comes by way of one of its children. */
  lemma {:induction false} BlockMember<T>(cmds: seq<Command<T>>, prefix: Path, from: nat, c: Command<T>) returns (i: nat, j: nat)
    requires c in Block(cmds, prefix, from)
    ensures from <= i < |cmds| && IsChild(cmds[i].path, prefix) && j < |cmds| && cmds[j] == c
    ensures i == j || Extends(c.path, cmds[i].path)
    decreases Longest(cmds) - |prefix|, |cmds| - from
  {
    if IsChild(cmds[from].path, prefix) && c in [cmds[from]] + Block(cmds, cmds[from].path, 0) {
      i, j := from, from;
      if c != cmds[from] {
        var k: nat;
        k, j := BlockMember(cmds, cmds[from].path, 0, c);
        assert Extends(c.path, cmds[from].path);
      }
    } else {
      i, j := BlockMember(cmds, prefix, from + 1, c);
    }
  }

  ghost predicate AllBelow<T>(x: seq<Command<T>>, path: Path) {
    forall k :: 0 <= k < |x| ==> Extends(x[k].path, path)
  }

  /** At least as deep as `path`, but on another branch. */
  ghost predicate AllBeside<T>(y: seq<Command<T>>, path: Path) {
    forall k :: 0 <= k < |y| ==> Beside(y[k].path, path)
  }

  predicate Beside(q: Path, path: Path) {
    |q| >= |path| && q[..|path|] != path
  }

  /** Nothing beside a command extends it or what is below it, and the other way round. */
  lemma BesideIsApart(c: Path, p: Path, q: Path)
    requires (p == c || Extends(p, c)) && Beside(q, c)
    ensures !Extends(p, q) && !Extends(q, p)
  {
  }

  lemma JoinPreorders<T>(c: Command<T>, x: seq<Command<T>>, y: seq<Command<T>>)
    requires Preorder(x) && Preorder(y) && AllBelow(x, c.path) && AllBeside(y, c.path)
    ensures Preorder([c] + x + y)
  {
    var out := [c] + x + y;
    forall a, b | 0 <= a < |out| && 0 <= b < |out| && Extends(out[b].path, out[a].path)
      ensures a < b && (a <= |x| <==> b <= |x|)
    {
      JoinForward(c, x, y, a, b);
    }
    forall a, b, e | 0 <= a < b < e < |out| && Extends(out[e].path, out[a].path)
      ensures Extends(out[b].path, out[a].path)
    {
      if 0 < a <= |x| {
        assert out[a] == x[a - 1] && out[b] == x[b - 1] && out[e] == x[e - 1];
      } else if |x| < a {
        assert out[a] == y[a - 1 - |x|] && out[b] == y[b - 1 - |x|] && out[e] == y[e - 1 - |x|];
      } else {
        assert out[b] == x[b - 1];
      }
    }
  }

  lemma JoinForward<T>(c: Command<T>, x: seq<Command<T>>, y: seq<Command<T>>, a: nat, b: nat)
    requires Preorder(x) && Preorder(y) && AllBelow(x, c.path) && AllBeside(y, c.path)
    requires
      var out := [c] + x + y;
      a < |out| && b < |out| && Extends(out[b].path, out[a].path)
    ensures a < b && (a <= |x| <==> b <= |x|)
  {
    var out := [c] + x + y;
    var inA := if a == 0 then c else if a <= |x| then x[a - 1] else y[a - 1 - |x|];
    var inB := if b == 0 then c else if b <= |x| then x[b - 1] else y[b - 1 - |x|];
    assert out[a] == inA && out[b] == inB;
    if a <= |x| < b {
      BesideIsApart(c.path, inA.path, inB.path);
    } else if b <= |x| < a {
      BesideIsApart(c.path, inB.path, inA.path);
    }
  }

  /** Where the members of a child's block and of the later blocks lie. */
  lemma BlockParts<T>(cmds: seq<Command<T>>, prefix: Path, from: nat)
    requires DistinctPaths(cmds) && from < |cmds| && IsChild(cmds[from].path, prefix)
    ensures
      var x, y := Block(cmds, cmds[from].path, 0), Block(cmds, prefix, from + 1);
      AllBelow(x, cmds[from].path) && AllBeside(y, cmds[from].path)
  {
    var n, x, y := |prefix| + 1, Block(cmds, cmds[from].path, 0), Block(cmds, prefix, from + 1);
    forall k | 0 <= k < |x| ensures Extends(x[k].path, cmds[from].path) {
      var i, j := BlockMember(cmds, cmds[from].path, 0, x[k]);
    }
    forall k | 0 <= k < |y| ensures Beside(y[k].path, cmds[from].path) {
      var i, j := BlockMember(cmds, prefix, from + 1, y[k]);
      assert y[k].path[..n] == cmds[i].path;
    }
  }

  lemma {:induction false} BlockIsPreorder<T>(cmds: seq<Command<T>>, prefix: Path, from: nat)
    requires DistinctPaths(cmds)
    ensures Preorder(Block(cmds, prefix, from))
    decreases Longest(cmds) - |prefix|, |cmds| - from
  {
    if from < |cmds| {
      BlockIsPreorder(cmds, prefix, from + 1);
      if IsChild(cmds[from].path, prefix) {
        BlockIsPreorder(cmds, cmds[from].path, 0);
        BlockParts(cmds, prefix, from);
        JoinPreorders(cmds[from], Block(cmds, cmds[from].path, 0), Block(cmds, prefix, from + 1));
      }
    }
  }

  lemma JoinSiblings<T>(cmds: seq<Command<T>>, c: Command<T>, x: seq<Command<T>>, y: seq<Command<T>>)
    requires SiblingsInOrder(cmds, x) && SiblingsInOrder(cmds, y) && AllBelow(x, c.path) && AllBeside(y, c.path)
    requires forall k :: 0 <= k < |y| && |y[k].path| == |c.path| ==> ComesBefore(cmds, c, y[k])
    ensures SiblingsInOrder(cmds, [c] + x + y)
  {
    var out := [c] + x + y;
    forall a, b | 0 <= a < b < |out| && Siblings(out[a].path, out[b].path) ensures ComesBefore(cmds, out[a], out[b]) {
      if b <= |x| {
        assert out[b] == x[b - 1];
        if a > 0 { assert out[a] == x[a - 1]; }
      } else {
        assert out[b] == y[b - 1 - |x|];
        if a > |x| {
          assert out[a] == y[a - 1 - |x|];
        }
      }
    }
  }

  lemma {:induction false} BlockKeepsSiblings<T>(cmds: seq<Command<T>>, prefix: Path, from: nat)
    requires DistinctPaths(cmds)
    ensures SiblingsInOrder(cmds, Block(cmds, prefix, from))
    decreases Longest(cmds) - |prefix|, |cmds| - from
  {
    if from < |cmds| {
      BlockKeepsSiblings(cmds, prefix, from + 1);
      if IsChild(cmds[from].path, prefix) {
        BlockKeepsSiblings(cmds, cmds[from].path, 0);
        BlockParts(cmds, prefix, from);
        var c, y := cmds[from], Block(cmds, prefix, from + 1);
        forall k | 0 <= k < |y| && |y[k].path| == |c.path| ensures ComesBefore(cmds, c, y[k]) {
          var i, j := BlockMember(cmds, prefix, from + 1, y[k]);
        }
        JoinSiblings(cmds, c, Block(cmds, c.path, 0), y);
      }
    }
  }

  // -------------------------------------------------------------- sort_tree

  /** What is still pending, in input order. */
  function Rest<T>(slots: Slots<T>): seq<Command<T>> {
    if slots == [] then []
    else
      var n := |slots| - 1;
      Rest(slots[..n]) + if slots[n].Some? then [slots[n].value] else []
  }

  lemma {:induction false} RestIsBag<T>(slots: Slots<T>)
    ensures multiset(Rest(slots)) == Bag(slots)
    ensures (forall j :: 0 <= j < |slots| ==> slots[j].None?) ==> Rest(slots) == []
  {
    if slots != [] {
      RestIsBag(slots[..|slots| - 1]);
    }
  }

  lemma {:induction false} FullBag<T>(cmds: seq<Command<T>>, slots: Slots<T>)
    requires |slots| == |cmds| && forall j :: 0 <= j < |cmds| ==> slots[j] == Some(cmds[j])
    ensures Bag(slots) == multiset(cmds)
  {
    if cmds != [] {
      var n := |cmds| - 1;
      FullBag(cmds[..n], slots[..n]);
      assert cmds == cmds[..n] + [cmds[n]];
    }
  }

  /** No path is empty, and with a path come all its non-empty prefixes. */
  ghost predicate PrefixClosed<T>(cmds: seq<Command<T>>) {
    forall i :: 0 <= i < |cmds| ==> Anchored(cmds, [], cmds[i].path)
  }

  lemma EverythingFits<T>(cmds: seq<Command<T>>, slots: Slots<T>)
    requires |slots| == |cmds| && forall j :: 0 <= j < |cmds| ==> slots[j] == Some(cmds[j])
    ensures Fits(cmds, slots) && BelowPending(cmds, [], slots) && Bag(slots) == multiset(cmds)
  {
    FullBag(cmds, slots);
  }

  /** Whatever stands in a block hangs on its prefix by commands that are all there. */
  lemma {:induction false} BlockIsAnchored<T>(cmds: seq<Command<T>>, prefix: Path, from: nat, c: Command<T>)
    requires c in Block(cmds, prefix, from)
    ensures c in cmds && Anchored(cmds, prefix, c.path)
    decreases Longest(cmds) - |prefix|, |cmds| - from
  {
    var child := cmds[from];
    if IsChild(child.path, prefix) && c == child {
      assert Via(cmds, prefix, from, from);
      ViaIsAnchored(cmds, prefix, from, from);
    } else if IsChild(child.path, prefix) && c in Block(cmds, child.path, 0) {
      BlockIsAnchored(cmds, child.path, 0, c);
      var j :| 0 <= j < |cmds| && cmds[j] == c;
      ViaIsAnchored(cmds, prefix, from, j);
    } else {
      BlockIsAnchored(cmds, prefix, from + 1, c);
    }
  }

  lemma {:induction false} RestMember<T>(cmds: seq<Command<T>>, slots: Slots<T>, c: Command<T>) returns (j: nat)
    requires Fits(cmds, slots) && c in Rest(slots)
    ensures j < |cmds| && cmds[j] == c && slots[j] == Some(c)
  {
    var n := |slots| - 1;
    if slots[n] == Some(c) {
      j := n;
    } else {
      j := RestMember(cmds[..n], slots[..n], c);
    }
  }

  lemma {:induction false} RestInOrder<T>(cmds: seq<Command<T>>, slots: Slots<T>, a: nat, b: nat)
    requires Fits(cmds, slots) && a < b < |Rest(slots)|
    ensures ComesBefore(cmds, Rest(slots)[a], Rest(slots)[b])
  {
    var n := |slots| - 1;
    var front := Rest(slots[..n]);
    if b < |front| {
      RestInOrder(cmds[..n], slots[..n], a, b);
      var i, j :| 0 <= i < j < n && cmds[..n][i] == front[a] && cmds[..n][j] == front[b];
      assert cmds[i] == front[a] && cmds[j] == front[b];
    } else {
      var i := RestMember(cmds[..n], slots[..n], front[a]);
      assert cmds[i] == front[a] && cmds[n] == Rest(slots)[b];
    }
  }

  /** The first `n` commands hang together from the top; the others do not, and stand behind in input order. */
  ghost predicate OrphansLast<T>(cmds: seq<Command<T>>, out: seq<Command<T>>, n: nat) {
    && n <= |out|
    && Preorder(out[..n]) && SiblingsInOrder(cmds, out[..n])
    && (forall i :: 0 <= i < n ==> Anchored(cmds, [], out[i].path))
    && (forall i :: n <= i < |out| ==> !Anchored(cmds, [], out[i].path))
    && (forall i, j :: n <= i < j < |out| ==> ComesBefore(cmds, out[i], out[j]))
  }

  lemma RestIsOrphans<T>(cmds: seq<Command<T>>, before: Slots<T>, block: seq<Command<T>>, after: Slots<T>)
    requires DistinctPaths(cmds) && Fits(cmds, after) && TakenBelow(cmds, [], before, after)
    requires block == Block(cmds, [], 0)
    ensures OrphansLast(cmds, block + Rest(after), |block|)
  {
    hide Preorder, SiblingsInOrder, Block, Anchored, ComesBefore, Rest, DistinctPaths, TakenBelow, Fits;
    var rest := Rest(after);
    BlockIsPreorder(cmds, [], 0);
    BlockKeepsSiblings(cmds, [], 0);
    forall i | 0 <= i < |block| ensures Anchored(cmds, [], block[i].path) {
      BlockIsAnchored(cmds, [], 0, block[i]);
    }
    forall i | 0 <= i < |rest| ensures !Anchored(cmds, [], rest[i].path) {
      RestIsNotAnchored(cmds, before, after, rest[i]);
    }
    forall i, j | 0 <= i < j < |rest| ensures ComesBefore(cmds, rest[i], rest[j]) {
      RestInOrder(cmds, after, i, j);
    }
    PutLast(cmds, block, rest);
  }

  lemma RestIsNotAnchored<T>(cmds: seq<Command<T>>, before: Slots<T>, after: Slots<T>, c: Command<T>)
    requires Fits(cmds, after) && TakenBelow(cmds, [], before, after) && c in Rest(after)
    ensures !Anchored(cmds, [], c.path)
  {
    hide Anchored;
    var j := RestMember(cmds, after, c);
  }

  lemma PutLast<T>(cmds: seq<Command<T>>, block: seq<Command<T>>, rest: seq<Command<T>>)
    requires Preorder(block) && SiblingsInOrder(cmds, block)
    requires forall i :: 0 <= i < |block| ==> Anchored(cmds, [], block[i].path)
    requires forall i :: 0 <= i < |rest| ==> !Anchored(cmds, [], rest[i].path)
    requires forall i, j :: 0 <= i < j < |rest| ==> ComesBefore(cmds, rest[i], rest[j])
    ensures OrphansLast(cmds, block + rest, |block|)
  {
    hide Preorder, SiblingsInOrder, Anchored, ComesBefore;
    var out := block + rest;
    assert out[..|block|] == block;
    forall i, j | |block| <= i < j < |out| ensures ComesBefore(cmds, out[i], out[j]) {
      assert out[i] == rest[i - |block|] && out[j] == rest[j - |block|];
    }
  }

  /** Before the visit every slot is full; after it the visit has taken the whole block. */
  lemma SortedResult<T>(cmds: seq<Command<T>>, before: Slots<T>, block: seq<Command<T>>, after: Slots<T>)
    requires Bag(before) == multiset(cmds) && Conserved([], before, block, after)
    requires DistinctPaths(cmds) ==> block == [] + Block(cmds, [], 0) && TakenBelow(cmds, [], before, after)
    ensures multiset(block + Rest(after)) == multiset(cmds)
    ensures DistinctPaths(cmds) && PrefixClosed(cmds) ==>
              Preorder(block + Rest(after)) && SiblingsInOrder(cmds, block + Rest(after))
  {
    RestIsBag(after);
    if DistinctPaths(cmds) && PrefixClosed(cmds) {
      assert forall j :: 0 <= j < |cmds| ==> after[j].None?;
      assert block + Rest(after) == Block(cmds, [], 0);
      hide Preorder;
      hide SiblingsInOrder;
      BlockIsPreorder(cmds, [], 0);
      BlockKeepsSiblings(cmds, [], 0);
    }
  }

  method Fill<T>(commands: seq<Command<T>>) returns (pending: array<Option<Command<T>>>)
    ensures fresh(pending) && pending.Length == |commands|
    ensures forall j :: 0 <= j < |commands| ==> pending[..][j] == Some(commands[j])
  {
    pending := new Option<Command<T>>[|commands|](i requires 0 <= i < |commands| => Some(commands[i]));
  }

  method Flatten<T>(pending: array<Option<Command<T>>>) returns (rest: seq<Command<T>>)
    ensures rest == Rest(pending[..])
  {
    rest := [];
    for index := 0 to pending.Length
      invariant rest == Rest(pending[..index])
    {
      assert pending[..index + 1][..index] == pending[..index];
      if pending[index].Some? {
        rest := rest + [pending[index].value];
      }
    }
    assert pending[..pending.Length] == pending[..];
  }

  /**
   The result is always a permutation of the input. When the paths are distinct the
   commands that hang together from the top come first, in preorder: every command is
   followed at once by everything below it, and commands with the same parent keep
   their order. The others follow in input order; there are none when the paths are
   prefix-closed.
   */
  method SortTree<T>(commands: seq<Command<T>>) returns (out: seq<Command<T>>)
    ensures multiset(out) == multiset(commands)
    ensures DistinctPaths(commands) && PrefixClosed(commands) ==>
              Preorder(out) && SiblingsInOrder(commands, out)
    ensures DistinctPaths(commands) ==> exists n :: OrphansLast(commands, out, n)
  {
    hide Preorder, SiblingsInOrder, OrphansLast, DistinctPaths, PrefixClosed, Block, TakenBelow, Bag;
    var pending := Fill(commands);
    ghost var before := pending[..];
    EverythingFits(commands, before);
    out := Visit([], pending, [], commands);
    SortedResult(commands, before, out, pending[..]);
    if DistinctPaths(commands) {
      assert [] + Block(commands, [], 0) == Block(commands, [], 0);
      RestIsOrphans(commands, before, out, pending[..]);
    }
    var rest := Flatten(pending);
    out := out + rest;
  }
}
