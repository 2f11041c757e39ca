/** Ordering menu fixture rows so that every parent comes before its children. */
module MenuOrder {
  import opened Wrappers
  import opened MenuRows

  datatype OrderError = DuplicateIds | CycleOrMissingParent

  ghost predicate ParentsFirst<T>(ordered: seq<Row<T>>) {
    forall i :: 0 <= i < |ordered| && ordered[i].parent.Some? ==> ordered[i].parent.value in Ids(ordered[..i])
  }

  /** A permutation of the rows in which every parent comes before its children. */
  ghost predicate ValidOrder<T>(rows: seq<Row<T>>, ordered: seq<Row<T>>) {
    multiset(ordered) == multiset(rows) && ParentsFirst(ordered)
  }

  ghost predicate AllRooted<T>(rows: seq<Row<T>>) {
    forall r :: r in rows ==> Rooted(rows, r.id)
  }

  predicate Ready<T>(r: Row<T>, resolved: set<int>) {
    r.id !in resolved && (r.parent.None? || r.parent.value in resolved)
  }

  /** What has been ordered so far, and the ids it resolves. */
  ghost predicate Progress<T>(rows: seq<Row<T>>, ordered: seq<Row<T>>, resolved: set<int>) {
    && DistinctIds(ordered) && ParentsFirst(ordered)
    && resolved == Ids(ordered)
    && forall r :: r in ordered ==> r in rows
  }

  lemma IdsSnoc<T>(rows: seq<Row<T>>, r: Row<T>)
    ensures Ids(rows + [r]) == Ids(rows) + {r.id}
  {
    assert forall x :: x in rows + [r] <==> x in rows || x == r;
  }

  lemma ProgressStep<T>(rows: seq<Row<T>>, ordered: seq<Row<T>>, resolved: set<int>, r: Row<T>)
    requires Progress(rows, ordered, resolved) && r in rows && Ready(r, resolved)
    ensures Progress(rows, ordered + [r], resolved + {r.id})
  {
    IdsSnoc(ordered, r);
    var more := ordered + [r];
    forall i | 0 <= i < |more| && more[i].parent.Some? ensures more[i].parent.value in Ids(more[..i]) {
      assert more[..i] == ordered[..i];
      assert ordered[..|ordered|] == ordered;
    }
    assert forall i :: 0 <= i < |ordered| ==> ordered[i] in ordered && ordered[i].id in Ids(ordered);
  }

  lemma DistinctFromBelow<T>(rows: seq<Row<T>>, ordered: seq<Row<T>>, resolved: set<int>)
    requires Progress(rows, ordered, resolved) && DistinctIds(rows)
    ensures |ordered| <= |rows|
    ensures |ordered| == |rows| ==> multiset(ordered) == multiset(rows)
  {
    IdsCountDistinct(ordered);
    IdsCountDistinct(rows);
    assert Ids(ordered) <= Ids(rows);
    SubsetSize(Ids(ordered), Ids(rows));
    if |ordered| == |rows| {
      forall r ensures multiset(ordered)[r] == multiset(rows)[r] {
        DistinctMultiplicity(ordered, r);
        DistinctMultiplicity(rows, r);
        if r in rows {
          assert r.id in Ids(ordered);
          var q :| q in ordered && q.id == r.id;
          SameRow(rows, q, r);
        }
      }
    }
  }

  lemma SameRow<T>(rows: seq<Row<T>>, q: Row<T>, r: Row<T>)
    requires DistinctIds(rows) && q in rows && r in rows && q.id == r.id
    ensures q == r
  {
  }

  /** Whatever is ordered hangs on a root of the input. */
  lemma {:induction false} OrderedIsRooted<T>(rows: seq<Row<T>>, ordered: seq<Row<T>>, i: nat)
    requires ParentsFirst(ordered) && i < |ordered|
    requires forall r :: r in ordered ==> r in rows
    ensures Rooted(rows, ordered[i].id)
    decreases i
  {
    var r := ordered[i];
    assert r in rows;
    if r.parent.None? {
      ChainExtend(rows, [], r.id);
    } else {
      assert r.parent.value in Ids(ordered[..i]);
      var j :| 0 <= j < i && ordered[j].id == r.parent.value;
      OrderedIsRooted(rows, ordered, j);
      var p :| ChainTo(rows, p, ordered[j].id);
      ChainExtend(rows, p, r.id);
    }
  }

  /** No row of the input can be resolved next. */
  ghost predicate Stuck<T>(rows: seq<Row<T>>, resolved: set<int>) {
    forall k :: 0 <= k < |rows| ==> !Ready(rows[k], resolved)
  }

  lemma {:induction false} StuckResolvesChains<T>(rows: seq<Row<T>>, resolved: set<int>, p: seq<int>, k: nat)
    requires Stuck(rows, resolved) && Chain(rows, p) && k < |p|
    ensures p[k] in resolved
  {
    if k > 0 {
      StuckResolvesChains(rows, resolved, p, k - 1);
    }
    assert Link(rows, p, k);
  }

  /** A stuck run has left some row out, and that row has no chain to a root. */
  lemma StuckMeansUnrooted<T>(rows: seq<Row<T>>, ordered: seq<Row<T>>, resolved: set<int>)
    requires Progress(rows, ordered, resolved) && DistinctIds(rows)
    requires Stuck(rows, resolved) && |ordered| < |rows|
    ensures !AllRooted(rows)
  {
    IdsCountDistinct(ordered);
    IdsCountDistinct(rows);
    assert !(Ids(rows) <= resolved) by {
      if Ids(rows) <= resolved { SubsetSize(Ids(rows), resolved); }
    }
    var id :| id in Ids(rows) && id !in resolved;
    var r :| r in rows && r.id == id;
    if Rooted(rows, id) {
      var p :| ChainTo(rows, p, id);
      StuckResolvesChains(rows, resolved, p, |p| - 1);
    }
  }

  /** In rows that are in order already every row is ready when its turn comes. */
  lemma NextIsReady<T>(rows: seq<Row<T>>, i: nat)
    requires DistinctIds(rows) && ParentsFirst(rows) && i < |rows|
    ensures Ready(rows[i], Ids(rows[..i])) && rows[..i + 1] == rows[..i] + [rows[i]]
  {
  }

  /**
   Repeated passes over the fixture. It succeeds exactly when the ids are distinct
   and every row's parent chain reaches a root, and then returns a valid order: the
   rows as they are when they are in order already.
   */
  method OrderMenuRows<T(==)>(rows: seq<Row<T>>) returns (r: Result<seq<Row<T>>, OrderError>)
    ensures r.Ok? <==> DistinctIds(rows) && AllRooted(rows)
    ensures r.Ok? ==> ValidOrder(rows, r.value)
    ensures r.Err? ==> (r.error.DuplicateIds? <==> !DistinctIds(rows))
    ensures DistinctIds(rows) && ParentsFirst(rows) ==> r == Ok(rows)
  {
    var ids := set row | row in rows :: row.id;
    assert ids == Ids(rows);
    IdsCountDistinct(rows);
    if |ids| != |rows| {
      return Err(DuplicateIds);
    }
    var ordered: seq<Row<T>> := [];
    var resolved: set<int> := {};
    while |ordered| < |rows|
      invariant Progress(rows, ordered, resolved)
      invariant ParentsFirst(rows) ==> ordered == [] || ordered == rows
      invariant |ordered| <= |rows|
      decreases |rows| - |ordered|
    {
      var before := |ordered|;
      for i := 0 to |rows|
        invariant Progress(rows, ordered, resolved)
        invariant before <= |ordered|
        invariant ParentsFirst(rows) && before == 0 ==> ordered == rows[..i]
        invariant before == |ordered| ==> forall k :: 0 <= k < i ==> !Ready(rows[k], resolved)
      {
        var row := rows[i];
        if ParentsFirst(rows) && before == 0 { NextIsReady(rows, i); }
        if row.id !in resolved && (row.parent.None? || row.parent.value in resolved) {
          ProgressStep(rows, ordered, resolved, row);
          ordered := ordered + [row];
          resolved := resolved + {row.id};
        }
      }
      DistinctFromBelow(rows, ordered, resolved);
      if before == |ordered| {
        StuckMeansUnrooted(rows, ordered, resolved);
        return Err(CycleOrMissingParent);
      }
    }
    DistinctFromBelow(rows, ordered, resolved);
    forall row | row in rows ensures Rooted(rows, row.id) {
      assert row in multiset(ordered);
      var i :| 0 <= i < |ordered| && ordered[i] == row;
      OrderedIsRooted(rows, ordered, i);
    }
    return Ok(ordered);
  }
}
