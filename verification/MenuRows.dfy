/** Rows that point to a parent row by id, and the chains they form. Parents may dangle or run in cycles. */
module MenuRows {
  import opened Wrappers

  /** A row with its primary key, its parent's key, and everything else. */
  datatype Row<T> = Row(id: int, parent: Option<int>, body: T)

  ghost predicate DistinctIds<T>(rows: seq<Row<T>>) {
    forall i, j :: 0 <= i < j < |rows| ==> rows[i].id != rows[j].id
  }

  ghost predicate HasRow<T>(rows: seq<Row<T>>, id: int, parent: Option<int>) {
    exists i :: 0 <= i < |rows| && rows[i].id == id && rows[i].parent == parent
  }

  /** A chain of ids that starts at a root, each the parent of the next, all inside the input. */
  ghost predicate Chain<T>(rows: seq<Row<T>>, p: seq<int>) {
    forall k :: 0 <= k < |p| ==> Link(rows, p, k)
  }

  /** The k-th id of the chain is a row whose parent is the id before it. */
  ghost predicate Link<T>(rows: seq<Row<T>>, p: seq<int>, k: int)
    requires 0 <= k < |p|
  {
    HasRow(rows, p[k], Above(p, k))
  }

  function Above(p: seq<int>, k: int): Option<int>
    requires 0 <= k <= |p|
  {
    if k == 0 then None else Some(p[k - 1])
  }

  ghost predicate ChainTo<T>(rows: seq<Row<T>>, p: seq<int>, id: int) {
    Chain(rows, p) && p != [] && p[|p| - 1] == id
  }

  /** The row's parent chain reaches a root inside the input. */
  ghost predicate Rooted<T>(rows: seq<Row<T>>, id: int) {
    exists p :: ChainTo(rows, p, id)
  }

  lemma OneParent<T>(rows: seq<Row<T>>, id: int, a: Option<int>, b: Option<int>)
    requires DistinctIds(rows) && HasRow(rows, id, a) && HasRow(rows, id, b)
    ensures a == b
  {
  }

  /** There is at most one chain to an id, so no chain passes through an id twice. */
  lemma {:induction false} ChainIsUnique<T>(rows: seq<Row<T>>, p: seq<int>, q: seq<int>)
    requires DistinctIds(rows) && Chain(rows, p) && Chain(rows, q)
    requires p != [] && q != [] && p[|p| - 1] == q[|q| - 1]
    ensures p == q
    decreases |p|
  {
    var m, n := |p| - 1, |q| - 1;
    assert Link(rows, p, m) && Link(rows, q, n);
    OneParent(rows, p[m], Above(p, m), Above(q, n));
    if m > 0 {
      ChainPrefix(rows, p, m);
      ChainPrefix(rows, q, n);
      ChainIsUnique(rows, p[..m], q[..n]);
    }
    assert p == p[..m] + [p[m]] && q == q[..n] + [q[n]];
  }

  lemma ChainPrefix<T>(rows: seq<Row<T>>, p: seq<int>, n: nat)
    requires Chain(rows, p) && n <= |p|
    ensures Chain(rows, p[..n])
  {
    forall k | 0 <= k < n ensures Link(rows, p[..n], k) {
      assert Link(rows, p, k);
    }
  }

  lemma ChainExtend<T>(rows: seq<Row<T>>, p: seq<int>, id: int)
    requires Chain(rows, p) && HasRow(rows, id, Above(p, |p|))
    ensures ChainTo(rows, p + [id], id)
  {
    forall k | 0 <= k < |p| + 1 ensures Link(rows, p + [id], k) {
      if k < |p| { assert Link(rows, p, k); }
    }
  }

  lemma ChainHasNoRepeats<T>(rows: seq<Row<T>>, p: seq<int>, i: nat, j: nat)
    requires DistinctIds(rows) && Chain(rows, p) && i < j < |p|
    ensures p[i] != p[j]
  {
    if p[i] == p[j] {
      ChainPrefix(rows, p, i + 1);
      ChainPrefix(rows, p, j + 1);
      ChainIsUnique(rows, p[..i + 1], p[..j + 1]);
    }
  }

  ghost function Ids<T>(rows: seq<Row<T>>): set<int> {
    set r | r in rows :: r.id
  }

  lemma IdsOfSnoc<T>(rows: seq<Row<T>>)
    requires rows != []
    ensures Ids(rows) == Ids(rows[..|rows| - 1]) + {rows[|rows| - 1].id}
  {
    assert rows == rows[..|rows| - 1] + [rows[|rows| - 1]];
  }

  lemma DistinctSnoc<T>(rows: seq<Row<T>>)
    requires rows != []
    ensures var front, last := rows[..|rows| - 1], rows[|rows| - 1];
            DistinctIds(rows) <==> DistinctIds(front) && last.id !in Ids(front)
  {
    var front, last := rows[..|rows| - 1], rows[|rows| - 1];
    if last.id in Ids(front) {
      var i :| 0 <= i < |front| && front[i].id == last.id;
      assert rows[i].id == last.id;
    } else {
      assert forall i :: 0 <= i < |front| ==> rows[i] in front && rows[i].id in Ids(front);
    }
  }

  /** The ids of a sequence of rows are as many as the rows exactly when they are distinct. */
  lemma {:induction false} IdsCountDistinct<T>(rows: seq<Row<T>>)
    ensures |Ids(rows)| <= |rows|
    ensures |Ids(rows)| == |rows| <==> DistinctIds(rows)
  {
    if rows != [] {
      var n := |rows| - 1;
      var front, last := rows[..n], rows[n];
      IdsCountDistinct(front);
      IdsOfSnoc(rows);
      DistinctSnoc(rows);
      hide Ids, DistinctIds;
    }
  }

  lemma {:induction false} DistinctMultiplicity<T>(rows: seq<Row<T>>, r: Row<T>)
    requires DistinctIds(rows)
    ensures multiset(rows)[r] == if r in rows then 1 else 0
  {
    if rows != [] {
      var n := |rows| - 1;
      DistinctMultiplicity(rows[..n], r);
      assert rows == rows[..n] + [rows[n]];
    }
  }

  lemma {:induction false} ChainIdsExist<T>(rows: seq<Row<T>>, p: seq<int>)
    requires Chain(rows, p)
    ensures forall k :: 0 <= k < |p| ==> p[k] in Ids(rows)
  {
    forall k | 0 <= k < |p| ensures p[k] in Ids(rows) {
      assert Link(rows, p, k);
      var i :| 0 <= i < |rows| && rows[i].id == p[k];
      assert rows[i] in rows;
    }
  }

  /** A chain is no longer than the input: this is what bounds the depth of a tree built from the rows. */
  lemma ChainIsShort<T>(rows: seq<Row<T>>, p: seq<int>)
    requires DistinctIds(rows) && Chain(rows, p)
    ensures |p| <= |rows|
  {
    forall i, j | 0 <= i < j < |p| ensures p[i] != p[j] {
      ChainHasNoRepeats(rows, p, i, j);
    }
    ChainIdsExist(rows, p);
    DistinctWithin(p, Ids(rows));
    IdsCountDistinct(rows);
  }

  lemma {:induction false} DistinctWithin(p: seq<int>, s: set<int>)
    requires forall i, j :: 0 <= i < j < |p| ==> p[i] != p[j]
    requires forall k :: 0 <= k < |p| ==> p[k] in s
    ensures |p| <= |s|
  {
    if p != [] {
      var n := |p| - 1;
      DistinctWithin(p[..n], s - {p[n]});
    }
  }
}
