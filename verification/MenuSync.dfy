/**
 Merging the menu fixture into an existing table. Ids differ between machines, so
 a page is recognised by its path and a group by its title and parent; a row that
 is not recognised is never overwritten, even when it has the fixture's id.
 */
module MenuSync {
  import opened Wrappers
  import opened MenuRows
  import opened MenuOrder

  datatype Details = Details(
    title: string,
    path: Option<string>,
    icon: Option<string>,
    permissionCode: Option<string>,
    sortOrder: int,
    visible: bool,
    enabled: bool,
    createdAt: int,
    updatedAt: int)

  type Fixture = Row<Details>

  /** A stored menu; its id is its key in the table. */
  datatype Entry = Entry(parent: Option<int>, details: Details)

  type Table = map<int, Entry>

  datatype SyncError = Unorderable(error: OrderError) | AmbiguousIdentity | DuplicateIdentity | KeyConflict

  /** The stored menu has the identity of a fixture row whose parent is stored under `parent`. */
  predicate Matches(e: Entry, d: Details, parent: Option<int>) {
    if d.path.Some? then e.details.path == d.path
    else e.details.path.None? && e.details.title == d.title && e.parent == parent
  }

  function MatchIds(t: Table, d: Details, parent: Option<int>): set<int> {
    set id | id in t && Matches(t[id], d, parent)
  }

  /**
   `row` was stored under `id`: in place of the one menu with its identity, or as a
   new menu, and then under the fixture's id unless that was taken.
   */
  ghost predicate Synced(t: Table, row: Fixture, parent: Option<int>, id: int, u: Table) {
    && u == t[id := Entry(parent, row.body)]
    && (|| MatchIds(t, row.body, parent) == {id}
        || (MatchIds(t, row.body, parent) == {} && id !in t && (row.id !in t ==> id == row.id)))
  }

  function Mapped(ids: map<int, int>, parent: Option<int>): Option<int>
    requires parent.Some? ==> parent.value in ids
  {
    if parent.None? then None else Some(ids[parent.value])
  }

  /** Step k stores row k under the id it is mapped to, below the mapped parent. */
  ghost predicate StepOf(tables: seq<Table>, ordered: seq<Fixture>, ids: map<int, int>, k: int)
    requires |tables| == |ordered| + 1 && 0 <= k < |ordered|
  {
    && ordered[k].id in ids
    && (ordered[k].parent.Some? ==> ordered[k].parent.value in ids)
    && Synced(tables[k], ordered[k], Mapped(ids, ordered[k].parent), ids[ordered[k].id], tables[k + 1])
  }

  /** The tables from before the first row to after the last, and the ids the rows were mapped to. */
  ghost predicate Trace(tables: seq<Table>, ordered: seq<Fixture>, ids: map<int, int>) {
    && |tables| == |ordered| + 1
    && ids.Keys == Ids(ordered)
    && (forall k :: 0 <= k < |ordered| ==> StepOf(tables, ordered, ids, k))
    && (forall j, k :: 0 <= j < k < |ordered| ==> ids[ordered[j].id] != ids[ordered[k].id])
  }

  /** A layout of the whole fixture that ended well. */
  ghost predicate LaidOut(t: Table, rows: seq<Fixture>, ids: map<int, int>, u: Table) {
    exists ordered: seq<Fixture>, tables: seq<Table> ::
      ValidOrder(rows, ordered) && Trace(tables, ordered, ids) && tables[0] == t && tables[|ordered|] == u
  }

  /** The identity of row k cannot be settled: nothing or several menus match, or the match is already taken. */
  ghost predicate Unsettled(t: Table, row: Fixture, ids: map<int, int>) {
    && (row.parent.Some? ==> row.parent.value in ids)
    && (|| |MatchIds(t, row.body, Mapped(ids, row.parent))| != 1
        || MatchIds(t, row.body, Mapped(ids, row.parent)) <= ids.Values)
  }

  /** A layout that stopped at row k. */
  ghost predicate Refused(t: Table, rows: seq<Fixture>) {
    exists ordered: seq<Fixture>, tables: seq<Table>, ids, k: nat ::
      && ValidOrder(rows, ordered) && k < |ordered|
      && Trace(tables, ordered[..k], ids) && tables[0] == t
      && Unsettled(tables[k], ordered[k], ids)
  }

  lemma TraceExtends(tables: seq<Table>, ordered: seq<Fixture>, ids: map<int, int>, row: Fixture, id: int, u: Table)
    requires Trace(tables, ordered, ids) && row.id !in ids && id !in ids.Values
    requires row.parent.Some? ==> row.parent.value in ids
    requires Synced(tables[|ordered|], row, Mapped(ids, row.parent), id, u)
    ensures Trace(tables + [u], ordered + [row], ids[row.id := id])
  {
    IdsSnoc(ordered, row);
    var ts, os, map2 := tables + [u], ordered + [row], ids[row.id := id];
    forall k | 0 <= k < |os| ensures StepOf(ts, os, map2, k) {
      if k < |ordered| { assert StepOf(tables, ordered, ids, k); }
    }
    forall j, k | 0 <= j < k < |os| ensures map2[os[j].id] != map2[os[k].id] {
      assert StepOf(tables, ordered, ids, j);
      if k < |ordered| {
        assert StepOf(tables, ordered, ids, k);
      } else {
        assert ids[ordered[j].id] in ids.Values;
      }
    }
  }

  /** A row whose identity is that of the menus `same`: one is reused, none means a new menu, several are refused. */
  ghost predicate Settles(same: set<int>, t: Table, r: Result<int, SyncError>) {
    && (|same| > 1 <==> r == Err(AmbiguousIdentity))
    && (|same| == 1 ==> r.Ok? && r.value in same)
    && (same == {} ==> r == Err(KeyConflict) || (r.Ok? && r.value !in t))
  }

  /**
   The menus that a row stands for: those with its path whatever their title and
   parent, or, for a row without a path, those without a path that have its title and
   stand under its parent.
   */
  ghost predicate Recognises(t: Table, d: Details, parent: Option<int>, r: Result<int, SyncError>) {
    var pages := set id | id in t && t[id].details.path == d.path;
    var groups :=
      set id | id in t && t[id].details.path.None? && t[id].details.title == d.title && t[id].parent == parent;
    Settles(if d.path.Some? then pages else groups, t, r)
  }

  /** A page is recognised by its path alone, a group by its title and parent among the menus without a path. */
  lemma WhatMatches(t: Table, d: Details, parent: Option<int>)
    ensures d.path.Some? ==> MatchIds(t, d, parent) == set id | id in t && t[id].details.path == d.path
    ensures d.path.None? ==>
              MatchIds(t, d, parent)
              == set id | id in t && t[id].details.path.None? && t[id].details.title == d.title && t[id].parent == parent
  {
    var pages := set id | id in t && t[id].details.path == d.path;
    var groups :=
      set id | id in t && t[id].details.path.None? && t[id].details.title == d.title && t[id].parent == parent;
    assert forall id :: id in MatchIds(t, d, parent) <==> id in if d.path.Some? then pages else groups;
  }

  class MenuTable {
    var rows: Table

    constructor (initial: Table)
      ensures rows == initial
    {
      rows := initial;
    }

    /** `generated` is the id the database would generate next. */
    method SyncMenu(row: Fixture, parent: Option<int>, generated: int) returns (r: Result<int, SyncError>)
      modifies this
      ensures r.Ok? ==> Synced(old(rows), row, parent, r.value, rows)
      ensures r.Err? ==> rows == old(rows) && |MatchIds(rows, row.body, parent)| != 1
      ensures r.Err? ==> r.error == if |MatchIds(rows, row.body, parent)| > 1 then AmbiguousIdentity else KeyConflict
      ensures r.Err? && r.error.KeyConflict? ==> row.id in rows && generated in rows
      ensures Recognises(old(rows), row.body, parent, r)
    {
      WhatMatches(rows, row.body, parent);
      var matches := MatchIds(rows, row.body, parent);
      if |matches| > 1 {
        return Err(AmbiguousIdentity);
      }
      if matches != {} {
        ghost var some := Pick(matches);
        var id :| id in matches;
        assert |matches - {id}| == 0;
        rows := rows[id := Entry(parent, row.body)];
        return Ok(id);
      }
      var id := if row.id in rows then generated else row.id;
      if id in rows {
        return Err(KeyConflict);
      }
      rows := rows[id := Entry(parent, row.body)];
      return Ok(id);
    }

    /**
     On an error the caller rolls the transaction back, so only the refusal matters then.
     `generated` holds one database-generated id for each row that may need it.
     */
    method SyncMenuLayout(fixture: seq<Fixture>, generated: seq<int>) returns (r: Result<map<int, int>, SyncError>)
      requires |generated| == |fixture|
      modifies this
      ensures r.Ok? ==> LaidOut(old(rows), fixture, r.value, rows)
      ensures r.Err? && r.error.Unorderable? <==> !(DistinctIds(fixture) && AllRooted(fixture))
      ensures r.Err? && !r.error.Unorderable? ==> Refused(old(rows), fixture)
    {
      hide Recognises, ValidOrder, ParentsFirst, Trace, Synced, Unsettled, Refused, LaidOut, MatchIds, DistinctIds, AllRooted;
      var order := OrderMenuRows(fixture);
      if order.Err? {
        return Err(Unorderable(order.error));
      }
      var ordered := order.value;
      OrderKeepsSize(fixture, ordered);
      var ids: map<int, int> := map[];
      ghost var tables := [rows];
      TraceStarts(rows, ordered);
      for k := 0 to |ordered|
        invariant |tables| == k + 1 && Trace(tables, ordered[..k], ids)
        invariant tables[0] == old(rows) && tables[k] == rows
      {
        var row := ordered[k];
        OrderStep(fixture, ordered, k);
        TraceKeys(tables, ordered[..k], ids);
        var parent := Mapped(ids, row.parent);
        var actual := this.SyncMenu(row, parent, generated[k]);
        if actual.Err? {
          StopsAt(fixture, ordered, tables, ids, k);
          return Err(actual.error);
        }
        if actual.value in ids.Values {
          TakenIsUnsettled(tables, ordered[..k], ids, row, actual.value, rows);
          RefusedAt(fixture, ordered, tables, ids, k);
          return Err(DuplicateIdentity);
        }
        TraceExtends(tables, ordered[..k], ids, row, actual.value, rows);
        assert ordered[..k + 1] == ordered[..k] + [row];
        ids := ids[row.id := actual.value];
        tables := tables + [rows];
      }
      assert ordered[..|ordered|] == ordered;
      Finishes(fixture, ordered, tables, ids);
      return Ok(ids);
    }
  }

  lemma TraceStarts(t: Table, ordered: seq<Fixture>)
    ensures Trace([t], ordered[..0], map[])
  {
    assert ordered[..0] == [];
  }

  lemma TraceKeys(tables: seq<Table>, ordered: seq<Fixture>, ids: map<int, int>)
    requires Trace(tables, ordered, ids)
    ensures ids.Keys == Ids(ordered)
  {
  }

  lemma RefusedAt(rows: seq<Fixture>, ordered: seq<Fixture>, tables: seq<Table>, ids: map<int, int>, k: nat)
    requires ValidOrder(rows, ordered) && k < |ordered| && |tables| == k + 1 && Trace(tables, ordered[..k], ids)
    requires Unsettled(tables[k], ordered[k], ids)
    ensures Refused(tables[0], rows)
  {
    hide ValidOrder, Trace, Unsettled;
  }

  lemma StopsAt(rows: seq<Fixture>, ordered: seq<Fixture>, tables: seq<Table>, ids: map<int, int>, k: nat)
    requires ValidOrder(rows, ordered) && k < |ordered| && |tables| == k + 1 && Trace(tables, ordered[..k], ids)
    requires ordered[k].parent.Some? ==> ordered[k].parent.value in ids
    requires |MatchIds(tables[k], ordered[k].body, Mapped(ids, ordered[k].parent))| != 1
    ensures Refused(tables[0], rows)
  {
    hide ValidOrder, Trace, MatchIds;
    RefusedAt(rows, ordered, tables, ids, k);
  }

  lemma Finishes(rows: seq<Fixture>, ordered: seq<Fixture>, tables: seq<Table>, ids: map<int, int>)
    requires ValidOrder(rows, ordered) && |tables| == |ordered| + 1 && Trace(tables, ordered, ids)
    ensures LaidOut(tables[0], rows, ids, tables[|ordered|])
  {
    hide ValidOrder, Trace;
  }

  lemma OrderKeepsSize(rows: seq<Fixture>, ordered: seq<Fixture>)
    requires ValidOrder(rows, ordered)
    ensures |ordered| == |rows|
  {
    assert |multiset(ordered)| == |ordered| && |multiset(rows)| == |rows|;
  }

  lemma {:induction false} SameMultisetDistinct(rows: seq<Fixture>, ordered: seq<Fixture>)
    requires multiset(ordered) == multiset(rows) && DistinctIds(rows)
    ensures DistinctIds(ordered) && Ids(ordered) == Ids(rows)
  {
    assert forall r :: r in ordered <==> r in multiset(ordered);
    assert forall r :: r in rows <==> r in multiset(rows);
    assert Ids(ordered) == Ids(rows);
    IdsCountDistinct(rows);
    IdsCountDistinct(ordered);
    assert |multiset(ordered)| == |ordered| && |multiset(rows)| == |rows|;
  }

  lemma OrderStep(rows: seq<Fixture>, ordered: seq<Fixture>, k: nat)
    requires DistinctIds(rows) && ValidOrder(rows, ordered) && k < |ordered|
    ensures ordered[k].id !in Ids(ordered[..k])
    ensures ordered[k].parent.Some? ==> ordered[k].parent.value in Ids(ordered[..k])
  {
    SameMultisetDistinct(rows, ordered);
  }

  /** A step leaves every other id alone. */
  lemma {:induction false} Untouched(tables: seq<Table>, ordered: seq<Fixture>, ids: map<int, int>, x: int, a: nat, b: nat)
    requires Trace(tables, ordered, ids) && a <= b <= |ordered|
    requires forall i :: a <= i < b ==> ids[ordered[i].id] != x
    ensures x in tables[a] <==> x in tables[b]
    ensures x in tables[a] ==> tables[a][x] == tables[b][x]
    decreases b - a
  {
    if a < b {
      Untouched(tables, ordered, ids, x, a, b - 1);
      assert StepOf(tables, ordered, ids, b - 1);
    }
  }

  /** What row j stored is still there at any later step. */
  lemma Remains(tables: seq<Table>, ordered: seq<Fixture>, ids: map<int, int>, j: nat, b: nat)
    requires Trace(tables, ordered, ids) && j < b <= |ordered|
    ensures
      && StepOf(tables, ordered, ids, j)
      && ids[ordered[j].id] in tables[b]
      && tables[b][ids[ordered[j].id]] == Entry(Mapped(ids, ordered[j].parent), ordered[j].body)
  {
    assert StepOf(tables, ordered, ids, j);
    Untouched(tables, ordered, ids, ids[ordered[j].id], j + 1, b);
  }

  lemma MappedByRow(ordered: seq<Fixture>, ids: map<int, int>, x: int) returns (j: nat)
    requires ids.Keys == Ids(ordered) && x in ids.Values
    ensures j < |ordered| && ordered[j].id in ids && ids[ordered[j].id] == x
  {
    var id :| id in ids && ids[id] == x;
    assert id in Ids(ordered);
    j :| 0 <= j < |ordered| && ordered[j].id == id;
  }

  /** An identity that resolves to an id handed out before was not settled by a free match. */
  lemma TakenIsUnsettled(tables: seq<Table>, ordered: seq<Fixture>, ids: map<int, int>, row: Fixture, id: int, u: Table)
    requires Trace(tables, ordered, ids) && id in ids.Values
    requires row.parent.Some? ==> row.parent.value in ids
    requires Synced(tables[|ordered|], row, Mapped(ids, row.parent), id, u)
    ensures Unsettled(tables[|ordered|], row, ids)
  {
    var j := MappedByRow(ordered, ids, id);
    Remains(tables, ordered, ids, j, |ordered|);
  }

  // --------------------------------------------------------------- fidelity

  /**
   The menu that was stored under `id` before has the identity of the row, and no
   other has: the same path, or no path, the same title and the mapped parent.
   */
  ghost predicate Reuses(t: Table, d: Details, parent: Option<int>, id: int) {
    forall x :: x in t ==>
      (x == id <==>
       if d.path.Some? then t[x].details.path == d.path
       else t[x].details.path.None? && t[x].details.title == d.title && t[x].parent == parent)
  }

  /** An identity that a stored menu has is never taken from it: only rows with that identity replace it. */
  lemma {:induction false} IdentityPersists(
    tables: seq<Table>, ordered: seq<Fixture>, ids: map<int, int>, x: int, d: Details, parent: Option<int>, k: nat)
    requires Trace(tables, ordered, ids) && k <= |ordered|
    requires x in tables[0] && Matches(tables[0][x], d, parent)
    ensures x in tables[k] && Matches(tables[k][x], d, parent)
    decreases k
  {
    if k > 0 {
      IdentityPersists(tables, ordered, ids, x, d, parent, k - 1);
      assert StepOf(tables, ordered, ids, k - 1);
      var row := ordered[k - 1];
      if ids[row.id] == x {
        assert x in MatchIds(tables[k - 1], row.body, Mapped(ids, row.parent));
      }
    }
  }

  /** The row reuses exactly the menu that had its identity from the start. */
  lemma RowReuses(tables: seq<Table>, ordered: seq<Fixture>, ids: map<int, int>, k: nat)
    requires Trace(tables, ordered, ids) && k < |ordered|
    requires ordered[k].id in ids && (ordered[k].parent.Some? ==> ordered[k].parent.value in ids)
    ensures Reuses(tables[0], ordered[k].body, Mapped(ids, ordered[k].parent), ids[ordered[k].id])
  {
    var r, t := ordered[k], tables[0];
    var parent, id := Mapped(ids, r.parent), ids[r.id];
    TraceFacts(tables, ordered, ids, k);
    WhatMatches(t, r.body, parent);
    forall x | x in t ensures x == id <==> x in MatchIds(t, r.body, parent) {
      if x in MatchIds(t, r.body, parent) {
        IdentityPersists(tables, ordered, ids, x, r.body, parent, k);
        assert x in MatchIds(tables[k], r.body, parent);
      }
    }
  }

  /** The fixture is in the table under these ids, and nothing else was touched. */
  ghost predicate Faithful(t: Table, rows: seq<Fixture>, ids: map<int, int>, u: Table) {
    && ids.Keys == Ids(rows)
    && (forall r :: r in rows && r.parent.Some? ==> r.parent.value in ids)
    && (forall a, b :: a in ids && b in ids && ids[a] == ids[b] ==> a == b)
    && (forall r :: r in rows ==> ids[r.id] in u && u[ids[r.id]] == Entry(Mapped(ids, r.parent), r.body))
    && (forall r :: r in rows ==> Reuses(t, r.body, Mapped(ids, r.parent), ids[r.id]))
    && (forall x :: x !in ids.Values ==> (x in u <==> x in t) && (x in t ==> u[x] == t[x]))
  }

  lemma TraceFacts(tables: seq<Table>, ordered: seq<Fixture>, ids: map<int, int>, k: nat)
    requires Trace(tables, ordered, ids) && k < |ordered|
    ensures
      var r := ordered[k];
      && StepOf(tables, ordered, ids, k)
      && ids[r.id] in tables[|ordered|]
      && tables[|ordered|][ids[r.id]] == Entry(Mapped(ids, r.parent), r.body)
      && (ids[r.id] in tables[0] ==> Matches(tables[0][ids[r.id]], r.body, Mapped(ids, r.parent)))
  {
    Remains(tables, ordered, ids, k, |ordered|);
    var id := ids[ordered[k].id];
    Untouched(tables, ordered, ids, id, 0, k);
    if id in tables[0] {
      assert id in MatchIds(tables[k], ordered[k].body, Mapped(ids, ordered[k].parent));
    }
  }

  /**
   The id map is total and injective; every mapped menu carries the fixture's
   content under the mapped parent; a menu that was there before is reused exactly
   when it had the row's identity; every menu outside the map's image is unchanged.
   */
  lemma LayoutIsFaithful(t: Table, rows: seq<Fixture>, ids: map<int, int>, u: Table)
    requires LaidOut(t, rows, ids, u) && DistinctIds(rows)
    ensures Faithful(t, rows, ids, u)
  {
    var ordered: seq<Fixture>, tables: seq<Table> :|
      ValidOrder(rows, ordered) && Trace(tables, ordered, ids) && tables[0] == t && tables[|ordered|] == u;
    SameMultisetDistinct(rows, ordered);
    forall r | r in rows
      ensures r.parent.Some? ==> r.parent.value in ids
      ensures ids[r.id] in u && u[ids[r.id]] == Entry(Mapped(ids, r.parent), r.body)
      ensures Reuses(t, r.body, Mapped(ids, r.parent), ids[r.id])
    {
      assert r in multiset(ordered);
      var k :| 0 <= k < |ordered| && ordered[k] == r;
      TraceFacts(tables, ordered, ids, k);
      RowReuses(tables, ordered, ids, k);
    }
    forall a, b | a in ids && b in ids && ids[a] == ids[b] ensures a == b {
      var i :| 0 <= i < |ordered| && ordered[i].id == a;
      var j :| 0 <= j < |ordered| && ordered[j].id == b;
    }
    forall x | x !in ids.Values ensures (x in u <==> x in t) && (x in t ==> u[x] == t[x]) {
      forall i | 0 <= i < |ordered| ensures ids[ordered[i].id] != x {
        assert StepOf(tables, ordered, ids, i);
      }
      Untouched(tables, ordered, ids, x, 0, |ordered|);
    }
  }

  // ------------------------------------------------------------- idempotence

  /** A menu stored by one row and a second row with the same identity: the later of the two would have met the other. */
  lemma IdentitiesDiffer(tables: seq<Table>, ordered: seq<Fixture>, ids: map<int, int>, j: nat, k: nat)
    requires Trace(tables, ordered, ids) && j < k < |ordered|
    ensures
      && StepOf(tables, ordered, ids, j) && StepOf(tables, ordered, ids, k)
      && !Matches(Entry(Mapped(ids, ordered[j].parent), ordered[j].body), ordered[k].body, Mapped(ids, ordered[k].parent))
  {
    Remains(tables, ordered, ids, j, k);
    assert StepOf(tables, ordered, ids, k);
    var id, parent := ids[ordered[j].id], Mapped(ids, ordered[k].parent);
    assert id in MatchIds(tables[k], ordered[k].body, parent) <==> Matches(tables[k][id], ordered[k].body, parent);
  }

  /** After the layout the identity of every fixture row singles out the menu it is mapped to. */
  lemma IdentityIsUnique(tables: seq<Table>, ordered: seq<Fixture>, ids: map<int, int>, k: nat)
    requires Trace(tables, ordered, ids) && k < |ordered|
    ensures StepOf(tables, ordered, ids, k)
    ensures MatchIds(tables[|ordered|], ordered[k].body, Mapped(ids, ordered[k].parent)) == {ids[ordered[k].id]}
  {
    TraceFacts(tables, ordered, ids, k);
    var u, r, parent := tables[|ordered|], ordered[k], Mapped(ids, ordered[k].parent);
    forall y | y in MatchIds(u, r.body, parent) ensures y == ids[r.id] {
      if y !in ids.Values {
        forall i | k <= i < |ordered| ensures ids[ordered[i].id] != y {
          assert StepOf(tables, ordered, ids, i);
        }
        assert y in MatchIds(tables[k], r.body, parent) <==> y in tables[k] && Matches(tables[k][y], r.body, parent);
        Untouched(tables, ordered, ids, y, k, |ordered|);
      } else {
        var j := MappedByRow(ordered, ids, y);
        TraceFacts(tables, ordered, ids, j);
        if j < k {
          IdentitiesDiffer(tables, ordered, ids, j, k);
        } else if k < j {
          IdentitiesDiffer(tables, ordered, ids, k, j);
        }
      }
    }
  }

  /** Every fixture row is recognised in the table, as the menu it is mapped to. */
  ghost predicate Settled(u: Table, rows: seq<Fixture>, ids: map<int, int>) {
    forall r :: r in rows ==>
      && r.id in ids && (r.parent.Some? ==> r.parent.value in ids)
      && MatchIds(u, r.body, Mapped(ids, r.parent)) == {ids[r.id]}
      && ids[r.id] in u && u[ids[r.id]] == Entry(Mapped(ids, r.parent), r.body)
  }

  lemma LayoutSettles(t: Table, rows: seq<Fixture>, ids: map<int, int>, u: Table)
    requires LaidOut(t, rows, ids, u) && DistinctIds(rows)
    ensures Settled(u, rows, ids)
  {
    var ordered: seq<Fixture>, tables: seq<Table> :|
      ValidOrder(rows, ordered) && Trace(tables, ordered, ids) && tables[0] == t && tables[|ordered|] == u;
    forall r | r in rows
      ensures r.id in ids && (r.parent.Some? ==> r.parent.value in ids)
      ensures MatchIds(u, r.body, Mapped(ids, r.parent)) == {ids[r.id]}
      ensures ids[r.id] in u && u[ids[r.id]] == Entry(Mapped(ids, r.parent), r.body)
    {
      assert r in multiset(ordered);
      var k :| 0 <= k < |ordered| && ordered[k] == r;
      TraceFacts(tables, ordered, ids, k);
      IdentityIsUnique(tables, ordered, ids, k);
    }
  }

  /** On a settled table every step writes what is already there. */
  lemma {:induction false} SettledTraceIsIdle(
    u: Table, rows: seq<Fixture>, ids: map<int, int>, tables: seq<Table>, ordered: seq<Fixture>, again: map<int, int>, k: nat)
    requires Settled(u, rows, ids) && Trace(tables, ordered, again) && tables[0] == u
    requires ParentsFirst(ordered) && forall r :: r in ordered ==> r in rows
    requires k <= |ordered|
    ensures tables[k] == u
    ensures forall i :: 0 <= i < k ==> again[ordered[i].id] == ids[ordered[i].id]
  {
    if k > 0 {
      SettledTraceIsIdle(u, rows, ids, tables, ordered, again, k - 1);
      assert StepOf(tables, ordered, again, k - 1);
      hide Settled, MatchIds;
      var r := ordered[k - 1];
      if r.parent.Some? {
        assert r.parent.value in Ids(ordered[..k - 1]);
        var i :| 0 <= i < k - 1 && ordered[i].id == r.parent.value;
      }
      hide ParentsFirst, Trace, Synced;
      SettledStep(u, rows, ids, r, again, tables[k]);
    }
  }

  lemma SettledStep(u: Table, rows: seq<Fixture>, ids: map<int, int>, r: Fixture, again: map<int, int>, next: Table)
    requires Settled(u, rows, ids) && r in rows && r.id in again && (r.parent.Some? ==> r.parent.value in again)
    requires r.parent.Some? && r.parent.value in ids ==> again[r.parent.value] == ids[r.parent.value]
    requires Synced(u, r, Mapped(again, r.parent), again[r.id], next)
    ensures next == u && again[r.id] == ids[r.id]
  {
    hide MatchIds;
    assert Mapped(again, r.parent) == Mapped(ids, r.parent);
  }

  lemma SettledNeverRefuses(u: Table, rows: seq<Fixture>, ids: map<int, int>, again: seq<Fixture>)
    requires Settled(u, rows, ids) && multiset(again) == multiset(rows)
    requires forall a, b :: a in ids && b in ids && ids[a] == ids[b] ==> a == b
    requires DistinctIds(rows)
    ensures !Refused(u, again)
  {
    if Refused(u, again) {
      var ordered: seq<Fixture>, tables: seq<Table>, partial, k: nat :|
        && ValidOrder(again, ordered) && k < |ordered|
        && Trace(tables, ordered[..k], partial) && tables[0] == u
        && Unsettled(tables[k], ordered[k], partial);
      StuckOnSettled(u, rows, ids, ordered, tables, partial, k);
    }
  }

  lemma PrefixOrder(ordered: seq<Fixture>, k: nat)
    requires ParentsFirst(ordered) && k <= |ordered|
    ensures ParentsFirst(ordered[..k])
  {
    var p := ordered[..k];
    forall i | 0 <= i < |p| && p[i].parent.Some? ensures p[i].parent.value in Ids(p[..i]) {
      assert p[..i] == ordered[..i] && p[i] == ordered[i];
    }
  }

  lemma StuckOnSettled(
    u: Table, rows: seq<Fixture>, ids: map<int, int>,
    ordered: seq<Fixture>, tables: seq<Table>, partial: map<int, int>, k: nat)
    requires Settled(u, rows, ids) && DistinctIds(rows)
    requires forall a, b :: a in ids && b in ids && ids[a] == ids[b] ==> a == b
    requires ValidOrder(rows, ordered) && k < |ordered|
    requires Trace(tables, ordered[..k], partial) && tables[0] == u
    ensures !Unsettled(tables[k], ordered[k], partial)
  {
    SameMultisetDistinct(rows, ordered);
    forall r | r in ordered ensures r in rows { assert r in multiset(ordered); }
    var prefix, r := ordered[..k], ordered[k];
    PrefixOrder(ordered, k);
    SettledTraceIsIdle(u, rows, ids, tables, prefix, partial, k);
    OrderStep(rows, ordered, k);
    assert r in rows;
    if r.parent.Some? {
      var i :| 0 <= i < k && prefix[i].id == r.parent.value;
    }
    assert Mapped(partial, r.parent) == Mapped(ids, r.parent);
    assert forall i :: 0 <= i < k ==> prefix[i] in rows && prefix[i].id != r.id && ids[prefix[i].id] != ids[r.id];
    if ids[r.id] in partial.Values {
      var j := MappedByRow(prefix, partial, ids[r.id]);
    }
  }

  /** A second layout of the same fixture, in any order, maps to the same ids and changes nothing. */
  lemma SecondLayoutIsIdle(u: Table, rows: seq<Fixture>, ids: map<int, int>, again: seq<Fixture>, ids2: map<int, int>, v: Table)
    requires Settled(u, rows, ids) && ids.Keys == Ids(rows) && DistinctIds(rows)
    requires multiset(again) == multiset(rows) && LaidOut(u, again, ids2, v)
    ensures ids2 == ids && v == u
  {
    var ordered: seq<Fixture>, tables: seq<Table> :|
      ValidOrder(again, ordered) && Trace(tables, ordered, ids2) && tables[0] == u && tables[|ordered|] == v;
    assert ParentsFirst(ordered) && ids2.Keys == Ids(ordered);
    hide Settled, Trace, ParentsFirst, DistinctIds;
    SameMultisetDistinct(rows, ordered);
    forall r | r in ordered ensures r in rows { assert r in multiset(ordered); }
    SettledTraceIsIdle(u, rows, ids, tables, ordered, ids2, |ordered|);
    forall id | id in ids ensures ids2[id] == ids[id] {
      assert id in Ids(ordered);
      var i :| 0 <= i < |ordered| && ordered[i].id == id;
    }
  }

  /**
   Running the sync again, with the fixture rows in any order and whatever ids the
   database would generate, succeeds with the same id map and leaves the table as it is.
   */
  method SyncTwice(table: MenuTable, fixture: seq<Fixture>, generated: seq<int>, again: seq<Fixture>, generated2: seq<int>)
    returns (first: Result<map<int, int>, SyncError>, second: Result<map<int, int>, SyncError>, ghost between: Table)
    requires |generated| == |fixture| == |generated2| && multiset(again) == multiset(fixture)
    modifies table
    ensures first.Ok? ==> Faithful(old(table.rows), fixture, first.value, between)
    ensures first.Ok? ==> second == first && table.rows == between
  {
    assert |again| == |fixture| by {
      assert |multiset(again)| == |again| && |multiset(fixture)| == |fixture|;
    }
    first := table.SyncMenuLayout(fixture, generated);
    between := table.rows;
    if first.Ok? {
      LayoutIsFaithful(old(table.rows), fixture, first.value, between);
      LayoutSettles(old(table.rows), fixture, first.value, between);
    }
    second := table.SyncMenuLayout(again, generated2);
    if first.Ok? {
      SettledNeverRefuses(between, fixture, first.value, again);
      ReorderedIsOrderable(fixture, again);
      SecondLayoutIsIdle(between, fixture, first.value, again, second.value, table.rows);
    }
  }

  lemma ReorderedIsOrderable(rows: seq<Fixture>, again: seq<Fixture>)
    requires multiset(again) == multiset(rows) && DistinctIds(rows) && AllRooted(rows)
    ensures DistinctIds(again) && AllRooted(again)
  {
    SameMultisetDistinct(rows, again);
    forall r | r in again ensures Rooted(again, r.id) {
      assert r in multiset(again);
      assert r in rows;
      var p :| ChainTo(rows, p, r.id);
      forall k | 0 <= k < |p| ensures Link(again, p, k) {
        assert Link(rows, p, k);
        var i :| 0 <= i < |rows| && rows[i].id == p[k] && rows[i].parent == Above(p, k);
        assert rows[i] in multiset(rows);
        var j :| 0 <= j < |again| && again[j] == rows[i];
      }
      assert ChainTo(again, p, r.id);
    }
  }
}
