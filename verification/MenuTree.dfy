/** Building the menu tree of a user from a flat list of rows whose parents may dangle or run in cycles. */
module MenuTree {
  import opened Wrappers
  import opened MenuRows

  datatype Node<T> = Node(id: int, body: T, children: seq<Node<T>>)

  type Groups<T> = map<Option<int>, seq<Row<T>>>

  /** The rows with this parent, in input order. */
  function ChildrenOf<T>(rows: seq<Row<T>>, parent: Option<int>): (r: seq<Row<T>>)
    ensures forall c :: c in r ==> c in rows && c.parent == parent
    ensures forall c :: c in rows && c.parent == parent ==> c in r
  {
    if rows == [] then []
    else
      var n := |rows| - 1;
      ChildrenOf(rows[..n], parent) + if rows[n].parent == parent then [rows[n]] else []
  }

  /** Each parent that occurs is mapped to its children, in input order. */
  ghost predicate Grouped<T>(rows: seq<Row<T>>, groups: Groups<T>) {
    forall parent :: ChildrenOf(rows, parent) == if parent in groups then groups[parent] else []
  }

  lemma ChildExtendsChain<T>(rows: seq<Row<T>>, parent: Option<int>, above: seq<int>, child: Row<T>)
    requires DistinctIds(rows) && Chain(rows, above) && parent == Above(above, |above|)
    requires child in ChildrenOf(rows, parent)
    ensures Chain(rows, above + [child.id]) && |above| < |rows|
  {
    assert HasRow(rows, child.id, parent);
    ChainExtend(rows, above, child.id);
    ChainIsShort(rows, above + [child.id]);
  }

  /**
   The subtrees under one parent. `above` is the chain of ids from a root down to
   that parent; it cannot repeat an id, so it bounds the recursion even when other
   rows of the input form cycles.
   */
  function BuildMenuChildren<T>(parent: Option<int>, groups: Groups<T>, ghost rows: seq<Row<T>>, ghost above: seq<int>)
    : (r: seq<Node<T>>)
    requires DistinctIds(rows) && Grouped(rows, groups)
    requires Chain(rows, above) && parent == Above(above, |above|)
    ensures |r| == |ChildrenOf(rows, parent)|
    decreases |rows| - |above|
  {
    assert ChildrenOf(rows, parent) == if parent in groups then groups[parent] else [];
    if parent !in groups then []
    else
      var children := groups[parent];
      seq(|children|, i requires 0 <= i < |children| =>
        ChildExtendsChain(rows, parent, above, children[i]);
        Node(children[i].id, children[i].body,
             BuildMenuChildren(Some(children[i].id), groups, rows, above + [children[i].id])))
  }

  // --------------------------------------------------------------- contents

  /** Every id in the tree, in preorder. */
  function TreeIds<T>(nodes: seq<Node<T>>): seq<int> {
    if nodes == [] then [] else [nodes[0].id] + TreeIds(nodes[0].children) + TreeIds(nodes[1..])
  }

  /** Below every parent stand exactly its rows of the input, in input order, all the way down. */
  ghost predicate WellPlaced<T(!new)>(rows: seq<Row<T>>, parent: Option<int>, nodes: seq<Node<T>>)
    decreases nodes
  {
    var children := ChildrenOf(rows, parent);
    && |nodes| == |children|
    && (forall i :: 0 <= i < |nodes| ==> nodes[i].id == children[i].id && nodes[i].body == children[i].body)
    && (forall i :: 0 <= i < |nodes| ==> WellPlaced(rows, Some(nodes[i].id), nodes[i].children))
  }

  lemma {:induction false} BuiltIsWellPlaced<T(!new)>(
    parent: Option<int>, groups: Groups<T>, rows: seq<Row<T>>, above: seq<int>)
    requires DistinctIds(rows) && Grouped(rows, groups)
    requires Chain(rows, above) && parent == Above(above, |above|)
    ensures WellPlaced(rows, parent, BuildMenuChildren(parent, groups, rows, above))
    decreases |rows| - |above|
  {
    var children := ChildrenOf(rows, parent);
    var nodes := BuildMenuChildren(parent, groups, rows, above);
    forall i | 0 <= i < |nodes|
      ensures nodes[i].id == children[i].id && nodes[i].body == children[i].body
      ensures WellPlaced(rows, Some(nodes[i].id), nodes[i].children)
    {
      ChildExtendsChain(rows, parent, above, children[i]);
      BuiltIsWellPlaced(Some(children[i].id), groups, rows, above + [children[i].id]);
    }
  }

  // ----------------------------------------------------- exactly the rooted

  lemma {:induction false} TreeIdsSplit<T>(nodes: seq<Node<T>>, id: int)
    ensures id in TreeIds(nodes) <==> exists i :: 0 <= i < |nodes| && (nodes[i].id == id || id in TreeIds(nodes[i].children))
  {
    if nodes != [] {
      var rest := nodes[1..];
      TreeIdsSplit(rest, id);
      if i :| 0 <= i < |nodes| && (nodes[i].id == id || id in TreeIds(nodes[i].children)) {
        if i > 0 { assert rest[i - 1] == nodes[i]; }
      }
      if i :| 0 <= i < |rest| && (rest[i].id == id || id in TreeIds(rest[i].children)) {
        assert nodes[i + 1] == rest[i];
      }
    }
  }

  /** The chain to a node of the tree runs through the subtree that holds it. */
  ghost predicate ChainThrough<T>(rows: seq<Row<T>>, above: seq<int>, child: int, id: int, q: seq<int>) {
    ChainTo(rows, q, id) && |q| > |above| && q[..|above|] == above && q[|above|] == child
  }

  lemma {:induction false} NodeHasChain<T(!new)>(
    rows: seq<Row<T>>, parent: Option<int>, above: seq<int>, nodes: seq<Node<T>>, i: nat, id: int)
    returns (q: seq<int>)
    requires DistinctIds(rows) && Chain(rows, above) && parent == Above(above, |above|)
    requires WellPlaced(rows, parent, nodes) && i < |nodes|
    requires nodes[i].id == id || id in TreeIds(nodes[i].children)
    ensures ChainThrough(rows, above, nodes[i].id, id, q)
    decreases nodes
  {
    var child := ChildrenOf(rows, parent)[i];
    ChildExtendsChain(rows, parent, above, child);
    q := above + [child.id];
    if nodes[i].id != id {
      TreeIdsSplit(nodes[i].children, id);
      var j :| 0 <= j < |nodes[i].children|
            && (nodes[i].children[j].id == id || id in TreeIds(nodes[i].children[j].children));
      var longer := NodeHasChain(rows, Some(child.id), q, nodes[i].children, j, id);
      assert longer[..|q|] == q;
      assert longer[..|above|] == q[..|above|] == above && longer[|above|] == q[|above|];
      q := longer;
    }
  }

  /** If a parent is in the tree then so are all its rows. */
  lemma {:induction false} ChildrenFollow<T(!new)>(
    rows: seq<Row<T>>, above: Option<int>, nodes: seq<Node<T>>, parent: int, r: Row<T>)
    requires WellPlaced(rows, above, nodes) && parent in TreeIds(nodes)
    requires r in rows && r.parent == Some(parent)
    ensures r.id in TreeIds(nodes)
    decreases nodes
  {
    TreeIdsSplit(nodes, parent);
    var i :| 0 <= i < |nodes| && (nodes[i].id == parent || parent in TreeIds(nodes[i].children));
    if nodes[i].id == parent {
      FirstLevel(rows, Some(parent), nodes[i].children, r);
    } else {
      ChildrenFollow(rows, Some(nodes[i].id), nodes[i].children, parent, r);
    }
    TreeIdsSplit(nodes, r.id);
  }

  lemma FirstLevel<T(!new)>(rows: seq<Row<T>>, parent: Option<int>, nodes: seq<Node<T>>, r: Row<T>)
    requires WellPlaced(rows, parent, nodes) && r in rows && r.parent == parent
    ensures r.id in TreeIds(nodes)
  {
    assert r in ChildrenOf(rows, parent);
    var i :| 0 <= i < |nodes| && ChildrenOf(rows, parent)[i] == r;
    assert nodes[i].id == r.id;
    TreeIdsSplit(nodes, r.id);
  }

  lemma RowOfChain<T>(rows: seq<Row<T>>, p: seq<int>, k: nat) returns (r: Row<T>)
    requires Chain(rows, p) && k < |p|
    ensures r in rows && r.id == p[k] && r.parent == Above(p, k)
  {
    assert Link(rows, p, k);
    var i :| 0 <= i < |rows| && rows[i].id == p[k] && rows[i].parent == Above(p, k);
    r := rows[i];
  }

  lemma {:induction false} ChainIsInTree<T(!new)>(rows: seq<Row<T>>, nodes: seq<Node<T>>, p: seq<int>, k: nat)
    requires WellPlaced(rows, None, nodes) && Chain(rows, p) && k < |p|
    ensures p[k] in TreeIds(nodes)
  {
    hide WellPlaced, TreeIds;
    var r := RowOfChain(rows, p, k);
    hide Chain;
    if k == 0 {
      FirstLevel(rows, None, nodes, r);
    } else {
      ChainIsInTree(rows, nodes, p, k - 1);
      ChildrenFollow(rows, None, nodes, p[k - 1], r);
    }
  }

  // -------------------------------------------------------------- no repeats

  ghost predicate NoRepeats(ids: seq<int>) {
    forall i, j :: 0 <= i < j < |ids| ==> ids[i] != ids[j]
  }

  lemma OneHasNoRepeats(id: int)
    ensures NoRepeats([id])
  {
  }

  lemma NoRepeatsConcat(a: seq<int>, b: seq<int>)
    requires NoRepeats(a) && NoRepeats(b) && forall x :: x in a ==> x !in b
    ensures NoRepeats(a + b)
  {
    var s := a + b;
    forall i, j | 0 <= i < j < |s| ensures s[i] != s[j] {
      if i < |a| <= j { assert s[i] in a && s[j] in b; }
    }
  }

  /** Different subtrees under one parent share no id, and none contains its own root twice. */
  lemma SubtreesAreDisjoint<T(!new)>(
    rows: seq<Row<T>>, parent: Option<int>, above: seq<int>, nodes: seq<Node<T>>, i: nat, j: nat, id: int)
    requires DistinctIds(rows) && Chain(rows, above) && parent == Above(above, |above|)
    requires WellPlaced(rows, parent, nodes) && i < |nodes| && j < |nodes|
    requires nodes[i].id == id || id in TreeIds(nodes[i].children)
    requires nodes[j].id == id || id in TreeIds(nodes[j].children)
    ensures nodes[i].id == nodes[j].id
  {
    var p := NodeHasChain(rows, parent, above, nodes, i, id);
    var q := NodeHasChain(rows, parent, above, nodes, j, id);
    ChainIsUnique(rows, p, q);
  }

  /** A chain that passes through a node's id on its way down to another node cannot end in that id again. */
  lemma ThroughIsNotBelow<T>(rows: seq<Row<T>>, above: seq<int>, id: int, child: int, last: int, q: seq<int>)
    requires DistinctIds(rows) && ChainThrough(rows, above + [id], child, last, q)
    ensures last != id
  {
    assert q[|above|] == q[..|above| + 1][|above|];
    ChainHasNoRepeats(rows, q, |above|, |q| - 1);
  }

  lemma BelowIsNotRoot<T(!new)>(
    rows: seq<Row<T>>, parent: Option<int>, above: seq<int>, nodes: seq<Node<T>>, i: nat, id: int)
    requires DistinctIds(rows) && Chain(rows, above) && parent == Above(above, |above|)
    requires WellPlaced(rows, parent, nodes) && i < |nodes| && id in TreeIds(nodes[i].children)
    ensures nodes[i].id != id
  {
    var n := nodes[i];
    ChildExtendsChain(rows, parent, above, ChildrenOf(rows, parent)[i]);
    TreeIdsSplit(n.children, id);
    var j :| 0 <= j < |n.children| && (n.children[j].id == id || id in TreeIds(n.children[j].children));
    var q := NodeHasChain(rows, Some(n.id), above + [n.id], n.children, j, id);
    ThroughIsNotBelow(rows, above, n.id, n.children[j].id, id, q);
  }

  lemma RootNotBelow<T(!new)>(
    rows: seq<Row<T>>, parent: Option<int>, above: seq<int>, nodes: seq<Node<T>>, i: nat)
    requires DistinctIds(rows) && Chain(rows, above) && parent == Above(above, |above|)
    requires WellPlaced(rows, parent, nodes) && i < |nodes|
    ensures nodes[i].id !in TreeIds(nodes[i].children)
  {
    if nodes[i].id in TreeIds(nodes[i].children) {
      BelowIsNotRoot(rows, parent, above, nodes, i, nodes[i].id);
    }
  }

  lemma HeadIds<T>(nodes: seq<Node<T>>, from: nat)
    requires from < |nodes|
    ensures TreeIds(nodes[from..]) == [nodes[from].id] + TreeIds(nodes[from].children) + TreeIds(nodes[from + 1..])
  {
    assert nodes[from..][1..] == nodes[from + 1..];
  }

  lemma ChildIsPlaced<T(!new)>(
    rows: seq<Row<T>>, parent: Option<int>, above: seq<int>, nodes: seq<Node<T>>, i: nat)
    requires DistinctIds(rows) && Chain(rows, above) && parent == Above(above, |above|)
    requires WellPlaced(rows, parent, nodes) && i < |nodes|
    ensures WellPlaced(rows, Some(nodes[i].id), nodes[i].children)
    ensures Chain(rows, above + [nodes[i].id])
  {
    ChildExtendsChain(rows, parent, above, ChildrenOf(rows, parent)[i]);
  }

  lemma NodesAreDistinct<T(!new)>(rows: seq<Row<T>>, parent: Option<int>, nodes: seq<Node<T>>, i: nat, j: nat)
    requires DistinctIds(rows) && WellPlaced(rows, parent, nodes) && i < j < |nodes|
    ensures nodes[i].id != nodes[j].id
  {
    ChildrenAreDistinct(rows, parent, i, j);
  }

  lemma SiblingsAreDisjoint<T(!new)>(
    rows: seq<Row<T>>, parent: Option<int>, above: seq<int>, nodes: seq<Node<T>>, i: nat, id: int)
    requires DistinctIds(rows) && Chain(rows, above) && parent == Above(above, |above|)
    requires WellPlaced(rows, parent, nodes) && i < |nodes|
    requires nodes[i].id == id || id in TreeIds(nodes[i].children)
    ensures id !in TreeIds(nodes[i + 1..])
  {
    hide TreeIds, Chain, DistinctIds, Above;
    hide WellPlaced;
    var rest := nodes[i + 1..];
    TreeIdsSplit(rest, id);
    if k :| 0 <= k < |rest| && (rest[k].id == id || id in TreeIds(rest[k].children)) {
      assert rest[k] == nodes[i + 1 + k];
      SubtreesAreDisjoint(rows, parent, above, nodes, i, i + 1 + k, id);
      NodesAreDistinct(rows, parent, nodes, i, i + 1 + k);
    }
  }

  /** A tail of the nodes under a parent: rows `from` onwards. */
  lemma {:induction false} TailHasNoRepeats<T(!new)>(
    rows: seq<Row<T>>, parent: Option<int>, above: seq<int>, nodes: seq<Node<T>>, from: nat)
    requires DistinctIds(rows) && Chain(rows, above) && parent == Above(above, |above|)
    requires WellPlaced(rows, parent, nodes) && from <= |nodes|
    ensures NoRepeats(TreeIds(nodes[from..]))
    decreases nodes, |nodes| - from
  {
    if from < |nodes| {
      hide WellPlaced, NoRepeats, Chain;
      var n, rest := nodes[from], nodes[from + 1..];
      HeadIds(nodes, from);
      TailHasNoRepeats(rows, parent, above, nodes, from + 1);
      ChildIsPlaced(rows, parent, above, nodes, from);
      assert n.children[0..] == n.children;
      TailHasNoRepeats(rows, Some(n.id), above + [n.id], n.children, 0);
      RootNotBelow(rows, parent, above, nodes, from);
      hide TreeIds;
      OneHasNoRepeats(n.id);
      NoRepeatsConcat([n.id], TreeIds(n.children));
      forall id | id in [n.id] + TreeIds(n.children) ensures id !in TreeIds(rest) {
        SiblingsAreDisjoint(rows, parent, above, nodes, from, id);
      }
      NoRepeatsConcat([n.id] + TreeIds(n.children), TreeIds(rest));
    } else {
      assert nodes[from..] == [];
    }
  }

  lemma {:induction false} ChildrenAreDistinct<T>(rows: seq<Row<T>>, parent: Option<int>, i: nat, j: nat)
    requires DistinctIds(rows) && i < j < |ChildrenOf(rows, parent)|
    ensures ChildrenOf(rows, parent)[i].id != ChildrenOf(rows, parent)[j].id
  {
    var n := |rows| - 1;
    var front := ChildrenOf(rows[..n], parent);
    if j < |front| {
      ChildrenAreDistinct(rows[..n], parent, i, j);
    } else {
      assert front[i] in rows[..n];
    }
  }

  /** The rows under one parent keep the order of the input. */
  lemma {:induction false} ChildrenKeepOrder<T>(rows: seq<Row<T>>, parent: Option<int>, i: nat, j: nat)
    returns (a: nat, b: nat)
    requires i < j < |ChildrenOf(rows, parent)|
    ensures a < b < |rows| && rows[a] == ChildrenOf(rows, parent)[i] && rows[b] == ChildrenOf(rows, parent)[j]
  {
    var n := |rows| - 1;
    var front := ChildrenOf(rows[..n], parent);
    if j < |front| {
      a, b := ChildrenKeepOrder(rows[..n], parent, i, j);
    } else {
      assert front[i] in rows[..n];
      a :| 0 <= a < n && rows[..n][a] == front[i];
      b := n;
    }
  }

  // ------------------------------------------------------------ main result

  /**
   The tree contains exactly the rows whose parent chain reaches a root of the
   input, each once, under its own parent, with siblings in input order.
   */
  ghost predicate ExactTree<T(!new)>(rows: seq<Row<T>>, tree: seq<Node<T>>) {
    && WellPlaced(rows, None, tree)
    && NoRepeats(TreeIds(tree))
    && forall id :: id in TreeIds(tree) <==> Rooted(rows, id)
  }

  lemma InTreeIsRooted<T(!new)>(rows: seq<Row<T>>, tree: seq<Node<T>>, id: int)
    requires DistinctIds(rows) && WellPlaced(rows, None, tree) && id in TreeIds(tree)
    ensures Rooted(rows, id)
  {
    TreeIdsSplit(tree, id);
    var i :| 0 <= i < |tree| && (tree[i].id == id || id in TreeIds(tree[i].children));
    hide WellPlaced, TreeIds, DistinctIds;
    var q := NodeHasChain(rows, None, [], tree, i, id);
  }

  lemma RootedIsInTree<T(!new)>(rows: seq<Row<T>>, tree: seq<Node<T>>, id: int)
    requires WellPlaced(rows, None, tree) && Rooted(rows, id)
    ensures id in TreeIds(tree)
  {
    hide WellPlaced, TreeIds;
    var p :| ChainTo(rows, p, id);
    ChainIsInTree(rows, tree, p, |p| - 1);
  }

  /** Whatever the parents are, the tree built from the groups is exact. */
  lemma TreeIsExact<T(!new)>(rows: seq<Row<T>>, groups: Groups<T>)
    requires DistinctIds(rows) && Grouped(rows, groups)
    ensures ExactTree(rows, BuildMenuChildren(None, groups, rows, []))
  {
    var tree := BuildMenuChildren(None, groups, rows, []);
    BuiltIsWellPlaced(None, groups, rows, []);
    assert tree[0..] == tree;
    hide WellPlaced, TreeIds, NoRepeats, Rooted;
    TailHasNoRepeats(rows, None, [], tree, 0);
    forall id ensures id in TreeIds(tree) <==> Rooted(rows, id) {
      if id in TreeIds(tree) { InTreeIsRooted(rows, tree, id); }
      if Rooted(rows, id) { RootedIsInTree(rows, tree, id); }
    }
  }

  lemma GroupedStep<T(!new)>(items: seq<Row<T>>, i: nat, groups: Groups<T>)
    requires i < |items| && Grouped(items[..i], groups)
    ensures
      var p := items[i].parent;
      Grouped(items[..i + 1], groups[p := (if p in groups then groups[p] else []) + [items[i]]])
  {
    assert items[..i + 1][..i] == items[..i];
    assert ChildrenOf(items[..i], items[i].parent) == if items[i].parent in groups then groups[items[i].parent] else [];
  }

  /** The ids are primary keys, so they are distinct; nothing is asked of the parents. */
  method BuildMenuTree<T(!new)>(items: seq<Row<T>>) returns (tree: seq<Node<T>>)
    requires DistinctIds(items)
    ensures ExactTree(items, tree)
  {
    var childrenByParent: Groups<T> := map[];
    for i := 0 to |items|
      invariant Grouped(items[..i], childrenByParent)
    {
      GroupedStep(items, i, childrenByParent);
      var p := items[i].parent;
      var siblings := if p in childrenByParent then childrenByParent[p] else [];
      hide Grouped;
      childrenByParent := childrenByParent[p := siblings + [items[i]]];
    }
    assert items[..|items|] == items;
    TreeIsExact(items, childrenByParent);
    tree := BuildMenuChildren(None, childrenByParent, items, []);
  }
}
