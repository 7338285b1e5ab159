/**
 * The tree builders of the control API, which link shared node objects in place, and the
 * variable nodes of the generated configuration.
 */
module ConfigGenerator {
  import opened Options
  import opened Sequences
  import opened Strings
  import opened ObjectForest

  /** A node object under construction; `children` grows as its child rows are met. */
  class TreeNode {
    const id: Id
    const name: string
    const path: string
    var children: seq<TreeNode>

    constructor (id: Id, name: string, path: string)
      ensures this.id == id && this.name == name && this.path == path && children == []
    {
      this.id := id;
      this.name := name;
      this.path := path;
      children := [];
    }
  }

  /** The object graph below `n` spells out the tree `t`, paths included if asked for. */
  ghost predicate Spells(n: TreeNode, t: Tree, paths: bool, world: set<TreeNode>)
    reads world
    decreases t
  {
    && n in world
    && n.id == t.id && n.name == t.name && (paths ==> n.path == t.path)
    && |n.children| == |t.children|
    && forall i | 0 <= i < |t.children| :: Spells(n.children[i], t.children[i], paths, world)
  }

  ghost predicate SpellsAll(ns: seq<TreeNode>, ts: seq<Tree>, paths: bool, world: set<TreeNode>)
    reads world
  {
    |ns| == |ts| && forall i | 0 <= i < |ts| :: Spells(ns[i], ts[i], paths, world)
  }

  /** The first pass of both builders: one node per row. */
  ghost predicate NodePerRow(rows: seq<Row>, nodes: map<Id, TreeNode>) {
    && (forall r | r in rows :: r.id in nodes && nodes[r.id].id == r.id && nodes[r.id].name == r.name)
    && (forall id | id in nodes :: nodes[id].id == id && Has(rows, id))
  }

  /** `ns` are the node objects of the rows `rs`, in order. */
  ghost predicate NodesOf(ns: seq<TreeNode>, rs: seq<Row>, nodes: map<Id, TreeNode>) {
    && |ns| == |rs|
    && forall i | 0 <= i < |rs| :: rs[i].id in nodes && ns[i] == nodes[rs[i].id]
  }

  lemma {:induction false} ChildRowsSnoc(rows: seq<Row>, r: Row, id: Id)
    ensures ChildRows(rows + [r], id) == ChildRows(rows, id) + (if r.parent == Some(id) then [r] else [])
  {
    if rows == [] {
      assert rows + [r] == [r] && [r][1..] == [];
    } else {
      var head := if rows[0].parent == Some(id) then [rows[0]] else [];
      var last := if r.parent == Some(id) then [r] else [];
      ChildRowsSnoc(rows[1..], r, id);
      Associative(head, ChildRows(rows[1..], id), last);
      assert ChildRows(rows + [r], id) == head + ChildRows(rows[1..] + [r], id) by {
        assert (rows + [r])[1..] == rows[1..] + [r];
      }
    }
  }

  lemma {:induction false} RootRowsSnoc(rows: seq<Row>, r: Row, all: seq<Row>)
    ensures RootRows(rows + [r], all) == RootRows(rows, all) + (if ParentRow(all, r).None? then [r] else [])
  {
    if rows == [] {
      assert rows + [r] == [r] && [r][1..] == [];
    } else {
      var head := if ParentRow(all, rows[0]).None? then [rows[0]] else [];
      var last := if ParentRow(all, r).None? then [r] else [];
      RootRowsSnoc(rows[1..], r, all);
      Associative(head, RootRows(rows[1..], all), last);
      assert RootRows(rows + [r], all) == head + RootRows(rows[1..] + [r], all) by {
        assert (rows + [r])[1..] == rows[1..] + [r];
      }
    }
  }

  // ---------------------------------------------------------------- the second pass

  /** After the rows `done`, every node's children are those rows that name it as parent. */
  ghost predicate ChildrenLinked(done: seq<Row>, nodes: map<Id, TreeNode>)
    reads nodes.Values
  {
    forall id | id in nodes :: NodesOf(nodes[id].children, ChildRows(done, id), nodes)
  }

  method LinkNodes(rows: seq<Row>, nodes: map<Id, TreeNode>) returns (roots: seq<TreeNode>)
    requires NodePerRow(rows, nodes)
    requires Childless(nodes)
    modifies nodes.Values
    ensures ChildrenLinked(rows, nodes)
    ensures NodesOf(roots, RootRows(rows, rows), nodes)
  {
    roots := [];
    for k := 0 to |rows|
      invariant ChildrenLinked(rows[..k], nodes)
      invariant NodesOf(roots, RootRows(rows[..k], rows), nodes)
    {
      var row := rows[k];
      ghost var done := rows[..k];
      PrefixSnoc(rows, k);
      ParentPresent(rows, nodes, row);
      if row.parent.Some? && row.parent.value in nodes {
        RootStays(roots, done, rows, row, nodes);
        LinkChild(done, row, nodes);
      } else {
        RootAdded(roots, done, rows, row, nodes);
        roots := roots + [nodes[row.id]];
        NoChild(done, row, nodes);
      }
    }
    assert rows[..|rows|] == rows;
  }

  lemma ParentPresent(rows: seq<Row>, nodes: map<Id, TreeNode>, row: Row)
    requires NodePerRow(rows, nodes)
    ensures row.parent.Some? && row.parent.value in nodes <==> ParentRow(rows, row).Some?
  {
  }

  lemma RootStays(roots: seq<TreeNode>, done: seq<Row>, rows: seq<Row>, row: Row, nodes: map<Id, TreeNode>)
    requires NodesOf(roots, RootRows(done, rows), nodes) && ParentRow(rows, row).Some?
    ensures NodesOf(roots, RootRows(done + [row], rows), nodes)
  {
    RootRowsSnoc(done, row, rows);
    assert RootRows(done + [row], rows) == RootRows(done, rows);
  }

  lemma RootAdded(roots: seq<TreeNode>, done: seq<Row>, rows: seq<Row>, row: Row, nodes: map<Id, TreeNode>)
    requires NodesOf(roots, RootRows(done, rows), nodes) && ParentRow(rows, row).None? && row.id in nodes
    ensures NodesOf(roots + [nodes[row.id]], RootRows(done + [row], rows), nodes)
  {
    RootRowsSnoc(done, row, rows);
  }

  lemma NoChild(done: seq<Row>, row: Row, nodes: map<Id, TreeNode>)
    requires ChildrenLinked(done, nodes) && (row.parent.Some? ==> row.parent.value !in nodes)
    ensures ChildrenLinked(done + [row], nodes)
  {
    forall id | id in nodes ensures ChildRows(done + [row], id) == ChildRows(done, id) {
      ChildRowsSnoc(done, row, id);
    }
  }

  /** `parent.children.push(node)`. */
  method LinkChild(ghost done: seq<Row>, row: Row, nodes: map<Id, TreeNode>)
    requires forall id | id in nodes :: nodes[id].id == id
    requires row.id in nodes && row.parent.Some? && row.parent.value in nodes
    requires ChildrenLinked(done, nodes)
    modifies nodes[row.parent.value]
    ensures ChildrenLinked(done + [row], nodes)
  {
    var parent := nodes[row.parent.value];
    ghost var kids := ChildRows(done, row.parent.value);
    assert NodesOf(parent.children, kids, nodes);
    parent.children := parent.children + [nodes[row.id]];
    assert NodesOf(parent.children, kids + [row], nodes);
    forall id | id in nodes ensures NodesOf(nodes[id].children, ChildRows(done + [row], id), nodes) {
      ChildRowsSnoc(done, row, id);
      if id != row.parent.value {
        assert nodes[id] != parent && ChildRows(done + [row], id) == ChildRows(done, id);
      }
    }
  }

  /** The linked objects spell out the tree of every row. */
  lemma {:induction false} LinkedSpells(rows: seq<Row>, root: string, k: Rank, nodes: map<Id, TreeNode>, r: Row,
                                        paths: bool)
    requires UniqueIds(rows) && Ranked(rows, k) && NodePerRow(rows, nodes) && r in rows
    requires paths ==> forall x | x in rows :: nodes[x.id].path == PathOf(rows, root, k, x)
    requires ChildrenLinked(rows, nodes)
    ensures Spells(nodes[r.id], TreeAt(rows, root, k, r), paths, nodes.Values)
    decreases k.bound - k.of[r.id]
  {
    var cs := ChildRows(rows, r.id);
    FindRow(rows, r);
    ChildrenOf(rows, root, k, r);
    assert NodesOf(nodes[r.id].children, cs, nodes);
    forall i | 0 <= i < |cs|
      ensures Spells(nodes[cs[i].id], TreeAt(rows, root, k, cs[i]), paths, nodes.Values)
    {
      assert cs[i] in cs;
      LinkedSpells(rows, root, k, nodes, cs[i], paths);
    }
  }

  lemma RootsSpell(rows: seq<Row>, root: string, nodes: map<Id, TreeNode>, roots: seq<TreeNode>, paths: bool)
    requires UniqueIds(rows) && Acyclic(rows) && NodePerRow(rows, nodes)
    requires paths ==> HavePaths(rows, rows, root, nodes)
    requires ChildrenLinked(rows, nodes) && NodesOf(roots, RootRows(rows, rows), nodes)
    ensures SpellsAll(roots, ForestOf(rows, root), paths, nodes.Values)
  {
    var rs := RootRows(rows, rows);
    forall i | 0 <= i < |rs|
      ensures Spells(nodes[rs[i].id], TreeAt(rows, root, RankOf(rows), rs[i]), paths, nodes.Values)
    {
      assert rs[i] in rs;
      LinkedSpells(rows, root, RankOf(rows), nodes, rs[i], paths);
    }
  }

  // ---------------------------------------------------------------- the builders

  /** The dotted path of a row id, climbing to the root; a dangling id has the namespace's path. */
  method ComputeObjectNodePath(id: Id, rows: seq<Row>, namespaceName: string) returns (path: string)
    requires UniqueIds(rows) && Acyclic(rows)
    ensures path == PathOfRef(rows, namespaceName, RankOf(rows), Some(id))
  {
    ghost var k := RankOf(rows);
    var parts: seq<string> := [];
    var current: Option<Id> := Some(id);
    while current.Some?
      invariant Join([PathOfRef(rows, namespaceName, k, current)] + parts, DOT)
             == PathOfRef(rows, namespaceName, k, Some(id))
      decreases if current.Some? && Has(rows, current.value) then 1 + k.of[current.value] else 0, current.Some?
    {
      var node := Find(rows, current.value);
      if node.None? {
        assert PathOfRef(rows, namespaceName, k, current) == namespaceName;
        break;
      }
      ghost var above := PathOfRef(rows, namespaceName, k, node.value.parent);
      JoinMerge(above, node.value.name, parts, DOT);
      assert [above, node.value.name] + parts == [above] + ([node.value.name] + parts);
      parts := [node.value.name] + parts;
      current := node.value.parent;
    }
    assert PathOfRef(rows, namespaceName, k, current) == namespaceName;
    path := Join([namespaceName] + parts, DOT);
  }

  /** `toObjectNodeConfigs`: the nested object nodes with their dotted paths. */
  method ToObjectNodeConfigs(rows: seq<Row>, namespaceName: string)
      returns (roots: seq<TreeNode>, ghost world: set<TreeNode>)
    requires UniqueIds(rows) && Acyclic(rows)
    ensures fresh(world) && SpellsAll(roots, ForestOf(rows, namespaceName), true, world)
  {
    var nodes := CreateWithPaths(rows, namespaceName);
    roots := LinkNodes(rows, nodes);
    RootsSpell(rows, namespaceName, nodes, roots, true);
    world := nodes.Values;
  }

  method RowPath(rows: seq<Row>, row: Row, namespaceName: string) returns (path: string)
    requires UniqueIds(rows) && Acyclic(rows) && row in rows
    ensures path == PathOf(rows, namespaceName, RankOf(rows), row)
  {
    FindRow(rows, row);
    path := ComputeObjectNodePath(row.id, rows, namespaceName);
  }

  ghost predicate HasPath(rows: seq<Row>, root: string, nodes: map<Id, TreeNode>, r: Row)
    requires Acyclic(rows)
  {
    r in rows && r.id in nodes && nodes[r.id].path == PathOf(rows, root, RankOf(rows), r)
  }

  ghost predicate HavePaths(done: seq<Row>, rows: seq<Row>, root: string, nodes: map<Id, TreeNode>)
    requires Acyclic(rows)
  {
    forall r | r in done :: HasPath(rows, root, nodes, r)
  }

  ghost predicate Childless(nodes: map<Id, TreeNode>)
    reads nodes.Values
  {
    forall id | id in nodes :: nodes[id].children == []
  }

  predicate Absent(done: seq<Row>, row: Row) {
    forall r | r in done :: r.id != row.id
  }

  lemma AbsentFromPrefix(rows: seq<Row>, k: nat)
    requires UniqueIds(rows) && k < |rows|
    ensures Absent(rows[..k], rows[k])
  {
  }

  lemma HasPathSnoc(rows: seq<Row>, root: string, done: seq<Row>, row: Row,
                    nodes: map<Id, TreeNode>, more: map<Id, TreeNode>)
    requires Acyclic(rows)
    requires HavePaths(done, rows, root, nodes) && Absent(done, row)
    requires forall id | id in nodes && id != row.id :: id in more && more[id] == nodes[id]
    requires HasPath(rows, root, more, row)
    ensures HavePaths(done + [row], rows, root, more)
  {
  }

  /** The nodes of the first `n` rows, with their paths. */
  ghost predicate Created(rows: seq<Row>, n: nat, root: string, nodes: map<Id, TreeNode>)
    requires Acyclic(rows) && n <= |rows|
  {
    NodePerRow(rows[..n], nodes) && HavePaths(rows[..n], rows, root, nodes)
  }

  lemma CreatedAll(rows: seq<Row>, root: string, nodes: map<Id, TreeNode>)
    requires Acyclic(rows) && Created(rows, |rows|, root, nodes)
    ensures NodePerRow(rows, nodes) && HavePaths(rows, rows, root, nodes)
  {
    assert rows[..|rows|] == rows;
  }

  method CreateWithPaths(rows: seq<Row>, namespaceName: string) returns (nodes: map<Id, TreeNode>)
    requires UniqueIds(rows) && Acyclic(rows)
    ensures NodePerRow(rows, nodes) && fresh(nodes.Values)
    ensures Childless(nodes)
    ensures HavePaths(rows, rows, namespaceName, nodes)
  {
    nodes := map[];
    for k := 0 to |rows|
      invariant Created(rows, k, namespaceName, nodes) && fresh(nodes.Values)
      invariant Childless(nodes)
    {
      nodes := AddPathNode(rows, k, nodes, namespaceName);
    }
    CreatedAll(rows, namespaceName, nodes);
  }

  method AddPathNode(rows: seq<Row>, k: nat, nodes: map<Id, TreeNode>, namespaceName: string)
      returns (more: map<Id, TreeNode>)
    requires UniqueIds(rows) && Acyclic(rows) && k < |rows|
    requires Created(rows, k, namespaceName, nodes) && Childless(nodes)
    ensures Created(rows, k + 1, namespaceName, more) && Childless(more)
    ensures rows[k].id in more && fresh(more[rows[k].id]) && more.Values <= nodes.Values + {more[rows[k].id]}
  {
    var path := RowPath(rows, rows[k], namespaceName);
    AbsentFromPrefix(rows, k);
    more := AddNode(rows[..k], nodes, rows[k], path);
    HasPathSnoc(rows, namespaceName, rows[..k], rows[k], nodes, more);
    PrefixSnoc(rows, k);
  }

  /** The repository's `buildTree`: the same nesting, without paths. */
  method BuildTree(rows: seq<Row>) returns (roots: seq<TreeNode>, ghost world: set<TreeNode>)
    requires UniqueIds(rows) && Acyclic(rows)
    ensures fresh(world) && forall name: string :: SpellsAll(roots, ForestOf(rows, name), false, world)
  {
    var nodes := CreateNodes(rows);
    roots := LinkNodes(rows, nodes);
    forall name: string ensures SpellsAll(roots, ForestOf(rows, name), false, nodes.Values) {
      RootsSpell(rows, name, nodes, roots, false);
    }
    world := nodes.Values;
  }

  method CreateNodes(rows: seq<Row>) returns (nodes: map<Id, TreeNode>)
    requires UniqueIds(rows)
    ensures NodePerRow(rows, nodes) && fresh(nodes.Values)
    ensures Childless(nodes)
  {
    nodes := map[];
    ghost var done: seq<Row> := [];
    for k := 0 to |rows|
      invariant done == rows[..k]
      invariant NodePerRow(done, nodes) && fresh(nodes.Values)
      invariant Childless(nodes)
    {
      AbsentFromPrefix(rows, k);
      PrefixSnoc(rows, k);
      nodes := AddNode(done, nodes, rows[k], "");
      done := done + [rows[k]];
    }
  }

  /** `nodeMap.set(row.id, { ..., children: [] })`. */
  method AddNode(ghost done: seq<Row>, nodes: map<Id, TreeNode>, row: Row, path: string)
      returns (more: map<Id, TreeNode>)
    requires NodePerRow(done, nodes) && Absent(done, row)
    requires Childless(nodes)
    ensures NodePerRow(done + [row], more)
    ensures Childless(more)
    ensures row.id in more && more[row.id].path == path && fresh(more[row.id])
    ensures more.Values <= nodes.Values + {more[row.id]}
    ensures forall id | id in nodes && id != row.id :: id in more && more[id] == nodes[id]
  {
    var node := new TreeNode(row.id, row.name, path);
    more := nodes[row.id := node];
    forall id | id in more ensures Has(done + [row], id) {
      assert row in done + [row];
      if id != row.id {
        assert Find(done, id).value in done + [row];
      }
    }
  }
}
