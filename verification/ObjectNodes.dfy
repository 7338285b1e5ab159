/**
 * The object-node repository: a table of parent pointers kept as a forest of depth at
 * most five by its create and delete operations.
 */
module ObjectNodes {
  import opened Options
  import opened ObjectForest

  const MAX_DEPTH := 5

  /** A row of `object_nodes`. */
  datatype Entry = Entry(ns: Id, parent: Option<Id>, name: string)
  type Table = map<Id, Entry>

  /** A row of `nodes`, as far as object nodes concern it. */
  datatype Variable = Variable(ns: Id, objectNode: Option<Id>, name: string)

  // ---------------------------------------------------------------- depth

  /** `id` is at depth `d`: the chain of parents from it ends at a root after `d` rows. */
  ghost predicate AtDepth(t: Table, id: Id, d: nat)
    decreases d
  {
    && d > 0 && id in t
    && match t[id].parent
       case None => d == 1
       case Some(p) => AtDepth(t, p, d - 1)
  }

  /** `a` is on the chain of parents of `id`, or `id` itself. */
  ghost predicate OnChain(t: Table, a: Id, id: Id, d: nat)
    requires AtDepth(t, id, d)
    decreases d
  {
    a == id || (t[id].parent.Some? && OnChain(t, a, t[id].parent.value, d - 1))
  }

  /** Every row is at a depth from 1 to the limit, so no row is its own ancestor. */
  ghost predicate Forest(t: Table) {
    forall id | id in t :: exists d: nat :: d <= MAX_DEPTH && AtDepth(t, id, d)
  }

  lemma {:induction false} DepthUnique(t: Table, id: Id, d: nat, e: nat)
    requires AtDepth(t, id, d) && AtDepth(t, id, e)
    ensures d == e
    decreases d
  {
    if t[id].parent.Some? {
      DepthUnique(t, t[id].parent.value, d - 1, e - 1);
    }
  }

  lemma ParentDepth(t: Table, id: Id, d: nat)
    requires AtDepth(t, id, d) && t[id].parent.Some?
    ensures d > 1 && AtDepth(t, t[id].parent.value, d - 1)
  {
  }

  /** An ancestor is less deep. */
  lemma {:induction false} ChainDepth(t: Table, a: Id, id: Id, d: nat) returns (e: nat)
    requires AtDepth(t, id, d) && OnChain(t, a, id, d)
    ensures e <= d && AtDepth(t, a, e) && (a != id ==> e < d)
    decreases d
  {
    e := d;
    if a != id {
      e := ChainDepth(t, a, t[id].parent.value, d - 1);
    }
  }

  ghost function DepthOf(t: Table, id: Id): (d: nat)
    requires Forest(t) && id in t
    ensures d <= MAX_DEPTH && AtDepth(t, id, d)
  {
    var d: nat :| d <= MAX_DEPTH && AtDepth(t, id, d); d
  }

  /** The depth is a rank, so the rows of such a table, in any order, are acyclic. */
  lemma ForestIsAcyclic(t: Table, rows: seq<Row>)
    requires Forest(t)
    requires forall r | r in rows :: r.id in t && t[r.id].parent == r.parent
    ensures Acyclic(rows)
  {
    var k := Rank(map id | id in t :: DepthOf(t, id), MAX_DEPTH + 1);
    forall r | r in rows && ParentRow(rows, r).Some?
      ensures k.of[ParentRow(rows, r).value.id] < k.of[r.id]
    {
      var p := ParentRow(rows, r).value;
      DepthUnique(t, p.id, DepthOf(t, r.id) - 1, DepthOf(t, p.id));
    }
    assert Ranked(rows, k);
  }

  // ---------------------------------------------------------------- the tables' constraints

  predicate SameSlot(e: Entry, f: Entry) {
    e.ns == f.ns && e.parent == f.parent && e.name == f.name
  }

  /** The UNIQUE constraint on namespace, parent and name. */
  ghost predicate UniqueSiblings(t: Table) {
    forall a, b | a in t && b in t && a != b && t[a].ns == t[b].ns && t[a].parent == t[b].parent ::
      t[a].name != t[b].name
  }

  predicate Taken(t: Table, e: Entry) {
    exists a :: a in t && SameSlot(t[a], e)
  }

  /** The foreign keys: every parent and every object node named exists. */
  ghost predicate RefsExist(t: Table, vars: map<Id, Variable>) {
    && (forall id | id in t && t[id].parent.Some? :: t[id].parent.value in t)
    && (forall v | v in vars && vars[v].objectNode.Some? :: vars[v].objectNode.value in t)
  }

  /** No two variables of a namespace have one name, wherever they sit: UNIQUE(namespace_id, name). */
  ghost predicate UniqueVariables(vars: map<Id, Variable>) {
    forall u, v | u in vars && v in vars && u != v && vars[u].ns == vars[v].ns :: vars[u].name != vars[v].name
  }

  predicate NameUsed(vars: map<Id, Variable>, ns: Id, name: string) {
    exists v :: v in vars && vars[v].ns == ns && vars[v].name == name
  }

  // ---------------------------------------------------------------- effect of the statements

  /** `UPDATE nodes SET object_node_id = ? WHERE object_node_id = ?`. */
  function MoveVariables(vars: map<Id, Variable>, id: Id, to: Option<Id>): (r: map<Id, Variable>)
    ensures r.Keys == vars.Keys
    ensures forall v | v in vars ::
      r[v] == if vars[v].objectNode == Some(id) then vars[v].(objectNode := to) else vars[v]
  {
    map v | v in vars :: if vars[v].objectNode == Some(id) then vars[v].(objectNode := to) else vars[v]
  }

  /** `UPDATE object_nodes SET parent_object_node_id = ? WHERE parent_object_node_id = ?`. */
  function MoveChildren(t: Table, id: Id, to: Option<Id>): (r: Table)
    ensures r.Keys == t.Keys
    ensures forall c | c in t :: r[c] == if t[c].parent == Some(id) then t[c].(parent := to) else t[c]
  {
    map c | c in t :: if t[c].parent == Some(id) then t[c].(parent := to) else t[c]
  }

  /** The table after a completed delete. */
  function Without(t: Table, id: Id): Table
    requires id in t
  {
    MoveChildren(t, id, t[id].parent) - {id}
  }

  /** Moving the children up runs into no row with the same namespace, parent and name. */
  predicate CanMoveUp(t: Table, id: Id)
    requires id in t
  {
    forall c, s | c in t && s in t && t[c].parent == Some(id) && t[s].parent == t[id].parent ::
      t[c].ns != t[s].ns || t[c].name != t[s].name
  }

  // ---------------------------------------------------------------- the repository

  datatype CreateResult = Created(id: Id) | NamespaceMissing | ParentMissing | TooDeep | Duplicate
  datatype DeleteResult = Deleted | NotFound | MoveConflict
  /** `InsertFailed` is the exception of a foreign key. */
  datatype NodeResult = NodeCreated | NameTaken | InsertFailed

  class Repository {
    var namespaces: set<Id>
    var objectNodes: Table
    var nodes: map<Id, Variable>

    ghost predicate Valid()
      reads this
    {
      && Forest(objectNodes) && UniqueSiblings(objectNodes) && RefsExist(objectNodes, nodes)
      && UniqueVariables(nodes)
    }

    /** An empty database with the given namespaces. */
    constructor (namespaces: set<Id>)
      ensures Valid() && objectNodes == map[] && nodes == map[] && this.namespaces == namespaces
    {
      this.namespaces, objectNodes, nodes := namespaces, map[], map[];
    }

    /** `computeDepth`: climbs to the root; an unknown id counts as one level. */
    method ComputeDepth(objectNodeId: Id) returns (depth: nat)
      requires Forest(objectNodes)
      ensures objectNodeId in objectNodes ==> AtDepth(objectNodes, objectNodeId, depth) && depth <= MAX_DEPTH
      ensures objectNodeId !in objectNodes ==> depth == 1
    {
      depth := 1;
      var currentId := objectNodeId;
      ghost var total := if currentId in objectNodes then DepthOf(objectNodes, currentId) else 1;
      while currentId in objectNodes && objectNodes[currentId].parent.Some?
        invariant depth <= total
        invariant if objectNodeId in objectNodes then AtDepth(objectNodes, currentId, total + 1 - depth)
                  else currentId == objectNodeId && depth == 1
        decreases total - depth
      {
        if objectNodeId in objectNodes {
          ParentDepth(objectNodes, currentId, total + 1 - depth);
        }
        currentId := objectNodes[currentId].parent.value;
        depth := depth + 1;
      }
    }

    /** `create`; the caller supplies the fresh UUID. */
    method Create(newId: Id, namespaceId: Id, parent: Option<Id>, name: string) returns (r: CreateResult)
      requires Valid() && newId !in objectNodes
      modifies this`objectNodes
      ensures Valid()
      ensures r.Created? ==>
        r.id == newId && objectNodes == old(objectNodes)[newId := Entry(namespaceId, parent, name)]
      ensures !r.Created? ==> objectNodes == old(objectNodes)
      ensures r.NamespaceMissing? <==> namespaceId !in namespaces
      ensures r.ParentMissing? <==>
        namespaceId in namespaces && parent.Some? && parent.value !in old(objectNodes)
      ensures r.TooDeep? <==>
        namespaceId in namespaces && parent.Some? && parent.value in old(objectNodes)
        && AtDepth(old(objectNodes), parent.value, MAX_DEPTH)
      ensures r.Duplicate? <==>
        && namespaceId in namespaces
        && (parent.Some? ==>
              parent.value in old(objectNodes) && !AtDepth(old(objectNodes), parent.value, MAX_DEPTH))
        && exists a :: a in old(objectNodes) && old(objectNodes)[a].ns == namespaceId
                       && old(objectNodes)[a].parent == parent && old(objectNodes)[a].name == name
    {
      if namespaceId !in namespaces {
        return NamespaceMissing;
      }
      ghost var d := 0;
      if parent.Some? {
        if parent.value !in objectNodes {
          return ParentMissing;
        }
        var depth := ComputeDepth(parent.value);
        if depth >= MAX_DEPTH {
          return TooDeep;
        }
        d := depth;
        if AtDepth(objectNodes, parent.value, MAX_DEPTH) {
          DepthUnique(objectNodes, parent.value, depth, MAX_DEPTH);
        }
      }
      var entry := Entry(namespaceId, parent, name);
      if Taken(objectNodes, entry) {
        return Duplicate;
      }
      InsertKeepsForest(objectNodes, newId, entry, d);
      objectNodes := objectNodes[newId := entry];
      return Created(newId);
    }

    /** `create` of the node repository, behind its validation: a variable, in an object node or in none. */
    method CreateNode(newId: Id, namespaceId: Id, objectNode: Option<Id>, name: string) returns (r: NodeResult)
      requires Valid() && newId !in nodes
      modifies this`nodes
      ensures Valid()
      ensures r.NameTaken? <==>
        exists v :: v in old(nodes) && old(nodes)[v].ns == namespaceId && old(nodes)[v].name == name
      ensures r.InsertFailed? <==>
        !r.NameTaken? && (namespaceId !in namespaces || (objectNode.Some? && objectNode.value !in objectNodes))
      ensures nodes == if r.NodeCreated? then old(nodes)[newId := Variable(namespaceId, objectNode, name)]
                       else old(nodes)
    {
      if NameUsed(nodes, namespaceId, name) {
        return NameTaken;
      }
      if namespaceId !in namespaces || (objectNode.Some? && objectNode.value !in objectNodes) {
        return InsertFailed;
      }
      nodes := nodes[newId := Variable(namespaceId, objectNode, name)];
      return NodeCreated;
    }

    /**
     * `delete`: three statements, each of them all or nothing, but not one transaction.
     * The second one can fail on the UNIQUE constraint and leaves the first one done.
     */
    method Delete(id: Id) returns (r: DeleteResult)
      requires Valid()
      modifies this`objectNodes, this`nodes
      ensures Valid()
      ensures r.NotFound? <==> id !in old(objectNodes)
      ensures r.Deleted? <==>
        id in old(objectNodes) && UniqueSiblings(MoveChildren(old(objectNodes), id, old(objectNodes)[id].parent))
      ensures r.NotFound? ==> objectNodes == old(objectNodes) && nodes == old(nodes)
      ensures r.MoveConflict? ==>
        objectNodes == old(objectNodes) && nodes == MoveVariables(old(nodes), id, old(objectNodes)[id].parent)
      ensures r.Deleted? ==>
        && objectNodes == Without(old(objectNodes), id)
        && nodes == MoveVariables(old(nodes), id, old(objectNodes)[id].parent)
    {
      if id !in objectNodes {
        return NotFound;
      }
      var up := objectNodes[id].parent;
      MoveKeepsRefs(objectNodes, nodes, id);
      MoveKeepsNames(nodes, id, up);
      DeleteKeepsRefs(objectNodes, nodes, id);
      nodes := MoveVariables(nodes, id, up);
      MovesUpIff(objectNodes, id);
      if !CanMoveUp(objectNodes, id) {
        return MoveConflict;
      }
      DeleteKeepsForest(objectNodes, id);
      DeleteKeepsUnique(objectNodes, id);
      objectNodes := MoveChildren(objectNodes, id, up);
      objectNodes := objectNodes - {id};
      return Deleted;
    }
  }

  // ---------------------------------------------------------------- create

  lemma {:induction false} InsertKeepsDepth(t: Table, newId: Id, e: Entry, id: Id, d: nat)
    requires newId !in t && AtDepth(t, id, d)
    ensures AtDepth(t[newId := e], id, d)
    decreases d
  {
    if t[id].parent.Some? {
      InsertKeepsDepth(t, newId, e, t[id].parent.value, d - 1);
    }
  }

  lemma InsertKeepsForest(t: Table, newId: Id, e: Entry, d: nat)
    requires Forest(t) && newId !in t && d < MAX_DEPTH
    requires e.parent.Some? ==> AtDepth(t, e.parent.value, d)
    requires e.parent.None? ==> d == 0
    ensures Forest(t[newId := e])
  {
    var t' := t[newId := e];
    if e.parent.Some? {
      InsertKeepsDepth(t, newId, e, e.parent.value, d);
    }
    assert AtDepth(t', newId, d + 1);
    forall id | id in t ensures exists d: nat :: d <= MAX_DEPTH && AtDepth(t', id, d) {
      InsertKeepsDepth(t, newId, e, id, DepthOf(t, id));
    }
  }

  // ---------------------------------------------------------------- delete

  /** Deleting a node lifts exactly its descendants, by one. */
  lemma {:induction false} DeleteLifts(t: Table, gone: Id, id: Id, d: nat)
    requires AtDepth(t, id, d) && gone in t && id != gone
    ensures AtDepth(Without(t, gone), id, if OnChain(t, gone, id, d) then d - 1 else d)
    decreases d
  {
    var t' := Without(t, gone);
    match t[id].parent {
      case None =>
      case Some(p) =>
        if p == gone {
          match t[gone].parent {
            case None =>
            case Some(g) =>
              if OnChain(t, gone, g, d - 2) {
                var e := ChainDepth(t, gone, g, d - 2);
                DepthUnique(t, gone, e, d - 1);
              }
              DeleteLifts(t, gone, g, d - 2);
          }
        } else {
          DeleteLifts(t, gone, p, d - 1);
        }
    }
  }

  /** The depth of a row once `gone` is deleted. */
  ghost function DepthAfter(t: Table, gone: Id, id: Id): (d: nat)
    requires Forest(t) && id in t && gone in t && id != gone
    ensures d <= MAX_DEPTH && AtDepth(Without(t, gone), id, d)
  {
    var d := DepthOf(t, id);
    DeleteLifts(t, gone, id, d);
    if OnChain(t, gone, id, d) then d - 1 else d
  }

  lemma DeleteKeepsForest(t: Table, gone: Id)
    requires Forest(t) && gone in t
    ensures Forest(Without(t, gone))
  {
    var t' := Without(t, gone);
    forall id | id in t' ensures exists d: nat :: d <= MAX_DEPTH && AtDepth(t', id, d) {
      var d := DepthAfter(t, gone, id);
    }
  }

  lemma MoveKeepsRefs(t: Table, vars: map<Id, Variable>, id: Id)
    requires RefsExist(t, vars) && id in t
    ensures RefsExist(t, MoveVariables(vars, id, t[id].parent))
  {
  }

  lemma MoveKeepsNames(vars: map<Id, Variable>, id: Id, to: Option<Id>)
    requires UniqueVariables(vars)
    ensures UniqueVariables(MoveVariables(vars, id, to))
  {
  }

  lemma DeleteKeepsRefs(t: Table, vars: map<Id, Variable>, gone: Id)
    requires Forest(t) && RefsExist(t, vars) && gone in t
    ensures RefsExist(Without(t, gone), MoveVariables(vars, gone, t[gone].parent))
  {
    NoSelfParent(t, gone);
  }

  /** The move runs into no row exactly when the rows, once moved, are uniquely named again. */
  lemma MovesUpIff(t: Table, id: Id)
    requires Forest(t) && UniqueSiblings(t) && id in t
    ensures CanMoveUp(t, id) <==> UniqueSiblings(MoveChildren(t, id, t[id].parent))
  {
    var moved := MoveChildren(t, id, t[id].parent);
    NoSelfParent(t, id);
    forall c, x | UniqueSiblings(moved) && c in t && x in t && t[c].parent == Some(id) && t[x].parent == t[id].parent
      ensures t[c].ns != t[x].ns || t[c].name != t[x].name
    {
      assert moved[c].parent == moved[x].parent && c != x;
    }
  }

  /** The n-th row above `id`, if the chain reaches so far. */
  function Above(t: Table, id: Id, n: nat): Option<Id>
    decreases n
  {
    if n == 0 then Some(id)
    else if id in t && t[id].parent.Some? then Above(t, t[id].parent.value, n - 1)
    else None
  }

  lemma {:induction false} DepthIsAbove(t: Table, id: Id, d: nat)
    ensures AtDepth(t, id, d + 1) <==>
      Above(t, id, d).Some? && Above(t, id, d).value in t && t[Above(t, id, d).value].parent.None?
    decreases d
  {
    if d > 0 && id in t && t[id].parent.Some? {
      DepthIsAbove(t, t[id].parent.value, d - 1);
    }
  }

  /** A row is at the limit exactly when the fourth row above it is a root. */
  lemma AtLimit(t: Table, id: Id)
    ensures AtDepth(t, id, MAX_DEPTH) <==>
      Above(t, id, 4).Some? && Above(t, id, 4).value in t && t[Above(t, id, 4).value].parent.None?
  {
    DepthIsAbove(t, id, 4);
  }

  lemma DeleteKeepsUnique(t: Table, gone: Id)
    requires UniqueSiblings(t) && gone in t && CanMoveUp(t, gone)
    ensures UniqueSiblings(Without(t, gone))
  {
    var t' := Without(t, gone);
    forall a, b | a in t' && b in t' && a != b && t'[a].ns == t'[b].ns && t'[a].parent == t'[b].parent
      ensures t'[a].name != t'[b].name
    {
      assert t[a].ns == t[b].ns && t[a].parent == t[b].parent ==> t[a].name != t[b].name;
    }
  }

  lemma NoSelfParent(t: Table, id: Id)
    requires Forest(t) && id in t
    ensures t[id].parent != Some(id)
  {
    var d := DepthOf(t, id);
    if t[id].parent == Some(id) {
      DepthUnique(t, id, d, d - 1);
    }
  }

  /** A completed delete loses or renames no other row, and leaves no reference to the deleted id. */
  lemma DeleteLosesNothingElse(t: Table, vars: map<Id, Variable>, gone: Id)
    requires Forest(t) && gone in t
    ensures var t', vars' := Without(t, gone), MoveVariables(vars, gone, t[gone].parent);
      && t'.Keys == t.Keys - {gone} && vars'.Keys == vars.Keys
      && (forall id | id in t' :: t'[id].ns == t[id].ns && t'[id].name == t[id].name && t'[id].parent != Some(gone))
      && (forall v | v in vars' :: vars'[v].objectNode != Some(gone))
  {
    NoSelfParent(t, gone);
  }

  /** A row's depth falls by one if it was below the deleted node, and stays the same otherwise. */
  lemma DeleteLiftsDescendants(t: Table, gone: Id, id: Id)
    requires gone in t && Forest(t) && Forest(Without(t, gone)) && id in t && id != gone
    ensures DepthOf(Without(t, gone), id) ==
      DepthOf(t, id) - if OnChain(t, gone, id, DepthOf(t, id)) then 1 else 0
  {
    DepthUnique(Without(t, gone), id, DepthOf(Without(t, gone), id), DepthAfter(t, gone, id));
  }

  /** A child named like the node itself always blocks its delete: the node is still there when the child moves up. */
  lemma SameNamedChildBlocks(t: Table, id: Id, child: Id)
    requires id in t && child in t && t[child].parent == Some(id)
    requires t[child].ns == t[id].ns && t[child].name == t[id].name
    ensures !CanMoveUp(t, id)
  {
  }
}
