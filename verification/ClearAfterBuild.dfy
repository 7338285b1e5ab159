/**
 * Clearing what was built from the database's rows: exactly when no object is deleted
 * while something still hangs below it.
 */
module ClearAfterBuild {
  import opened Options
  import opened ObjectForest
  import opened GeneratedConfig
  import opened AddressSpace
  import opened AddressSpaceProofs
  import opened ClearOrder
  import opened UnambiguousNames
  import NodeId

  // ---------------------------------------------------------------- the condition, on the rows

  /** Among the first `j` variables is one of this name at this place. */
  predicate Cleared(row: NamespaceRow, p: Option<Row>, name: string, j: nat)
    requires j <= |row.variables|
  {
    exists i :: 0 <= i < j && Place(row, row.variables[i]) == p && row.variables[i].name == name
  }

  /** Every object and variable in `x` has the name of a variable in `x` among the first `j`. */
  predicate ClearedBelow(row: NamespaceRow, x: Row, j: nat)
    requires j <= |row.variables|
  {
    && (forall c | c in row.objectNodes && ParentRow(row.objectNodes, c) == Some(x) :: Cleared(row, Some(x), c.name, j))
    && (forall w | w in row.variables && Place(row, w) == Some(x) :: Cleared(row, Some(x), w.name, j))
  }

  /** A variable with the place and the name of an object finds that object empty when its turn comes. */
  predicate ChildlessInTurn(row: NamespaceRow) {
    forall j, x | 0 <= j < |row.variables| && x in row.objectNodes
                  && ParentRow(row.objectNodes, x) == Place(row, row.variables[j]) && x.name == row.variables[j].name ::
      ClearedBelow(row, x, j)
  }

  /** No variable has the place and the name of an object. */
  predicate NoClash(row: NamespaceRow) {
    forall v, x | v in row.variables && x in row.objectNodes && ParentRow(row.objectNodes, x) == Place(row, v) ::
      x.name != v.name
  }

  // ---------------------------------------------------------------- where the build puts things

  /** Each object with what it is to hang below. */
  function Edges(os: seq<JsonObject>, parent: ServerId, ns: nat): set<(ServerId, ServerId)>
    decreases os
  {
    if os == [] then {}
    else {(ObjectId(os[0], ns), parent)} + Edges(os[0].children, ObjectId(os[0], ns), ns) + Edges(os[1..], parent, ns)
  }

  ghost predicate Laid(nodes: Nodes, edges: set<(ServerId, ServerId)>) {
    forall e | e in edges :: e.0 in nodes && nodes[e.0] == e.1
  }

  lemma {:induction false} BuildLaysObjects(s: Server, os: seq<JsonObject>, parent: ServerId, ns: nat)
    requires forall o | o in os :: Full(o)
    requires NoRepeats(os, ns) && parent in s.nodes && ObjectIds(os, ns) !! s.nodes.Keys
    ensures Laid(BuildObjects(s, os, parent, ns).nodes, Edges(os, parent, ns))
    decreases os
  {
    if os != [] {
      var o, rest := os[0], os[1..];
      assert o in os && Full(o);
      var id := ObjectId(o, ns);
      var added := AddNode(s, id, parent);
      BuildObjectsGrows(added, o.children, id, ns);
      BuildLaysObjects(added, o.children, id, ns);
      var t := BuildObject(s, o, parent, ns);
      BuildObjectsGrows(t, rest, parent, ns);
      BuildLaysObjects(t, rest, parent, ns);
    }
  }

  /** In the tree of the rows, every row hangs below its parent row, or below the namespace. */
  lemma {:induction false} RowHasEdge(row: NamespaceRow, rs: seq<Row>, p: Option<Row>, x: Row, ns: nat, least: nat)
    requires ValidRows(row) && x in row.objectNodes && IsPlace(row, p)
    requires var k := RankOf(row.objectNodes);
      forall r | r in rs :: r in row.objectNodes && k.of[r.id] >= least && ParentRow(row.objectNodes, r) == p
    requires OccursIn(Trees(row.objectNodes, row.name, RankOf(row.objectNodes), rs), x.id) > 0
    ensures var ts := Trees(row.objectNodes, row.name, RankOf(row.objectNodes), rs);
      (HomeId(row, ns, Some(x)), HomeId(row, ns, ParentRow(row.objectNodes, x)))
        in Edges(JsonOfTrees(ts), HomeId(row, ns, p), ns)
    decreases RankOf(row.objectNodes).bound - least, |rs|
  {
    var rows, k := row.objectNodes, RankOf(row.objectNodes);
    var ts, first := Trees(rows, row.name, k, rs), rs[0];
    assert ts[1..] == Trees(rows, row.name, k, rs[1..]);
    FindRow(rows, first);
    ChildrenOf(rows, row.name, k, first);
    SameIdSameRow(rows, x);
    if first.id == x.id {
      assert first == x;
    } else if OccursIn(ts[0].children, x.id) > 0 {
      RowHasEdge(row, ChildRows(rows, first.id), Some(first), x, ns, k.of[first.id] + 1);
    } else {
      RowHasEdge(row, rs[1..], p, x, ns, least);
    }
  }

  lemma RowIsLaid(row: NamespaceRow, i: nat, nodes: Nodes, x: Row)
    requires ValidRows(row) && x in row.objectNodes
    requires Laid(nodes, Edges(JsonOfNamespace(row, i).objectNodes, HomeId(row, i + 2, None), i + 2))
    ensures HomeId(row, i + 2, Some(x)) in nodes
    ensures nodes[HomeId(row, i + 2, Some(x))] == HomeId(row, i + 2, ParentRow(row.objectNodes, x))
  {
    var rows := row.objectNodes;
    FindRow(rows, x);
    EveryRowOnce(rows, row.name, x.id);
    RowHasEdge(row, RootRows(rows, rows), None, x, i + 2, 0);
  }

  /** The same parent, or both at the top of the namespace. */
  predicate Fit(p: ServerId, q: ServerId, top: set<ServerId>) {
    p == q || (p in top && q in top)
  }

  /** The variable is in the server, below the parent it names. */
  ghost predicate LaidVariable(nodes: Nodes, v: JsonVariable, ns: nat, top: set<ServerId>) {
    && Creatable(v) && VariableId(v, ns) in nodes
    && Fit(nodes[VariableId(v, ns)], VariableParent(v, ns), top)
  }

  ghost predicate SameIdFits(v: JsonVariable, w: JsonVariable, ns: nat, top: set<ServerId>) {
    Creatable(v) && Creatable(w) && VariableId(v, ns) == VariableId(w, ns) ==>
      Fit(VariableParent(v, ns), VariableParent(w, ns), top)
  }

  /** A variable hangs below its parent even when its id was there before, if things of one id have one parent. */
  lemma {:induction false} BuildLaysVariables(s: Server, vs: seq<JsonVariable>, ns: nat, top: set<ServerId>)
    requires forall v | v in vs :: Creatable(v) && VariableParent(v, ns) in s.nodes
    requires forall v | v in vs && Creatable(v) && VariableId(v, ns) in s.nodes :: LaidVariable(s.nodes, v, ns, top)
    requires forall v, w | v in vs && w in vs :: SameIdFits(v, w, ns, top)
    ensures forall v | v in vs :: LaidVariable(BuildVariables(s, vs, ns).nodes, v, ns, top)
    decreases |vs|
  {
    if vs != [] {
      var t, rest := BuildVariable(s, vs[0], ns), vs[1..];
      assert vs[0] in vs && forall v | v in rest :: v in vs;
      assert SameIdFits(vs[0], vs[0], ns, top);
      assert LaidVariable(t.nodes, vs[0], ns, top);
      forall v | v in rest && VariableId(v, ns) in t.nodes ensures LaidVariable(t.nodes, v, ns, top) {
        assert SameIdFits(vs[0], v, ns, top);
      }
      BuildLaysVariables(t, rest, ns, top);
      BuildVariablesGrows(t, rest, ns);
      assert LaidVariable(BuildVariables(t, rest, ns).nodes, vs[0], ns, top);
    }
  }

  // ---------------------------------------------------------------- a namespace settled in the server

  ghost predicate ObjectsPlaced(nodes: Nodes, row: NamespaceRow, ns: nat)
    requires ValidRows(row)
  {
    && HomeId(row, ns, None) in nodes && nodes[HomeId(row, ns, None)] == OBJECTS_FOLDER
    && forall x | x in row.objectNodes ::
         HomeId(row, ns, Some(x)) in nodes
         && nodes[HomeId(row, ns, Some(x))] == HomeId(row, ns, ParentRow(row.objectNodes, x))
  }

  ghost function Top(row: NamespaceRow, ns: nat): set<ServerId>
    requires ValidRows(row)
  {
    {OBJECTS_FOLDER, HomeId(row, ns, None)}
  }

  /** Only a variable of a namespace without a name hangs below the Objects folder. */
  ghost predicate VariablesPlaced(nodes: Nodes, row: NamespaceRow, ns: nat)
    requires ValidRows(row)
  {
    forall v | v in row.variables ::
      IdAt(row, ns, Place(row, v), v.name) in nodes
      && Fit(nodes[IdAt(row, ns, Place(row, v), v.name)], HomeId(row, ns, Place(row, v)), Top(row, ns))
  }

  /** Nothing of others hangs below the namespace. */
  ghost predicate Enclosed(nodes: Nodes, ids: set<ServerId>) {
    forall m | m in nodes && nodes[m] in ids :: m in ids
  }

  ghost predicate Settled(nodes: Nodes, row: NamespaceRow, i: nat)
    requires ValidRows(row)
  {
    && Hung(nodes, JsonOfNamespace(row, i), i + 2)
    && ObjectsPlaced(nodes, row, i + 2) && VariablesPlaced(nodes, row, i + 2)
    && Enclosed(nodes, NamespaceIds(JsonOfNamespace(row, i), i + 2))
  }

  lemma VariableParentIs(row: NamespaceRow, ns: nat, v: VariableRow)
    requires ValidRows(row) && ns <= NodeId.MAX_NAMESPACE
    ensures Fit(VariableParent(JsonOfVariable(row, ns, v), ns), HomeId(row, ns, Place(row, v)), Top(row, ns))
  {
    VariableHome(row, ns, v);
    if Place(row, v).Some? {
      PathIsLonger(row.objectNodes, row.name, RankOf(row.objectNodes), Place(row, v).value);
    }
  }

  /** Any variables of one id name the same parent, up to the top of the namespace. */
  lemma SameIdSameParent(row: NamespaceRow, ns: nat, v: VariableRow, w: VariableRow)
    requires ValidRows(row) && PlainRows(row) && ns <= NodeId.MAX_NAMESPACE && v in row.variables && w in row.variables
    ensures SameIdFits(JsonOfVariable(row, ns, v), JsonOfVariable(row, ns, w), ns, Top(row, ns))
  {
    VariableHome(row, ns, v);
    VariableHome(row, ns, w);
    IdsDistinct(row, ns, Place(row, v), v.name, Place(row, w), w.name);
  }

  /** A variable that finds its id taken by an object would have had the object's parent. */
  lemma TakenIdFits(objects: Nodes, row: NamespaceRow, i: nat, v: VariableRow)
    requires ValidRows(row) && PlainRows(row) && i + 2 <= NodeId.MAX_NAMESPACE && v in row.variables
    requires ObjectsPlaced(objects, row, i + 2)
    requires VariableId(JsonOfVariable(row, i + 2, v), i + 2) in ObjectIds(JsonOfNamespace(row, i).objectNodes, i + 2)
    ensures LaidVariable(objects, JsonOfVariable(row, i + 2, v), i + 2, Top(row, i + 2))
  {
    var ns := i + 2;
    VariableHome(row, ns, v);
    VariableParentIs(row, ns, v);
    var x := ObjectIdHasRow(row, i, IdAt(row, ns, Place(row, v), v.name));
    IdOfObject(row, ns, Place(row, v), v.name, x);
  }

  /** The objects of a namespace with plain names, freshly built. */
  lemma BuildObjectsSettled(s: Server, row: NamespaceRow, i: nat)
    requires ValidRows(row) && PlainRows(row) && OBJECTS_FOLDER in s.nodes
    requires forall m | m in s.nodes ::
      m !in NamespaceIds(JsonOfNamespace(row, i), i + 2) && s.nodes[m] !in NamespaceIds(JsonOfNamespace(row, i), i + 2)
    ensures var n, root := JsonOfNamespace(row, i), HomeId(row, i + 2, None);
      var r := BuildObjects(AddNode(s, root, OBJECTS_FOLDER), n.objectNodes, root, i + 2);
      && ObjectsPlaced(r.nodes, row, i + 2)
      && r.nodes.Keys == s.nodes.Keys + {root} + ObjectIds(n.objectNodes, i + 2)
  {
    var n, root := JsonOfNamespace(row, i), HomeId(row, i + 2, None);
    var rooted := AddNode(s, root, OBJECTS_FOLDER);
    TreesAreFull(ForestOf(row.objectNodes, row.name));
    PlainObjectsAreDistinct(row, i);
    BuildObjectsGrows(rooted, n.objectNodes, root, i + 2);
    BuildLaysObjects(rooted, n.objectNodes, root, i + 2);
    var r := BuildObjects(rooted, n.objectNodes, root, i + 2);
    forall x | x in row.objectNodes
      ensures HomeId(row, i + 2, Some(x)) in r.nodes
      ensures r.nodes[HomeId(row, i + 2, Some(x))] == HomeId(row, i + 2, ParentRow(row.objectNodes, x))
    {
      RowIsLaid(row, i, r.nodes, x);
    }
  }

  /** The variables, added to the placed objects. */
  lemma BuildVariablesSettled(s: Server, objects: Server, row: NamespaceRow, i: nat)
    requires ValidRows(row) && PlainRows(row) && OBJECTS_FOLDER in objects.nodes && i + 2 <= NodeId.MAX_NAMESPACE
    requires ObjectsPlaced(objects.nodes, row, i + 2)
    requires objects.nodes.Keys ==
      s.nodes.Keys + {HomeId(row, i + 2, None)} + ObjectIds(JsonOfNamespace(row, i).objectNodes, i + 2)
    requires forall m | m in s.nodes :: m !in NamespaceIds(JsonOfNamespace(row, i), i + 2)
    ensures VariablesPlaced(BuildVariables(objects, JsonOfNamespace(row, i).nodes, i + 2).nodes, row, i + 2)
  {
    var n, ns, top := JsonOfNamespace(row, i), i + 2, Top(row, i + 2);
    GeneratedParentsBuilt(row, i, ns);
    forall j | 0 <= j < |n.nodes| && VariableId(n.nodes[j], ns) in objects.nodes
      ensures LaidVariable(objects.nodes, n.nodes[j], ns, top)
    {
      VariableIdIn(n.nodes, ns, j);
      VariableHome(row, ns, row.variables[j]);
      IdIsNotRoot(row, ns, Place(row, row.variables[j]), row.variables[j].name);
      TakenIdFits(objects.nodes, row, i, row.variables[j]);
    }
    forall j, k | 0 <= j < |n.nodes| && 0 <= k < |n.nodes| ensures SameIdFits(n.nodes[j], n.nodes[k], ns, top) {
      SameIdSameParent(row, ns, row.variables[j], row.variables[k]);
    }
    BuildLaysVariables(objects, n.nodes, ns, top);
    var r := BuildVariables(objects, n.nodes, ns);
    forall j | 0 <= j < |row.variables|
      ensures var v := row.variables[j];
        IdAt(row, ns, Place(row, v), v.name) in r.nodes
        && Fit(r.nodes[IdAt(row, ns, Place(row, v), v.name)], HomeId(row, ns, Place(row, v)), top)
    {
      assert n.nodes[j] in n.nodes;
      assert LaidVariable(r.nodes, n.nodes[j], ns, top);
      VariableHome(row, ns, row.variables[j]);
      VariableParentIs(row, ns, row.variables[j]);
    }
  }

  /** A namespace with plain names, built from new ids, is settled; what is new hangs below it or the Objects folder. */
  lemma BuildSettles(s: Server, row: NamespaceRow, i: nat)
    requires ValidRows(row) && PlainRows(row) && OBJECTS_FOLDER in s.nodes && i + 2 <= NodeId.MAX_NAMESPACE
    requires IndexOfUri(AddNamespace(s, row.uri).uris, row.uri) == i + 2
    requires forall m | m in s.nodes ::
      m !in NamespaceIds(JsonOfNamespace(row, i), i + 2) && s.nodes[m] !in NamespaceIds(JsonOfNamespace(row, i), i + 2)
    ensures var n := JsonOfNamespace(row, i);
      var r := BuildNamespace(s, n);
      && Settled(r.nodes, row, i)
      && forall m | m in r.nodes && m !in s.nodes :: r.nodes[m] in {OBJECTS_FOLDER} + NamespaceIds(n, i + 2)
  {
    var n, ns := JsonOfNamespace(row, i), i + 2;
    var root, os := RootId(n, ns), n.objectNodes;
    var registered := AddNamespace(s, row.uri);
    TreesAreFull(ForestOf(row.objectNodes, row.name));
    PlainObjectsAreDistinct(row, i);
    BuildObjectsHung(registered, n, ns);
    BuildObjectsSettled(registered, row, i);
    var objects := BuildObjects(AddNode(registered, root, OBJECTS_FOLDER), os, root, ns);
    BuildVariablesHung(objects, row, i);
    BuildVariablesSettled(registered, objects, row, i);
    BuildNamespaceGrows(s, row, i);
    var r := BuildVariables(objects, n.nodes, ns);
    ObjectsStayPlaced(objects.nodes, r.nodes, row, ns);
  }

  lemma ObjectsStayPlaced(nodes: Nodes, nodes': Nodes, row: NamespaceRow, ns: nat)
    requires ValidRows(row) && ObjectsPlaced(nodes, row, ns)
    requires forall m | m in nodes :: m in nodes' && nodes'[m] == nodes[m]
    ensures ObjectsPlaced(nodes', row, ns)
  {
  }

  // ---------------------------------------------------------------- one namespace

  lemma VariableOrderAt(row: NamespaceRow, i: nat)
    requires ValidRows(row) && i + 2 <= NodeId.MAX_NAMESPACE
    ensures var ids := VariableOrder(JsonOfNamespace(row, i).nodes);
      && |ids| == |row.variables|
      && forall j | 0 <= j < |ids| :: ids[j] == IdAt(row, i + 2, Place(row, row.variables[j]), row.variables[j].name)
  {
    var n := JsonOfNamespace(row, i);
    GeneratedIsConsistent(row, i);
    VariableOrderIs(n.nodes, i + 2);
    forall j | 0 <= j < |n.nodes|
      ensures VariableId(n.nodes[j], i + 2) == IdAt(row, i + 2, Place(row, row.variables[j]), row.variables[j].name)
    {
      VariableHome(row, i + 2, row.variables[j]);
    }
  }

  /** Among the first `j` deletes is the id of a name at a place exactly when a variable has them. */
  lemma ClearedIff(row: NamespaceRow, i: nat, p: Option<Row>, a: string, j: nat)
    requires ValidRows(row) && PlainRows(row) && i + 2 <= NodeId.MAX_NAMESPACE
    requires IsPlace(row, p) && DOT !in a && j <= |row.variables|
    ensures |VariableOrder(JsonOfNamespace(row, i).nodes)| == |row.variables|
    ensures IdAt(row, i + 2, p, a) in VariableOrder(JsonOfNamespace(row, i).nodes)[..j] <==> Cleared(row, p, a, j)
  {
    var ids := VariableOrder(JsonOfNamespace(row, i).nodes);
    VariableOrderAt(row, i);
    forall k | 0 <= k < j
      ensures ids[..j][k] == IdAt(row, i + 2, p, a) <==>
        Place(row, row.variables[k]) == p && row.variables[k].name == a
    {
      IdsDistinct(row, i + 2, Place(row, row.variables[k]), row.variables[k].name, p, a);
    }
  }

  lemma NoOwnParent(row: NamespaceRow, x: Row)
    requires ValidRows(row) && x in row.objectNodes
    ensures ParentRow(row.objectNodes, x) != Some(x)
  {
    assert Ranked(row.objectNodes, RankOf(row.objectNodes));
  }

  /** What is named in an object has been deleted before variable `j`, if all children of its id come first. */
  lemma ChildWasCleared(nodes: Nodes, row: NamespaceRow, i: nat, j: nat, x: Row, name: string)
    requires ValidRows(row) && PlainRows(row) && i + 2 <= NodeId.MAX_NAMESPACE && j < |row.variables|
    requires ChildrenFirst(nodes, VariableOrder(JsonOfNamespace(row, i).nodes))
    requires x in row.objectNodes && DOT !in name
    requires ParentRow(row.objectNodes, x) == Place(row, row.variables[j]) && x.name == row.variables[j].name
    requires HomeId(row, i + 2, Some(x)) in nodes
    requires IdAt(row, i + 2, Some(x), name) in nodes
    requires nodes[IdAt(row, i + 2, Some(x), name)] == HomeId(row, i + 2, Some(x))
    ensures Cleared(row, Some(x), name, j)
  {
    assert VariableOrder(JsonOfNamespace(row, i).nodes)[j] == HomeId(row, i + 2, Some(x)) by {
      VariableOrderAt(row, i);
      ObjectHome(row, i + 2, x);
    }
    ClearedIff(row, i, Some(x), name, j + 1);
    NotAtItsOwnTurn(row, j, x, name);
  }

  lemma NotAtItsOwnTurn(row: NamespaceRow, j: nat, x: Row, name: string)
    requires ValidRows(row) && j < |row.variables| && x in row.objectNodes
    requires ParentRow(row.objectNodes, x) == Place(row, row.variables[j])
    requires Cleared(row, Some(x), name, j + 1)
    ensures Cleared(row, Some(x), name, j)
  {
    NoOwnParent(row, x);
    var k :| 0 <= k < j + 1 && Place(row, row.variables[k]) == Some(x) && row.variables[k].name == name;
    assert k != j;
  }

  lemma OrderedMeansChildless(nodes: Nodes, row: NamespaceRow, i: nat)
    requires ValidRows(row) && PlainRows(row) && i + 2 <= NodeId.MAX_NAMESPACE && Settled(nodes, row, i)
    requires ChildrenFirst(nodes, VariableOrder(JsonOfNamespace(row, i).nodes))
    ensures ChildlessInTurn(row)
  {
    var ns := i + 2;
    forall j, x | 0 <= j < |row.variables| && x in row.objectNodes
                  && ParentRow(row.objectNodes, x) == Place(row, row.variables[j]) && x.name == row.variables[j].name
      ensures ClearedBelow(row, x, j)
    {
      forall c | c in row.objectNodes && ParentRow(row.objectNodes, c) == Some(x)
        ensures Cleared(row, Some(x), c.name, j)
      {
        ObjectHome(row, ns, c);
        ChildWasCleared(nodes, row, i, j, x, c.name);
      }
      forall w | w in row.variables && Place(row, w) == Some(x) ensures Cleared(row, Some(x), w.name, j) {
        NotAtTop(row, ns, x);
        ChildWasCleared(nodes, row, i, j, x, w.name);
      }
    }
  }

  /** The node is a row's object, named and placed as the row says. */
  lemma ObjectNodeHasRow(nodes: Nodes, row: NamespaceRow, i: nat, m: ServerId) returns (c: Row)
    requires ValidRows(row) && PlainRows(row) && ObjectsPlaced(nodes, row, i + 2)
    requires m in ObjectIds(JsonOfNamespace(row, i).objectNodes, i + 2)
    ensures c in row.objectNodes && IsPlace(row, ParentRow(row.objectNodes, c)) && DOT !in c.name
    ensures m == IdAt(row, i + 2, ParentRow(row.objectNodes, c), c.name)
    ensures m in nodes && nodes[m] == HomeId(row, i + 2, ParentRow(row.objectNodes, c))
  {
    c := ObjectIdHasRow(row, i, m);
    ObjectHome(row, i + 2, c);
  }

  lemma VariableNodeHasRow(nodes: Nodes, row: NamespaceRow, i: nat, m: ServerId) returns (w: VariableRow)
    requires ValidRows(row) && PlainRows(row) && i + 2 <= NodeId.MAX_NAMESPACE && VariablesPlaced(nodes, row, i + 2)
    requires m in VariableIds(JsonOfNamespace(row, i).nodes, i + 2)
    ensures w in row.variables && IsPlace(row, Place(row, w)) && DOT !in w.name
    ensures m == IdAt(row, i + 2, Place(row, w), w.name)
    ensures m in nodes && Fit(nodes[m], HomeId(row, i + 2, Place(row, w)), Top(row, i + 2))
  {
    var j := VariableIdHasRow(row, i, m);
    w := row.variables[j];
    assert w in row.variables;
  }

  /** Something is named so in the object: a child object or a variable. */
  predicate NamedIn(row: NamespaceRow, x: Row, name: string) {
    || (exists c :: c in row.objectNodes && ParentRow(row.objectNodes, c) == Some(x) && c.name == name)
    || (exists w :: w in row.variables && Place(row, w) == Some(x) && w.name == name)
  }

  /** A child of an object, as the server sees it, is a child object or a variable in the rows. */
  lemma ChildHasName(nodes: Nodes, row: NamespaceRow, i: nat, m: ServerId, x: Row) returns (name: string)
    requires ValidRows(row) && PlainRows(row) && i + 2 <= NodeId.MAX_NAMESPACE
    requires ObjectsPlaced(nodes, row, i + 2) && VariablesPlaced(nodes, row, i + 2)
    requires m in NamespaceIds(JsonOfNamespace(row, i), i + 2) && m in nodes
    requires x in row.objectNodes && nodes[m] == HomeId(row, i + 2, Some(x))
    ensures DOT !in name && m == IdAt(row, i + 2, Some(x), name) && NamedIn(row, x, name)
  {
    var n, ns := JsonOfNamespace(row, i), i + 2;
    NotAtTop(row, ns, x);
    if m in ObjectIds(n.objectNodes, ns) {
      var c := ObjectNodeHasRow(nodes, row, i, m);
      PlacesDistinct(row, ParentRow(row.objectNodes, c), Some(x));
      name := c.name;
    } else {
      assert m != RootId(n, ns);
      var w := VariableNodeHasRow(nodes, row, i, m);
      PlacesDistinct(row, Place(row, w), Some(x));
      name := w.name;
    }
  }

  lemma NotAtTop(row: NamespaceRow, ns: nat, x: Row)
    requires ValidRows(row) && x in row.objectNodes
    ensures HomeId(row, ns, Some(x)) !in Top(row, ns)
  {
    ObjectHome(row, ns, x);
    IdIsNotRoot(row, ns, ParentRow(row.objectNodes, x), x.name);
  }

  /** An id with a name that has a child is the id of an object: variables have none. */
  lemma ParentIsObject(nodes: Nodes, row: NamespaceRow, i: nat, m: ServerId, p: Option<Row>, a: string) returns (x: Row)
    requires ValidRows(row) && PlainRows(row) && i + 2 <= NodeId.MAX_NAMESPACE
    requires ObjectsPlaced(nodes, row, i + 2) && VariablesPlaced(nodes, row, i + 2)
    requires m in NamespaceIds(JsonOfNamespace(row, i), i + 2) && m in nodes
    requires IsPlace(row, p) && nodes[m] == IdAt(row, i + 2, p, a)
    ensures x in row.objectNodes && HomeId(row, i + 2, Some(x)) == IdAt(row, i + 2, p, a)
  {
    var n, ns := JsonOfNamespace(row, i), i + 2;
    IdIsNotRoot(row, ns, p, a);
    assert nodes[m] !in Top(row, ns);
    var q: Option<Row>;
    if m in ObjectIds(n.objectNodes, ns) {
      var c := ObjectNodeHasRow(nodes, row, i, m);
      q := ParentRow(row.objectNodes, c);
    } else {
      assert m != RootId(n, ns);
      var w := VariableNodeHasRow(nodes, row, i, m);
      q := Place(row, w);
    }
    assert q != None;
    x := q.value;
  }

  lemma ChildlessMeansOrdered(nodes: Nodes, row: NamespaceRow, i: nat)
    requires ValidRows(row) && PlainRows(row) && i + 2 <= NodeId.MAX_NAMESPACE && Settled(nodes, row, i)
    requires ChildlessInTurn(row)
    ensures ChildrenFirst(nodes, VariableOrder(JsonOfNamespace(row, i).nodes))
  {
    var n, ns := JsonOfNamespace(row, i), i + 2;
    var ids := VariableOrder(n.nodes);
    VariableOrderAt(row, i);
    forall j, m | 0 <= j < |ids| && ids[j] in nodes && m in nodes && nodes[m] == ids[j]
      ensures m in ids[..j + 1]
    {
      var v := row.variables[j];
      assert m in NamespaceIds(n, ns) by {
        VariableHome(row, ns, v);
        VariableIdIn(n.nodes, ns, j);
      }
      ChildCleared(nodes, row, i, j, m);
      assert ids[..j] <= ids[..j + 1];
    }
  }

  lemma ChildCleared(nodes: Nodes, row: NamespaceRow, i: nat, j: nat, m: ServerId)
    requires ValidRows(row) && PlainRows(row) && i + 2 <= NodeId.MAX_NAMESPACE && ChildlessInTurn(row)
    requires ObjectsPlaced(nodes, row, i + 2) && VariablesPlaced(nodes, row, i + 2)
    requires j < |row.variables| && m in nodes && m in NamespaceIds(JsonOfNamespace(row, i), i + 2)
    requires IsPlace(row, Place(row, row.variables[j]))
    requires nodes[m] == IdAt(row, i + 2, Place(row, row.variables[j]), row.variables[j].name)
    ensures |VariableOrder(JsonOfNamespace(row, i).nodes)| == |row.variables|
    ensures m in VariableOrder(JsonOfNamespace(row, i).nodes)[..j]
  {
    var v := row.variables[j];
    var x := ParentIsObject(nodes, row, i, m, Place(row, v), v.name);
    IdOfObject(row, i + 2, Place(row, v), v.name, x);
    var name := ChildHasName(nodes, row, i, m, x);
    assert ClearedBelow(row, x, j);
    ClearedIff(row, i, Some(x), name, j);
  }

  /** Clearing a settled namespace strands no child if and only if its clashing variables find their objects empty. */
  lemma NamespaceStrandsNoneIff(s: Server, row: NamespaceRow, i: nat)
    requires ValidRows(row) && PlainRows(row) && i + 2 <= NodeId.MAX_NAMESPACE
    requires row.uri in s.uris && IndexOfUri(s.uris, row.uri) == i + 2
    requires Settled(s.nodes, row, i)
    ensures var r := ClearNamespace(s, JsonOfNamespace(row, i));
      r.stranded >= s.stranded && (r.stranded == s.stranded <==> ChildlessInTurn(row))
  {
    NamespaceStrandsIff(s, row, i);
    if ChildlessInTurn(row) {
      ChildlessMeansOrdered(s.nodes, row, i);
    }
    if ChildrenFirst(s.nodes, VariableOrder(JsonOfNamespace(row, i).nodes)) {
      OrderedMeansChildless(s.nodes, row, i);
    }
  }

  // ---------------------------------------------------------------- all namespaces

  ghost predicate AllPlain(rows: seq<NamespaceRow>) {
    forall row | row in rows :: PlainRows(row)
  }

  /** Being settled depends on the namespace's own ids and on what hangs below them. */
  lemma SettledFrame(nodes: Nodes, nodes': Nodes, row: NamespaceRow, i: nat)
    requires ValidRows(row) && i + 2 <= NodeId.MAX_NAMESPACE && Settled(nodes, row, i)
    requires var ids := NamespaceIds(JsonOfNamespace(row, i), i + 2);
      && (forall m | m in ids && m in nodes :: m in nodes' && nodes'[m] == nodes[m])
      && (forall m | m in nodes' && nodes'[m] in ids :: m in nodes && nodes[m] == nodes'[m])
    ensures Settled(nodes', row, i)
  {
    var n, ns := JsonOfNamespace(row, i), i + 2;
    TreesAreFull(ForestOf(row.objectNodes, row.name));
    HungFrame(nodes, nodes', n, ns);
    forall x | x in row.objectNodes ensures HomeId(row, ns, Some(x)) in NamespaceIds(n, ns) {
      ObjectIdIn(row, i, x);
    }
    forall j | 0 <= j < |row.variables|
      ensures IdAt(row, ns, Place(row, row.variables[j]), row.variables[j].name) in NamespaceIds(n, ns)
    {
      VariableHome(row, ns, row.variables[j]);
      VariableIdIn(n.nodes, ns, j);
    }
  }

  lemma ObjectIdIn(row: NamespaceRow, i: nat, x: Row)
    requires ValidRows(row) && x in row.objectNodes
    ensures HomeId(row, i + 2, Some(x)) in ObjectIds(JsonOfNamespace(row, i).objectNodes, i + 2)
  {
    var rows := row.objectNodes;
    FindRow(rows, x);
    RefPathInForest(rows, row.name, Some(x.id));
    PathIsLonger(rows, row.name, RankOf(rows), x);
    PathIsBuilt(ForestOf(rows, row.name), PathOf(rows, row.name, RankOf(rows), x), i + 2);
  }

  /** Every node is as before, or new: below the root folder or in namespace `ns` or later. */
  ghost predicate GrewAbove(nodes: Nodes, nodes': Nodes, ns: nat) {
    && (forall m | m in nodes :: m in nodes' && nodes'[m] == nodes[m])
    && (forall m | m in nodes' && m !in nodes :: nodes'[m] == OBJECTS_FOLDER || !IdBelow(nodes'[m], ns))
  }

  /** What there was stays; what is new lies in namespace `ns`, below the root folder or that namespace. */
  ghost predicate Extends(nodes: Nodes, nodes': Nodes, ns: nat) {
    && (forall m | m in nodes :: m in nodes' && nodes'[m] == nodes[m])
    && (forall m | m in nodes' && m !in nodes ::
         m.Str? && m.ns == ns && (nodes'[m] == OBJECTS_FOLDER || (nodes'[m].Str? && nodes'[m].ns == ns)))
  }

  lemma ExtendedIsBelow(nodes: Nodes, nodes': Nodes, ns: nat)
    requires Extends(nodes, nodes', ns) && Below(nodes, ns) && OBJECTS_FOLDER in nodes
    ensures OBJECTS_FOLDER in nodes' && Below(nodes', ns + 1) && GrewAbove(nodes, nodes', ns)
  {
    assert IdBelow(OBJECTS_FOLDER, ns + 1);
  }

  lemma GrewTwice(nodes: Nodes, nodes': Nodes, nodes'': Nodes, ns: nat)
    requires GrewAbove(nodes, nodes', ns) && GrewAbove(nodes', nodes'', ns + 1)
    ensures GrewAbove(nodes, nodes'', ns)
  {
  }

  /** Later namespaces do not disturb an earlier one. */
  lemma MoreAreSettled(nodes: Nodes, nodes': Nodes, row: NamespaceRow, j: nat)
    requires ValidRows(row) && j + 2 <= NodeId.MAX_NAMESPACE && Settled(nodes, row, j)
    requires GrewAbove(nodes, nodes', j + 3)
    ensures Settled(nodes', row, j)
  {
    IdsAreStrings(JsonOfNamespace(row, j), j + 2);
    SettledFrame(nodes, nodes', row, j);
  }

  /** Nor does deleting nodes of earlier ones. */
  lemma FewerAreSettled(nodes: Nodes, gone: set<ServerId>, row: NamespaceRow, j: nat)
    requires ValidRows(row) && j + 2 <= NodeId.MAX_NAMESPACE && Settled(nodes, row, j)
    requires forall id | id in gone :: id.Str? && id.ns < j + 2
    ensures Settled(nodes - gone, row, j)
  {
    IdsAreStrings(JsonOfNamespace(row, j), j + 2);
    SettledFrame(nodes, nodes - gone, row, j);
  }

  /** The namespaces from the i-th on are settled. */
  ghost predicate AllSettled(nodes: Nodes, rows: seq<NamespaceRow>, i: nat)
    requires AllValid(rows) && i <= |rows|
    decreases |rows| - i
  {
    i < |rows| ==> Settled(nodes, rows[i], i) && AllSettled(nodes, rows, i + 1)
  }

  lemma {:induction false} LaterStaySettled(nodes: Nodes, gone: set<ServerId>, rows: seq<NamespaceRow>, i: nat)
    requires AllValid(rows) && i <= |rows| && |rows| + 1 <= NodeId.MAX_NAMESPACE && AllSettled(nodes, rows, i)
    requires forall id | id in gone :: id.Str? && id.ns < i + 2
    ensures AllSettled(nodes - gone, rows, i)
    decreases |rows| - i
  {
    if i < |rows| {
      FewerAreSettled(nodes, gone, rows[i], i);
      LaterStaySettled(nodes, gone, rows, i + 1);
    }
  }

  /** The server has the first `i` namespaces and no id of a later one. */
  ghost predicate Ready(s: Server, rows: seq<NamespaceRow>, base: seq<string>, i: nat)
    requires i <= |rows|
  {
    OBJECTS_FOLDER in s.nodes && Below(s.nodes, i + 2) && s.uris == base + Uris(rows)[..i]
  }

  /** One more namespace: the server keeps everything it had, and grows below the new index only. */
  lemma BuildOneSettles(s: Server, rows: seq<NamespaceRow>, base: seq<string>, i: nat)
    requires Fits(rows, base) && AllPlain(rows) && i < |rows| && Ready(s, rows, base, i)
    ensures var t := BuildNamespace(s, JsonOfNamespace(rows[i], i));
      Ready(t, rows, base, i + 1) && Settled(t.nodes, rows[i], i) && GrewAbove(s.nodes, t.nodes, i + 2)
  {
    var t := BuildNamespace(s, JsonOfNamespace(rows[i], i));
    RegisteredIndex(s, rows, base, i);
    IdsAreStrings(JsonOfNamespace(rows[i], i), i + 2);
    BuildSettles(s, rows[i], i);
    BuildNamespaceGrows(s, rows[i], i);
    ExtendedIsBelow(s.nodes, t.nodes, i + 2);
  }

  lemma {:induction false} BuildSettlesAll(s: Server, rows: seq<NamespaceRow>, base: seq<string>, i: nat)
    requires Fits(rows, base) && AllPlain(rows) && i <= |rows| && Ready(s, rows, base, i)
    ensures var r := Build(s, JsonOf(rows)[i..]);
      AllSettled(r.nodes, rows, i) && GrewAbove(s.nodes, r.nodes, i + 2)
    decreases |rows| - i
  {
    if i < |rows| {
      var t := BuildNamespace(s, JsonOfNamespace(rows[i], i));
      BuildOneSettles(s, rows, base, i);
      BuildSettlesAll(t, rows, base, i + 1);
      var r := Build(t, JsonOf(rows)[i + 1..]);
      MoreAreSettled(t.nodes, r.nodes, rows[i], i);
      GrewTwice(s.nodes, t.nodes, r.nodes, i + 2);
      JsonAt(rows, i);
    }
  }

  lemma {:induction false} ClearSettledAll(s: Server, rows: seq<NamespaceRow>, base: seq<string>, i: nat)
    requires Fits(rows, base) && AllPlain(rows) && i <= |rows| && s.uris == base + Uris(rows)
    requires AllSettled(s.nodes, rows, i)
    ensures var r := Clear(s, JsonOf(rows)[i..]);
      && r.stranded >= s.stranded
      && (r.stranded == s.stranded <==> forall j | i <= j < |rows| :: ChildlessInTurn(rows[j]))
    decreases |rows| - i
  {
    if i < |rows| {
      JsonAt(rows, i);
      FoundIndex(rows, base, i);
      NamespaceStrandsNoneIff(s, rows[i], i);
      ClearNamespaceRemoves(s, rows[i], i);
      var t := ClearNamespace(s, JsonOfNamespace(rows[i], i));
      IdsAreStrings(JsonOfNamespace(rows[i], i), i + 2);
      LaterStaySettled(s.nodes, NamespaceIds(JsonOfNamespace(rows[i], i), i + 2), rows, i + 1);
      ClearSettledAll(t, rows, base, i + 1);
    }
  }

  /**
   * After a build on a fresh server, clearing the same configuration deletes every object
   * after all its descendants if and only if, in every namespace, each variable that has
   * the place and name of an object finds that object empty when its turn comes.
   */
  lemma ClearAfterBuildStrandsNoneIff(s: Server, rows: seq<NamespaceRow>)
    requires Fits(rows, s.uris) && AllPlain(rows)
    requires OBJECTS_FOLDER in s.nodes && Below(s.nodes, 2)
    ensures Clear(Build(s, JsonOf(rows)), JsonOf(rows)).stranded == s.stranded <==>
      forall row | row in rows :: ChildlessInTurn(row)
  {
    var config := JsonOf(rows);
    assert config[0..] == config;
    assert s.uris + Uris(rows)[..0] == s.uris;
    BuildSettlesAll(s, rows, s.uris, 0);
    BuildAdds(s, rows, s.uris, 0);
    ClearSettledAll(Build(s, config), rows, s.uris, 0);
  }

  /** So when no variable is named like an object beside it, no node is stranded. */
  lemma NoClashStrandsNone(s: Server, rows: seq<NamespaceRow>)
    requires Fits(rows, s.uris) && AllPlain(rows) && forall row | row in rows :: NoClash(row)
    requires OBJECTS_FOLDER in s.nodes && Below(s.nodes, 2)
    ensures Clear(Build(s, JsonOf(rows)), JsonOf(rows)).stranded == s.stranded
  {
    forall row | row in rows ensures ChildlessInTurn(row) {
    }
    ClearAfterBuildStrandsNoneIff(s, rows);
  }

  // ---------------------------------------------------------------- two clashes

  const OBJECT_A := Row("a", "n", None, "A")
  const OBJECT_B := Row("b", "n", Some("a"), "B")
  /** A variable A beside the object A: both get the id "N.A". */
  const BESIDE_A := VariableRow("v", None, "A", "Double")

  /** The object A holds the object B. */
  const FULL_CLASH := NamespaceRow("N", "urn:n", [OBJECT_A, OBJECT_B], [BESIDE_A])
  /** The object A holds nothing. */
  const EMPTY_CLASH := NamespaceRow("N", "urn:n", [OBJECT_A], [BESIDE_A])

  lemma ClashesAreValid()
    ensures ValidRows(FULL_CLASH) && PlainRows(FULL_CLASH) && ValidRows(EMPTY_CLASH) && PlainRows(EMPTY_CLASH)
    ensures ParentRow(FULL_CLASH.objectNodes, OBJECT_A) == None
    ensures ParentRow(FULL_CLASH.objectNodes, OBJECT_B) == Some(OBJECT_A)
  {
    var rows := FULL_CLASH.objectNodes;
    assert rows[0] == OBJECT_A && rows[1] == OBJECT_B;
    assert Find(rows, "a") == Some(OBJECT_A);
    assert Ranked(rows, Rank(map["a" := 0, "b" := 1], 2));
    assert Ranked(EMPTY_CLASH.objectNodes, Rank(map["a" := 0], 1));
  }

  /** Clearing the first deletes object A, as the variable, while B still hangs below it. */
  lemma ClashStrandsChild(s: Server)
    requires |s.uris| == 2 && "urn:n" !in s.uris && OBJECTS_FOLDER in s.nodes && Below(s.nodes, 2)
    ensures ValidRows(FULL_CLASH) && Clear(Build(s, JsonOf([FULL_CLASH])), JsonOf([FULL_CLASH])).stranded != s.stranded
  {
    ClashesAreValid();
    ClearAfterBuildStrandsNoneIff(s, [FULL_CLASH]);
    var row := FULL_CLASH;
    assert row.objectNodes[0] == OBJECT_A && row.objectNodes[1] == OBJECT_B && row.variables[0] == BESIDE_A;
    assert !Cleared(row, Some(OBJECT_A), "B", 0);
    assert !ClearedBelow(row, OBJECT_A, 0);
    assert row in [FULL_CLASH];
  }

  /** The second clash is harmless. */
  lemma EmptyClashStrandsNone(s: Server)
    requires |s.uris| == 2 && "urn:n" !in s.uris && OBJECTS_FOLDER in s.nodes && Below(s.nodes, 2)
    ensures !NoClash(EMPTY_CLASH)
    ensures ValidRows(EMPTY_CLASH)
    ensures Clear(Build(s, JsonOf([EMPTY_CLASH])), JsonOf([EMPTY_CLASH])).stranded == s.stranded
  {
    ClashesAreValid();
    ClearAfterBuildStrandsNoneIff(s, [EMPTY_CLASH]);
    var row := EMPTY_CLASH;
    assert row.objectNodes[0] == OBJECT_A && row.variables[0] == BESIDE_A;
    assert ParentRow(row.objectNodes, OBJECT_A) == Place(row, BESIDE_A);
  }
}
