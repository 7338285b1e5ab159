/**
 * When a variable of a generated configuration gets a node of its own: an add under an id
 * that an object or an earlier variable has taken makes nothing, and the NodeId of the
 * variable then names the other node.
 */
module OwnNodes {
  import opened Options
  import opened ObjectForest
  import opened GeneratedConfig
  import opened AddressSpace
  import opened AddressSpaceProofs
  import opened ClearOrder
  import opened UnambiguousNames
  import opened Reload
  import ClearAfterBuild
  import NodeId

  // ---------------------------------------------------------------- the turn of a variable

  /** The configuration up to, and without, the k-th variable of the i-th namespace. */
  function CutBefore(rows: seq<NamespaceRow>, i: nat, k: nat): seq<NamespaceRow>
    requires i < |rows| && k <= |rows[i].variables|
  {
    rows[..i] + [rows[i].(variables := rows[i].variables[..k])]
  }

  lemma CutIsValid(rows: seq<NamespaceRow>, i: nat, k: nat)
    requires AllValid(rows) && i < |rows| && k <= |rows[i].variables|
    ensures AllValid(CutBefore(rows, i, k))
  {
    var cut := CutBefore(rows, i, k);
    forall row | row in cut ensures ValidRows(row) {
      var j :| 0 <= j < |cut| && cut[j] == row;
      assert rows[j] in rows && row.objectNodes == rows[j].objectNodes;
    }
  }

  /** The server when the build comes to that variable. */
  ghost function AtTurn(s: Server, rows: seq<NamespaceRow>, i: nat, k: nat): Server
    requires AllValid(rows) && i < |rows| && k <= |rows[i].variables|
  {
    CutIsValid(rows, i, k);
    Build(s, JsonOf(CutBefore(rows, i, k)))
  }

  lemma {:induction false} BuildAppend(s: Server, a: seq<JsonNamespace>, b: seq<JsonNamespace>)
    ensures Build(s, a + b) == Build(Build(s, a), b)
    decreases |a|
  {
    if a == [] {
      assert a + b == b;
    } else {
      assert (a + b)[0] == a[0] && (a + b)[1..] == a[1..] + b;
      BuildAppend(BuildNamespace(s, a[0]), a[1..], b);
    }
  }

  lemma {:induction false} BuildVariablesLast(s: Server, vs: seq<JsonVariable>, v: JsonVariable, ns: nat)
    ensures BuildVariables(s, vs + [v], ns) == BuildVariable(BuildVariables(s, vs, ns), v, ns)
    decreases |vs|
  {
    if vs == [] {
      assert vs + [v] == [v] && [v][1..] == [];
    } else {
      assert (vs + [v])[0] == vs[0] && (vs + [v])[1..] == vs[1..] + [v];
      BuildVariablesLast(BuildVariable(s, vs[0], ns), vs[1..], v, ns);
    }
  }

  /** The JSON of a cut namespace is the JSON of the namespace, cut. */
  lemma JsonOfCut(row: NamespaceRow, i: nat, k: nat)
    requires ValidRows(row) && k <= |row.variables|
    ensures var cut := row.(variables := row.variables[..k]);
      ValidRows(cut) && JsonOfNamespace(cut, i) == JsonOfNamespace(row, i).(nodes := JsonOfNamespace(row, i).nodes[..k])
  {
    var cut := row.(variables := row.variables[..k]);
    var a, b := JsonOfNamespace(cut, i).nodes, JsonOfNamespace(row, i).nodes[..k];
    assert |a| == |b| && forall j | 0 <= j < k :: a[j] == b[j];
  }

  lemma NamespaceStep(s: Server, n: JsonNamespace, k: nat)
    requires n.uri.Some? && k < |n.nodes|
    ensures var ns := IndexOfUri(AddNamespace(s, n.uri.value).uris, n.uri.value);
      BuildNamespace(s, n.(nodes := n.nodes[..k + 1]))
      == BuildVariable(BuildNamespace(s, n.(nodes := n.nodes[..k])), n.nodes[k], ns)
  {
    var t := AddNamespace(s, n.uri.value);
    var ns := IndexOfUri(t.uris, n.uri.value);
    var rooted := if n.name.Some? then AddNode(t, Str(ns, n.name.value), OBJECTS_FOLDER) else t;
    var root := if n.name.Some? then Str(ns, n.name.value) else OBJECTS_FOLDER;
    assert n.nodes[..k + 1] == n.nodes[..k] + [n.nodes[k]];
    BuildVariablesLast(BuildObjects(rooted, n.objectNodes, root, ns), n.nodes[..k], n.nodes[k], ns);
  }

  /** The build of the namespaces before the i-th. */
  ghost function Before(s: Server, rows: seq<NamespaceRow>, i: nat): Server
    requires AllValid(rows) && i < |rows|
  {
    Build(s, JsonOf(rows)[..i])
  }

  /** What a turn starts from: the namespaces before, and the namespace cut there. */
  lemma TurnIs(s: Server, rows: seq<NamespaceRow>, i: nat, k: nat)
    requires AllValid(rows) && i < |rows| && k <= |rows[i].variables|
    ensures var n := JsonOfNamespace(rows[i], i);
      AtTurn(s, rows, i, k) == BuildNamespace(Before(s, rows, i), n.(nodes := n.nodes[..k]))
  {
    CutIsValid(rows, i, k);
    JsonOfCut(rows[i], i, k);
    var n := JsonOfNamespace(rows[i], i);
    var last := n.(nodes := n.nodes[..k]);
    assert JsonOf(CutBefore(rows, i, k)) == JsonOf(rows)[..i] + [last];
    BuildAppend(s, JsonOf(rows)[..i], [last]);
    assert [last][1..] == [];
  }

  lemma FolderBefore(s: Server, rows: seq<NamespaceRow>, i: nat)
    requires AllValid(rows) && i < |rows| && OBJECTS_FOLDER in s.nodes
    ensures OBJECTS_FOLDER in Before(s, rows, i).nodes
  {
    assert AllValid(rows[..i]) && JsonOf(rows)[..i] == JsonOf(rows[..i]);
    BuildAddsAll(s, rows[..i]);
  }

  /** No turn of the namespace changes the namespace table. */
  lemma TurnUris(s: Server, rows: seq<NamespaceRow>, i: nat, k: nat)
    requires AllValid(rows) && i < |rows| && k <= |rows[i].variables| && OBJECTS_FOLDER in s.nodes
    ensures var t := AtTurn(s, rows, i, k);
      rows[i].uri in t.uris && t.uris == AddNamespace(Before(s, rows, i), rows[i].uri).uris && OBJECTS_FOLDER in t.nodes
  {
    TurnIs(s, rows, i, k);
    FolderBefore(s, rows, i);
    JsonOfCut(rows[i], i, k);
    BuildNamespaceGrows(Before(s, rows, i), rows[i].(variables := rows[i].variables[..k]), i);
  }

  /** Each variable is added to the server that its turn starts from. */
  lemma TurnAdds(s: Server, rows: seq<NamespaceRow>, i: nat, k: nat)
    requires AllValid(rows) && i < |rows| && k < |rows[i].variables| && OBJECTS_FOLDER in s.nodes
    ensures var t := AtTurn(s, rows, i, k);
      AtTurn(s, rows, i, k + 1)
      == BuildVariable(t, JsonOfVariable(rows[i], i + 2, rows[i].variables[k]), IndexOfUri(t.uris, rows[i].uri))
  {
    TurnIs(s, rows, i, k);
    TurnIs(s, rows, i, k + 1);
    TurnUris(s, rows, i, k);
    NamespaceStep(Before(s, rows, i), JsonOfNamespace(rows[i], i), k);
  }

  lemma BuildSplit(s: Server, config: seq<JsonNamespace>, i: nat)
    requires i < |config|
    ensures Build(s, config) == Build(BuildNamespace(Build(s, config[..i]), config[i]), config[i + 1..])
  {
    assert config == config[..i] + config[i..] && config[i..][1..] == config[i + 1..];
    BuildAppend(s, config[..i], config[i..]);
  }

  lemma LastTurn(s: Server, rows: seq<NamespaceRow>, i: nat)
    requires AllValid(rows) && i < |rows|
    ensures AtTurn(s, rows, i, |rows[i].variables|) == BuildNamespace(Before(s, rows, i), JsonOfNamespace(rows[i], i))
  {
    var n := JsonOfNamespace(rows[i], i);
    TurnIs(s, rows, i, |rows[i].variables|);
    assert n.nodes[..|n.nodes|] == n.nodes;
  }

  /** The build goes on from the last turn of a namespace. */
  lemma TurnsEnd(s: Server, rows: seq<NamespaceRow>, i: nat)
    requires AllValid(rows) && i < |rows|
    ensures Build(s, JsonOf(rows)) == Build(AtTurn(s, rows, i, |rows[i].variables|), JsonOf(rows)[i + 1..])
  {
    LastTurn(s, rows, i);
    BuildSplit(s, JsonOf(rows), i);
  }

  /** The index of the namespace does not change any more, and the variable's id stays. */
  lemma IndexAtTurn(s: Server, rows: seq<NamespaceRow>, i: nat, k: nat)
    requires AllValid(rows) && i < |rows| && k <= |rows[i].variables| && OBJECTS_FOLDER in s.nodes
    ensures IndexOfUri(AtTurn(s, rows, i, k).uris, rows[i].uri) == IndexOfUri(Build(s, JsonOf(rows)).uris, rows[i].uri)
  {
    var last := AtTurn(s, rows, i, |rows[i].variables|);
    TurnUris(s, rows, i, k);
    TurnUris(s, rows, i, |rows[i].variables|);
    TurnsEnd(s, rows, i);
    BuildAddsAt(last, rows, i + 1);
    IndexStays(last.uris, Build(s, JsonOf(rows)).uris, rows[i].uri);
  }

  // ---------------------------------------------------------------- which ids are taken

  /** For any names: no object has the variable's id, nor has an earlier variable. */
  ghost predicate Apart(row: NamespaceRow, k: nat)
    requires ValidRows(row) && k < |row.variables|
  {
    var id := Identifier(row, row.variables[k]);
    && (forall x | x in row.objectNodes :: PathOfPlace(row, Some(x)) != id)
    && (forall l | 0 <= l < k :: Identifier(row, row.variables[l]) != id)
  }

  lemma ObjectIdsAre(row: NamespaceRow, i: nat, ns: nat, path: string)
    requires ValidRows(row)
    ensures Str(ns, path) in ObjectIds(JsonOfNamespace(row, i).objectNodes, ns)
      <==> exists x :: x in row.objectNodes && PathOfPlace(row, Some(x)) == path
  {
    var rows, k := row.objectNodes, RankOf(row.objectNodes);
    var forest := ForestOf(rows, row.name);
    if Str(ns, path) in ObjectIds(JsonOfTrees(forest), ns) {
      var x := IdHasRow(rows, row.name, k, RootRows(rows, rows), path, ns, 0);
      assert PathOfPlace(row, Some(x)) == path;
    }
    if x :| x in rows && PathOfPlace(row, Some(x)) == path {
      FindRow(rows, x);
      RefPathInForest(rows, row.name, Some(x.id));
      PathIsLonger(rows, row.name, k, x);
      PathIsBuilt(forest, path, ns);
    }
  }

  /** A variable's id is never that of its namespace's own object. */
  lemma NotTheRoot(row: NamespaceRow, v: VariableRow)
    requires ValidRows(row)
    ensures Identifier(row, v) != row.name
  {
    VariableHome(row, 0, v);
    IdIsNotRoot(row, 0, Place(row, v), v.name);
  }

  lemma EarlierIdsAre(row: NamespaceRow, i: nat, ns: nat, k: nat, id: string)
    requires ValidRows(row) && k <= |row.variables| && i + 2 <= NodeId.MAX_NAMESPACE
    ensures Str(ns, id) in VariableIds(JsonOfNamespace(row, i).nodes[..k], ns)
      <==> exists l :: 0 <= l < k && Identifier(row, row.variables[l]) == id
  {
    var vs := JsonOfNamespace(row, i).nodes[..k];
    forall l | 0 <= l < k
      ensures VariableId(vs[l], ns) == Str(ns, Identifier(row, row.variables[l])) && Creatable(vs[l])
    {
      VariableIdAt(row, i + 2, ns, row.variables[l]);
    }
    if Str(ns, id) in VariableIds(vs, ns) {
      VariableIdsAre(vs, ns, Str(ns, id));
      var l :| 0 <= l < k && VariableId(vs[l], ns) == Str(ns, id);
      assert Identifier(row, row.variables[l]) == id;
    }
    if l: nat :| l < k && Identifier(row, row.variables[l]) == id {
      VariableIdIn(vs, ns, l);
    }
  }

  /** The namespace cut before a variable has the variable's id exactly if the variable is not apart. */
  lemma CutHasIdIff(row: NamespaceRow, i: nat, ns: nat, k: nat)
    requires ValidRows(row) && k < |row.variables| && i + 2 <= NodeId.MAX_NAMESPACE
    ensures var n := JsonOfNamespace(row, i);
      Str(ns, Identifier(row, row.variables[k])) in NamespaceIds(n.(nodes := n.nodes[..k]), ns) <==> !Apart(row, k)
  {
    var id := Identifier(row, row.variables[k]);
    ObjectIdsAre(row, i, ns, id);
    EarlierIdsAre(row, i, ns, k, id);
    NotTheRoot(row, row.variables[k]);
  }

  /** UNIQUE(uri). */
  predicate UniqueUris(rows: seq<NamespaceRow>) {
    forall i, j | 0 <= i < j < |rows| :: rows[i].uri != rows[j].uri
  }

  lemma BuiltAtIndex(rows: seq<NamespaceRow>, j: nat, uris: seq<string>, id: ServerId)
    requires AllValid(rows) && j < |rows| && id in BuiltAt(rows, j, uris)
    ensures id.Str? && id.ns == IndexOfUri(uris, rows[j].uri)
  {
    IdsAreStrings(JsonOfNamespace(rows[j], j), IndexOfUri(uris, rows[j].uri));
  }

  /** Namespaces of different URIs have different ids. */
  lemma NotAtOther(rows: seq<NamespaceRow>, j: nat, uris: seq<string>, uri: string, id: ServerId)
    requires AllValid(rows) && j < |rows| && rows[j].uri != uri && uri in uris
    requires id.Str? && id.ns == IndexOfUri(uris, uri)
    ensures id !in BuiltAt(rows, j, uris)
  {
    if id in BuiltAt(rows, j, uris) {
      BuiltAtIndex(rows, j, uris, id);
    }
  }

  lemma UnionOnlyAt<T>(sets: seq<set<T>>, k: nat, x: T)
    requires k < |sets| && forall j | 0 <= j < |sets| && j != k :: x !in sets[j]
    ensures x in UnionFrom(sets, 0) <==> x in sets[k]
  {
    InUnion(sets, 0, k);
    if x in UnionFrom(sets, 0) {
      UnionOf(sets, 0, x);
    }
  }

  /** In a build, the ids at the index of its last namespace are those of that namespace. */
  lemma IdsOfLast(rows: seq<NamespaceRow>, uris: seq<string>, id: ServerId)
    requires AllValid(rows) && UniqueUris(rows) && rows != [] && rows[|rows| - 1].uri in uris
    requires id.Str? && id.ns == IndexOfUri(uris, rows[|rows| - 1].uri)
    ensures id in BuiltIds(rows, uris) <==> id in BuiltAt(rows, |rows| - 1, uris)
  {
    var sets, last := BuiltSets(rows, uris), |rows| - 1;
    forall j | 0 <= j < |sets| && j != last ensures id !in sets[j] {
      NotAtOther(rows, j, uris, rows[last].uri, id);
    }
    UnionOnlyAt(sets, last, id);
  }

  /** When a variable's turn comes, its id is taken exactly if it was before the build or the variable is not apart. */
  lemma TakenAtTurnIff(s: Server, rows: seq<NamespaceRow>, i: nat, k: nat)
    requires Printable(rows) && UniqueUris(rows) && OBJECTS_FOLDER in s.nodes && i < |rows| && k < |rows[i].variables|
    ensures var t := AtTurn(s, rows, i, k);
      var id := Str(IndexOfUri(t.uris, rows[i].uri), Identifier(rows[i], rows[i].variables[k]));
      id in t.nodes <==> id in s.nodes || !Apart(rows[i], k)
  {
    var t, cut := AtTurn(s, rows, i, k), CutBefore(rows, i, k);
    var ns := IndexOfUri(t.uris, rows[i].uri);
    CutIsValid(rows, i, k);
    TurnUris(s, rows, i, k);
    BuildAddsAll(s, cut);
    IdsOfLast(cut, t.uris, Str(ns, Identifier(rows[i], rows[i].variables[k])));
    JsonOfCut(rows[i], i, k);
    CutHasIdIff(rows[i], i, ns, k);
  }

  // ---------------------------------------------------------------- a node of its own

  /** The add of the variable makes the node of its id: there was none, and then there is. */
  ghost predicate Makes(s: Server, rows: seq<NamespaceRow>, i: nat, k: nat)
    requires AllValid(rows) && i < |rows| && k < |rows[i].variables|
  {
    var id := NodeOf(Build(s, JsonOf(rows)), rows[i], i, rows[i].variables[k]);
    id !in AtTurn(s, rows, i, k).nodes && id in AtTurn(s, rows, i, k + 1).nodes
  }

  /** On any server a variable gets a node of its own if and only if its id is new and the variable is apart. */
  lemma MakesIff(s: Server, rows: seq<NamespaceRow>, i: nat, k: nat)
    requires Printable(rows) && UniqueUris(rows) && OBJECTS_FOLDER in s.nodes && i < |rows| && k < |rows[i].variables|
    ensures Makes(s, rows, i, k) <==>
      && NodeOf(Build(s, JsonOf(rows)), rows[i], i, rows[i].variables[k]) !in s.nodes
      && Apart(rows[i], k)
  {
    var t, v := AtTurn(s, rows, i, k), rows[i].variables[k];
    IndexAtTurn(s, rows, i, k);
    VariableIdAt(rows[i], i + 2, IndexOfUri(t.uris, rows[i].uri), v);
    TakenAtTurnIff(s, rows, i, k);
    MadeOrTaken(s, rows, i, k);
  }

  /** After its turn the id is there in any case. */
  lemma MadeOrTaken(s: Server, rows: seq<NamespaceRow>, i: nat, k: nat)
    requires Printable(rows) && OBJECTS_FOLDER in s.nodes && i < |rows| && k < |rows[i].variables|
    ensures NodeOf(Build(s, JsonOf(rows)), rows[i], i, rows[i].variables[k]) in AtTurn(s, rows, i, k + 1).nodes
  {
    var v, t := rows[i].variables[k], AtTurn(s, rows, i, k + 1);
    CutIsValid(rows, i, k + 1);
    IndexAtTurn(s, rows, i, k + 1);
    var cut := CutBefore(rows, i, k + 1);
    assert cut[i].variables[k] == v && v in cut[i].variables;
    NodeIsBuilt(s, cut, i, v);
    assert NodeOf(t, cut[i], i, v) == NodeOf(t, rows[i], i, v);
  }

  /** A variable that gets no node of its own leaves the server as it is: its add is refused. */
  lemma RefusedIff(s: Server, rows: seq<NamespaceRow>, i: nat, k: nat)
    requires Printable(rows) && OBJECTS_FOLDER in s.nodes && i < |rows| && k < |rows[i].variables|
    ensures AtTurn(s, rows, i, k + 1) == AtTurn(s, rows, i, k) <==> !Makes(s, rows, i, k)
  {
    var t, v := AtTurn(s, rows, i, k), rows[i].variables[k];
    TurnAdds(s, rows, i, k);
    IndexAtTurn(s, rows, i, k);
    MadeOrTaken(s, rows, i, k);
    TurnHasNoOrphans(s, rows, i, k);
    TurnHasNoOrphans(s, rows, i, k + 1);
  }

  lemma TurnHasNoOrphans(s: Server, rows: seq<NamespaceRow>, i: nat, k: nat)
    requires AllValid(rows) && OBJECTS_FOLDER in s.nodes && i < |rows| && k <= |rows[i].variables|
    ensures AtTurn(s, rows, i, k).orphans == s.orphans
  {
    var cut := CutBefore(rows, i, k);
    CutIsValid(rows, i, k);
    assert JsonOf(cut)[0..] == JsonOf(cut);
    BuildHasNoOrphans(s, cut, 0);
  }

  /** The runtime finds the variable's own node under its NodeId. */
  ghost predicate ReachesOwn(s: Server, rows: seq<NamespaceRow>, i: nat, k: nat)
    requires Printable(rows) && i < |rows| && k < |rows[i].variables|
  {
    && Makes(s, rows, i, k)
    && Named(rows[i], i, rows[i].variables[k]) == NodeOf(Build(s, JsonOf(rows)), rows[i], i, rows[i].variables[k])
  }

  lemma ReachesOwnIff(s: Server, rows: seq<NamespaceRow>, i: nat, k: nat)
    requires Printable(rows) && UniqueUris(rows) && OBJECTS_FOLDER in s.nodes && i < |rows| && k < |rows[i].variables|
    ensures ReachesOwn(s, rows, i, k) <==>
      && IndexOfUri(Build(s, JsonOf(rows)).uris, rows[i].uri) == i + 2
      && Str(i + 2, Identifier(rows[i], rows[i].variables[k])) !in s.nodes
      && Apart(rows[i], k)
  {
    var r, v := Build(s, JsonOf(rows)), rows[i].variables[k];
    MakesIff(s, rows, i, k);
    NamedIffPrinted(r, rows[i], i, v);
    VariableIdAt(rows[i], i + 2, IndexOfUri(r.uris, rows[i].uri), v);
  }
  // ---------------------------------------------------------------- in every run

  /** Every index in use is that of a registered namespace. */
  ghost predicate KnownIndices(s: Server) {
    forall id | id in s.nodes :: IdBelow(id, |s.uris|)
  }

  lemma {:induction false} AddUrisHas(uris: seq<string>, rows: seq<NamespaceRow>, i: nat, uri: string)
    requires i <= |rows| && (uri in uris || exists j :: i <= j < |rows| && rows[j].uri == uri)
    ensures uri in AddUris(uris, rows, i)
    decreases |rows| - i
  {
    if i < |rows| {
      AddUrisHas(if rows[i].uri in uris then uris else uris + [rows[i].uri], rows, i + 1, uri);
    }
  }

  lemma BuildKeepsIndices(s: Server, rows: seq<NamespaceRow>)
    requires AllValid(rows) && OBJECTS_FOLDER in s.nodes && KnownIndices(s)
    ensures KnownIndices(Build(s, JsonOf(rows)))
  {
    var r := Build(s, JsonOf(rows));
    BuildAddsAll(s, rows);
    forall id | id in r.nodes && id !in s.nodes ensures IdBelow(id, |r.uris|) {
      UnionOf(BuiltSets(rows, r.uris), 0, id);
      var j :| 0 <= j < |rows| && id in BuiltAt(rows, j, r.uris);
      AddUrisHas(s.uris, rows, 0, rows[j].uri);
      BuiltAtIndex(rows, j, r.uris, id);
    }
  }

  lemma ReloadKeepsIndices(s: Server, rows: seq<NamespaceRow>)
    requires Printable(rows) && OBJECTS_FOLDER in s.nodes && KnownIndices(s)
    ensures KnownIndices(ReloadWith(s, rows))
  {
    FolderStays(s, rows);
    ClearRemovesAll(s, rows);
    BuildKeepsIndices(Clear(s, JsonOf(rows)), rows);
  }

  lemma {:induction false} ReloadsKeepIndices(s: Server, history: seq<seq<NamespaceRow>>)
    requires Generated(history) && OBJECTS_FOLDER in s.nodes && KnownIndices(s)
    ensures KnownIndices(Reloads(s, history))
    decreases |history|
  {
    if history != [] {
      ReloadKeepsIndices(s, history[0]);
      ReloadIsLater(s, history[0]);
      ReloadsKeepIndices(ReloadWith(s, history[0]), history[1..]);
    }
  }

  lemma NewIndex(a: seq<string>, b: seq<string>, uri: string)
    requires Extends(a, b) && uri !in a
    ensures IndexOfUri(b, uri) >= |a|
  {
    assert forall k | 0 <= k < |a| :: b[k] == b[..|a|][k] == a[k];
  }

  lemma PrintedIsCleared(rows: seq<NamespaceRow>, j: nat, k: nat, uris: seq<string>)
    requires Printable(rows) && j < |rows| && k < |rows[j].variables| && rows[j].uri in uris
    ensures Str(j + 2, Identifier(rows[j], rows[j].variables[k])) in ClearedAt(rows, j, uris)
  {
    PrintedIn(rows[j], j, k);
  }

  lemma PrintedIn(row: NamespaceRow, j: nat, k: nat)
    requires ValidRows(row) && j + 2 <= NodeId.MAX_NAMESPACE && k < |row.variables|
    ensures Str(j + 2, Identifier(row, row.variables[k])) in VariableIds(JsonOfNamespace(row, j).nodes, j + 2)
  {
    var vs := JsonOfNamespace(row, j).nodes;
    assert vs[..|row.variables|] == vs;
    EarlierIdsAre(row, j, j + 2, |row.variables|, Identifier(row, row.variables[k]));
  }

  /** With its namespace at the printed index, the clear of a reload makes room for the variable. */
  lemma ClearMakesRoom(t: Server, rows: seq<NamespaceRow>, j: nat, k: nat)
    requires Printable(rows) && OBJECTS_FOLDER in t.nodes && KnownIndices(t) && j < |rows| && k < |rows[j].variables|
    requires IndexOfUri(ReloadWith(t, rows).uris, rows[j].uri) == j + 2
    ensures Str(j + 2, Identifier(rows[j], rows[j].variables[k])) !in Clear(t, JsonOf(rows)).nodes
  {
    var id := Str(j + 2, Identifier(rows[j], rows[j].variables[k]));
    ClearRemovesAll(t, rows);
    if rows[j].uri in t.uris {
      PrintedIsCleared(rows, j, k, t.uris);
      InUnion(ClearedSets(rows, t.uris), 0, j);
    } else {
      ReloadIsLater(t, rows);
      NewIndex(t.uris, ReloadWith(t, rows).uris, rows[j].uri);
    }
  }

  /**
   * After a reload of any server, the runtime finds a variable's own node under its NodeId if and
   * only if its namespace is registered at the printed index and no object and no earlier variable has its id.
   */
  lemma ReloadReachesOwnIff(t: Server, rows: seq<NamespaceRow>, j: nat, k: nat)
    requires Printable(rows) && UniqueUris(rows) && OBJECTS_FOLDER in t.nodes && KnownIndices(t)
    requires j < |rows| && k < |rows[j].variables|
    ensures ReachesOwn(Clear(t, JsonOf(rows)), rows, j, k) <==>
      IndexOfUri(ReloadWith(t, rows).uris, rows[j].uri) == j + 2 && Apart(rows[j], k)
  {
    FolderStays(t, rows);
    ReachesOwnIff(Clear(t, JsonOf(rows)), rows, j, k);
    if IndexOfUri(ReloadWith(t, rows).uris, rows[j].uri) == j + 2 {
      ClearMakesRoom(t, rows, j, k);
    }
  }

  /** So it is after any run: the index is that at which the URI was appended, whenever that was. */
  lemma RunReachesOwnIff(s: Server, first: seq<NamespaceRow>, history: seq<seq<NamespaceRow>>, t: Server,
                         rows: seq<NamespaceRow>, j: nat, k: nat)
    requires AllValid(first) && Generated(history) && OBJECTS_FOLDER in s.nodes && KnownIndices(s)
    requires t == Running(s, first, history)
    requires Printable(rows) && UniqueUris(rows) && j < |rows| && k < |rows[j].variables|
    ensures ReachesOwn(Clear(t, JsonOf(rows)), rows, j, k) <==>
      && IndexOfUri(AddUris(UrisAfter(AddUris(s.uris, first, 0), history), rows, 0), rows[j].uri) == j + 2
      && Apart(rows[j], k)
  {
    RunningUris(s, first, history);
    BuildAddsAll(s, first);
    BuildKeepsIndices(s, first);
    ReloadsKeepIndices(Build(s, JsonOf(first)), history);
    ReloadNodes(t, rows);
    ReloadReachesOwnIff(t, rows, j, k);
  }

  /** At the first build, on a fresh server, the indices are as printed, and names alone decide. */
  lemma FirstReachesOwnIff(s: Server, rows: seq<NamespaceRow>, i: nat, k: nat)
    requires Fits(rows, s.uris) && OBJECTS_FOLDER in s.nodes && KnownIndices(s) && i < |rows| && k < |rows[i].variables|
    ensures ReachesOwn(s, rows, i, k) <==> Apart(rows[i], k)
  {
    FirstIndex(s, rows, i);
    ReachesOwnIff(s, rows, i, k);
  }
  // ---------------------------------------------------------------- dot-free names

  /** The object beside the variable has its name. */
  predicate NamedLike(row: NamespaceRow, x: Row, v: VariableRow) {
    ParentRow(row.objectNodes, x) == Place(row, v) && x.name == v.name
  }

  /** With dot-free names: no object has the variable's place and name, nor has an earlier variable. */
  lemma ApartIffPlain(row: NamespaceRow, k: nat)
    requires ValidRows(row) && PlainRows(row) && k < |row.variables|
    ensures var v := row.variables[k];
      Apart(row, k) <==>
      && (forall x | x in row.objectNodes :: !NamedLike(row, x, v))
      && (forall l | 0 <= l < k :: !(Place(row, row.variables[l]) == Place(row, v) && row.variables[l].name == v.name))
  {
    var v := row.variables[k];
    VariableHome(row, 0, v);
    forall x | x in row.objectNodes ensures PathOfPlace(row, Some(x)) == Identifier(row, v) <==> NamedLike(row, x, v) {
      IdOfObject(row, 0, Place(row, v), v.name, x);
    }
    forall l | 0 <= l < k
      ensures Identifier(row, row.variables[l]) == Identifier(row, v)
        <==> Place(row, row.variables[l]) == Place(row, v) && row.variables[l].name == v.name
    {
      VariableHome(row, 0, row.variables[l]);
      IdsDistinct(row, 0, Place(row, row.variables[l]), row.variables[l].name, Place(row, v), v.name);
    }
  }

  /** UNIQUE(namespace_id, name). */
  predicate UniqueVariableNames(row: NamespaceRow) {
    forall k, l | 0 <= k < l < |row.variables| :: row.variables[k].name != row.variables[l].name
  }

  /** As the schema has variable names unique, only an object beside a variable can then have its id. */
  lemma ApartIffNoObject(row: NamespaceRow, k: nat)
    requires ValidRows(row) && PlainRows(row) && UniqueVariableNames(row) && k < |row.variables|
    ensures Apart(row, k) <==> forall x | x in row.objectNodes :: !NamedLike(row, x, row.variables[k])
  {
    ApartIffPlain(row, k);
  }

  // ---------------------------------------------------------------- two variables without a node

  lemma BesideIsNotApart()
    ensures var row := ClearAfterBuild.EMPTY_CLASH;
      && ValidRows(row) && !Apart(row, 0)
      && Named(row, 0, row.variables[0]) == HomeId(row, 2, Some(ClearAfterBuild.OBJECT_A))
  {
    var row, x, v := ClearAfterBuild.EMPTY_CLASH, ClearAfterBuild.OBJECT_A, ClearAfterBuild.BESIDE_A;
    ClearAfterBuild.ClashesAreValid();
    assert row.objectNodes[0] == x && row.variables[0] == v;
    ObjectHome(row, 2, x);
    VariableHome(row, 2, v);
    VariableIdAt(row, 2, 2, v);
    assert PathOfPlace(row, Some(x)) == Identifier(row, v);
  }

  /** Variable A beside object A: it gets no node, and its NodeId names the object. */
  lemma BesideObjectHasNone(s: Server, rows: seq<NamespaceRow>)
    requires OBJECTS_FOLDER in s.nodes && rows == [ClearAfterBuild.EMPTY_CLASH]
    ensures AllValid(rows) && !Makes(s, rows, 0, 0)
    ensures Named(rows[0], 0, rows[0].variables[0]) == HomeId(rows[0], 2, Some(ClearAfterBuild.OBJECT_A))
  {
    BesideIsNotApart();
    MakesIff(s, rows, 0, 0);
  }

  /** Object A holds variable B, and beside the object is a variable "A.B". */
  const DOTTED := NamespaceRow("N", "urn:n", [ClearAfterBuild.OBJECT_A],
                               [VariableRow("v", None, "A.B", "Double"), VariableRow("w", Some("a"), "B", "Double")])

  lemma DottedIsValid()
    ensures ValidRows(DOTTED) && UniqueVariableNames(DOTTED)
    ensures Identifier(DOTTED, DOTTED.variables[0]) == "N.A.B" && Identifier(DOTTED, DOTTED.variables[1]) == "N.A.B"
  {
    var rows, x := DOTTED.objectNodes, ClearAfterBuild.OBJECT_A;
    assert rows[0] == x;
    assert Ranked(rows, Rank(map["a" := 0], 1));
    assert Find(rows, "a") == Some(x) && ParentRow(rows, x) == None;
  }

  /** The names are unique, and yet the second variable gets no node: its NodeId names the node of the first. */
  lemma DottedNameSharesNode(s: Server)
    requires |s.uris| == 2 && "urn:n" !in s.uris && OBJECTS_FOLDER in s.nodes && KnownIndices(s)
    ensures AllValid([DOTTED]) && UniqueVariableNames(DOTTED)
    ensures Makes(s, [DOTTED], 0, 0) && !Makes(s, [DOTTED], 0, 1)
    ensures Named(DOTTED, 0, DOTTED.variables[0]) == Named(DOTTED, 0, DOTTED.variables[1]) == Str(2, "N.A.B")
  {
    DottedIsValid();
    var row, x := DOTTED, ClearAfterBuild.OBJECT_A;
    assert row.objectNodes == [x];
    assert PathOfPlace(row, Some(x)) == "N.A";
    assert Apart(row, 0) && !Apart(row, 1);
    FirstReachesOwnIff(s, [row], 0, 0);
    MakesIff(s, [row], 0, 1);
    VariableIdAt(row, 2, 2, row.variables[0]);
    VariableIdAt(row, 2, 2, row.variables[1]);
  }
}
