/**
 * Building a generated configuration never names a missing parent. On a fresh server
 * it uses the printed namespace indices, and clearing it removes what it created.
 */
module AddressSpaceProofs {
  import opened Options
  import opened ObjectForest
  import opened GeneratedConfig
  import opened AddressSpace
  import NodeId

  // ---------------------------------------------------------------- the ids of a configuration

  function ObjectIds(os: seq<JsonObject>, ns: nat): set<ServerId>
    decreases os
  {
    if os == [] then {} else
      var first := if os[0].name.Some? then {ObjectId(os[0], ns)} + ObjectIds(os[0].children, ns) else {};
      first + ObjectIds(os[1..], ns)
  }

  predicate Creatable(v: JsonVariable) {
    v.name.Some? && v.dataType.Some?
  }

  function VariableIds(vs: seq<JsonVariable>, ns: nat): set<ServerId> {
    if vs == [] then {}
    else (if Creatable(vs[0]) then {VariableId(vs[0], ns)} else {}) + VariableIds(vs[1..], ns)
  }

  /** Every node of `s` is still there, under the same parent; only nodes were added. */
  ghost predicate Grown(s: Server, r: Server) {
    && r.uris == s.uris && r.orphans == s.orphans && r.stranded == s.stranded
    && forall n | n in s.nodes :: n in r.nodes && r.nodes[n] == s.nodes[n]
  }

  // ---------------------------------------------------------------- no missing parents

  /** The pre-order walk of any object tree finds every parent it names. */
  lemma {:induction false} BuildObjectsGrows(s: Server, os: seq<JsonObject>, parent: ServerId, ns: nat)
    requires parent in s.nodes
    ensures var r := BuildObjects(s, os, parent, ns);
      Grown(s, r) && r.nodes.Keys == s.nodes.Keys + ObjectIds(os, ns)
    decreases os
  {
    if os != [] {
      var o, t := os[0], BuildObject(s, os[0], parent, ns);
      if o.name.Some? {
        var added := AddNode(s, ObjectId(o, ns), parent);
        BuildObjectsGrows(added, o.children, ObjectId(o, ns), ns);
      }
      BuildObjectsGrows(t, os[1..], parent, ns);
    }
  }

  lemma {:induction false} BuildVariablesGrows(s: Server, vs: seq<JsonVariable>, ns: nat)
    requires forall v | v in vs && Creatable(v) :: VariableParent(v, ns) in s.nodes
    ensures var r := BuildVariables(s, vs, ns);
      Grown(s, r) && r.nodes.Keys == s.nodes.Keys + VariableIds(vs, ns)
    decreases vs
  {
    if vs != [] {
      BuildVariablesGrows(BuildVariable(s, vs[0], ns), vs[1..], ns);
    }
  }

  lemma {:induction false} PathIsBuilt(ts: seq<Tree>, path: string, ns: nat)
    requires PathInForest(ts, path)
    ensures Str(ns, path) in ObjectIds(JsonOfTrees(ts), ns)
    decreases ts
  {
    var i :| 0 <= i < |ts| && PathInTree(ts[i], path);
    var os := JsonOfTrees(ts);
    assert os[0] == JsonOfTree(ts[0]) && os[1..] == JsonOfTrees(ts[1..]);
    if i > 0 {
      assert PathInTree(ts[1..][i - 1], path);
      PathIsBuilt(ts[1..], path, ns);
    } else if ts[0].path != path {
      PathIsBuilt(ts[0].children, path, ns);
    }
  }

  function RootId(n: JsonNamespace, ns: nat): ServerId {
    if n.name.Some? then Str(ns, n.name.value) else OBJECTS_FOLDER
  }

  ghost function NamespaceIds(n: JsonNamespace, ns: nat): set<ServerId> {
    (if n.name.Some? then {RootId(n, ns)} else {}) + ObjectIds(n.objectNodes, ns) + VariableIds(n.nodes, ns)
  }

  /** Each generated variable's parent exists by the time the variable is added. */
  lemma VariableParentBuilt(row: NamespaceRow, i: nat, v: VariableRow, ns: nat)
    requires ValidRows(row)
    ensures var n := JsonOfNamespace(row, i);
      VariableParent(JsonOfVariable(row, i + 2, v), ns)
        in {OBJECTS_FOLDER, RootId(n, ns)} + ObjectIds(n.objectNodes, ns)
  {
    RefPathInForest(row.objectNodes, row.name, v.objectNode);
    var path := ParentPath(row, v);
    if path != row.name {
      PathIsBuilt(ForestOf(row.objectNodes, row.name), path, ns);
    }
  }

  /** Each variable hangs below the root folder, the namespace's own object or one of its objects. */
  ghost predicate ParentsBuilt(n: JsonNamespace, ns: nat) {
    forall v | v in n.nodes :: VariableParent(v, ns) in {OBJECTS_FOLDER, RootId(n, ns)} + ObjectIds(n.objectNodes, ns)
  }

  lemma NamespaceGrows(s: Server, n: JsonNamespace, t: Server, ns: nat)
    requires n.uri.Some? && n.name.Some? && OBJECTS_FOLDER in s.nodes && ParentsBuilt(n, ns)
    requires t == AddNamespace(s, n.uri.value) && ns == IndexOfUri(t.uris, n.uri.value)
    ensures Grown(t, BuildNamespace(s, n))
    ensures BuildNamespace(s, n).nodes.Keys == s.nodes.Keys + NamespaceIds(n, ns)
  {
    var rooted := AddNode(t, RootId(n, ns), OBJECTS_FOLDER);
    BuildObjectsGrows(rooted, n.objectNodes, RootId(n, ns), ns);
    BuildVariablesGrows(BuildObjects(rooted, n.objectNodes, RootId(n, ns), ns), n.nodes, ns);
  }

  lemma GeneratedParentsBuilt(row: NamespaceRow, i: nat, ns: nat)
    requires ValidRows(row)
    ensures ParentsBuilt(JsonOfNamespace(row, i), ns)
  {
    var n := JsonOfNamespace(row, i);
    forall k | 0 <= k < |n.nodes|
      ensures VariableParent(n.nodes[k], ns) in {OBJECTS_FOLDER, RootId(n, ns)} + ObjectIds(n.objectNodes, ns)
    {
      VariableParentBuilt(row, i, row.variables[k], ns);
    }
  }

  /** Building a generated namespace adds its ids to the server and never names a missing parent. */
  lemma BuildNamespaceGrows(s: Server, row: NamespaceRow, i: nat)
    requires ValidRows(row) && OBJECTS_FOLDER in s.nodes
    ensures var n := JsonOfNamespace(row, i);
      var t := AddNamespace(s, row.uri);
      var r := BuildNamespace(s, n);
      && Grown(t, r)
      && r.nodes.Keys == s.nodes.Keys + NamespaceIds(n, IndexOfUri(t.uris, row.uri))
  {
    var t := AddNamespace(s, row.uri);
    var ns := IndexOfUri(t.uris, row.uri);
    GeneratedParentsBuilt(row, i, ns);
    NamespaceGrows(s, JsonOfNamespace(row, i), t, ns);
  }

  ghost predicate AllValid(rows: seq<NamespaceRow>) {
    forall row | row in rows :: ValidRows(row)
  }

  /**
   * For every generated configuration, dangling references included, and any server
   * that has its Objects folder: no add of the build names a parent the server lacks.
   */
  lemma {:induction false} BuildHasNoOrphans(s: Server, rows: seq<NamespaceRow>, i: nat)
    requires AllValid(rows) && i <= |rows| && OBJECTS_FOLDER in s.nodes
    ensures Build(s, JsonOf(rows)[i..]).orphans == s.orphans
    decreases |rows| - i
  {
    if i < |rows| {
      JsonAt(rows, i);
      BuildNamespaceGrows(s, rows[i], i);
      BuildHasNoOrphans(BuildNamespace(s, JsonOfNamespace(rows[i], i)), rows, i + 1);
    }
  }

  lemma JsonAt(rows: seq<NamespaceRow>, i: nat)
    requires AllValid(rows) && i < |rows|
    ensures JsonOf(rows)[i..] != [] && JsonOf(rows)[i..][0] == JsonOfNamespace(rows[i], i)
    ensures JsonOf(rows)[i..][1..] == JsonOf(rows)[i + 1..]
    ensures ValidRows(rows[i])
  {
  }

  // ---------------------------------------------------------------- namespace indices

  ghost predicate DistinctUris(rows: seq<NamespaceRow>, base: seq<string>) {
    && (forall i | 0 <= i < |rows| :: rows[i].uri !in base)
    && (forall i, j | 0 <= i < j < |rows| :: rows[i].uri != rows[j].uri)
  }

  function Uris(rows: seq<NamespaceRow>): (us: seq<string>)
    ensures |us| == |rows| && forall i | 0 <= i < |rows| :: us[i] == rows[i].uri
  {
    seq(|rows|, i requires 0 <= i < |rows| => rows[i].uri)
  }

  lemma IndexOfUriIs(uris: seq<string>, uri: string, k: nat)
    requires k < |uris| && uris[k] == uri && forall j | 0 <= j < k :: uris[j] != uri
    ensures IndexOfUri(uris, uri) == k
  {
    if k > 0 {
      IndexOfUriIs(uris[1..], uri, k - 1);
    }
  }

  /** The i-th custom namespace of a fresh server gets the index i + 2 that every node id prints. */
  lemma RegisteredIndex(s: Server, rows: seq<NamespaceRow>, base: seq<string>, i: nat)
    requires |base| == 2 && DistinctUris(rows, base) && i < |rows|
    requires s.uris == base + Uris(rows)[..i]
    ensures AddNamespace(s, rows[i].uri).uris == base + Uris(rows)[..i + 1]
    ensures IndexOfUri(AddNamespace(s, rows[i].uri).uris, rows[i].uri) == i + 2
  {
    var us := Uris(rows);
    assert us[..i + 1] == us[..i] + [us[i]];
    assert rows[i].uri !in s.uris by {
      assert forall j | 0 <= j < |s.uris| :: s.uris[j] == if j < 2 then base[j] else rows[j - 2].uri;
      assert forall j | 0 <= j < 2 :: base[j] in base;
    }
    var t := AddNamespace(s, rows[i].uri);
    assert t.uris == base + us[..i + 1];
    IndexOfUriIs(t.uris, rows[i].uri, i + 2);
  }

  lemma FoundIndex(rows: seq<NamespaceRow>, base: seq<string>, i: nat)
    requires |base| == 2 && DistinctUris(rows, base) && i < |rows|
    ensures rows[i].uri in base + Uris(rows) && IndexOfUri(base + Uris(rows), rows[i].uri) == i + 2
  {
    var uris := base + Uris(rows);
    assert uris[i + 2] == rows[i].uri;
    assert forall j | 0 <= j < i + 2 :: uris[j] == if j < 2 then base[j] else rows[j - 2].uri;
    assert forall j | 0 <= j < 2 :: base[j] in base;
    IndexOfUriIs(uris, rows[i].uri, i + 2);
  }

  /** What the builder creates for a generated variable is what the clearer deletes. */
  lemma VariableIdsAgree(row: NamespaceRow, ns: nat, v: VariableRow)
    requires ValidRows(row) && ns <= NodeId.MAX_NAMESPACE
    ensures var j := JsonOfVariable(row, ns, v);
      && VariableId(j, ns) == Str(ns, Identifier(row, v))
      && NodeId.Parse(j.nodeId.value) == Some(NodeId.StringId(ns, Identifier(row, v)))
  {
    var id := NodeId.StringId(ns, Identifier(row, v));
    NodeId.ParsePrint(id);
    NodeId.StrStrAgrees(NodeId.Print(id));
  }

  // ---------------------------------------------------------------- clearing undoes building

  /** Every object of a generated tree has its name and path. */
  predicate Full(o: JsonObject) {
    o.name.Some? && o.path.Some? && forall c | c in o.children :: Full(c)
  }

  lemma {:induction false} TreesAreFull(ts: seq<Tree>)
    ensures forall o | o in JsonOfTrees(ts) :: Full(o)
    decreases ts
  {
    if ts != [] {
      TreesAreFull(ts[0].children);
      TreesAreFull(ts[1..]);
    }
  }

  lemma {:induction false} ClearObjectsRemoves(s: Server, os: seq<JsonObject>, ns: nat)
    requires forall o | o in os :: Full(o)
    ensures var r := ClearObjects(s, os, ns);
      r.nodes == s.nodes - ObjectIds(os, ns) && r.uris == s.uris && r.orphans == s.orphans
    decreases os
  {
    if os != [] {
      assert os[0] in os;
      ClearObjectsRemoves(s, os[0].children, ns);
      ClearObjectsRemoves(ClearObject(s, os[0], ns), os[1..], ns);
    }
  }

  /** The variables a namespace creates are those it clears. */
  ghost predicate Consistent(vs: seq<JsonVariable>, ns: nat) {
    forall v | v in vs :: Creatable(v) && v.nodeId.Some? && NodeId.Parse(v.nodeId.value).Some?
      && var id := NodeId.Parse(v.nodeId.value).value; Str(id.ns, id.identifier) == VariableId(v, ns)
  }

  lemma {:induction false} ClearVariablesRemoves(s: Server, vs: seq<JsonVariable>, ns: nat)
    requires Consistent(vs, ns)
    ensures var r := ClearVariables(s, vs);
      r.nodes == s.nodes - VariableIds(vs, ns) && r.uris == s.uris && r.orphans == s.orphans
    decreases vs
  {
    if vs != [] {
      assert vs[0] in vs;
      ClearVariablesRemoves(ClearVariable(s, vs[0]), vs[1..], ns);
    }
  }

  lemma GeneratedIsConsistent(row: NamespaceRow, i: nat)
    requires ValidRows(row) && i + 2 <= NodeId.MAX_NAMESPACE
    ensures Consistent(JsonOfNamespace(row, i).nodes, i + 2)
    ensures forall o | o in JsonOfNamespace(row, i).objectNodes :: Full(o)
  {
    var n := JsonOfNamespace(row, i);
    TreesAreFull(ForestOf(row.objectNodes, row.name));
    forall k | 0 <= k < |n.nodes|
      ensures NodeId.Parse(n.nodes[k].nodeId.value).Some?
      ensures var id := NodeId.Parse(n.nodes[k].nodeId.value).value;
        Str(id.ns, id.identifier) == VariableId(n.nodes[k], i + 2)
    {
      VariableIdsAgree(row, i + 2, row.variables[k]);
    }
  }

  lemma MinusTwice(nodes: Nodes, a: set<ServerId>, b: set<ServerId>)
    ensures nodes - a - b == nodes - (a + b)
  {
  }

  lemma NamespaceCleared(s: Server, n: JsonNamespace, ns: nat)
    requires n.uri.Some? && n.name.Some? && n.uri.value in s.uris && IndexOfUri(s.uris, n.uri.value) == ns
    requires Consistent(n.nodes, ns) && forall o | o in n.objectNodes :: Full(o)
    ensures var r := ClearNamespace(s, n);
      r.nodes == s.nodes - NamespaceIds(n, ns) && r.uris == s.uris && r.orphans == s.orphans
  {
    var vs, os, root := VariableIds(n.nodes, ns), ObjectIds(n.objectNodes, ns), {RootId(n, ns)};
    ClearVariablesRemoves(s, n.nodes, ns);
    ClearObjectsRemoves(ClearVariables(s, n.nodes), n.objectNodes, ns);
    MinusTwice(s.nodes, vs, os);
    MinusTwice(s.nodes, vs + os, root);
    assert NamespaceIds(n, ns) == vs + os + root;
  }

  lemma ClearNamespaceRemoves(s: Server, row: NamespaceRow, i: nat)
    requires ValidRows(row) && i + 2 <= NodeId.MAX_NAMESPACE
    requires row.uri in s.uris && IndexOfUri(s.uris, row.uri) == i + 2
    ensures var n := JsonOfNamespace(row, i);
      var r := ClearNamespace(s, n);
      r.nodes == s.nodes - NamespaceIds(n, i + 2) && r.uris == s.uris && r.orphans == s.orphans
  {
    GeneratedIsConsistent(row, i);
    NamespaceCleared(s, JsonOfNamespace(row, i), i + 2);
  }

  /** All ids of the namespaces from the i-th on. */
  ghost function IdsFrom(rows: seq<NamespaceRow>, i: nat): set<ServerId>
    requires AllValid(rows) && i <= |rows|
    decreases |rows| - i
  {
    if i == |rows| then {}
    else NamespaceIds(JsonOfNamespace(rows[i], i), i + 2) + IdsFrom(rows, i + 1)
  }

  ghost predicate Fits(rows: seq<NamespaceRow>, base: seq<string>) {
    AllValid(rows) && |base| == 2 && DistinctUris(rows, base) && |rows| + 1 <= NodeId.MAX_NAMESPACE
  }

  lemma {:induction false} BuildAdds(s: Server, rows: seq<NamespaceRow>, base: seq<string>, i: nat)
    requires Fits(rows, base) && i <= |rows| && OBJECTS_FOLDER in s.nodes
    requires s.uris == base + Uris(rows)[..i]
    ensures var r := Build(s, JsonOf(rows)[i..]);
      && r.uris == base + Uris(rows)
      && r.orphans == s.orphans && r.stranded == s.stranded
      && r.nodes.Keys == s.nodes.Keys + IdsFrom(rows, i)
      && forall n | n in s.nodes :: r.nodes[n] == s.nodes[n]
    decreases |rows| - i
  {
    if i < |rows| {
      JsonAt(rows, i);
      RegisteredIndex(s, rows, base, i);
      BuildNamespaceGrows(s, rows[i], i);
      BuildAdds(BuildNamespace(s, JsonOfNamespace(rows[i], i)), rows, base, i + 1);
    } else {
      assert Uris(rows)[..i] == Uris(rows);
    }
  }

  lemma {:induction false} ClearRemoves(s: Server, rows: seq<NamespaceRow>, base: seq<string>, i: nat)
    requires Fits(rows, base) && i <= |rows| && s.uris == base + Uris(rows)
    ensures var r := Clear(s, JsonOf(rows)[i..]);
      r.nodes == s.nodes - IdsFrom(rows, i) && r.uris == s.uris && r.orphans == s.orphans
    decreases |rows| - i
  {
    if i < |rows| {
      JsonAt(rows, i);
      FoundIndex(rows, base, i);
      ClearNamespaceRemoves(s, rows[i], i);
      ClearRemoves(ClearNamespace(s, JsonOfNamespace(rows[i], i)), rows, base, i + 1);
      MinusTwice(s.nodes, NamespaceIds(JsonOfNamespace(rows[i], i), i + 2), IdsFrom(rows, i + 1));
    }
  }

  /**
   * On a fresh server with distinct custom URIs, clearing the configuration that was
   * built deletes exactly the ids the build created: the node set is what it was before.
   */
  lemma ClearUndoesBuild(s: Server, rows: seq<NamespaceRow>)
    requires Fits(rows, s.uris) && OBJECTS_FOLDER in s.nodes
    requires s.nodes.Keys !! IdsFrom(rows, 0)
    ensures var built := Build(s, JsonOf(rows));
      && built.nodes.Keys == s.nodes.Keys + IdsFrom(rows, 0)
      && Clear(built, JsonOf(rows)).nodes == s.nodes
  {
    var config := JsonOf(rows);
    assert config[0..] == config;
    assert s.uris + Uris(rows)[..0] == s.uris;
    BuildAdds(s, rows, s.uris, 0);
    var built := Build(s, config);
    ClearRemoves(built, rows, s.uris, 0);
    assert built.nodes - IdsFrom(rows, 0) == s.nodes;
  }
}
