/**
 * Generated configurations on any server, such as one that has already built others: a
 * reload clears by the new configuration, then builds it. The builder uses the index at
 * which a namespace is registered, and NodeIds print the one of its place in the list.
 */
module Reload {
  import opened Options
  import opened ObjectForest
  import opened GeneratedConfig
  import opened AddressSpace
  import opened AddressSpaceProofs
  import opened ClearOrder
  import UnambiguousNames
  import NodeId

  /** Generated configurations whose indices fit the 16 bits of a NodeId. */
  ghost predicate Printable(rows: seq<NamespaceRow>) {
    AllValid(rows) && |rows| + 1 <= NodeId.MAX_NAMESPACE
  }

  // ---------------------------------------------------------------- an index is for good

  ghost predicate Extends(a: seq<string>, b: seq<string>) {
    |a| <= |b| && b[..|a|] == a
  }

  lemma {:induction false} IndexStays(a: seq<string>, b: seq<string>, uri: string)
    requires Extends(a, b) && uri in a
    ensures uri in b && IndexOfUri(b, uri) == IndexOfUri(a, uri)
    decreases |a|
  {
    assert b[0] == a[0] && b[1..][..|a| - 1] == a[1..];
    if a[0] != uri {
      IndexStays(a[1..], b[1..], uri);
    }
  }

  // ---------------------------------------------------------------- building on any server

  ghost function UnionFrom<T>(sets: seq<set<T>>, i: nat): set<T>
    requires i <= |sets|
    decreases |sets| - i
  {
    if i == |sets| then {} else sets[i] + UnionFrom(sets, i + 1)
  }

  lemma {:induction false} InUnion<T>(sets: seq<set<T>>, i: nat, j: nat)
    requires i <= j < |sets|
    ensures sets[j] <= UnionFrom(sets, i)
    decreases j - i
  {
    if i < j {
      InUnion(sets, i + 1, j);
    }
  }

  lemma {:induction false} UnionGrows<T>(a: seq<set<T>>, b: seq<set<T>>, i: nat)
    requires |a| == |b| && i <= |a| && forall j | i <= j < |a| :: a[j] <= b[j]
    ensures UnionFrom(a, i) <= UnionFrom(b, i)
    decreases |a| - i
  {
    if i < |a| {
      UnionGrows(a, b, i + 1);
    }
  }

  lemma {:induction false} UnionOf<T>(sets: seq<set<T>>, i: nat, x: T)
    requires i <= |sets| && x in UnionFrom(sets, i)
    ensures exists j :: i <= j < |sets| && x in sets[j]
    decreases |sets| - i
  {
    if x !in sets[i] {
      UnionOf(sets, i + 1, x);
    }
  }

  /** The ids a build of the namespace at a place creates. */
  ghost function BuiltAt(rows: seq<NamespaceRow>, i: nat, uris: seq<string>): set<ServerId>
    requires AllValid(rows) && i < |rows|
  {
    NamespaceIds(JsonOfNamespace(rows[i], i), IndexOfUri(uris, rows[i].uri))
  }

  ghost function BuiltSets(rows: seq<NamespaceRow>, uris: seq<string>): seq<set<ServerId>>
    requires AllValid(rows)
  {
    seq(|rows|, i requires 0 <= i < |rows| => BuiltAt(rows, i, uris))
  }

  /** The ids a build creates, each namespace's at its registered index. */
  ghost function BuiltIds(rows: seq<NamespaceRow>, uris: seq<string>): set<ServerId>
    requires AllValid(rows)
  {
    UnionFrom(BuiltSets(rows, uris), 0)
  }

  /** Only nodes were added, and namespaces only at the end of the table. */
  ghost predicate Added(s: Server, r: Server, ids: set<ServerId>) {
    && Extends(s.uris, r.uris) && r.nodes.Keys == s.nodes.Keys + ids
    && forall n | n in s.nodes :: r.nodes[n] == s.nodes[n]
  }

  lemma AddedTwice(s: Server, t: Server, r: Server, a: set<ServerId>, b: set<ServerId>)
    requires Added(s, t, a) && Added(t, r, b)
    ensures Added(s, r, a + b)
  {
    assert r.uris[..|s.uris|] == r.uris[..|t.uris|][..|s.uris|];
  }

  lemma NamespaceAdds(s: Server, rows: seq<NamespaceRow>, i: nat)
    requires AllValid(rows) && i < |rows| && OBJECTS_FOLDER in s.nodes
    ensures var t := BuildNamespace(s, JsonOfNamespace(rows[i], i));
      && Added(s, t, BuiltAt(rows, i, t.uris)) && OBJECTS_FOLDER in t.nodes
      && rows[i].uri in t.uris && t.uris == if rows[i].uri in s.uris then s.uris else s.uris + [rows[i].uri]
  {
    BuildNamespaceGrows(s, rows[i], i);
  }

  lemma BuiltAtStays(rows: seq<NamespaceRow>, i: nat, a: seq<string>, b: seq<string>)
    requires AllValid(rows) && i < |rows| && rows[i].uri in a && Extends(a, b)
    ensures rows[i].uri in b && BuiltAt(rows, i, a) == BuiltAt(rows, i, b)
  {
    IndexStays(a, b, rows[i].uri);
  }

  /** The namespace table after a build: each URI that is new is appended. */
  function AddUris(uris: seq<string>, rows: seq<NamespaceRow>, i: nat): seq<string>
    requires i <= |rows|
    decreases |rows| - i
  {
    if i == |rows| then uris
    else AddUris(if rows[i].uri in uris then uris else uris + [rows[i].uri], rows, i + 1)
  }

  /** A build adds exactly those ids, and only ever appends to the namespace table. */
  lemma {:induction false} BuildAddsAt(s: Server, rows: seq<NamespaceRow>, i: nat)
    requires AllValid(rows) && i <= |rows| && OBJECTS_FOLDER in s.nodes
    ensures var r := Build(s, JsonOf(rows)[i..]);
      Added(s, r, UnionFrom(BuiltSets(rows, r.uris), i)) && r.uris == AddUris(s.uris, rows, i)
    decreases |rows| - i
  {
    if i < |rows| {
      var t := BuildNamespace(s, JsonOfNamespace(rows[i], i));
      JsonAt(rows, i);
      NamespaceAdds(s, rows, i);
      BuildAddsAt(t, rows, i + 1);
      var r := Build(t, JsonOf(rows)[i + 1..]);
      BuiltAtStays(rows, i, t.uris, r.uris);
      AddedTwice(s, t, r, BuiltAt(rows, i, t.uris), UnionFrom(BuiltSets(rows, r.uris), i + 1));
    }
  }

  /** From the first namespace on. */
  lemma BuildAddsAll(s: Server, rows: seq<NamespaceRow>)
    requires AllValid(rows) && OBJECTS_FOLDER in s.nodes
    ensures var r := Build(s, JsonOf(rows));
      Added(s, r, BuiltIds(rows, r.uris)) && r.uris == AddUris(s.uris, rows, 0)
  {
    assert JsonOf(rows)[0..] == JsonOf(rows);
    BuildAddsAt(s, rows, 0);
  }

  /** The builder's id of a generated variable, and the id its printed NodeId parses to. */
  lemma VariableIdAt(row: NamespaceRow, printed: nat, registered: nat, v: VariableRow)
    requires ValidRows(row) && printed <= NodeId.MAX_NAMESPACE
    ensures var j := JsonOfVariable(row, printed, v);
      && VariableId(j, registered) == Str(registered, Identifier(row, v))
      && NodeId.Parse(j.nodeId.value) == Some(NodeId.StringId(printed, Identifier(row, v)))
  {
    var id := NodeId.StringId(printed, Identifier(row, v));
    NodeId.ParsePrint(id);
    NodeId.StrStrAgrees(NodeId.Print(id));
  }

  /** The id that a printed NodeId names for the runtime. */
  ghost function Named(row: NamespaceRow, i: nat, v: VariableRow): ServerId
    requires ValidRows(row) && i + 2 <= NodeId.MAX_NAMESPACE
  {
    VariableIdAt(row, i + 2, i + 2, v);
    var id := NodeId.Parse(JsonOfVariable(row, i + 2, v).nodeId.value).value;
    Str(id.ns, id.identifier)
  }

  /** The id under which the builder adds the variable. */
  ghost function NodeOf(r: Server, row: NamespaceRow, i: nat, v: VariableRow): ServerId
    requires ValidRows(row)
  {
    VariableId(JsonOfVariable(row, i + 2, v), IndexOfUri(r.uris, row.uri))
  }

  lemma NamedIffPrinted(r: Server, row: NamespaceRow, i: nat, v: VariableRow)
    requires ValidRows(row) && i + 2 <= NodeId.MAX_NAMESPACE
    ensures Named(row, i, v) == NodeOf(r, row, i, v) <==> IndexOfUri(r.uris, row.uri) == i + 2
  {
    VariableIdAt(row, i + 2, IndexOfUri(r.uris, row.uri), v);
  }

  lemma VariableIsBuilt(row: NamespaceRow, i: nat, ns: nat, v: VariableRow)
    requires ValidRows(row) && v in row.variables
    ensures VariableId(JsonOfVariable(row, i + 2, v), ns) in NamespaceIds(JsonOfNamespace(row, i), ns)
  {
    var n := JsonOfNamespace(row, i);
    var k: nat :| k < |row.variables| && row.variables[k] == v;
    assert n.nodes[k] == JsonOfVariable(row, i + 2, v);
    UnambiguousNames.VariableIdIn(n.nodes, ns, k);
  }

  lemma NodeIsBuilt(s: Server, rows: seq<NamespaceRow>, i: nat, v: VariableRow)
    requires AllValid(rows) && OBJECTS_FOLDER in s.nodes && i < |rows| && v in rows[i].variables
    ensures var r := Build(s, JsonOf(rows)); NodeOf(r, rows[i], i, v) in r.nodes
  {
    var uris := Build(s, JsonOf(rows)).uris;
    BuildAddsAll(s, rows);
    VariableIsBuilt(rows[i], i, IndexOfUri(uris, rows[i].uri), v);
    InUnion(BuiltSets(rows, uris), 0, i);
    assert BuiltSets(rows, uris)[i] == BuiltAt(rows, i, uris);
  }

  /**
   * On any server, the id of every variable of a generated configuration is there after the build,
   * and its NodeId names that id if and only if its namespace is registered at the printed index.
   */
  lemma NamedIsBuiltIff(s: Server, rows: seq<NamespaceRow>, i: nat, v: VariableRow)
    requires Printable(rows) && OBJECTS_FOLDER in s.nodes && i < |rows| && v in rows[i].variables
    ensures var r := Build(s, JsonOf(rows));
      && NodeOf(r, rows[i], i, v) in r.nodes
      && (Named(rows[i], i, v) == NodeOf(r, rows[i], i, v) <==> IndexOfUri(r.uris, rows[i].uri) == i + 2)
  {
    NodeIsBuilt(s, rows, i, v);
    NamedIffPrinted(Build(s, JsonOf(rows)), rows[i], i, v);
  }

  // ---------------------------------------------------------------- clearing any server

  /** What the clear deletes of one namespace: variables at the printed index, the rest at the registered one. */
  ghost function ClearedIds(row: NamespaceRow, i: nat, ns: nat): set<ServerId>
    requires ValidRows(row)
  {
    var n := JsonOfNamespace(row, i);
    {RootId(n, ns)} + ObjectIds(n.objectNodes, ns) + VariableIds(n.nodes, i + 2)
  }

  /** Namespaces that the server does not know are passed over. */
  ghost function ClearedAt(rows: seq<NamespaceRow>, i: nat, uris: seq<string>): set<ServerId>
    requires AllValid(rows) && i < |rows|
  {
    if rows[i].uri in uris then ClearedIds(rows[i], i, IndexOfUri(uris, rows[i].uri)) else {}
  }

  ghost function ClearedSets(rows: seq<NamespaceRow>, uris: seq<string>): seq<set<ServerId>>
    requires AllValid(rows)
  {
    seq(|rows|, i requires 0 <= i < |rows| => ClearedAt(rows, i, uris))
  }

  ghost function ClearedBy(rows: seq<NamespaceRow>, uris: seq<string>): set<ServerId>
    requires AllValid(rows)
  {
    UnionFrom(ClearedSets(rows, uris), 0)
  }

  lemma NamespaceClearedAt(s: Server, row: NamespaceRow, i: nat)
    requires ValidRows(row) && i + 2 <= NodeId.MAX_NAMESPACE && row.uri in s.uris
    ensures var r := ClearNamespace(s, JsonOfNamespace(row, i));
      r.nodes == s.nodes - ClearedIds(row, i, IndexOfUri(s.uris, row.uri)) && r.uris == s.uris
  {
    var n, ns := JsonOfNamespace(row, i), IndexOfUri(s.uris, row.uri);
    var vs, os, root := VariableIds(n.nodes, i + 2), ObjectIds(n.objectNodes, ns), {RootId(n, ns)};
    GeneratedIsConsistent(row, i);
    ClearVariablesRemoves(s, n.nodes, i + 2);
    ClearObjectsRemoves(ClearVariables(s, n.nodes), n.objectNodes, ns);
    MinusTwice(s.nodes, vs, os);
    MinusTwice(s.nodes, vs + os, root);
    assert ClearedIds(row, i, ns) == vs + os + root;
  }

  lemma PlaceCleared(s: Server, rows: seq<NamespaceRow>, i: nat)
    requires Printable(rows) && i < |rows|
    ensures var r := ClearNamespace(s, JsonOfNamespace(rows[i], i));
      r.nodes == s.nodes - ClearedAt(rows, i, s.uris) && r.uris == s.uris
  {
    if rows[i].uri in s.uris {
      NamespaceClearedAt(s, rows[i], i);
    }
  }

  /** The clear of any generated configuration deletes exactly these ids of any server. */
  lemma {:induction false} ClearRemovesAt(s: Server, rows: seq<NamespaceRow>, i: nat)
    requires Printable(rows) && i <= |rows|
    ensures var r := Clear(s, JsonOf(rows)[i..]);
      r.nodes == s.nodes - UnionFrom(ClearedSets(rows, s.uris), i) && r.uris == s.uris
    decreases |rows| - i
  {
    if i < |rows| {
      JsonAt(rows, i);
      PlaceCleared(s, rows, i);
      ClearRemovesAt(ClearNamespace(s, JsonOfNamespace(rows[i], i)), rows, i + 1);
      MinusTwice(s.nodes, ClearedAt(rows, i, s.uris), UnionFrom(ClearedSets(rows, s.uris), i + 1));
    }
  }

  lemma ClearRemovesAll(s: Server, rows: seq<NamespaceRow>)
    requires Printable(rows)
    ensures var r := Clear(s, JsonOf(rows));
      r.nodes == s.nodes - ClearedBy(rows, s.uris) && r.uris == s.uris
  {
    assert JsonOf(rows)[0..] == JsonOf(rows);
    ClearRemovesAt(s, rows, 0);
  }

  /** It deletes what a build of the namespace creates if and only if the indices agree or there is no variable. */
  lemma ClearedIsBuiltIff(row: NamespaceRow, i: nat, ns: nat)
    requires ValidRows(row) && i + 2 <= NodeId.MAX_NAMESPACE
    ensures ClearedIds(row, i, ns) == NamespaceIds(JsonOfNamespace(row, i), ns) <==> ns == i + 2 || row.variables == []
  {
    var n := JsonOfNamespace(row, i);
    if row.variables != [] {
      UnambiguousNames.VariableIdIn(n.nodes, i + 2, 0);
      VariableIdsAreStrings(n.nodes, i + 2);
      IdsAreStrings(n, ns);
    } else {
      assert n.nodes == [];
    }
  }

  // ---------------------------------------------------------------- reloading

  /** `handle_reload`: both walks go by the configuration file, which the control API has just rewritten. */
  ghost function ReloadWith(s: Server, rows: seq<NamespaceRow>): Server
    requires AllValid(rows)
  {
    Build(Clear(s, JsonOf(rows)), JsonOf(rows))
  }

  lemma ClearedAreStrings(rows: seq<NamespaceRow>, i: nat, uris: seq<string>)
    requires AllValid(rows) && i < |rows|
    ensures forall id | id in ClearedAt(rows, i, uris) :: id.Str?
  {
    var n := JsonOfNamespace(rows[i], i);
    ObjectIdsAreStrings(n.objectNodes, IndexOfUri(uris, rows[i].uri));
    VariableIdsAreStrings(n.nodes, i + 2);
  }

  /** No clear deletes the stack's own folder. */
  lemma FolderStays(s: Server, rows: seq<NamespaceRow>)
    requires Printable(rows) && OBJECTS_FOLDER in s.nodes
    ensures OBJECTS_FOLDER in Clear(s, JsonOf(rows)).nodes
  {
    ClearRemovesAll(s, rows);
    if OBJECTS_FOLDER in ClearedBy(rows, s.uris) {
      UnionOf(ClearedSets(rows, s.uris), 0, OBJECTS_FOLDER);
      var i :| 0 <= i < |rows| && OBJECTS_FOLDER in ClearedAt(rows, i, s.uris);
      ClearedAreStrings(rows, i, s.uris);
    }
  }

  /** What a reload makes of the nodes of any server. */
  lemma ReloadNodes(s: Server, rows: seq<NamespaceRow>)
    requires Printable(rows) && OBJECTS_FOLDER in s.nodes
    ensures var r := ReloadWith(s, rows);
      && Extends(s.uris, r.uris)
      && r.uris == AddUris(s.uris, rows, 0)
      && r.nodes.Keys == s.nodes.Keys - ClearedBy(rows, s.uris) + BuiltIds(rows, r.uris)
      && OBJECTS_FOLDER in r.nodes
  {
    FolderStays(s, rows);
    ClearRemovesAll(s, rows);
    BuildAddsAll(Clear(s, JsonOf(rows)), rows);
  }

  ghost predicate Generated(history: seq<seq<NamespaceRow>>) {
    history == [] || (Printable(history[0]) && Generated(history[1..]))
  }

  ghost function Reloads(s: Server, history: seq<seq<NamespaceRow>>): Server
    requires Generated(history)
    decreases |history|
  {
    if history == [] then s else Reloads(ReloadWith(s, history[0]), history[1..])
  }

  /** No namespace has been given another index, and the stack's folder is there. */
  ghost predicate Later(s: Server, r: Server) {
    OBJECTS_FOLDER in r.nodes && Extends(s.uris, r.uris)
  }

  lemma ReloadIsLater(s: Server, rows: seq<NamespaceRow>)
    requires Printable(rows) && OBJECTS_FOLDER in s.nodes
    ensures Later(s, ReloadWith(s, rows))
  {
    ReloadNodes(s, rows);
  }

  lemma LaterTwice(s: Server, t: Server, r: Server)
    requires Later(s, t) && Later(t, r)
    ensures Later(s, r)
  {
    assert r.uris[..|s.uris|] == r.uris[..|t.uris|][..|s.uris|];
  }

  lemma {:induction false} ReloadsAreLater(s: Server, history: seq<seq<NamespaceRow>>)
    requires Generated(history) && OBJECTS_FOLDER in s.nodes
    ensures Later(s, Reloads(s, history))
    decreases |history|
  {
    if history != [] {
      var t := ReloadWith(s, history[0]);
      ReloadIsLater(s, history[0]);
      ReloadsAreLater(t, history[1..]);
      LaterTwice(s, t, Reloads(t, history[1..]));
    }
  }

  lemma FirstIndex(s: Server, first: seq<NamespaceRow>, i: nat)
    requires Fits(first, s.uris) && OBJECTS_FOLDER in s.nodes && i < |first|
    ensures var r := Build(s, JsonOf(first));
      OBJECTS_FOLDER in r.nodes && first[i].uri in r.uris && IndexOfUri(r.uris, first[i].uri) == i + 2
  {
    assert JsonOf(first)[0..] == JsonOf(first) && s.uris + Uris(first)[..0] == s.uris;
    BuildAdds(s, first, s.uris, 0);
    FoundIndex(first, s.uris, i);
  }

  /** The namespace table after builds of these configurations: it depends on the URIs alone. */
  function UrisAfter(uris: seq<string>, history: seq<seq<NamespaceRow>>): seq<string>
    decreases |history|
  {
    if history == [] then uris else UrisAfter(AddUris(uris, history[0], 0), history[1..])
  }

  lemma {:induction false} ReloadsUris(s: Server, history: seq<seq<NamespaceRow>>)
    requires Generated(history) && OBJECTS_FOLDER in s.nodes
    ensures Reloads(s, history).uris == UrisAfter(s.uris, history)
    decreases |history|
  {
    if history != [] {
      ReloadNodes(s, history[0]);
      ReloadsUris(ReloadWith(s, history[0]), history[1..]);
    }
  }

  /** A server that has built a first configuration and has then been reloaded with others. */
  ghost function Running(s: Server, first: seq<NamespaceRow>, history: seq<seq<NamespaceRow>>): Server
    requires AllValid(first) && Generated(history)
  {
    Reloads(Build(s, JsonOf(first)), history)
  }

  lemma RunningUris(s: Server, first: seq<NamespaceRow>, history: seq<seq<NamespaceRow>>)
    requires AllValid(first) && Generated(history) && OBJECTS_FOLDER in s.nodes
    ensures Running(s, first, history).uris == UrisAfter(AddUris(s.uris, first, 0), history)
    ensures OBJECTS_FOLDER in Running(s, first, history).nodes
  {
    BuildAddsAll(s, first);
    ReloadsUris(Build(s, JsonOf(first)), history);
    ReloadsAreLater(Build(s, JsonOf(first)), history);
  }

  /**
   * After any run on any server, the NodeId of a variable names the id that the builder gives it
   * if and only if its namespace, whenever it was first seen, was appended at the printed index.
   */
  lemma NamedAfterRunIff(s: Server, first: seq<NamespaceRow>, history: seq<seq<NamespaceRow>>, t: Server,
                         rows: seq<NamespaceRow>, j: nat, v: VariableRow)
    requires AllValid(first) && Generated(history) && OBJECTS_FOLDER in s.nodes && t == Running(s, first, history)
    requires Printable(rows) && j < |rows| && v in rows[j].variables
    ensures Named(rows[j], j, v) == NodeOf(ReloadWith(t, rows), rows[j], j, v) <==>
      IndexOfUri(AddUris(UrisAfter(AddUris(s.uris, first, 0), history), rows, 0), rows[j].uri) == j + 2
  {
    RunningUris(s, first, history);
    ReloadNodes(t, rows);
    NamedIffPrinted(ReloadWith(t, rows), rows[j], j, v);
  }

  /** For a namespace of the first configuration: if and only if it has the place that it had at first. */
  lemma NamedAfterReloadsIff(s: Server, first: seq<NamespaceRow>, history: seq<seq<NamespaceRow>>, t: Server,
                             rows: seq<NamespaceRow>, i: nat, j: nat, v: VariableRow)
    requires Fits(first, s.uris) && OBJECTS_FOLDER in s.nodes
    requires Generated(history) && t == Running(s, first, history)
    requires Printable(rows)
    requires i < |first| && j < |rows| && rows[j].uri == first[i].uri && v in rows[j].variables
    ensures Named(rows[j], j, v) == NodeOf(ReloadWith(t, rows), rows[j], j, v) <==> j == i
  {
    var built := Build(s, JsonOf(first));
    FirstIndex(s, first, i);
    ReloadsAreLater(built, history);
    ReloadIsLater(t, rows);
    LaterTwice(built, t, ReloadWith(t, rows));
    IndexStays(built.uris, ReloadWith(t, rows).uris, rows[j].uri);
    NamedIffPrinted(ReloadWith(t, rows), rows[j], j, v);
  }

  /** With the indices as printed, the deletes of a reload touch nothing that the new configuration lacks. */
  lemma ReloadOnlyAdds(s: Server, rows: seq<NamespaceRow>)
    requires Printable(rows) && OBJECTS_FOLDER in s.nodes
    requires forall i | 0 <= i < |rows| && rows[i].uri in s.uris ::
      IndexOfUri(s.uris, rows[i].uri) == i + 2 || rows[i].variables == []
    ensures var r := ReloadWith(s, rows);
      r.nodes.Keys == s.nodes.Keys + BuiltIds(rows, r.uris)
  {
    var r := ReloadWith(s, rows);
    ReloadNodes(s, rows);
    forall i | 0 <= i < |rows| ensures ClearedSets(rows, s.uris)[i] <= BuiltSets(rows, r.uris)[i] {
      ClearedIsBuilt(rows, i, s.uris, r.uris);
    }
    UnionGrows(ClearedSets(rows, s.uris), BuiltSets(rows, r.uris), 0);
  }

  lemma ClearedIsBuilt(rows: seq<NamespaceRow>, i: nat, before: seq<string>, uris: seq<string>)
    requires Printable(rows) && i < |rows| && Extends(before, uris)
    requires rows[i].uri in before ==> IndexOfUri(before, rows[i].uri) == i + 2 || rows[i].variables == []
    ensures ClearedAt(rows, i, before) <= BuiltAt(rows, i, uris)
  {
    if rows[i].uri in before {
      ClearedIsBuiltIff(rows[i], i, IndexOfUri(before, rows[i].uri));
      IndexStays(before, uris, rows[i].uri);
    }
  }

  /**
   * "Delete all custom nodes prior to reload": the clear by a configuration undoes the build of
   * another if and only if it deletes every id that the build made, and none that was there before.
   */
  lemma ClearUndoesBuildIff(s: Server, built: seq<NamespaceRow>, rows: seq<NamespaceRow>)
    requires AllValid(built) && Printable(rows) && OBJECTS_FOLDER in s.nodes
    ensures var t := Build(s, JsonOf(built));
      var cleared := ClearedBy(rows, t.uris);
      Clear(t, JsonOf(rows)).nodes == s.nodes
      <==> BuiltIds(built, t.uris) - s.nodes.Keys <= cleared && s.nodes.Keys !! cleared
  {
    var t := Build(s, JsonOf(built));
    BuildAddsAll(s, built);
    ClearRemovesAll(t, rows);
    MinusUndoesIff(s.nodes, t.nodes, BuiltIds(built, t.uris), ClearedBy(rows, t.uris));
  }

  lemma MinusUndoesIff(before: Nodes, after: Nodes, created: set<ServerId>, cleared: set<ServerId>)
    requires after.Keys == before.Keys + created && forall n | n in before :: after[n] == before[n]
    ensures after - cleared == before <==> created - before.Keys <= cleared && before.Keys !! cleared
  {
    assert (after - cleared).Keys == after.Keys - cleared;
    if created - before.Keys <= cleared && before.Keys !! cleared {
      assert (after - cleared).Keys == before.Keys;
    }
  }

  // ---------------------------------------------------------------- a namespace that sorts earlier

  const VARIABLE_X := VariableRow("x", None, "X", "Double")
  const NAMESPACE_N := NamespaceRow("N", "urn:n", [], [VARIABLE_X])
  const NAMESPACE_A := NamespaceRow("A", "urn:a", [], [])

  lemma ShiftedAreValid()
    ensures ValidRows(NAMESPACE_N) && ValidRows(NAMESPACE_A)
    ensures Identifier(NAMESPACE_N, VARIABLE_X) == "N.X"
  {
    assert Ranked([], Rank(map[], 0));
  }

  lemma ShiftedIds(base: seq<string>)
    requires |base| == 2 && "urn:n" !in base && "urn:a" !in base
    ensures ValidRows(NAMESPACE_N) && ValidRows(NAMESPACE_A)
    ensures Str(3, "N.X") !in BuiltIds([NAMESPACE_A, NAMESPACE_N], base + ["urn:n", "urn:a"])
  {
    ShiftedAreValid();
    var rows, uris := [NAMESPACE_A, NAMESPACE_N], base + ["urn:n", "urn:a"];
    IndexOfUriIs(uris, "urn:n", 2);
    IndexOfUriIs(uris, "urn:a", 3);
    IdsAreStrings(JsonOfNamespace(NAMESPACE_N, 1), 2);
    var a := JsonOfNamespace(NAMESPACE_A, 0);
    assert a.objectNodes == [] && a.nodes == [];
    assert BuiltAt(rows, 0, uris) == {Str(3, "A")};
    if Str(3, "N.X") in BuiltIds(rows, uris) {
      UnionOf(BuiltSets(rows, uris), 0, Str(3, "N.X"));
    }
  }

  /** Adding namespace A before N: N's variable keeps its node at index 2, but its NodeId now names one at index 3. */
  lemma ShiftedNamespace(s: Server)
    requires |s.uris| == 2 && "urn:n" !in s.uris && "urn:a" !in s.uris && OBJECTS_FOLDER in s.nodes && Below(s.nodes, 2)
    ensures ValidRows(NAMESPACE_N) && ValidRows(NAMESPACE_A)
    ensures var r := ReloadWith(Build(s, JsonOf([NAMESPACE_N])), [NAMESPACE_A, NAMESPACE_N]);
      && NodeOf(r, NAMESPACE_N, 1, VARIABLE_X) == Str(2, "N.X") && Str(2, "N.X") in r.nodes
      && Named(NAMESPACE_N, 1, VARIABLE_X) == Str(3, "N.X") && Str(3, "N.X") !in r.nodes
  {
    ShiftedAreValid();
    var first, rows := [NAMESPACE_N], [NAMESPACE_A, NAMESPACE_N];
    var built := Build(s, JsonOf(first));
    ShiftedRun(s);
    IndexOfUriIs(s.uris + ["urn:n", "urn:a"], "urn:n", 2);
    FolderStays(built, rows);
    NamedIsBuiltIff(Clear(built, JsonOf(rows)), rows, 1, VARIABLE_X);
    VariableIdAt(NAMESPACE_N, 3, 2, VARIABLE_X);
  }

  lemma ShiftedRun(s: Server)
    requires |s.uris| == 2 && "urn:n" !in s.uris && "urn:a" !in s.uris && OBJECTS_FOLDER in s.nodes && Below(s.nodes, 2)
    ensures ValidRows(NAMESPACE_N) && ValidRows(NAMESPACE_A)
    ensures var built := Build(s, JsonOf([NAMESPACE_N]));
      var r := ReloadWith(built, [NAMESPACE_A, NAMESPACE_N]);
      && OBJECTS_FOLDER in built.nodes && r.uris == s.uris + ["urn:n", "urn:a"] && Str(3, "N.X") !in r.nodes
  {
    ShiftedAreValid();
    var rows := [NAMESPACE_A, NAMESPACE_N];
    var built := Build(s, JsonOf([NAMESPACE_N]));
    FirstBuild(s);
    ReloadNodes(built, rows);
    ShiftedUris(s.uris);
    ShiftedIds(s.uris);
  }

  lemma ShiftedUris(base: seq<string>)
    requires "urn:a" !in base
    ensures AddUris(base + ["urn:n"], [NAMESPACE_A, NAMESPACE_N], 0) == base + ["urn:n", "urn:a"]
  {
    var uris, rows := base + ["urn:n"], [NAMESPACE_A, NAMESPACE_N];
    assert uris + ["urn:a"] == base + ["urn:n", "urn:a"];
    assert AddUris(uris, rows, 0) == AddUris(uris + ["urn:a"], rows, 1);
    assert AddUris(uris + ["urn:a"], rows, 1) == AddUris(uris + ["urn:a"], rows, 2);
  }

  lemma FirstBuild(s: Server)
    requires |s.uris| == 2 && "urn:n" !in s.uris && OBJECTS_FOLDER in s.nodes && Below(s.nodes, 2)
    ensures ValidRows(NAMESPACE_N)
    ensures var built := Build(s, JsonOf([NAMESPACE_N]));
      OBJECTS_FOLDER in built.nodes && built.uris == s.uris + ["urn:n"] && Str(3, "N.X") !in built.nodes
  {
    ShiftedAreValid();
    var n := JsonOfNamespace(NAMESPACE_N, 0);
    assert JsonOf([NAMESPACE_N]) == [n];
    BuildNamespaceGrows(s, NAMESPACE_N, 0);
    IndexOfUriIs(s.uris + ["urn:n"], "urn:n", 2);
    IdsAreStrings(n, 2);
  }
}
