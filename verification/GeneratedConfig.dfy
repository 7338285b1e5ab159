/** The configuration file between the two processes: what the generator writes into it. */
module GeneratedConfig {
  import opened Options
  import opened ObjectForest
  import ConfigGenerator
  import NodeId

  // ---------------------------------------------------------------- the JSON document

  /** Each field may be missing, or not be of the type the runtime expects. */
  datatype JsonObject = JsonObject(name: Option<string>, path: Option<string>, children: seq<JsonObject>)
  datatype JsonVariable = JsonVariable(name: Option<string>, nodeId: Option<string>,
                                       dataType: Option<string>, parentPath: Option<string>)
  datatype JsonNamespace = JsonNamespace(name: Option<string>, uri: Option<string>,
                                         objectNodes: seq<JsonObject>, nodes: seq<JsonVariable>)

  // ---------------------------------------------------------------- the database rows

  /** A variable row; its object node may be absent, or in another namespace. */
  datatype VariableRow = VariableRow(id: Id, objectNode: Option<Id>, name: string, dataType: string)
  /** A namespace with the rows its queries return. */
  datatype NamespaceRow = NamespaceRow(name: string, uri: string, objectNodes: seq<Row>, variables: seq<VariableRow>)

  ghost predicate ValidRows(ns: NamespaceRow) {
    UniqueIds(ns.objectNodes) && Acyclic(ns.objectNodes)
  }

  // ---------------------------------------------------------------- what is generated

  ghost function ParentPath(ns: NamespaceRow, v: VariableRow): string
    requires ValidRows(ns)
  {
    PathOfRef(ns.objectNodes, ns.name, RankOf(ns.objectNodes), v.objectNode)
  }

  ghost function Identifier(ns: NamespaceRow, v: VariableRow): string
    requires ValidRows(ns)
  {
    ParentPath(ns, v) + [DOT] + v.name
  }

  ghost function JsonOfVariable(ns: NamespaceRow, index: nat, v: VariableRow): JsonVariable
    requires ValidRows(ns)
  {
    JsonVariable(Some(v.name), Some(NodeId.Print(NodeId.StringId(index, Identifier(ns, v)))),
                 Some(v.dataType), Some(ParentPath(ns, v)))
  }

  ghost function JsonOfTree(t: Tree): JsonObject {
    JsonObject(Some(t.name), Some(t.path), JsonOfTrees(t.children))
  }

  ghost function JsonOfTrees(ts: seq<Tree>): (os: seq<JsonObject>)
    ensures |os| == |ts|
  {
    if ts == [] then [] else [JsonOfTree(ts[0])] + JsonOfTrees(ts[1..])
  }

  /** The namespace at place `i` of the list ordered by name; custom indices start at 2. */
  ghost function JsonOfNamespace(ns: NamespaceRow, i: nat): JsonNamespace
    requires ValidRows(ns)
  {
    JsonNamespace(Some(ns.name), Some(ns.uri), JsonOfTrees(ForestOf(ns.objectNodes, ns.name)),
                  seq(|ns.variables|, k requires 0 <= k < |ns.variables| => JsonOfVariable(ns, i + 2, ns.variables[k])))
  }

  ghost function JsonOf(nss: seq<NamespaceRow>): seq<JsonNamespace>
    requires forall ns | ns in nss :: ValidRows(ns)
  {
    seq(|nss|, i requires 0 <= i < |nss| => JsonOfNamespace(nss[i], i))
  }

  /** What is printed of a variable: its name and type, its parent's path, and a NodeId below that path. */
  lemma VariableIsPrinted(ns: NamespaceRow, index: nat, v: VariableRow)
    requires ValidRows(ns)
    ensures var j := JsonOfVariable(ns, index, v);
      && j.name == Some(v.name) && j.dataType == Some(v.dataType) && j.parentPath.Some?
      && j.nodeId == Some("ns=" + NodeId.Decimal(index) + ";s=" + j.parentPath.value + "." + v.name)
      && j.parentPath.value == PathOfRef(ns.objectNodes, ns.name, RankOf(ns.objectNodes), v.objectNode)
  {
    var path := ParentPath(ns, v);
    var printed := "ns=" + NodeId.Decimal(index) + ";s=";
    assert printed + (path + "." + v.name) == printed + path + "." + v.name;
  }

  /** What is printed of a namespace and of each object: name, URI or path, and what is inside, in order. */
  lemma NamespaceIsPrinted(ns: NamespaceRow, i: nat, t: Tree, k: nat)
    requires ValidRows(ns)
    ensures var n := JsonOfNamespace(ns, i);
      && n.name == Some(ns.name) && n.uri == Some(ns.uri) && |n.nodes| == |ns.variables|
      && (k < |n.nodes| ==> n.nodes[k] == JsonOfVariable(ns, i + 2, ns.variables[k]))
      && n.objectNodes == JsonOfTrees(ForestOf(ns.objectNodes, ns.name))
    ensures var o := JsonOfTree(t);
      && o.name == Some(t.name) && o.path == Some(t.path) && |o.children| == |t.children|
      && (k < |t.children| ==> o.children[k] == JsonOfTree(t.children[k]))
  {
    TreesInOrder(t.children, k);
  }

  lemma {:induction false} TreesInOrder(ts: seq<Tree>, k: nat)
    ensures k < |ts| ==> JsonOfTrees(ts)[k] == JsonOfTree(ts[k])
    decreases k
  {
    if 0 < k < |ts| {
      TreesInOrder(ts[1..], k - 1);
    }
  }

  /** `buildNodes`: the variables of one namespace, each below its object node or the namespace. */
  method BuildNodes(ns: NamespaceRow, nsIndex: nat) returns (nodes: seq<JsonVariable>)
    requires ValidRows(ns)
    ensures |nodes| == |ns.variables|
    ensures forall k | 0 <= k < |nodes| :: nodes[k] == JsonOfVariable(ns, nsIndex, ns.variables[k])
  {
    nodes := [];
    for k := 0 to |ns.variables|
      invariant |nodes| == k
      invariant forall j | 0 <= j < k :: nodes[j] == JsonOfVariable(ns, nsIndex, ns.variables[j])
    {
      var v := ns.variables[k];
      var parentPath := ns.name;
      if v.objectNode.Some? {
        parentPath := ConfigGenerator.ComputeObjectNodePath(v.objectNode.value, ns.objectNodes, ns.name);
      }
      var nodeId := NodeId.Print(NodeId.StringId(nsIndex, parentPath + "." + v.name));
      nodes := nodes + [JsonVariable(Some(v.name), Some(nodeId), Some(v.dataType), Some(parentPath))];
    }
  }
}
