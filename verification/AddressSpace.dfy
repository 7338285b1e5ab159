/**
 * The runtime's address space: how the builder and the clearer change the server's node
 * set when they walk a configuration.
 */
module AddressSpace {
  import opened Options
  import opened GeneratedConfig
  import NodeId

  datatype ServerId = Numeric(ns: nat, number: nat) | Str(ns: nat, s: string)

  const OBJECTS_FOLDER := Numeric(0, 85)

  /** Each node with its parent. */
  type Nodes = map<ServerId, ServerId>

  /**
   * The server as far as the walks see it: its namespace table, its nodes with their
   * parents, how many adds named an unknown parent, and how many deletes left a child.
   */
  datatype Server = Server(uris: seq<string>, nodes: Nodes, orphans: nat, stranded: nat)

  // ---------------------------------------------------------------- the server's operations

  function IndexOfUri(uris: seq<string>, uri: string): (i: nat)
    ensures i <= |uris| && (i < |uris| ==> uris[i] == uri)
    ensures uri in uris <==> i < |uris|
  {
    if uris == [] || uris[0] == uri then 0 else 1 + IndexOfUri(uris[1..], uri)
  }

  function AddNamespace(s: Server, uri: string): Server {
    if uri in s.uris then s else s.(uris := s.uris + [uri])
  }

  function AddNode(s: Server, id: ServerId, parent: ServerId): Server {
    if parent !in s.nodes then s.(orphans := s.orphans + 1)
    else if id in s.nodes then s
    else s.(nodes := s.nodes[id := parent])
  }

  function DeleteNode(s: Server, id: ServerId): Server {
    if id !in s.nodes then s
    else
      var left := s.nodes - {id};
      s.(nodes := left, stranded := s.stranded + if exists n :: n in left && left[n] == id then 1 else 0)
  }

  // ---------------------------------------------------------------- building

  /** The path is the id if there is one, otherwise the name; objects without a name are skipped. */
  function ObjectId(o: JsonObject, ns: nat): ServerId {
    Str(ns, if o.path.Some? then o.path.value else if o.name.Some? then o.name.value else "")
  }

  /** Pre-order: a node, then its children, then its later siblings. */
  function BuildObjects(s: Server, os: seq<JsonObject>, parent: ServerId, ns: nat): Server
    decreases os
  {
    if os == [] then s
    else BuildObjects(BuildObject(s, os[0], parent, ns), os[1..], parent, ns)
  }

  function BuildObject(s: Server, o: JsonObject, parent: ServerId, ns: nat): Server
    decreases o
  {
    if o.name.None? then s
    else BuildObjects(AddNode(s, ObjectId(o, ns), parent), o.children, ObjectId(o, ns), ns)
  }

  function VariableParent(v: JsonVariable, ns: nat): ServerId {
    if v.parentPath.Some? && v.parentPath.value != "" then Str(ns, v.parentPath.value) else OBJECTS_FOLDER
  }

  /** The registered index counts, not the printed one. */
  function VariableId(v: JsonVariable, ns: nat): ServerId
    requires v.name.Some?
  {
    if v.nodeId.Some? && v.nodeId.value != "" then
      if NodeId.Parse(v.nodeId.value).Some? then
        NodeId.StrStrAgrees(v.nodeId.value);
        Str(ns, v.nodeId.value[NodeId.StrStr(v.nodeId.value, ";s=").value + 3..])
      else Str(ns, v.nodeId.value)
    else Str(ns, v.name.value)
  }

  function BuildVariable(s: Server, v: JsonVariable, ns: nat): Server {
    if v.name.None? || v.dataType.None? then s
    else AddNode(s, VariableId(v, ns), VariableParent(v, ns))
  }

  function BuildVariables(s: Server, vs: seq<JsonVariable>, ns: nat): Server
    decreases vs
  {
    if vs == [] then s else BuildVariables(BuildVariable(s, vs[0], ns), vs[1..], ns)
  }

  function BuildNamespace(s: Server, n: JsonNamespace): Server {
    if n.uri.None? then s
    else
      var t := AddNamespace(s, n.uri.value);
      var ns := IndexOfUri(t.uris, n.uri.value);
      var rooted := if n.name.Some? then AddNode(t, Str(ns, n.name.value), OBJECTS_FOLDER) else t;
      var root := if n.name.Some? then Str(ns, n.name.value) else OBJECTS_FOLDER;
      BuildVariables(BuildObjects(rooted, n.objectNodes, root, ns), n.nodes, ns)
  }

  function Build(s: Server, config: seq<JsonNamespace>): Server
    decreases config
  {
    if config == [] then s else Build(BuildNamespace(s, config[0]), config[1..])
  }

  // ---------------------------------------------------------------- clearing

  /** Post-order: the children, then the node, then its later siblings. */
  function ClearObjects(s: Server, os: seq<JsonObject>, ns: nat): Server
    decreases os
  {
    if os == [] then s else ClearObjects(ClearObject(s, os[0], ns), os[1..], ns)
  }

  function ClearObject(s: Server, o: JsonObject, ns: nat): Server
    decreases o
  {
    var t := ClearObjects(s, o.children, ns);
    if o.path.Some? then DeleteNode(t, Str(ns, o.path.value)) else t
  }

  /** Here the printed index counts. */
  function ClearVariable(s: Server, v: JsonVariable): Server {
    if v.nodeId.Some? && NodeId.Parse(v.nodeId.value).Some? then
      var id := NodeId.Parse(v.nodeId.value).value;
      DeleteNode(s, Str(id.ns, id.identifier))
    else s
  }

  function ClearVariables(s: Server, vs: seq<JsonVariable>): Server
    decreases vs
  {
    if vs == [] then s else ClearVariables(ClearVariable(s, vs[0]), vs[1..])
  }

  function ClearNamespace(s: Server, n: JsonNamespace): Server {
    if n.uri.None? || n.uri.value !in s.uris then s
    else
      var ns := IndexOfUri(s.uris, n.uri.value);
      var t := ClearObjects(ClearVariables(s, n.nodes), n.objectNodes, ns);
      if n.name.Some? then DeleteNode(t, Str(ns, n.name.value)) else t
  }

  function Clear(s: Server, config: seq<JsonNamespace>): Server
    decreases config
  {
    if config == [] then s else Clear(ClearNamespace(s, config[0]), config[1..])
  }

  // ---------------------------------------------------------------- the C code

  /** The handle of the OPC UA stack. */
  class UaServer {
    var uris: seq<string>
    var nodes: map<ServerId, ServerId>
    ghost var orphans: nat
    ghost var stranded: nat

    ghost function View(): Server
      reads this
    {
      Server(uris, nodes, orphans, stranded)
    }

    constructor (uris: seq<string>, nodes: map<ServerId, ServerId>)
      ensures View() == Server(uris, nodes, 0, 0)
    {
      this.uris, this.nodes, orphans, stranded := uris, nodes, 0, 0;
    }

    method RegisterNamespace(uri: string) returns (index: nat)
      modifies this
      ensures View() == AddNamespace(old(View()), uri)
      ensures uri in uris && index == IndexOfUri(uris, uri)
    {
      if uri !in uris {
        uris := uris + [uri];
      }
      index := IndexOfUri(uris, uri);
    }

    /** `UA_Server_addObjectNode` and `UA_Server_addVariableNode`. */
    method Add(id: ServerId, parent: ServerId) returns (good: bool)
      modifies this
      ensures View() == AddNode(old(View()), id, parent)
      ensures good <==> parent in old(nodes) && id !in old(nodes)
    {
      if parent !in nodes {
        orphans := orphans + 1;
        return false;
      }
      if id in nodes {
        return false;
      }
      nodes := nodes[id := parent];
      return true;
    }

    /** `UA_Server_deleteNode`, without relying on it to delete a subtree. */
    method Delete(id: ServerId) returns (good: bool)
      modifies this
      ensures View() == DeleteNode(old(View()), id)
      ensures good <==> id in old(nodes)
    {
      if id !in nodes {
        return false;
      }
      nodes := nodes - {id};
      stranded := stranded + if exists n :: n in nodes && nodes[n] == id then 1 else 0;
      return true;
    }
  }

  method CreateObjectNodesRecursive(server: UaServer, objectNodes: seq<JsonObject>, parentId: ServerId, nsIndex: nat)
    modifies server
    ensures server.View() == BuildObjects(old(server.View()), objectNodes, parentId, nsIndex)
    decreases objectNodes
  {
    for i := 0 to |objectNodes|
      invariant BuildObjects(server.View(), objectNodes[i..], parentId, nsIndex)
             == BuildObjects(old(server.View()), objectNodes, parentId, nsIndex)
    {
      var objNode := objectNodes[i];
      assert objectNodes[i..][0] == objNode && objectNodes[i..][1..] == objectNodes[i + 1..];
      if objNode.name.None? {
        continue;
      }
      ghost var before := server.View();
      var nodeIdStr := if objNode.path.Some? then objNode.path.value else objNode.name.value;
      var objNodeId := Str(nsIndex, nodeIdStr);
      var status := server.Add(objNodeId, parentId);
      if |objNode.children| > 0 {
        CreateObjectNodesRecursive(server, objNode.children, objNodeId, nsIndex);
      }
      assert server.View() == BuildObject(before, objNode, parentId, nsIndex);
    }
  }

  method CreateVariableNode(server: UaServer, v: JsonVariable, nsIndex: nat)
    modifies server
    ensures server.View() == BuildVariable(old(server.View()), v, nsIndex)
  {
    if v.name.None? || v.dataType.None? {
      return;
    }
    var parentId := OBJECTS_FOLDER;
    if v.parentPath.Some? && |v.parentPath.value| > 0 {
      parentId := Str(nsIndex, v.parentPath.value);
    }
    var variableId := Str(nsIndex, v.name.value);
    if v.nodeId.Some? && |v.nodeId.value| > 0 {
      var parsed := NodeId.ParseNodeIdString(v.nodeId, NodeId.LEAST_ULONG_MAX);
      if parsed.Some? {
        NodeId.StrStrAgrees(v.nodeId.value);
        var semi := NodeId.StrStr(v.nodeId.value, ";s=").value;
        variableId := Str(nsIndex, v.nodeId.value[semi + 3..]);
      } else {
        variableId := Str(nsIndex, v.nodeId.value);
      }
    }
    var status := server.Add(variableId, parentId);
  }

  method AddressSpaceBuild(server: UaServer, namespaces: seq<JsonNamespace>)
    modifies server
    ensures server.View() == Build(old(server.View()), namespaces)
  {
    for i := 0 to |namespaces|
      invariant Build(server.View(), namespaces[i..]) == Build(old(server.View()), namespaces)
    {
      var nsItem := namespaces[i];
      assert namespaces[i..][0] == nsItem && namespaces[i..][1..] == namespaces[i + 1..];
      if nsItem.uri.None? {
        continue;
      }
      BuildOneNamespace(server, nsItem);
    }
  }

  method BuildOneNamespace(server: UaServer, nsItem: JsonNamespace)
    requires nsItem.uri.Some?
    modifies server
    ensures server.View() == BuildNamespace(old(server.View()), nsItem)
  {
    var nsIndex := server.RegisterNamespace(nsItem.uri.value);
    var nsRootId := OBJECTS_FOLDER;
    if nsItem.name.Some? {
      nsRootId := Str(nsIndex, nsItem.name.value);
      var status := server.Add(nsRootId, OBJECTS_FOLDER);
    }
    CreateObjectNodesRecursive(server, nsItem.objectNodes, nsRootId, nsIndex);
    ghost var built := server.View();
    for k := 0 to |nsItem.nodes|
      invariant BuildVariables(server.View(), nsItem.nodes[k..], nsIndex)
             == BuildVariables(built, nsItem.nodes, nsIndex)
    {
      assert nsItem.nodes[k..][0] == nsItem.nodes[k] && nsItem.nodes[k..][1..] == nsItem.nodes[k + 1..];
      CreateVariableNode(server, nsItem.nodes[k], nsIndex);
    }
  }

  method DeleteObjectNodesRecursive(server: UaServer, nodesArray: seq<JsonObject>, nsIndex: nat)
    modifies server
    ensures server.View() == ClearObjects(old(server.View()), nodesArray, nsIndex)
    decreases nodesArray
  {
    for i := 0 to |nodesArray|
      invariant ClearObjects(server.View(), nodesArray[i..], nsIndex)
             == ClearObjects(old(server.View()), nodesArray, nsIndex)
    {
      var objNode := nodesArray[i];
      assert nodesArray[i..][0] == objNode && nodesArray[i..][1..] == nodesArray[i + 1..];
      DeleteObjectNodesRecursive(server, objNode.children, nsIndex);
      if objNode.path.Some? {
        var status := server.Delete(Str(nsIndex, objNode.path.value));
      }
    }
  }

  method AddressSpaceClear(server: UaServer, namespaces: seq<JsonNamespace>)
    modifies server
    ensures server.View() == Clear(old(server.View()), namespaces)
  {
    for i := 0 to |namespaces|
      invariant Clear(server.View(), namespaces[i..]) == Clear(old(server.View()), namespaces)
    {
      var nsItem := namespaces[i];
      assert namespaces[i..][0] == nsItem && namespaces[i..][1..] == namespaces[i + 1..];
      if nsItem.uri.None? || nsItem.uri.value !in server.uris {
        continue;
      }
      ClearOneNamespace(server, nsItem);
    }
  }

  method ClearOneNamespace(server: UaServer, nsItem: JsonNamespace)
    requires nsItem.uri.Some? && nsItem.uri.value in server.uris
    modifies server
    ensures server.View() == ClearNamespace(old(server.View()), nsItem)
  {
    var nsIndex := IndexOfUri(server.uris, nsItem.uri.value);
    ghost var before := server.View();
    for k := 0 to |nsItem.nodes|
      invariant ClearVariables(server.View(), nsItem.nodes[k..]) == ClearVariables(before, nsItem.nodes)
    {
      var node := nsItem.nodes[k];
      assert nsItem.nodes[k..][0] == node && nsItem.nodes[k..][1..] == nsItem.nodes[k + 1..];
      if node.nodeId.None? {
        continue;
      }
      var parsed := NodeId.ParseNodeIdString(node.nodeId, NodeId.LEAST_ULONG_MAX);
      if parsed.Some? {
        var status := server.Delete(Str(parsed.value.ns, parsed.value.identifier));
      }
    }
    DeleteObjectNodesRecursive(server, nsItem.objectNodes, nsIndex);
    if nsItem.name.Some? {
      var status := server.Delete(Str(nsIndex, nsItem.name.value));
    }
  }
  // ---------------------------------------------------------------- documents that are not generated

  /** An object without a name adds nothing, nor do its children; one without a path has its name as id. */
  lemma ObjectForms(s: Server, path: Option<string>, name: string, children: seq<JsonObject>, parent: ServerId, ns: nat)
    ensures BuildObject(s, JsonObject(None, path, children), parent, ns) == s
    ensures var id := Str(ns, if path.Some? then path.value else name);
      BuildObject(s, JsonObject(Some(name), path, children), parent, ns)
      == BuildObjects(AddNode(s, id, parent), children, id, ns)
    ensures ClearObject(s, JsonObject(Some(name), None, children), ns) == ClearObjects(s, children, ns)
  {
  }

  /** A variable without a usable NodeId has its NodeId's text as id, or its name; it needs a name and a type. */
  lemma VariableForms(s: Server, name: string, nodeId: string, dataType: string, ns: nat)
    requires NodeId.Parse(nodeId).None?
    ensures BuildVariable(s, JsonVariable(None, Some(nodeId), Some(dataType), None), ns) == s
    ensures BuildVariable(s, JsonVariable(Some(name), Some(nodeId), None, None), ns) == s
    ensures BuildVariable(s, JsonVariable(Some(name), None, Some(dataType), None), ns)
         == AddNode(s, Str(ns, name), Numeric(0, 85))
    ensures BuildVariable(s, JsonVariable(Some(name), Some(nodeId), Some(dataType), Some("")), ns)
         == AddNode(s, Str(ns, if nodeId == "" then name else nodeId), Numeric(0, 85))
    ensures ClearVariable(s, JsonVariable(Some(name), Some(nodeId), Some(dataType), None)) == s
    ensures ClearVariable(s, JsonVariable(Some(name), None, Some(dataType), None)) == s
  {
  }

  /** A namespace without a URI is passed over, and one without a name has no object of its own. */
  lemma NamespaceForms(s: Server, n: JsonNamespace, uri: string)
    ensures n.uri.None? ==> BuildNamespace(s, n) == s && ClearNamespace(s, n) == s
    ensures n.uri == Some(uri) && uri !in s.uris ==> ClearNamespace(s, n) == s
    ensures n.uri == Some(uri) && n.name.None? && uri in s.uris ==>
      var ns := IndexOfUri(s.uris, uri);
      && BuildNamespace(s, n) == BuildVariables(BuildObjects(s, n.objectNodes, Numeric(0, 85), ns), n.nodes, ns)
      && ClearNamespace(s, n) == ClearObjects(ClearVariables(s, n.nodes), n.objectNodes, ns)
  {
  }

  /** What the server does: an add needs a parent and a new id, and changes no other node; so does a delete. */
  lemma ServerDoes(s: Server, id: ServerId, parent: ServerId)
    ensures var t := AddNode(s, id, parent);
      && t.uris == s.uris && t.stranded == s.stranded
      && t.orphans == s.orphans + (if parent in s.nodes then 0 else 1)
      && t.nodes == (if parent in s.nodes && id !in s.nodes then s.nodes[id := parent] else s.nodes)
    ensures var t := DeleteNode(s, id);
      && t.uris == s.uris && t.orphans == s.orphans && t.nodes == s.nodes - {id}
      && (t.stranded == s.stranded <==> id !in s.nodes || forall n | n in s.nodes && n != id :: s.nodes[n] != id)
  {
    var left := s.nodes - {id};
    if id !in s.nodes {
      assert left == s.nodes;
    } else if n :| n in s.nodes && n != id && s.nodes[n] == id {
      assert n in left && left[n] == id;
    }
  }
}
