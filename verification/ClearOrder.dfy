/**
 * The order in which the clearer deletes nodes. A clear leaves no node without its parent
 * exactly when every node is deleted before its parent; the walk over the objects always
 * does that, the walk over the variables, which comes first, does not.
 */
module ClearOrder {
  import opened Options
  import opened ObjectForest
  import opened GeneratedConfig
  import opened AddressSpace
  import opened AddressSpaceProofs
  import NodeId

  // ---------------------------------------------------------------- a clear is a list of deletes

  function DeleteAll(s: Server, ids: seq<ServerId>): Server
    decreases |ids|
  {
    if ids == [] then s else DeleteAll(DeleteNode(s, ids[0]), ids[1..])
  }

  lemma {:induction false} DeleteAllAppend(s: Server, a: seq<ServerId>, b: seq<ServerId>)
    ensures DeleteAll(s, a + b) == DeleteAll(DeleteAll(s, a), b)
    decreases |a|
  {
    if a == [] {
      assert a + b == b;
    } else {
      assert (a + b)[0] == a[0] && (a + b)[1..] == a[1..] + b;
      DeleteAllAppend(DeleteNode(s, a[0]), a[1..], b);
    }
  }

  /** When the turn of a node comes, its children have had theirs. */
  ghost predicate ChildrenFirst(nodes: Nodes, ids: seq<ServerId>) {
    forall j, m | 0 <= j < |ids| && ids[j] in nodes && m in nodes && nodes[m] == ids[j] :: m in ids[..j + 1]
  }

  /** Nothing hangs below the id, unless it be the node itself. */
  ghost predicate Childless(nodes: Nodes, id: ServerId) {
    id in nodes ==> forall m | m in nodes && nodes[m] == id :: m == id
  }

  lemma ChildrenFirstTail(nodes: Nodes, id: ServerId, rest: seq<ServerId>)
    requires ChildrenFirst(nodes, [id] + rest)
    ensures Childless(nodes, id) && ChildrenFirst(nodes - {id}, rest)
  {
    var ids, left := [id] + rest, nodes - {id};
    forall m | id in nodes && m in nodes && nodes[m] == id ensures m == id {
      assert ids[0] == id && m in ids[..1];
    }
    forall j, m | 0 <= j < |rest| && rest[j] in left && m in left && left[m] == rest[j]
      ensures m in rest[..j + 1]
    {
      assert ids[j + 1] == rest[j] && m in ids[..j + 2];
      assert ids[..j + 2] == [id] + rest[..j + 1];
    }
  }

  lemma ChildrenFirstCons(nodes: Nodes, id: ServerId, rest: seq<ServerId>)
    requires Childless(nodes, id) && ChildrenFirst(nodes - {id}, rest)
    ensures ChildrenFirst(nodes, [id] + rest)
  {
    var ids, left := [id] + rest, nodes - {id};
    forall j, m | 0 <= j < |ids| && ids[j] in nodes && m in nodes && nodes[m] == ids[j]
      ensures m in ids[..j + 1]
    {
      assert ids[..j + 1][0] == id;
      if m != id {
        var k := j - 1;
        assert rest[k] == ids[j] && left[m] == rest[k];
        assert m in rest[..k + 1];
        assert ids[..j + 1] == [id] + rest[..k + 1];
      }
    }
  }

  lemma DeleteStrandsNoneIff(s: Server, id: ServerId)
    ensures DeleteNode(s, id).stranded == s.stranded <==> Childless(s.nodes, id)
  {
    var left := s.nodes - {id};
    assert forall m | m in s.nodes && m != id :: m in left && left[m] == s.nodes[m];
  }

  /** A list of deletes leaves no child behind if and only if children come first in it. */
  lemma {:induction false} DeletesStrandNoneIff(s: Server, ids: seq<ServerId>)
    ensures DeleteAll(s, ids).stranded >= s.stranded
    ensures DeleteAll(s, ids).stranded == s.stranded <==> ChildrenFirst(s.nodes, ids)
    decreases |ids|
  {
    if ids != [] {
      var t := DeleteNode(s, ids[0]);
      DeleteStrandsNoneIff(s, ids[0]);
      DeletesStrandNoneIff(t, ids[1..]);
      assert ids == [ids[0]] + ids[1..];
      assert t.nodes == s.nodes - {ids[0]};
      if ChildrenFirst(s.nodes, ids) {
        ChildrenFirstTail(s.nodes, ids[0], ids[1..]);
      }
      if Childless(s.nodes, ids[0]) && ChildrenFirst(t.nodes, ids[1..]) {
        ChildrenFirstCons(s.nodes, ids[0], ids[1..]);
      }
    }
  }

  /** What the clearer deletes for the variables of a namespace. */
  function VariableOrder(vs: seq<JsonVariable>): seq<ServerId> {
    if vs == [] then []
    else (if vs[0].nodeId.Some? && NodeId.Parse(vs[0].nodeId.value).Some?
          then var id := NodeId.Parse(vs[0].nodeId.value).value; [Str(id.ns, id.identifier)] else [])
         + VariableOrder(vs[1..])
  }

  function PostOrder(os: seq<JsonObject>, ns: nat): seq<ServerId>
    decreases os
  {
    if os == [] then []
    else PostOrder(os[0].children, ns)
         + (if os[0].path.Some? then [Str(ns, os[0].path.value)] else [])
         + PostOrder(os[1..], ns)
  }

  function NamespaceOrder(n: JsonNamespace, ns: nat): seq<ServerId> {
    VariableOrder(n.nodes) + PostOrder(n.objectNodes, ns) + (if n.name.Some? then [Str(ns, n.name.value)] else [])
  }

  /** All deletes of a clear, in order; namespaces the server does not know are passed over. */
  function DeleteOrder(uris: seq<string>, config: seq<JsonNamespace>): seq<ServerId> {
    if config == [] then []
    else (if config[0].uri.Some? && config[0].uri.value in uris
          then NamespaceOrder(config[0], IndexOfUri(uris, config[0].uri.value)) else [])
         + DeleteOrder(uris, config[1..])
  }

  lemma {:induction false} VariableOrderClears(s: Server, vs: seq<JsonVariable>)
    ensures ClearVariables(s, vs) == DeleteAll(s, VariableOrder(vs))
    decreases |vs|
  {
    if vs != [] {
      var t := ClearVariable(s, vs[0]);
      var rest := VariableOrder(vs[1..]);
      VariableOrderClears(t, vs[1..]);
      if vs[0].nodeId.Some? && NodeId.Parse(vs[0].nodeId.value).Some? {
        var id := NodeId.Parse(vs[0].nodeId.value).value;
        assert ([Str(id.ns, id.identifier)] + rest)[1..] == rest;
      } else {
        assert [] + rest == rest;
      }
    }
  }

  lemma {:induction false} PostOrderClears(s: Server, os: seq<JsonObject>, ns: nat)
    ensures ClearObjects(s, os, ns) == DeleteAll(s, PostOrder(os, ns))
    decreases os
  {
    if os != [] {
      var below, rest := PostOrder(os[0].children, ns), PostOrder(os[1..], ns);
      var own := if os[0].path.Some? then [Str(ns, os[0].path.value)] else [];
      PostOrderClears(s, os[0].children, ns);
      PostOrderClears(ClearObject(s, os[0], ns), os[1..], ns);
      DeleteAllAppend(s, below, own);
      DeleteAllAppend(s, below + own, rest);
      assert os[0].path.Some? ==> own[1..] == [];
    }
  }

  lemma NamespaceOrderClears(s: Server, n: JsonNamespace, ns: nat)
    requires n.uri.Some? && n.uri.value in s.uris && ns == IndexOfUri(s.uris, n.uri.value)
    ensures ClearNamespace(s, n) == DeleteAll(s, NamespaceOrder(n, ns))
  {
    var vs, os := VariableOrder(n.nodes), PostOrder(n.objectNodes, ns);
    var root := if n.name.Some? then [Str(ns, n.name.value)] else [];
    VariableOrderClears(s, n.nodes);
    PostOrderClears(ClearVariables(s, n.nodes), n.objectNodes, ns);
    DeleteAllAppend(s, vs, os);
    DeleteAllAppend(s, vs + os, root);
    assert n.name.Some? ==> root[1..] == [];
  }

  lemma {:induction false} DeletesKeepUris(s: Server, ids: seq<ServerId>)
    ensures DeleteAll(s, ids).uris == s.uris
    decreases |ids|
  {
    if ids != [] {
      DeletesKeepUris(DeleteNode(s, ids[0]), ids[1..]);
    }
  }

  lemma {:induction false} DeleteOrderClears(s: Server, config: seq<JsonNamespace>)
    ensures Clear(s, config) == DeleteAll(s, DeleteOrder(s.uris, config))
    decreases |config|
  {
    if config != [] {
      var t, rest := ClearNamespace(s, config[0]), DeleteOrder(s.uris, config[1..]);
      DeleteOrderClears(t, config[1..]);
      if config[0].uri.Some? && config[0].uri.value in s.uris {
        var ids := NamespaceOrder(config[0], IndexOfUri(s.uris, config[0].uri.value));
        NamespaceOrderClears(s, config[0], IndexOfUri(s.uris, config[0].uri.value));
        DeletesKeepUris(s, ids);
        DeleteAllAppend(s, ids, rest);
      } else {
        assert [] + rest == rest;
      }
    }
  }

  /**
   * For any server and any configuration, whatever its names: clearing leaves no child
   * behind if and only if the clearer's delete order has every node before its parent.
   */
  lemma ClearStrandsNoneIff(s: Server, config: seq<JsonNamespace>)
    ensures Clear(s, config).stranded == s.stranded <==> ChildrenFirst(s.nodes, DeleteOrder(s.uris, config))
  {
    DeleteOrderClears(s, config);
    DeletesStrandNoneIff(s, DeleteOrder(s.uris, config));
  }

  // ---------------------------------------------------------------- trees in the server

  function RootIds(os: seq<JsonObject>, ns: nat): set<ServerId> {
    if os == [] then {} else {ObjectId(os[0], ns)} + RootIds(os[1..], ns)
  }

  lemma RootsAreIds(os: seq<JsonObject>, ns: nat)
    requires forall o | o in os :: Full(o)
    ensures RootIds(os, ns) <= ObjectIds(os, ns)
  {
    if os != [] {
      assert os[0] in os && Full(os[0]);
      RootsAreIds(os[1..], ns);
    }
  }

  /** No id occurs twice in the object trees. */
  ghost predicate NoRepeats(os: seq<JsonObject>, ns: nat)
    decreases os
  {
    os == [] ||
    (var o, rest := os[0], os[1..];
     && ObjectId(o, ns) !in ObjectIds(o.children, ns) + ObjectIds(rest, ns)
     && ObjectIds(o.children, ns) !! ObjectIds(rest, ns)
     && NoRepeats(o.children, ns) && NoRepeats(rest, ns))
  }

  /** In the server, the children of each tree node are its tree children, or are in `extra`. */
  ghost predicate Owned(nodes: Nodes, os: seq<JsonObject>, ns: nat, extra: set<ServerId>)
    decreases os
  {
    os == [] ||
    (var o, rest := os[0], os[1..];
     && (forall n | n in nodes && nodes[n] == ObjectId(o, ns) :: n in RootIds(o.children, ns) + extra)
     && Owned(nodes, o.children, ns, extra) && Owned(nodes, rest, ns, extra))
  }

  /** `Owned` looks only at the nodes whose parents are in the trees. */
  lemma {:induction false} OwnedFrame(nodes: Nodes, nodes': Nodes, os: seq<JsonObject>, ns: nat,
                                      extra: set<ServerId>, extra': set<ServerId>)
    requires forall o | o in os :: Full(o)
    requires Owned(nodes, os, ns, extra) && extra <= extra'
    requires forall n | n in nodes' && nodes'[n] in ObjectIds(os, ns) ::
      (n in nodes && nodes[n] == nodes'[n]) || n in extra'
    ensures Owned(nodes', os, ns, extra')
    decreases os
  {
    if os != [] {
      assert os[0] in os && Full(os[0]);
      OwnedFrame(nodes, nodes', os[0].children, ns, extra, extra');
      OwnedFrame(nodes, nodes', os[1..], ns, extra, extra');
    }
  }

  /** Variables that have been deleted need no mention. */
  lemma {:induction false} OwnedWithout(nodes: Nodes, os: seq<JsonObject>, ns: nat, extra: set<ServerId>)
    requires Owned(nodes, os, ns, extra)
    ensures Owned(nodes - extra, os, ns, {})
    decreases os
  {
    if os != [] {
      OwnedWithout(nodes, os[0].children, ns, extra);
      OwnedWithout(nodes, os[1..], ns, extra);
    }
  }

  // ---------------------------------------------------------------- post-order is safe

  /** Clearing owned trees in post-order strands no child. */
  lemma {:induction false} PostOrderStrandsNone(s: Server, os: seq<JsonObject>, ns: nat)
    requires forall o | o in os :: Full(o)
    requires Owned(s.nodes, os, ns, {})
    ensures ClearObjects(s, os, ns).stranded == s.stranded
    decreases os
  {
    if os != [] {
      var o := os[0];
      assert o in os && Full(o);
      PostOrderStrandsNone(s, o.children, ns);
      ClearObjectsRemoves(s, o.children, ns);
      RootsAreIds(o.children, ns);
      var t := ClearObjects(s, o.children, ns);
      assert forall n | n in t.nodes :: t.nodes[n] != ObjectId(o, ns);
      var u := ClearObject(s, o, ns);
      OwnedFrame(s.nodes, u.nodes, os[1..], ns, {}, {});
      PostOrderStrandsNone(u, os[1..], ns);
    }
  }

  // ---------------------------------------------------------------- building makes trees owned

  /** Building trees of new ids gives each node exactly its tree children. */
  lemma {:induction false} BuildOwns(s: Server, os: seq<JsonObject>, parent: ServerId, ns: nat)
    requires forall o | o in os :: Full(o)
    requires NoRepeats(os, ns) && parent in s.nodes && parent !in ObjectIds(os, ns)
    requires ObjectIds(os, ns) !! s.nodes.Keys
    requires forall n | n in s.nodes :: s.nodes[n] !in ObjectIds(os, ns)
    ensures var r := BuildObjects(s, os, parent, ns);
      && Owned(r.nodes, os, ns, {})
      && (forall n | n in r.nodes && n !in s.nodes :: r.nodes[n] in {parent} + ObjectIds(os, ns))
      && (forall n | n in r.nodes && n !in s.nodes && r.nodes[n] == parent :: n in RootIds(os, ns))
    decreases os
  {
    if os != [] {
      var o, rest := os[0], os[1..];
      assert o in os && Full(o);
      var id := ObjectId(o, ns);
      var added := AddNode(s, id, parent);
      BuildObjectsGrows(added, o.children, id, ns);
      BuildOwns(added, o.children, id, ns);
      var t := BuildObject(s, o, parent, ns);
      BuildObjectsGrows(t, rest, parent, ns);
      BuildOwns(t, rest, parent, ns);
      var r := BuildObjects(t, rest, parent, ns);
      assert forall n | n in t.nodes && t.nodes[n] == id :: n in RootIds(o.children, ns);
      OwnedFrame(t.nodes, r.nodes, o.children, ns, {}, {});
    }
  }

  // ---------------------------------------------------------------- one namespace in the server

  /** Below the objects and the root of a namespace hang its own nodes, in tree order, and its variables. */
  ghost predicate Hung(nodes: Nodes, n: JsonNamespace, ns: nat) {
    var variables := VariableIds(n.nodes, ns);
    && Owned(nodes, n.objectNodes, ns, variables)
    && (forall m | m in nodes && nodes[m] == RootId(n, ns) :: m in variables + RootIds(n.objectNodes, ns))
  }

  lemma HungFrame(nodes: Nodes, nodes': Nodes, n: JsonNamespace, ns: nat)
    requires n.name.Some? && Hung(nodes, n, ns)
    requires forall o | o in n.objectNodes :: Full(o)
    requires forall m | m in nodes' && nodes'[m] in NamespaceIds(n, ns) :: m in nodes && nodes[m] == nodes'[m]
    ensures Hung(nodes', n, ns)
  {
    OwnedFrame(nodes, nodes', n.objectNodes, ns, VariableIds(n.nodes, ns), VariableIds(n.nodes, ns));
  }

  lemma {:induction false} VariableOrderIs(vs: seq<JsonVariable>, ns: nat)
    requires Consistent(vs, ns)
    ensures |VariableOrder(vs)| == |vs|
    ensures forall j | 0 <= j < |vs| :: VariableOrder(vs)[j] == VariableId(vs[j], ns)
    decreases |vs|
  {
    if vs != [] {
      assert vs[0] in vs;
      VariableOrderIs(vs[1..], ns);
    }
  }

  /** Clearing the objects and the root of a namespace whose variables are gone strands no child. */
  lemma ObjectsStrandNone(s: Server, n: JsonNamespace, ns: nat)
    requires n.name.Some? && Hung(s.nodes, n, ns) && forall o | o in n.objectNodes :: Full(o)
    ensures var t := s.(nodes := s.nodes - VariableIds(n.nodes, ns));
      DeleteNode(ClearObjects(t, n.objectNodes, ns), RootId(n, ns)).stranded == s.stranded
  {
    var t := s.(nodes := s.nodes - VariableIds(n.nodes, ns));
    OwnedWithout(s.nodes, n.objectNodes, ns, VariableIds(n.nodes, ns));
    PostOrderStrandsNone(t, n.objectNodes, ns);
    ClearObjectsRemoves(t, n.objectNodes, ns);
    RootsAreIds(n.objectNodes, ns);
    var u := ClearObjects(t, n.objectNodes, ns);
    assert forall m | m in u.nodes :: u.nodes[m] != RootId(n, ns);
  }

  /** So of a namespace, only the variables can strand a child: those whose id another node has as its parent. */
  lemma NamespaceStrandsIff(s: Server, row: NamespaceRow, i: nat)
    requires ValidRows(row) && i + 2 <= NodeId.MAX_NAMESPACE
    requires row.uri in s.uris && IndexOfUri(s.uris, row.uri) == i + 2
    requires Hung(s.nodes, JsonOfNamespace(row, i), i + 2)
    ensures var r := ClearNamespace(s, JsonOfNamespace(row, i));
      && r.stranded >= s.stranded
      && (r.stranded == s.stranded <==> ChildrenFirst(s.nodes, VariableOrder(JsonOfNamespace(row, i).nodes)))
  {
    var n, ns := JsonOfNamespace(row, i), i + 2;
    GeneratedIsConsistent(row, i);
    ClearVariablesRemoves(s, n.nodes, ns);
    VariableOrderClears(s, n.nodes);
    DeletesStrandNoneIff(s, VariableOrder(n.nodes));
    var t := ClearVariables(s, n.nodes);
    var u := s.(stranded := t.stranded);
    assert t == u.(nodes := u.nodes - VariableIds(n.nodes, ns));
    ObjectsStrandNone(u, n, ns);
  }

  /** No two objects of the namespace have one id, and none has the id of its root. */
  ghost predicate DistinctObjects(n: JsonNamespace, ns: nat) {
    && NoRepeats(n.objectNodes, ns)
    && RootId(n, ns) !in ObjectIds(n.objectNodes, ns)
  }

  lemma {:induction false} VariablesGoUnder(s: Server, vs: seq<JsonVariable>, ns: nat, parents: set<ServerId>)
    requires forall v | v in vs && Creatable(v) :: VariableParent(v, ns) in s.nodes && VariableParent(v, ns) in parents
    ensures var r := BuildVariables(s, vs, ns);
      forall n | n in r.nodes && n !in s.nodes :: r.nodes[n] in parents
    decreases vs
  {
    if vs != [] {
      var t := BuildVariable(s, vs[0], ns);
      VariablesGoUnder(t, vs[1..], ns, parents);
      forall n | n in BuildVariables(s, vs, ns).nodes && n !in s.nodes
        ensures BuildVariables(s, vs, ns).nodes[n] in parents
      {
        if n in t.nodes {
          BuildVariablesGrows(t, vs[1..], ns);
        }
      }
    }
  }

  /** The objects of a new namespace are owned, and hang below its root. */
  lemma BuildObjectsHung(s: Server, n: JsonNamespace, ns: nat)
    requires n.name.Some? && OBJECTS_FOLDER in s.nodes
    requires forall o | o in n.objectNodes :: Full(o)
    requires DistinctObjects(n, ns)
    requires forall m | m in s.nodes :: m !in NamespaceIds(n, ns) && s.nodes[m] !in NamespaceIds(n, ns)
    ensures var root, os := RootId(n, ns), n.objectNodes;
      var r := BuildObjects(AddNode(s, root, OBJECTS_FOLDER), os, root, ns);
      && Owned(r.nodes, os, ns, {})
      && (forall m | m in r.nodes && m !in s.nodes :: r.nodes[m] in {OBJECTS_FOLDER, root} + ObjectIds(os, ns))
      && (forall m | m in r.nodes && r.nodes[m] == root :: m in RootIds(os, ns))
      && (forall m | m in s.nodes :: m in r.nodes && r.nodes[m] == s.nodes[m])
      && r.nodes.Keys == s.nodes.Keys + {root} + ObjectIds(os, ns)
  {
    var root := RootId(n, ns);
    var rooted := AddNode(s, root, OBJECTS_FOLDER);
    BuildObjectsGrows(rooted, n.objectNodes, root, ns);
    BuildOwns(rooted, n.objectNodes, root, ns);
  }

  lemma BuildVariablesHung(objects: Server, row: NamespaceRow, i: nat)
    requires ValidRows(row) && OBJECTS_FOLDER in objects.nodes
    requires var n, ns := JsonOfNamespace(row, i), i + 2;
      var root, os := RootId(n, ns), n.objectNodes;
      && Owned(objects.nodes, os, ns, {})
      && {root} + ObjectIds(os, ns) <= objects.nodes.Keys
      && (forall m | m in objects.nodes && objects.nodes[m] == root :: m in RootIds(os, ns))
    ensures var n, ns := JsonOfNamespace(row, i), i + 2;
      var r := BuildVariables(objects, n.nodes, ns);
      && Hung(r.nodes, n, ns)
      && (forall m | m in r.nodes && m !in objects.nodes ::
           r.nodes[m] in {OBJECTS_FOLDER, RootId(n, ns)} + ObjectIds(n.objectNodes, ns))
      && (forall m | m in objects.nodes :: m in r.nodes && r.nodes[m] == objects.nodes[m])
  {
    var n, ns := JsonOfNamespace(row, i), i + 2;
    var root, os := RootId(n, ns), n.objectNodes;
    GeneratedParentsBuilt(row, i, ns);
    BuildVariablesGrows(objects, n.nodes, ns);
    VariablesGoUnder(objects, n.nodes, ns, {OBJECTS_FOLDER, root} + ObjectIds(os, ns));
    TreesAreFull(ForestOf(row.objectNodes, row.name));
    var r := BuildVariables(objects, n.nodes, ns);
    OwnedFrame(objects.nodes, r.nodes, os, ns, {}, VariableIds(n.nodes, ns));
  }

  // ---------------------------------------------------------------- ids carry their namespace

  lemma {:induction false} ObjectIdsAreStrings(os: seq<JsonObject>, ns: nat)
    ensures forall id | id in ObjectIds(os, ns) :: id.Str? && id.ns == ns
    decreases os
  {
    if os != [] {
      ObjectIdsAreStrings(os[0].children, ns);
      ObjectIdsAreStrings(os[1..], ns);
    }
  }

  lemma {:induction false} VariableIdsAreStrings(vs: seq<JsonVariable>, ns: nat)
    ensures forall id | id in VariableIds(vs, ns) :: id.Str? && id.ns == ns
  {
    if vs != [] {
      VariableIdsAreStrings(vs[1..], ns);
    }
  }

  lemma IdsAreStrings(n: JsonNamespace, ns: nat)
    ensures forall id | id in NamespaceIds(n, ns) :: id.Str? && id.ns == ns
  {
    ObjectIdsAreStrings(n.objectNodes, ns);
    VariableIdsAreStrings(n.nodes, ns);
  }

  /** The id belongs to the stack, or to a namespace before the given index. */
  predicate IdBelow(id: ServerId, ns: nat) {
    id.Str? ==> id.ns < ns
  }

  ghost predicate Below(nodes: Nodes, ns: nat) {
    forall m | m in nodes :: IdBelow(m, ns) && IdBelow(nodes[m], ns)
  }
}
