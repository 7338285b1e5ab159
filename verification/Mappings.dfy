/**
 * The connector repository's mappings: one device address and at most one node each, kept
 * unique by the repository's checks and by what is left of the table's constraints. A
 * check whose lookup throws passes, and then only the constraints are left.
 */
module Mappings {
  import opened Options
  import opened ObjectForest
  import opened ReadCache

  /** A row of `mappings`; after migration 5 the node may be absent. */
  datatype Mapping = Mapping(connection: Id, node: Option<string>, address: string)

  /** The protocol of a connection, and the host its parameters name, if any. */
  datatype Endpoint = Endpoint(kind: string, host: Option<string>)

  /**
   * The tables. A new database has the mapping table of `schema.sql`, where each mapping names
   * a node and no two the same; the next start runs migration 5 and drops both constraints.
   */
  datatype Tables = Tables(connections: map<Id, Endpoint>, nodes: map<Id, Id>, mappings: map<Id, Mapping>,
                           migrated: bool)

  /** Which uncached lookups go wrong: of the node, of the node's mapping, of the address's mapping. */
  datatype Lookups = Lookups(node: bool, holder: bool, address: bool)

  /** Which database calls go wrong: the cached read at the beginning, the lookups, the write at the end. */
  datatype Failing = Failing(read: bool, lookups: Lookups, write: bool)

  const ALL_WELL := Failing(false, Lookups(false, false, false), false)

  /** `node` is absent for both undefined and null, and may be the empty string. */
  datatype CreateRequest = CreateRequest(connection: string, node: Option<string>, address: string)

  datatype Change = Keep | Clear | To(text: string)
  datatype UpdateRequest = UpdateRequest(address: Option<string>, node: Change)

  /** A result value, or an exception from the database. */
  datatype Outcome = Done(id: Id) | NotFound | DuplicateError | Thrown

  // ---------------------------------------------------------------- invariant

  ghost predicate UniqueAddresses(m: map<Id, Mapping>) {
    forall a, b | a in m && b in m && a != b && m[a].connection == m[b].connection :: m[a].address != m[b].address
  }

  ghost predicate UniqueNodes(m: map<Id, Mapping>) {
    forall a, b | a in m && b in m && a != b && m[a].node.Some? :: m[a].node != m[b].node
  }

  /** The foreign keys. */
  ghost predicate RefsExist(t: Tables) {
    forall a | a in t.mappings ::
      t.mappings[a].connection in t.connections
      && (t.mappings[a].node.Some? ==> t.mappings[a].node.value in t.nodes)
  }

  ghost predicate Consistent(t: Tables) {
    UniqueAddresses(t.mappings) && UniqueNodes(t.mappings) && RefsExist(t)
  }

  // ---------------------------------------------------------------- the table's own constraints

  predicate AddressTaken(m: map<Id, Mapping>, connection: string, address: string, except: Option<Id>) {
    exists a: Id :: a in m && except != Some(a) && m[a].connection == connection && m[a].address == address
  }

  predicate NodeTaken(m: map<Id, Mapping>, node: string, except: Option<Id>) {
    exists a: Id :: a in m && except != Some(a) && m[a].node.Some? && m[a].node.value == node
  }

  /** The foreign keys, UNIQUE(connection_id, device_address); before the migration, NOT NULL and UNIQUE(node_id). */
  predicate Accepts(t: Tables, id: Id, connection: string, node: Option<string>, address: string) {
    && connection in t.connections
    && (node.Some? ==> node.value in t.nodes)
    && !AddressTaken(t.mappings, connection, address, Some(id))
    && (t.migrated || (node.Some? && !NodeTaken(t.mappings, node.value, Some(id))))
  }

  function Stored(t: Tables, id: Id, connection: string, node: Option<string>, address: string): Tables
    requires Accepts(t, id, connection, node, address)
  {
    t.(mappings := t.mappings[id := Mapping(connection, node, address)])
  }

  // ---------------------------------------------------------------- the operations

  /** The error of the first check that fails. */
  function CreateRefusal(t: Tables, r: CreateRequest, f: Lookups): Option<Outcome> {
    if r.node.Some? && r.node.value != "" && (f.node || r.node.value !in t.nodes) then Some(NotFound)
    else if r.node.Some? && r.node.value != "" && !f.holder && NodeTaken(t.mappings, r.node.value, None) then
      Some(DuplicateError)
    else if !f.address && AddressTaken(t.mappings, r.connection, r.address, None) then Some(DuplicateError)
    else None
  }

  function Create(t: Tables, newId: Id, r: CreateRequest, f: Failing): (Tables, Outcome) {
    if f.read then (t, Thrown)
    else if r.connection !in t.connections then (t, NotFound)
    else if CreateRefusal(t, r, f.lookups).Some? then (t, CreateRefusal(t, r, f.lookups).value)
    else if f.write || !Accepts(t, newId, r.connection, r.node, r.address) then (t, Thrown)
    else (Stored(t, newId, r.connection, r.node, r.address), Done(newId))
  }

  function NewAddress(row: Mapping, r: UpdateRequest): string {
    if r.address.Some? then r.address.value else row.address
  }

  function NewNode(row: Mapping, r: UpdateRequest): Option<string> {
    match r.node
    case Keep => row.node
    case Clear => None
    case To(s) => Some(s)
  }

  function UpdateRefusal(t: Tables, id: Id, row: Mapping, r: UpdateRequest, f: Lookups): Option<Outcome> {
    var newNode := r.node.To? && r.node.text != "" && row.node != Some(r.node.text);
    if newNode && (f.node || r.node.text !in t.nodes) then Some(NotFound)
    else if newNode && !f.holder && NodeTaken(t.mappings, r.node.text, Some(id)) then Some(DuplicateError)
    else if r.address.Some? && r.address.value != "" && r.address.value != row.address
            && !f.address && AddressTaken(t.mappings, row.connection, r.address.value, Some(id)) then
      Some(DuplicateError)
    else None
  }

  function Update(t: Tables, id: Id, r: UpdateRequest, f: Failing): (Tables, Outcome) {
    if f.read then (t, Thrown)
    else if id !in t.mappings then (t, NotFound)
    else
      var refusal := UpdateRefusal(t, id, t.mappings[id], r, f.lookups);
      if refusal.Some? then (t, refusal.value) else Replace(t, id, t.mappings[id], r, f.write)
  }

  /** The UPDATE statement. */
  function Replace(t: Tables, id: Id, row: Mapping, r: UpdateRequest, throws: bool): (Tables, Outcome) {
    if throws || !Accepts(t, id, row.connection, NewNode(row, r), NewAddress(row, r)) then (t, Thrown)
    else (Stored(t, id, row.connection, NewNode(row, r), NewAddress(row, r)), Done(id))
  }

  function Delete(t: Tables, id: Id, f: Failing): (Tables, Outcome) {
    if f.read then (t, Thrown)
    else if id !in t.mappings then (t, NotFound)
    else if f.write then (t, Thrown)
    else (t.(mappings := t.mappings - {id}), Done(id))
  }

  /** Deleting a connection or a node cascades to its mappings. */
  function DeleteConnection(t: Tables, connection: Id): Tables {
    t.(connections := t.connections - {connection},
       mappings := map a | a in t.mappings && t.mappings[a].connection != connection :: t.mappings[a])
  }

  function DeleteNode(t: Tables, node: string): Tables {
    t.(nodes := t.nodes - {node},
       mappings := map a | a in t.mappings && t.mappings[a].node != Some(node) :: t.mappings[a])
  }

  // ---------------------------------------------------------------- when the operations keep the invariant

  /**
   * The node has a mapping, but the lookup that would say so throws, and neither the
   * table nor anything else stands in the way of the insert.
   */
  predicate CreateShares(t: Tables, r: CreateRequest, f: Failing) {
    && t.migrated && f.lookups.holder && !f.lookups.node && !f.read && !f.write
    && r.node.Some? && r.node.value in t.nodes && NodeTaken(t.mappings, r.node.value, None)
    && r.connection in t.connections && !AddressTaken(t.mappings, r.connection, r.address, None)
  }

  predicate UpdateShares(t: Tables, id: Id, r: UpdateRequest, f: Failing) {
    && t.migrated && f.lookups.holder && !f.lookups.node && !f.read && !f.write
    && id in t.mappings && r.node.To? && r.node.text in t.nodes && NodeTaken(t.mappings, r.node.text, Some(id))
    && !AddressTaken(t.mappings, t.mappings[id].connection, NewAddress(t.mappings[id], r), Some(id))
  }

  /** A row the table accepts keeps the invariant exactly when no other row has its node. */
  lemma StoreKeepsConsistentIff(t: Tables, id: Id, connection: string, node: Option<string>, address: string)
    requires Consistent(t) && Accepts(t, id, connection, node, address)
    ensures var t' := Stored(t, id, connection, node, address);
      && RefsExist(t') && UniqueAddresses(t'.mappings)
      && (UniqueNodes(t'.mappings) <==> (node.Some? ==> !NodeTaken(t.mappings, node.value, Some(id))))
  {
    var m := Stored(t, id, connection, node, address).mappings;
    if node.Some? && NodeTaken(t.mappings, node.value, Some(id)) {
      var a: Id :| a in t.mappings && Some(id) != Some(a) && t.mappings[a].node.Some?
                   && t.mappings[a].node.value == node.value;
      assert a in m && id in m && m[a].node == m[id].node;
    }
  }

  /** Whatever is asked, even with empty names: a create stores a second mapping of a node only so. */
  lemma CreateKeepsConsistentIff(t: Tables, newId: Id, r: CreateRequest, f: Failing)
    requires Consistent(t) && newId !in t.mappings
    ensures Consistent(Create(t, newId, r, f).0) <==> !CreateShares(t, r, f)
    ensures CreateShares(t, r, f) ==> !UniqueNodes(Create(t, newId, r, f).0.mappings)
    ensures !Create(t, newId, r, f).1.Done? ==> Create(t, newId, r, f).0 == t
  {
    if Accepts(t, newId, r.connection, r.node, r.address) {
      StoreKeepsConsistentIff(t, newId, r.connection, r.node, r.address);
      assert AddressTaken(t.mappings, r.connection, r.address, None)
        <==> AddressTaken(t.mappings, r.connection, r.address, Some(newId));
      assert r.node.Some? ==>
        (NodeTaken(t.mappings, r.node.value, None) <==> NodeTaken(t.mappings, r.node.value, Some(newId)));
    }
  }

  lemma UpdateKeepsConsistentIff(t: Tables, id: Id, r: UpdateRequest, f: Failing)
    requires Consistent(t)
    ensures Consistent(Update(t, id, r, f).0) <==> !UpdateShares(t, id, r, f)
    ensures !Update(t, id, r, f).1.Done? ==> Update(t, id, r, f).0 == t
  {
    if id in t.mappings {
      var row := t.mappings[id];
      if Accepts(t, id, row.connection, NewNode(row, r), NewAddress(row, r)) {
        StoreKeepsConsistentIff(t, id, row.connection, NewNode(row, r), NewAddress(row, r));
      }
    }
  }

  lemma DeletesKeepConsistent(t: Tables, id: Id, f: Failing)
    requires Consistent(t)
    ensures Consistent(Delete(t, id, f).0) && Consistent(DeleteConnection(t, id)) && Consistent(DeleteNode(t, id))
  {
  }

  // ---------------------------------------------------------------- what the operations do, row by row

  /** No mapping but `except` has the node. */
  ghost predicate NodeFree(m: map<Id, Mapping>, node: string, except: Id) {
    forall a | a in m && a != except :: m[a].node != Some(node)
  }

  ghost predicate AddressFree(m: map<Id, Mapping>, connection: string, address: string, except: Id) {
    forall a | a in m && a != except && m[a].connection == connection :: m[a].address != address
  }

  /** Such a row can be there under the id: references, NOT NULL and the uniqueness of nodes and addresses. */
  ghost predicate RowFits(t: Tables, id: Id, row: Mapping) {
    && row.connection in t.connections
    && (row.node.Some? ==> row.node.value in t.nodes && NodeFree(t.mappings, row.node.value, id))
    && (row.node.None? ==> t.migrated)
    && AddressFree(t.mappings, row.connection, row.address, id)
  }

  /** The row under the id is this one, and nothing else is different. */
  ghost predicate OnlyRow(t: Tables, t': Tables, id: Id, row: Mapping) {
    && t'.connections == t.connections && t'.nodes == t.nodes && t'.migrated == t.migrated
    && t'.mappings.Keys == t.mappings.Keys + {id} && t'.mappings[id] == row
    && forall a | a in t.mappings && a != id :: t'.mappings[a] == t.mappings[a]
  }

  /** A create that is done has stored exactly what was asked for; any other changes nothing. */
  lemma CreateStores(t: Tables, newId: Id, r: CreateRequest, f: Failing)
    requires newId !in t.mappings
    ensures var (t', o) := Create(t, newId, r, f);
      if o.Done? then o.id == newId && OnlyRow(t, t', newId, Mapping(r.connection, r.node, r.address)) else t' == t
  {
  }

  /** When all calls go well, a create is done exactly when the row fits, and each error has its reason. */
  lemma CreateOutcomes(t: Tables, newId: Id, r: CreateRequest)
    requires newId !in t.mappings
    ensures var o := Create(t, newId, r, ALL_WELL).1;
      var nodeMissing := r.node.Some? && r.node.value != "" && r.node.value !in t.nodes;
      && (r.connection in t.connections ==>
            (o.Done? <==> RowFits(t, newId, Mapping(r.connection, r.node, r.address))))
      && (o.NotFound? <==> r.connection !in t.connections || nodeMissing)
      && (o.DuplicateError? <==>
            && r.connection in t.connections && !nodeMissing
            && ((r.node.Some? && r.node.value != "" && !NodeFree(t.mappings, r.node.value, newId))
                || !AddressFree(t.mappings, r.connection, r.address, newId)))
  {
    TakenIffNotFree(t.mappings, r.connection, if r.node.Some? then r.node.value else "", r.address, newId);
    assert r.node == Some("") ==> r.node.value !in t.nodes;
  }

  lemma TakenIffNotFree(m: map<Id, Mapping>, connection: string, node: string, address: string, id: Id)
    ensures NodeTaken(m, node, Some(id)) <==> !NodeFree(m, node, id)
    ensures AddressTaken(m, connection, address, Some(id)) <==> !AddressFree(m, connection, address, id)
    ensures id !in m ==> (NodeTaken(m, node, None) <==> NodeTaken(m, node, Some(id)))
    ensures id !in m ==>
      (AddressTaken(m, connection, address, None) <==> AddressTaken(m, connection, address, Some(id)))
  {
  }

  /** The row that an update asks for: only the fields provided are changed. */
  ghost predicate Asked(was: Mapping, r: UpdateRequest, row: Mapping) {
    && row.connection == was.connection
    && row.address == (if r.address.Some? then r.address.value else was.address)
    && row.node == match r.node case Keep => was.node case Clear => None case To(text) => Some(text)
  }

  /** An update that is done has changed only its row, and only as asked; any other changes nothing. */
  lemma UpdateStores(t: Tables, id: Id, r: UpdateRequest, f: Failing)
    ensures var (t', o) := Update(t, id, r, f);
      && (o.Done? ==> o.id == id && id in t.mappings && id in t'.mappings)
      && (o.Done? ==> Asked(t.mappings[id], r, t'.mappings[id]) && OnlyRow(t, t', id, t'.mappings[id]))
      && (!o.Done? ==> t' == t)
  {
  }

  /** When all calls go well, an update of a mapping is done exactly when the row asked for fits. */
  lemma UpdateOutcomes(t: Tables, id: Id, r: UpdateRequest, row: Mapping)
    requires Consistent(t) && (t.migrated || forall a | a in t.mappings :: t.mappings[a].node.Some?)
    requires id in t.mappings && Asked(t.mappings[id], r, row)
    ensures Update(t, id, r, ALL_WELL).1.Done? <==> RowFits(t, id, row)
  {
    TakenIffNotFree(t.mappings, row.connection, if row.node.Some? then row.node.value else "", row.address, id);
  }

  /** Why an update is refused when all calls go well. */
  lemma UpdateErrors(t: Tables, id: Id, r: UpdateRequest)
    requires Consistent(t)
    ensures var o := Update(t, id, r, ALL_WELL).1;
      var moves := id in t.mappings && r.node.To? && r.node.text != "" && t.mappings[id].node != Some(r.node.text);
      var readdresses := id in t.mappings && r.address.Some? && r.address.value != "";
      && (o.NotFound? <==> id !in t.mappings || (moves && r.node.text !in t.nodes))
      && (o.DuplicateError? <==>
            || (moves && r.node.text in t.nodes && !NodeFree(t.mappings, r.node.text, id))
            || (readdresses && (moves ==> r.node.text in t.nodes)
                && !AddressFree(t.mappings, t.mappings[id].connection, r.address.value, id)))
  {
    if id in t.mappings {
      TakenIffNotFree(t.mappings, t.mappings[id].connection, if r.node.To? then r.node.text else "",
                      if r.address.Some? then r.address.value else "", id);
    }
  }

  /** A delete that is done has taken out its row and nothing else. */
  lemma DeleteStores(t: Tables, id: Id, f: Failing)
    ensures var (t', o) := Delete(t, id, f);
      && (o.Done? ==> t'.mappings.Keys == t.mappings.Keys - {id} && id in t.mappings)
      && (!o.Done? ==> t' == t)
      && t'.connections == t.connections && t'.nodes == t.nodes && t'.migrated == t.migrated
      && (forall a | a in t'.mappings :: a in t.mappings && t'.mappings[a] == t.mappings[a])
    ensures Delete(t, id, ALL_WELL).1 == if id in t.mappings then Done(id) else NotFound
  {
  }

  /** Deleting a connection or a node takes exactly its mappings along. */
  lemma CascadesAre(t: Tables, gone: Id)
    ensures var t' := DeleteConnection(t, gone);
      && t'.connections.Keys == t.connections.Keys - {gone} && t'.nodes == t.nodes && t'.migrated == t.migrated
      && (forall a :: a in t'.mappings <==> a in t.mappings && t.mappings[a].connection != gone)
      && (forall a | a in t'.mappings :: t'.mappings[a] == t.mappings[a])
    ensures var t' := DeleteNode(t, gone);
      && t'.nodes.Keys == t.nodes.Keys - {gone} && t'.connections == t.connections && t'.migrated == t.migrated
      && (forall a :: a in t'.mappings <==>
            a in t.mappings && (t.mappings[a].node.Some? ==> t.mappings[a].node.value != gone))
      && (forall a | a in t'.mappings :: t'.mappings[a] == t.mappings[a])
  {
  }

  /** The table itself accepts a second mapping of a node, on any connection, if and only if it has been migrated. */
  lemma TableAllowsSharedNode(t: Tables, id: Id, other: Id, connection: Id, node: string, address: string)
    requires Consistent(t) && other in t.mappings && t.mappings[other].node == Some(node) && id !in t.mappings
    requires connection in t.connections && !AddressTaken(t.mappings, connection, address, None)
    ensures Accepts(t, id, connection, Some(node), address) <==> t.migrated
    ensures t.migrated ==> !UniqueNodes(Stored(t, id, connection, Some(node), address).mappings)
  {
    assert NodeTaken(t.mappings, node, Some(id));
    if t.migrated {
      var m := Stored(t, id, connection, Some(node), address).mappings;
      assert m[id].node == m[other].node;
    }
  }

  // ---------------------------------------------------------------- bulk create

  datatype BulkResult = BulkResult(created: seq<Id>, errors: seq<(nat, Outcome)>, thrown: bool)

  /** The result of the requests from the i-th on, from the outcome of the i-th and the result of the others. */
  function FirstThen(i: nat, o: Outcome, more: BulkResult): BulkResult {
    if o.Done? then more.(created := [o.id] + more.created) else more.(errors := [(i, o)] + more.errors)
  }

  /** One `createMapping` after the other, starting at request `i`, until one throws. */
  function CreateAll(t: Tables, ids: seq<Id>, rs: seq<CreateRequest>, fs: seq<Failing>, i: nat): (Tables, BulkResult)
    requires |ids| == |rs| == |fs| && i <= |rs|
    decreases |rs| - i
  {
    if i == |rs| then (t, BulkResult([], [], false))
    else
      var (t1, o) := Create(t, ids[i], rs[i], fs[i]);
      if o.Thrown? then (t1, BulkResult([], [], true))
      else
        var (t2, more) := CreateAll(t1, ids, rs, fs, i + 1);
        (t2, FirstThen(i, o, more))
  }

  predicate FreshIds(t: Tables, ids: seq<Id>, i: nat)
    requires i <= |ids|
  {
    && (forall j | i <= j < |ids| :: ids[j] !in t.mappings)
    && (forall j, k | i <= j < k < |ids| :: ids[j] != ids[k])
  }

  /** The rows there were, unchanged, and the created ones. */
  ghost predicate Adds(m: map<Id, Mapping>, m': map<Id, Mapping>, created: seq<Id>) {
    && m'.Keys == m.Keys + (set c | c in created)
    && forall a | a in m :: m'[a] == m[a]
  }

  lemma AddsTwice(m: map<Id, Mapping>, m1: map<Id, Mapping>, m2: map<Id, Mapping>, c1: seq<Id>, c2: seq<Id>)
    requires Adds(m, m1, c1) && Adds(m1, m2, c2)
    ensures Adds(m, m2, c1 + c2)
  {
  }

  lemma CreateAdds(t: Tables, newId: Id, r: CreateRequest, f: Failing)
    requires newId !in t.mappings
    ensures var (t', o) := Create(t, newId, r, f);
      Adds(t.mappings, t'.mappings, if o.Done? then [o.id] else []) && (o.Done? ==> o.id == newId)
  {
  }

  /** Bulk creation only adds rows, under its own new ids, even when it throws. */
  lemma {:induction false} BulkOnlyAdds(t: Tables, ids: seq<Id>, rs: seq<CreateRequest>, fs: seq<Failing>, i: nat)
    requires |ids| == |rs| == |fs| && i <= |rs| && FreshIds(t, ids, i)
    ensures var (t', b) := CreateAll(t, ids, rs, fs, i);
      Adds(t.mappings, t'.mappings, b.created) && forall c | c in b.created :: c in ids[i..]
    decreases |rs| - i
  {
    if i < |rs| {
      var (t1, o) := Create(t, ids[i], rs[i], fs[i]);
      CreateAdds(t, ids[i], rs[i], fs[i]);
      if !o.Thrown? {
        FreshAfter(t, ids, rs, fs, i);
        BulkOnlyAdds(t1, ids, rs, fs, i + 1);
        var (t2, more) := CreateAll(t1, ids, rs, fs, i + 1);
        AddsTwice(t.mappings, t1.mappings, t2.mappings, if o.Done? then [o.id] else [], more.created);
        assert [] + more.created == more.created;
      }
    }
  }

  lemma FreshAfterOne(t: Tables, ids: seq<Id>, i: nat, r: CreateRequest, f: Failing)
    requires i < |ids| && FreshIds(t, ids, i)
    ensures FreshIds(Create(t, ids[i], r, f).0, ids, i + 1)
  {
    CreateAdds(t, ids[i], r, f);
  }

  lemma FreshAfter(t: Tables, ids: seq<Id>, rs: seq<CreateRequest>, fs: seq<Failing>, i: nat)
    requires |ids| == |rs| == |fs| && i < |rs| && FreshIds(t, ids, i)
    ensures FreshIds(Create(t, ids[i], rs[i], fs[i]).0, ids, i + 1)
  {
  }

  predicate ErrorsInOrder(e: seq<(nat, Outcome)>, from: nat, to: nat) {
    && (forall j | 0 <= j < |e| :: from <= e[j].0 < to && (e[j].1.NotFound? || e[j].1.DuplicateError?))
    && (forall j, k | 0 <= j < k < |e| :: e[j].0 < e[k].0)
  }

  /** Errors are reported in order, under the index of the request they belong to. */
  lemma {:induction false} BulkErrorsInOrder(t: Tables, ids: seq<Id>, rs: seq<CreateRequest>, fs: seq<Failing>, i: nat)
    requires |ids| == |rs| == |fs| && i <= |rs|
    ensures ErrorsInOrder(CreateAll(t, ids, rs, fs, i).1.errors, i, |rs|)
    decreases |rs| - i
  {
    if i < |rs| {
      var (t1, o) := Create(t, ids[i], rs[i], fs[i]);
      if !o.Thrown? {
        BulkErrorsInOrder(t1, ids, rs, fs, i + 1);
        var more := CreateAll(t1, ids, rs, fs, i + 1).1.errors;
        assert ErrorsInOrder(more, i, |rs|);
        if !o.Done? {
          assert ErrorsInOrder([(i, o)] + more, i, |rs|);
        }
      }
    }
  }

  predicate ReportedAsError(b: BulkResult, j: nat) {
    exists e :: e in b.errors && e.0 == j
  }

  /** The requests from the i-th on are split: each is created, or else reported. */
  ghost predicate Split(ids: seq<Id>, i: nat, b: BulkResult)
    requires i <= |ids|
  {
    && |b.created| + |b.errors| == |ids| - i
    && (forall c | c in b.created :: c in ids[i..])
    && ErrorsInOrder(b.errors, i, |ids|)
    && (forall j | i <= j < |ids| :: ids[j] in b.created <==> !ReportedAsError(b, j))
  }

  lemma SplitFirst(ids: seq<Id>, i: nat, o: Outcome, more: BulkResult)
    requires i < |ids| && (forall j | i < j < |ids| :: ids[j] != ids[i]) && Split(ids, i + 1, more)
    requires o.NotFound? || o.DuplicateError? || o == Done(ids[i])
    ensures Split(ids, i, FirstThen(i, o, more))
  {
    var b := FirstThen(i, o, more);
    assert ids[i..] == [ids[i]] + ids[i + 1..];
    assert forall j | i < j < |ids| :: ReportedAsError(b, j) <==> ReportedAsError(more, j) by {
      assert forall e | e in more.errors :: e in b.errors;
    }
    if !o.Done? {
      assert (i, o) in b.errors;
      assert ids[i] !in more.created;
    }
  }

  /**
   * When nothing throws, every request is reported exactly once: created, under its own
   * new id, or else as an error under its own index.
   */
  lemma {:induction false} BulkSplitsRequests(t: Tables, ids: seq<Id>, rs: seq<CreateRequest>, fs: seq<Failing>, i: nat)
    requires |ids| == |rs| == |fs| && i <= |rs| && FreshIds(t, ids, i)
    requires !CreateAll(t, ids, rs, fs, i).1.thrown
    ensures Split(ids, i, CreateAll(t, ids, rs, fs, i).1)
    decreases |rs| - i
  {
    if i < |rs| {
      var (t1, o) := Create(t, ids[i], rs[i], fs[i]);
      FreshAfter(t, ids, rs, fs, i);
      BulkSplitsRequests(t1, ids, rs, fs, i + 1);
      SplitFirst(ids, i, o, CreateAll(t1, ids, rs, fs, i + 1).1);
    }
  }

  /** These ids, in order, without those that are not among the chosen. */
  function Chosen(ids: seq<Id>, chosen: set<Id>): seq<Id> {
    if ids == [] then [] else (if ids[0] in chosen then [ids[0]] else []) + Chosen(ids[1..], chosen)
  }

  lemma {:induction false} ChosenMore(ids: seq<Id>, id: Id, chosen: set<Id>)
    requires id !in ids
    ensures Chosen(ids, chosen + {id}) == Chosen(ids, chosen)
  {
    if ids != [] {
      ChosenMore(ids[1..], id, chosen);
    }
  }

  /** What is created comes in the order of the requests. */
  lemma {:induction false} BulkCreatesInOrder(t: Tables, ids: seq<Id>, rs: seq<CreateRequest>, fs: seq<Failing>, i: nat)
    requires |ids| == |rs| == |fs| && i <= |rs| && FreshIds(t, ids, i)
    ensures var created := CreateAll(t, ids, rs, fs, i).1.created;
      created == Chosen(ids[i..], set c | c in created)
    decreases |rs| - i
  {
    if i == |rs| {
      assert ids[i..] == [];
    } else {
      var (t1, o) := Create(t, ids[i], rs[i], fs[i]);
      assert ids[i..][0] == ids[i] && ids[i..][1..] == ids[i + 1..];
      CreateAdds(t, ids[i], rs[i], fs[i]);
      if o.Thrown? {
        var created := CreateAll(t, ids, rs, fs, i).1.created;
        assert created == [] && (set c | c in created) == {};
        NoneChosen(ids[i..]);
      } else {
        FreshAfter(t, ids, rs, fs, i);
        BulkCreatesInOrder(t1, ids, rs, fs, i + 1);
        BulkOnlyAdds(t1, ids, rs, fs, i + 1);
        ChosenFirst(ids, i, o, CreateAll(t1, ids, rs, fs, i + 1).1.created);
      }
    }
  }

  lemma {:induction false} NoneChosen(ids: seq<Id>)
    ensures Chosen(ids, {}) == []
  {
    if ids != [] {
      NoneChosen(ids[1..]);
    }
  }

  lemma ChosenFirst(ids: seq<Id>, i: nat, o: Outcome, more: seq<Id>)
    requires i < |ids| && ids[i] !in ids[i + 1..] && (forall c | c in more :: c in ids[i + 1..])
    requires more == Chosen(ids[i + 1..], set c | c in more) && (o.Done? ==> o.id == ids[i])
    ensures var all := (if o.Done? then [o.id] else []) + more;
      all == Chosen(ids[i..], set c | c in all)
  {
    var all := (if o.Done? then [o.id] else []) + more;
    assert ids[i..][0] == ids[i] && ids[i..][1..] == ids[i + 1..];
    if o.Done? {
      ChosenMore(ids[i + 1..], ids[i], set c | c in more);
      assert (set c | c in all) == (set c | c in more) + {ids[i]};
    } else {
      assert all == more;
    }
  }

  /** An exception is that of one request: all before it are created or reported, and none behind it is looked at. */
  lemma {:induction false} BulkEndsAtException(t: Tables, ids: seq<Id>, rs: seq<CreateRequest>, fs: seq<Failing>,
                                               i: nat)
    requires |ids| == |rs| == |fs| && i <= |rs|
    ensures var (t', b) := CreateAll(t, ids, rs, fs, i);
      b.thrown ==> exists j ::
        && i <= j < |rs| && |b.created| + |b.errors| == j - i
        && Create(t', ids[j], rs[j], fs[j]) == (t', Thrown)
    ensures var b := CreateAll(t, ids, rs, fs, i).1;
      !b.thrown ==> |b.created| + |b.errors| == |rs| - i
    decreases |rs| - i
  {
    if i < |rs| {
      var (t1, o) := Create(t, ids[i], rs[i], fs[i]);
      if !o.Thrown? {
        BulkEndsAtException(t1, ids, rs, fs, i + 1);
      }
    }
  }

  function Prefixed(created: seq<Id>, errors: seq<(nat, Outcome)>, b: BulkResult): BulkResult {
    BulkResult(created + b.created, errors + b.errors, b.thrown)
  }

  /** The outcome of the i-th request, behind what the requests before it have brought. */
  lemma PrefixedNext(created: seq<Id>, errors: seq<(nat, Outcome)>, i: nat, o: Outcome, more: BulkResult)
    ensures Prefixed(created, errors, FirstThen(i, o, more))
      == if o.Done? then Prefixed(created + [o.id], errors, more) else Prefixed(created, errors + [(i, o)], more)
  {
    if o.Done? {
      assert created + ([o.id] + more.created) == (created + [o.id]) + more.created;
    } else {
      assert errors + ([(i, o)] + more.errors) == (errors + [(i, o)]) + more.errors;
    }
  }

  /** The requests that `fs` is given for, one after the other, as the loop goes. */
  function CreateFirst(t: Tables, ids: seq<Id>, rs: seq<CreateRequest>, fs: seq<Failing>): (Tables, BulkResult)
    requires |ids| == |rs| && |fs| <= |rs|
    decreases |fs|
  {
    if fs == [] then (t, BulkResult([], [], false))
    else
      var i := |fs| - 1;
      var (t1, b) := CreateFirst(t, ids, rs, fs[..i]);
      if b.thrown then (t1, b)
      else
        var (t2, o) := Create(t1, ids[i], rs[i], fs[i]);
        (t2, Then(b, i, o))
  }

  /** A result, and the outcome of the next request. */
  function Then(b: BulkResult, i: nat, o: Outcome): BulkResult {
    if o.Thrown? then b.(thrown := true)
    else if o.Done? then b.(created := b.created + [o.id])
    else b.(errors := b.errors + [(i, o)])
  }

  lemma FirstNext(t: Tables, ids: seq<Id>, rs: seq<CreateRequest>, fs: seq<Failing>, f: Failing)
    requires |ids| == |rs| && |fs| < |rs| && !CreateFirst(t, ids, rs, fs).1.thrown
    ensures var (now, b) := CreateFirst(t, ids, rs, fs);
      var (next, o) := Create(now, ids[|fs|], rs[|fs|], f);
      CreateFirst(t, ids, rs, fs + [f]) == (next, Then(b, |fs|, o))
  {
    assert (fs + [f])[..|fs|] == fs;
  }

  /** The ids of the requests to come are still new. */
  lemma {:induction false} FreshAfterFirst(t: Tables, ids: seq<Id>, rs: seq<CreateRequest>, fs: seq<Failing>)
    requires |ids| == |rs| && |fs| <= |rs| && FreshIds(t, ids, 0)
    ensures FreshIds(CreateFirst(t, ids, rs, fs).0, ids, |fs|)
    decreases |fs|
  {
    if fs != [] {
      var i := |fs| - 1;
      FreshAfterFirst(t, ids, rs, fs[..i]);
      FreshAfterOne(CreateFirst(t, ids, rs, fs[..i]).0, ids, i, rs[i], fs[i]);
    }
  }

  /** After an exception nothing more is done. */
  lemma {:induction false} ThrownStays(t: Tables, ids: seq<Id>, rs: seq<CreateRequest>, fs: seq<Failing>,
                                       more: seq<Failing>)
    requires |ids| == |rs| && |fs| + |more| <= |rs| && CreateFirst(t, ids, rs, fs).1.thrown
    ensures CreateFirst(t, ids, rs, fs + more) == CreateFirst(t, ids, rs, fs)
    decreases |more|
  {
    if more == [] {
      assert fs + more == fs;
    } else {
      ThrownStays(t, ids, rs, fs, more[..|more| - 1]);
      assert (fs + more)[..|fs + more| - 1] == fs + more[..|more| - 1];
    }
  }

  /** The bulk is its first requests, and then the others, unless one of the first has thrown. */
  lemma {:induction false} FirstThenRest(t: Tables, ids: seq<Id>, rs: seq<CreateRequest>, fs: seq<Failing>, n: nat)
    requires |ids| == |rs| == |fs| && n <= |fs|
    ensures var (now, b) := CreateFirst(t, ids, rs, fs[..n]);
      var rest := CreateAll(now, ids, rs, fs, n);
      CreateAll(t, ids, rs, fs, 0) == if b.thrown then (now, b) else (rest.0, Prefixed(b.created, b.errors, rest.1))
    decreases n
  {
    var all := CreateAll(t, ids, rs, fs, 0).1;
    assert [] + all.created == all.created && [] + all.errors == all.errors;
    if n > 0 {
      FirstThenRest(t, ids, rs, fs, n - 1);
      var (now, b) := CreateFirst(t, ids, rs, fs[..n - 1]);
      assert fs[..n][..n - 1] == fs[..n - 1];
      if !b.thrown {
        var (next, o) := Create(now, ids[n - 1], rs[n - 1], fs[n - 1]);
        PrefixedNext(b.created, b.errors, n - 1, o, CreateAll(next, ids, rs, fs, n).1);
        assert b.created + [] == b.created && b.errors + [] == b.errors;
      }
    }
  }

  /** All of them are the bulk. */
  lemma FirstIsAll(t: Tables, ids: seq<Id>, rs: seq<CreateRequest>, fs: seq<Failing>)
    requires |ids| == |rs| == |fs|
    ensures CreateFirst(t, ids, rs, fs) == CreateAll(t, ids, rs, fs, 0)
  {
    FirstThenRest(t, ids, rs, fs, |fs|);
    var b := CreateFirst(t, ids, rs, fs).1;
    assert fs[..|fs|] == fs && b.created + [] == b.created && b.errors + [] == b.errors;
  }

  /** Some request of the bulk stores a second mapping of a node. */
  predicate BulkShares(t: Tables, ids: seq<Id>, rs: seq<CreateRequest>, fs: seq<Failing>, i: nat)
    requires |ids| == |rs| == |fs| && i <= |rs|
    decreases |rs| - i
  {
    i < |rs| &&
    (CreateShares(t, rs[i], fs[i])
     || (!Create(t, ids[i], rs[i], fs[i]).1.Thrown?
         && BulkShares(Create(t, ids[i], rs[i], fs[i]).0, ids, rs, fs, i + 1)))
  }

  lemma BulkSharesIff(t: Tables, ids: seq<Id>, rs: seq<CreateRequest>, fs: seq<Failing>)
    requires |ids| == |rs| == |fs| && FreshIds(t, ids, 0)
    ensures Consistent(t) ==> (Consistent(CreateAll(t, ids, rs, fs, 0).0) <==> !BulkShares(t, ids, rs, fs, 0))
  {
    if Consistent(t) {
      BulkKeepsConsistentIff(t, ids, rs, fs, 0);
    }
  }

  /** What shares a node goes on sharing it. */
  lemma MoreStillShare(m: map<Id, Mapping>, m': map<Id, Mapping>, created: seq<Id>)
    requires !UniqueNodes(m) && Adds(m, m', created)
    ensures !UniqueNodes(m')
  {
    var a, b :| a in m && b in m && a != b && m[a].node.Some? && m[a].node == m[b].node;
    assert m'[a].node == m'[b].node;
  }

  lemma {:induction false} BulkKeepsConsistentIff(t: Tables, ids: seq<Id>, rs: seq<CreateRequest>, fs: seq<Failing>,
                                                  i: nat)
    requires |ids| == |rs| == |fs| && i <= |rs| && Consistent(t) && FreshIds(t, ids, i)
    ensures Consistent(CreateAll(t, ids, rs, fs, i).0) <==> !BulkShares(t, ids, rs, fs, i)
    decreases |rs| - i
  {
    if i < |rs| {
      var (t1, o) := Create(t, ids[i], rs[i], fs[i]);
      var (t2, b) := CreateAll(t, ids, rs, fs, i);
      CreateKeepsConsistentIff(t, ids[i], rs[i], fs[i]);
      FreshAfter(t, ids, rs, fs, i);
      if CreateShares(t, rs[i], fs[i]) {
        BulkOnlyAdds(t1, ids, rs, fs, i + 1);
        var (t3, more) := CreateAll(t1, ids, rs, fs, i + 1);
        MoreStillShare(t1.mappings, t3.mappings, more.created);
        assert t2.mappings == t1.mappings || t2.mappings == t3.mappings;
        assert !Consistent(t2) && BulkShares(t, ids, rs, fs, i);
      } else if o.Thrown? {
        assert t2 == t1 && Consistent(t1) && !BulkShares(t, ids, rs, fs, i);
      } else {
        BulkKeepsConsistentIff(t1, ids, rs, fs, i + 1);
        assert t2 == CreateAll(t1, ids, rs, fs, i + 1).0;
        assert BulkShares(t, ids, rs, fs, i) <==> BulkShares(t1, ids, rs, fs, i + 1);
      }
    }
  }

  // ---------------------------------------------------------------- runs

  datatype Op =
    | OpCreate(newId: Id, create: CreateRequest, createFails: Failing)
    | OpBulk(newIds: seq<Id>, creates: seq<CreateRequest>, bulkFails: seq<Failing>)
    | OpUpdate(mapping: Id, update: UpdateRequest, updateFails: Failing)
    | OpDelete(target: Id, deleteFails: Failing)
    | OpAddConnection(connection: Id, endpoint: Endpoint)
    | OpDropConnection(dropped: Id)
    | OpAddNode(node: Id, namespace: Id)
    | OpDropNode(gone: Id)
    | OpMigrate

  /** Generated ids are new; nothing else is asked of the caller. */
  predicate Enabled(t: Tables, op: Op) {
    match op
    case OpCreate(newId, _, _) => newId !in t.mappings
    case OpBulk(ids, rs, fs) => |ids| == |rs| == |fs| && FreshIds(t, ids, 0)
    case _ => true
  }

  function Step(t: Tables, op: Op): Tables
    requires Enabled(t, op)
  {
    match op
    case OpCreate(newId, r, f) => Create(t, newId, r, f).0
    case OpBulk(ids, rs, fs) => CreateAll(t, ids, rs, fs, 0).0
    case OpUpdate(id, r, f) => Update(t, id, r, f).0
    case OpDelete(id, f) => Delete(t, id, f).0
    case OpAddConnection(c, e) => t.(connections := t.connections[c := e])
    case OpDropConnection(c) => DeleteConnection(t, c)
    case OpAddNode(n, ns) => t.(nodes := t.nodes[n := ns])
    case OpDropNode(n) => DeleteNode(t, n)
    case OpMigrate => t.(migrated := true)
  }

  /** The operation stores a second mapping of a node, past a lookup that throws. */
  predicate Shares(t: Tables, op: Op)
    requires Enabled(t, op)
  {
    match op
    case OpCreate(_, r, f) => CreateShares(t, r, f)
    case OpBulk(ids, rs, fs) => BulkShares(t, ids, rs, fs, 0)
    case OpUpdate(id, r, f) => UpdateShares(t, id, r, f)
    case _ => false
  }

  lemma StepKeepsConsistentIff(t: Tables, op: Op)
    requires Enabled(t, op) && Consistent(t)
    ensures Consistent(Step(t, op)) <==> !Shares(t, op)
  {
    match op
    case OpCreate(newId, r, f) => CreateKeepsConsistentIff(t, newId, r, f);
    case OpBulk(ids, rs, fs) => BulkKeepsConsistentIff(t, ids, rs, fs, 0);
    case OpUpdate(id, r, f) => UpdateKeepsConsistentIff(t, id, r, f);
    case OpDelete(id, f) => DeletesKeepConsistent(t, id, f);
    case OpAddConnection(_, _) =>
    case OpDropConnection(c) => DeletesKeepConsistent(t, c, ALL_WELL);
    case OpAddNode(_, _) =>
    case OpDropNode(n) => DeletesKeepConsistent(t, n, ALL_WELL);
    case OpMigrate =>
  }

  ghost predicate IsRun(states: seq<Tables>, ops: seq<Op>) {
    && |states| == |ops| + 1
    && forall i | 0 <= i < |ops| :: Enabled(states[i], ops[i]) && states[i + 1] == Step(states[i], ops[i])
  }

  ghost predicate ConsistentUpTo(states: seq<Tables>, n: nat)
    requires n < |states|
  {
    forall i | 0 <= i <= n :: Consistent(states[i])
  }

  ghost predicate NothingShared(states: seq<Tables>, ops: seq<Op>, n: nat)
    requires IsRun(states, ops) && n <= |ops|
  {
    forall i | 0 <= i < n :: !Shares(states[i], ops[i])
  }

  /**
   * From an empty table on, no two mappings ever share a connection and address or a node,
   * if and only if no create or update finds its node mapped by a lookup that throws.
   */
  lemma {:induction false} ConsistentIffNothingShared(states: seq<Tables>, ops: seq<Op>, n: nat)
    requires IsRun(states, ops) && states[0].mappings == map[] && n <= |ops|
    ensures ConsistentUpTo(states, n) <==> NothingShared(states, ops, n)
  {
    if n > 0 {
      ConsistentIffNothingShared(states, ops, n - 1);
      if ConsistentUpTo(states, n - 1) {
        assert Consistent(states[n - 1]);
        StepKeepsConsistentIff(states[n - 1], ops[n - 1]);
        assert Consistent(states[n]) <==> !Shares(states[n - 1], ops[n - 1]);
      } else {
        assert !ConsistentUpTo(states, n);
      }
    }
  }

  // ---------------------------------------------------------------- the repository

  /** What the cached queries return. */
  datatype CachedRow = ConnectionRow(endpoint: Endpoint) | MappingRow(mapping: Mapping)

  function ConnectionRows(t: Tables, id: string): seq<CachedRow> {
    if id in t.connections then [ConnectionRow(t.connections[id])] else []
  }

  function MappingRows(t: Tables, id: string): seq<CachedRow> {
    if id in t.mappings then [MappingRow(t.mappings[id])] else []
  }

  /** Is the file within reach at the call, and does the statement itself throw? */
  datatype Moment = Moment(reachable: bool, throws: bool)

  /** The moments of an operation; its lookups do not probe the file, so they can only throw. */
  datatype Moments = Moments(read: Moment, nodeThrows: bool, holderThrows: bool, addressThrows: bool, write: Moment)

  /**
   * The calls that go wrong: the read, when it gets no answer and has none cached; a lookup, when the
   * probe of the read before it found no file, or it throws; the write, when its own probe finds none, or it throws.
   */
  function FailingIn(open: bool, cached: bool, m: Moments): Failing {
    var near := open && m.read.reachable;
    Failing((!near || m.read.throws) && !cached,
            Lookups(!near || m.nodeThrows, !near || m.holderThrows, !near || m.addressThrows),
            !open || !m.write.reachable || m.write.throws)
  }

  function FailingFrom(open: bool, ms: seq<Moments>, i: nat): (fs: seq<Failing>)
    requires i <= |ms|
    ensures |fs| == |ms| - i && forall j | 0 <= j < |fs| :: fs[j] == FailingIn(open, true, ms[i + j])
  {
    seq(|ms| - i, j requires 0 <= j < |ms| - i => FailingIn(open, true, ms[i + j]))
  }

  /** Each request's calls go wrong as its moments say, whatever is cached. */
  predicate MayFail(open: bool, ms: seq<Moments>, failing: seq<Failing>) {
    && |failing| <= |ms|
    && forall i | 0 <= i < |failing| :: failing[i] in {FailingIn(open, true, ms[i]), FailingIn(open, false, ms[i])}
  }

  lemma MayFailNext(open: bool, ms: seq<Moments>, failing: seq<Failing>, f: Failing)
    requires MayFail(open, ms, failing) && |failing| < |ms|
    requires f in {FailingIn(open, true, ms[|failing|]), FailingIn(open, false, ms[|failing|])}
    ensures MayFail(open, ms, failing + [f])
  {
  }

  lemma MayFailAll(open: bool, ms: seq<Moments>, failing: seq<Failing>)
    requires MayFail(open, ms, failing)
    ensures MayFail(open, ms, failing + FailingFrom(open, ms, |failing|))
  {
    var all := failing + FailingFrom(open, ms, |failing|);
    forall i | 0 <= i < |all| ensures all[i] in {FailingIn(open, true, ms[i]), FailingIn(open, false, ms[i])} {
      if i >= |failing| {
        assert all[i] == FailingFrom(open, ms, |failing|)[i - |failing|];
      }
    }
  }

  lemma BulkEnds(open: bool, start: Tables, now: Tables, ids: seq<Id>, rs: seq<CreateRequest>, ms: seq<Moments>,
                 failing: seq<Failing>, b: BulkResult)
    requires |ids| == |rs| == |ms| && |failing| <= |rs| && FreshIds(start, ids, 0) && MayFail(open, ms, failing)
    requires CreateFirst(start, ids, rs, failing) == (now, b) && (b.thrown || |failing| == |rs|)
    ensures var all := failing + FailingFrom(open, ms, |failing|);
      && MayFail(open, ms, all)
      && CreateAll(start, ids, rs, all, 0) == (now, b)
      && (Consistent(start) ==> (Consistent(now) <==> !BulkShares(start, ids, rs, all, 0)))
  {
    var more := FailingFrom(open, ms, |failing|);
    MayFailAll(open, ms, failing);
    if b.thrown {
      ThrownStays(start, ids, rs, failing, more);
    } else {
      assert failing + more == failing;
    }
    FirstIsAll(start, ids, rs, failing + more);
    BulkSharesIff(start, ids, rs, failing + more);
  }

  class ConnectorRepository {
    const database: Database<Tables, CachedRow>

    ghost function View(): Tables
      reads database
    {
      database.db
    }

    /** Each cache key is bound to its query, for good. */
    ghost predicate KeysBound() {
      && (forall id: string, t: Tables :: database.queries("connection:" + id, t) == ConnectionRows(t, id))
      && (forall id: string, t: Tables :: database.queries("mapping:" + id, t) == MappingRows(t, id))
    }

    ghost predicate Valid()
      reads database
    {
      database.Valid()
    }

    /** What goes wrong in an operation that begins with a read under this key. */
    ghost function FailingOf(cacheKey: string, m: Moments): Failing
      reads database
    {
      FailingIn(database.open, cacheKey in database.cache, m)
    }

    constructor (database: Database<Tables, CachedRow>)
      requires database.Valid()
      requires forall id: string, t: Tables :: database.queries("connection:" + id, t) == ConnectionRows(t, id)
      requires forall id: string, t: Tables :: database.queries("mapping:" + id, t) == MappingRows(t, id)
      ensures KeysBound() && Valid() && this.database == database
    {
      this.database := database;
    }

    /** A cached read has neither the database nor the cache to answer it. */
    ghost predicate Unanswered(cacheKey: string, cache: map<string, seq<CachedRow>>, at: Moment)
      reads database`open
    {
      (!database.open || !at.reachable || at.throws) && cacheKey !in cache
    }

    /** `findConnectionById`; `None` is the error "unavailable". */
    method FindConnectionById(id: string, at: Moment) returns (r: Option<Option<Endpoint>>)
      requires KeysBound() && Valid()
      modifies database`accessible, database`cache
      ensures Valid() && database.accessible == (database.open && at.reachable)
      ensures r == if Unanswered("connection:" + id, old(database.cache), at) then None
                   else Some(if id in View().connections then Some(View().connections[id]) else None)
    {
      var rows := database.ReadWithCache("connection:" + id, (t: Tables) => ConnectionRows(t, id),
                                         at.reachable, at.throws);
      if rows.None? {
        return None;
      }
      return Some(if rows.value == [] then None else Some(rows.value[0].endpoint));
    }

    /** `findMappingById`. */
    method FindMappingById(id: Id, at: Moment) returns (r: Option<Option<Mapping>>)
      requires KeysBound() && Valid()
      modifies database`accessible, database`cache
      ensures Valid() && database.accessible == (database.open && at.reachable)
      ensures r == if Unanswered("mapping:" + id, old(database.cache), at) then None
                   else Some(if id in View().mappings then Some(View().mappings[id]) else None)
    {
      var rows := database.ReadWithCache("mapping:" + id, (t: Tables) => MappingRows(t, id), at.reachable, at.throws);
      if rows.None? {
        return None;
      }
      return Some(if rows.value == [] then None else Some(rows.value[0].mapping));
    }

    /** The same of the lookups, once the read has probed the file. */
    ghost function LookupsOf(m: Moments): Lookups
      reads database
    {
      Lookups(database.Misses(m.nodeThrows), database.Misses(m.holderThrows), database.Misses(m.addressThrows))
    }

    /** The private lookups: what throws is no row. */
    method NodeExists(node: string, throws: bool) returns (yes: bool)
      ensures yes <==> node in database.db.nodes && !database.Misses(throws)
    {
      var row := database.LookUp((t: Tables) => if node in t.nodes then Some(node) else None, throws);
      return row.Some?;
    }

    method NodeIsMapped(node: string, except: Option<Id>, throws: bool) returns (yes: bool)
      ensures yes <==> NodeTaken(database.db.mappings, node, except) && !database.Misses(throws)
    {
      var row := database.LookUp(
        (t: Tables) => if NodeTaken(t.mappings, node, except) then Some(node) else None, throws);
      return row.Some?;
    }

    method AddressIsMapped(connection: string, address: string, except: Option<Id>, throws: bool) returns (yes: bool)
      ensures yes <==> AddressTaken(database.db.mappings, connection, address, except) && !database.Misses(throws)
    {
      var row := database.LookUp(
        (t: Tables) => if AddressTaken(t.mappings, connection, address, except) then Some(address) else None, throws);
      return row.Some?;
    }

    /** `write` of one row, by INSERT or UPDATE. */
    method Store(id: Id, connection: Id, node: Option<string>, address: string, at: Moment) returns (stored: bool)
      requires Valid()
      modifies database`accessible, database`cache, database`db
      ensures Valid()
      ensures stored <==>
        database.open && at.reachable && !at.throws && Accepts(old(View()), id, connection, node, address)
      ensures View() == if stored then Stored(old(View()), id, connection, node, address) else old(View())
    {
      var written := database.Write(
        (t: Tables) => if at.throws || !Accepts(t, id, connection, node, address) then WriteEffect(t, None)
                       else WriteEffect(Stored(t, id, connection, node, address), Some(id)), at.reachable);
      return written.Some?;
    }

    method CheckCreate(request: CreateRequest, m: Moments) returns (refusal: Option<Outcome>)
      ensures refusal == CreateRefusal(View(), request, LookupsOf(m))
    {
      if request.node.Some? && request.node.value != "" {
        var known := NodeExists(request.node.value, m.nodeThrows);
        if !known {
          return Some(NotFound);
        }
        var mapped := NodeIsMapped(request.node.value, None, m.holderThrows);
        if mapped {
          return Some(DuplicateError);
        }
      }
      var taken := AddressIsMapped(request.connection, request.address, None, m.addressThrows);
      return if taken then Some(DuplicateError) else None;
    }

    /** `createMapping`. */
    method CreateMapping(newId: Id, request: CreateRequest, m: Moments) returns (o: Outcome)
      requires KeysBound() && Valid() && newId !in View().mappings
      modifies database`accessible, database`cache, database`db
      ensures Valid()
      ensures var f := old(FailingOf("connection:" + request.connection, m));
        && (View(), o) == Create(old(View()), newId, request, f)
        && (old(Consistent(View())) ==> (Consistent(View()) <==> !CreateShares(old(View()), request, f)))
    {
      ghost var f := FailingOf("connection:" + request.connection, m);
      if Consistent(View()) {
        CreateKeepsConsistentIff(View(), newId, request, f);
      }
      var connection := FindConnectionById(request.connection, m.read);
      if connection.None? {
        o := Thrown;
      } else if connection.value.None? {
        o := NotFound;
      } else {
        var refusal := CheckCreate(request, m);
        assert refusal == CreateRefusal(View(), request, f.lookups);
        if refusal.Some? {
          o := refusal.value;
        } else {
          var stored := Store(newId, request.connection, request.node, request.address, m.write);
          o := if stored then Done(newId) else Thrown;
        }
      }
    }

    method CheckUpdate(id: Id, existing: Mapping, request: UpdateRequest, m: Moments) returns (refusal: Option<Outcome>)
      ensures refusal == UpdateRefusal(View(), id, existing, request, LookupsOf(m))
    {
      if request.node.To? && request.node.text != "" && existing.node != Some(request.node.text) {
        var known := NodeExists(request.node.text, m.nodeThrows);
        if !known {
          return Some(NotFound);
        }
        var mapped := NodeIsMapped(request.node.text, Some(id), m.holderThrows);
        if mapped {
          return Some(DuplicateError);
        }
      }
      if request.address.Some? && request.address.value != "" && request.address.value != existing.address {
        var taken := AddressIsMapped(existing.connection, request.address.value, Some(id), m.addressThrows);
        return if taken then Some(DuplicateError) else None;
      }
      return None;
    }

    /** Only the fields that the request provides are changed. */
    method Changed(existing: Mapping, request: UpdateRequest) returns (node: Option<string>, address: string)
      ensures node == NewNode(existing, request) && address == NewAddress(existing, request)
    {
      address := if request.address.Some? then request.address.value else existing.address;
      node := existing.node;
      if request.node.Clear? {
        node := None;
      } else if request.node.To? {
        node := Some(request.node.text);
      }
    }

    method ReplaceMapping(id: Id, existing: Mapping, request: UpdateRequest, at: Moment) returns (o: Outcome)
      requires Valid()
      modifies database`accessible, database`cache, database`db
      ensures Valid()
      ensures (View(), o)
           == Replace(old(View()), id, existing, request, !database.open || !at.reachable || at.throws)
    {
      var node, address := Changed(existing, request);
      var stored := Store(id, existing.connection, node, address, at);
      o := if stored then Done(id) else Thrown;
    }

    /** `updateMapping`. */
    method UpdateMapping(id: Id, request: UpdateRequest, m: Moments) returns (o: Outcome)
      requires KeysBound() && Valid()
      modifies database`accessible, database`cache, database`db
      ensures Valid()
      ensures var f := old(FailingOf("mapping:" + id, m));
        && (View(), o) == Update(old(View()), id, request, f)
        && (old(Consistent(View())) ==> (Consistent(View()) <==> !UpdateShares(old(View()), id, request, f)))
    {
      ghost var f := FailingOf("mapping:" + id, m);
      if Consistent(View()) {
        UpdateKeepsConsistentIff(View(), id, request, f);
      }
      var row := FindMappingById(id, m.read);
      if row.None? {
        o := Thrown;
      } else if row.value.None? {
        o := NotFound;
      } else {
        var existing := row.value.value;
        var refusal := CheckUpdate(id, existing, request, m);
        assert refusal == UpdateRefusal(View(), id, existing, request, f.lookups);
        if refusal.Some? {
          o := refusal.value;
        } else {
          o := ReplaceMapping(id, existing, request, m.write);
        }
      }
    }

    method DeleteMapping(id: Id, m: Moments) returns (o: Outcome)
      requires KeysBound() && Valid()
      modifies database`accessible, database`cache, database`db
      ensures Valid() && (View(), o) == Delete(old(View()), id, old(FailingOf("mapping:" + id, m)))
      ensures old(Consistent(View())) ==> Consistent(View())
    {
      if Consistent(View()) {
        DeletesKeepConsistent(View(), id, FailingOf("mapping:" + id, m));
      }
      var row := FindMappingById(id, m.read);
      if row.None? {
        o := Thrown;
      } else if row.value.None? {
        o := NotFound;
      } else {
        var written := database.Write(
          (t: Tables) => if m.write.throws then WriteEffect(t, None)
                         else WriteEffect(t.(mappings := t.mappings - {id}), Some(id)), m.write.reachable);
        o := if written.Some? then Done(id) else Thrown;
      }
    }

    /**
     * `createMappingsBulk`; an exception ends the loop and leaves what was created. Whether a connection
     * is still cached when its request comes depends on the writes before.
     */
    method CreateMappingsBulk(ids: seq<Id>, requests: seq<CreateRequest>, ms: seq<Moments>)
        returns (b: BulkResult, ghost failing: seq<Failing>)
      requires KeysBound() && Valid() && |ids| == |requests| == |ms| && FreshIds(View(), ids, 0)
      modifies database`accessible, database`cache, database`db
      ensures Valid() && |failing| == |requests|
      ensures MayFail(database.open, ms, failing)
      ensures (View(), b) == CreateAll(old(View()), ids, requests, failing, 0)
      ensures old(Consistent(View())) ==>
        (Consistent(View()) <==> !BulkShares(old(View()), ids, requests, failing, 0))
    {
      var created: seq<Id> := [];
      var errors: seq<(nat, Outcome)> := [];
      ghost var start, open := View(), database.open;
      failing := [];
      for i := 0 to |requests|
        invariant Valid() && |failing| == i && MayFail(open, ms, failing)
        invariant CreateFirst(start, ids, requests, failing) == (View(), BulkResult(created, errors, false))
      {
        ghost var f := FailingOf("connection:" + requests[i].connection, ms[i]);
        FirstNext(start, ids, requests, failing, f);
        FreshAfterFirst(start, ids, requests, failing);
        MayFailNext(open, ms, failing, f);
        var result := CreateMapping(ids[i], requests[i], ms[i]);
        failing := failing + [f];
        if result.Thrown? {
          BulkEnds(open, start, View(), ids, requests, ms, failing, BulkResult(created, errors, true));
          failing := failing + FailingFrom(open, ms, i + 1);
          return BulkResult(created, errors, true), failing;
        }
        if result.Done? {
          created := created + [result.id];
        } else {
          errors := errors + [(i, result)];
        }
      }
      BulkEnds(open, start, View(), ids, requests, ms, failing, BulkResult(created, errors, false));
      assert failing + [] == failing;
      b := BulkResult(created, errors, false);
    }
  }

  // ---------------------------------------------------------------- the generator's lookup

  /** The join of mappings, connections and nodes for one namespace, in any order. */
  predicate JoinRows(t: Tables, ns: Id, rows: seq<Id>) {
    && (forall i | 0 <= i < |rows| :: rows[i] in t.mappings && t.mappings[rows[i]].node.Some?
         && t.mappings[rows[i]].node.value in t.nodes && t.nodes[t.mappings[rows[i]].node.value] == ns)
    && (forall i, j | 0 <= i < j < |rows| :: rows[i] != rows[j])
  }

  /** Rows of the join name distinct nodes, whatever state the repository has reached. */
  lemma JoinNamesDistinctNodes(t: Tables, ns: Id, rows: seq<Id>)
    requires Consistent(t) && JoinRows(t, ns, rows)
    ensures forall i, j | 0 <= i < j < |rows| :: t.mappings[rows[i]].node != t.mappings[rows[j]].node
  {
  }

  /** `ConnectorMappingConfig`: what the configuration says of a mapped node. */
  datatype Entry = Entry(kind: string, host: string, address: string)

  /** A missing host reads as the empty string. */
  function EntryOf(t: Tables, m: Mapping): Entry
    requires m.connection in t.connections
  {
    var e := t.connections[m.connection];
    Entry(e.kind, if e.host.Some? then e.host.value else "", m.address)
  }

  /** The entry under the node of the mapping is the mapping's own. */
  ghost predicate HasEntry(t: Tables, lookup: map<string, Entry>, m: Mapping) {
    && m.connection in t.connections && m.node.Some? && m.node.value in lookup
    && lookup[m.node.value] == EntryOf(t, m)
  }

  /** The entries of the first `n` rows, and no other. */
  ghost predicate Loaded(t: Tables, rows: seq<Id>, n: nat, lookup: map<string, Entry>)
    requires n <= |rows| && forall i | 0 <= i < |rows| :: rows[i] in t.mappings
  {
    && |lookup| == n
    && (forall i | 0 <= i < n :: HasEntry(t, lookup, t.mappings[rows[i]]))
    && (forall node | node in lookup :: exists i :: 0 <= i < n && t.mappings[rows[i]].node == Some(node))
  }

  /** An entry under another node does not disturb the entries there are. */
  lemma EntryKept(t: Tables, lookup: map<string, Entry>, m: Mapping, node: string, e: Entry)
    requires HasEntry(t, lookup, m) && m.node != Some(node)
    ensures HasEntry(t, lookup[node := e], m)
  {
  }

  lemma LoadedNext(t: Tables, rows: seq<Id>, n: nat, lookup: map<string, Entry>)
    requires (forall i | 0 <= i < |rows| :: rows[i] in t.mappings) && n < |rows| && Loaded(t, rows, n, lookup)
    requires t.mappings[rows[n]].connection in t.connections && t.mappings[rows[n]].node.Some?
    requires forall i | 0 <= i < n :: t.mappings[rows[i]].node != t.mappings[rows[n]].node
    ensures var row := t.mappings[rows[n]];
      row.node.value !in lookup && Loaded(t, rows, n + 1, lookup[row.node.value := EntryOf(t, row)])
  {
    var row := t.mappings[rows[n]];
    var node, e := row.node.value, EntryOf(t, row);
    var more := lookup[node := e];
    assert node !in lookup;
    assert |more| == n + 1;
    forall x | x in more ensures exists i :: 0 <= i < n + 1 && t.mappings[rows[i]].node == Some(x) {
      var i := if x == node then n else var i :| 0 <= i < n && t.mappings[rows[i]].node == Some(x); i;
      assert t.mappings[rows[i]].node == Some(x);
    }
    forall i | 0 <= i < n + 1 ensures HasEntry(t, more, t.mappings[rows[i]]) {
      if i < n {
        EntryKept(t, lookup, t.mappings[rows[i]], node, e);
      }
    }
  }

  /** `loadMappings`: no entry is overwritten, so every mapping of the namespace is in the result. */
  method LoadMappings(t: Tables, ns: Id, rows: seq<Id>) returns (lookup: map<string, Entry>)
    requires Consistent(t) && JoinRows(t, ns, rows)
    ensures Loaded(t, rows, |rows|, lookup)
    ensures forall i | 0 <= i < |rows| ::
      var m := t.mappings[rows[i]];
      var endpoint := t.connections[m.connection];
      && m.node.value in lookup && lookup[m.node.value].address == m.address
      && lookup[m.node.value].kind == endpoint.kind
      && lookup[m.node.value].host == (if endpoint.host.Some? then endpoint.host.value else "")
  {
    JoinNamesDistinctNodes(t, ns, rows);
    lookup := map[];
    for i := 0 to |rows|
      invariant Loaded(t, rows, i, lookup)
    {
      LoadedNext(t, rows, i, lookup);
      var row := t.mappings[rows[i]];
      lookup := lookup[row.node.value := EntryOf(t, row)];
    }
  }
}
