/**
 * From a value read from a device to a node of the runtime: the bridge finds the NodeId
 * of a database row by name, and the runtime parses that NodeId.
 */
module ValueRouting {
  import opened Options
  import opened Sequences
  import opened ObjectForest
  import opened GeneratedConfig
  import opened AddressSpace
  import opened AddressSpaceProofs
  import opened Reload
  import opened OwnNodes
  import opened UnambiguousNames
  import NodeId

  /** A variable's name and the name of its namespace. */
  type Key = (string, string)

  /** A variable row with the NodeId the configuration prints for it. */
  datatype Slot = Slot(key: Key, id: Id, nodeId: string)

  ghost function SlotOf(row: NamespaceRow, i: nat, k: nat): Slot
    requires ValidRows(row) && k < |row.variables|
  {
    var v := row.variables[k];
    Slot((v.name, row.name), v.id, NodeId.Print(NodeId.StringId(i + 2, Identifier(row, v))))
  }

  /** The variables of namespace `i` from the k-th on. */
  ghost function SlotsIn(row: NamespaceRow, i: nat, k: nat): seq<Slot>
    requires ValidRows(row) && k <= |row.variables|
    decreases |row.variables| - k
  {
    if k == |row.variables| then [] else [SlotOf(row, i, k)] + SlotsIn(row, i, k + 1)
  }

  /** All variables from the i-th namespace on, in the order of the configuration. */
  ghost function Slots(rows: seq<NamespaceRow>, i: nat): seq<Slot>
    requires AllValid(rows) && i <= |rows|
    decreases |rows| - i
  {
    if i == |rows| then [] else SlotsIn(rows[i], i, 0) + Slots(rows, i + 1)
  }

  // ---------------------------------------------------------------- the bridge's map

  /** `found` holds the row the database returns for each pair of names. */
  function Record(m: map<Id, string>, found: map<Key, Id>, key: Key, nodeId: string): map<Id, string> {
    if key in found then m[found[key] := nodeId] else m
  }

  function RecordAll(m: map<Id, string>, found: map<Key, Id>, slots: seq<Slot>): map<Id, string>
    decreases |slots|
  {
    if slots == [] then m
    else RecordAll(Record(m, found, slots[0].key, slots[0].nodeId), found, slots[1..])
  }

  /** A NodeId is recorded under the id that its names lead to, over what was there; the others stay. */
  lemma {:induction false} LastIsRecorded(m: map<Id, string>, found: map<Key, Id>, slots: seq<Slot>, last: Slot)
    ensures RecordAll(m, found, slots + [last]) ==
      var r := RecordAll(m, found, slots);
      if last.key in found then r[found[last.key] := last.nodeId] else r
    decreases |slots|
  {
    if slots == [] {
      assert slots + [last] == [last] && [last][1..] == [];
    } else {
      assert (slots + [last])[0] == slots[0] && (slots + [last])[1..] == slots[1..] + [last];
      LastIsRecorded(Record(m, found, slots[0].key, slots[0].nodeId), found, slots[1..], last);
    }
  }

  /** The map of a configuration. */
  ghost function NodeIdMap(rows: seq<NamespaceRow>, found: map<Key, Id>): map<Id, string>
    requires AllValid(rows)
  {
    RecordAll(map[], found, Slots(rows, 0))
  }

  class IpcBridge {
    var uuidToOpcUaId: Option<map<Id, string>>

    constructor ()
      ensures uuidToOpcUaId == None
    {
      uuidToOpcUaId := None;
    }

    /** `buildNodeIdMap`, of the configuration generated from the rows. */
    method BuildNodeIdMap(config: seq<JsonNamespace>, found: map<Key, Id>, ghost rows: seq<NamespaceRow>)
        returns (m: map<Id, string>)
      requires AllValid(rows) && config == JsonOf(rows)
      ensures m == NodeIdMap(rows, found)
    {
      m := map[];
      for i := 0 to |config|
        invariant RecordAll(m, found, Slots(rows, i)) == NodeIdMap(rows, found)
      {
        var ns := config[i];
        m := RecordNamespace(m, ns, found, rows[i], i, Slots(rows, i + 1));
      }
    }

    method RecordNamespace(m0: map<Id, string>, ns: JsonNamespace, found: map<Key, Id>,
                           ghost row: NamespaceRow, ghost i: nat, ghost more: seq<Slot>)
        returns (m: map<Id, string>)
      requires ValidRows(row) && ns == JsonOfNamespace(row, i)
      ensures RecordAll(m, found, more) == RecordAll(m0, found, SlotsIn(row, i, 0) + more)
    {
      m := m0;
      for k := 0 to |ns.nodes|
        invariant RecordAll(m, found, SlotsIn(row, i, k) + more) == RecordAll(m0, found, SlotsIn(row, i, 0) + more)
      {
        var node := ns.nodes[k];
        var key := (node.name.value, ns.name.value);
        FirstSlot(row, i, k, more);
        if key in found {
          m := m[found[key] := node.nodeId.value];
        }
      }
      assert [] + more == more;
    }

    /** `handleValueUpdates`, as far as it resolves ids; an id without an entry in the final map is sent without one. */
    method HandleValueUpdates(updates: seq<Id>, running: bool, config: seq<JsonNamespace>, found: map<Key, Id>,
                              ghost rows: seq<NamespaceRow>)
        returns (resolved: seq<Option<string>>)
      requires AllValid(rows) && config == JsonOf(rows)
      modifies this
      ensures !running ==> resolved == [] && uuidToOpcUaId == old(uuidToOpcUaId)
      ensures running ==>
        var newest := NodeIdMap(rows, found);
        var had := if old(uuidToOpcUaId).Some? then old(uuidToOpcUaId).value else newest;
        && uuidToOpcUaId == Some(MapAfter(had, newest, updates))
        && resolved == Sent(had, newest, updates)
    {
      if !running {
        return [];
      }
      var had: map<Id, string>;
      if uuidToOpcUaId.Some? {
        had := uuidToOpcUaId.value;
      } else {
        had := BuildNodeIdMap(config, found, rows);
      }
      var kept, current := FilterKnown(had, updates, config, found, rows);
      uuidToOpcUaId := Some(current);
      resolved := ResolveKept(current, kept);
    }

    /** The filter, which builds the map anew whenever an id is unknown. */
    method FilterKnown(had: map<Id, string>, updates: seq<Id>, config: seq<JsonNamespace>, found: map<Key, Id>,
                       ghost rows: seq<NamespaceRow>)
        returns (kept: seq<Id>, current: map<Id, string>)
      requires AllValid(rows) && config == JsonOf(rows)
      ensures current == MapAfter(had, NodeIdMap(rows, found), updates)
      ensures kept == Known(had, NodeIdMap(rows, found), updates)
    {
      ghost var newest := NodeIdMap(rows, found);
      kept, current := [], had;
      for i := 0 to |updates|
        invariant MapAfter(current, newest, updates[i..]) == MapAfter(had, newest, updates)
        invariant kept + Known(current, newest, updates[i..]) == Known(had, newest, updates)
      {
        var u := updates[i];
        assert updates[i..][0] == u && updates[i..][1..] == updates[i + 1..];
        if u !in current {
          current := BuildNodeIdMap(config, found, rows);
        }
        Associative(kept, if u in current then [u] else [], Known(current, newest, updates[i + 1..]));
        if u in current {
          kept := kept + [u];
        } else {
          assert kept + [] == kept;
        }
      }
      assert updates[|updates|..] == [] && kept + [] == kept;
    }

    method ResolveKept(m: map<Id, string>, kept: seq<Id>) returns (resolved: seq<Option<string>>)
      ensures resolved == Resolved(m, kept)
    {
      resolved := [];
      for i := 0 to |kept|
        invariant resolved + Resolved(m, kept[i..]) == Resolved(m, kept)
      {
        var nodeId := if kept[i] in m then Some(m[kept[i]]) else None;
        assert kept[i..][0] == kept[i] && kept[i..][1..] == kept[i + 1..];
        Associative(resolved, [nodeId], Resolved(m, kept[i + 1..]));
        resolved := resolved + [nodeId];
      }
      assert kept[|kept|..] == [] && resolved + [] == resolved;
    }

    method InvalidateMap()
      modifies this
      ensures uuidToOpcUaId == None
    {
      uuidToOpcUaId := None;
    }

    /** The use `invalidateMap` is meant for, though nothing calls it: then the newest map decides the next batch. */
    method HandleInvalidated(updates: seq<Id>, config: seq<JsonNamespace>, found: map<Key, Id>,
                             ghost rows: seq<NamespaceRow>)
        returns (resolved: seq<Option<string>>)
      requires AllValid(rows) && config == JsonOf(rows)
      modifies this
      ensures resolved == Sent(NodeIdMap(rows, found), NodeIdMap(rows, found), updates)
    {
      InvalidateMap();
      resolved := HandleValueUpdates(updates, true, config, found, rows);
    }
  }

  lemma FirstSlot(row: NamespaceRow, i: nat, k: nat, more: seq<Slot>)
    requires ValidRows(row) && k < |row.variables|
    ensures var slots := SlotsIn(row, i, k) + more;
      && slots != [] && slots[0] == SlotOf(row, i, k) && slots[1..] == SlotsIn(row, i, k + 1) + more
  {
  }

  // ---------------------------------------------------------------- which updates are resolved

  /** An unknown id makes the bridge build the map anew. */
  function MapAfter(m: map<Id, string>, newest: map<Id, string>, us: seq<Id>): map<Id, string>
    decreases |us|
  {
    if us == [] then m else MapAfter(if us[0] in m then m else newest, newest, us[1..])
  }

  function Known(m: map<Id, string>, newest: map<Id, string>, us: seq<Id>): seq<Id>
    decreases |us|
  {
    if us == [] then []
    else
      var now := if us[0] in m then m else newest;
      (if us[0] in now then [us[0]] else []) + Known(now, newest, us[1..])
  }

  function Resolved(m: map<Id, string>, us: seq<Id>): seq<Option<string>>
    decreases |us|
  {
    if us == [] then [] else [if us[0] in m then Some(m[us[0]]) else None] + Resolved(m, us[1..])
  }

  /** What a batch sends when the bridge holds the map `had` and a new one would be `newest`. */
  function Sent(had: map<Id, string>, newest: map<Id, string>, us: seq<Id>): seq<Option<string>> {
    Resolved(MapAfter(had, newest, us), Known(had, newest, us))
  }

  /** With a map that is not out of date, every update that passes has its NodeId, and those with one pass. */
  lemma {:induction false} UpToDateResolves(newest: map<Id, string>, us: seq<Id>)
    ensures MapAfter(newest, newest, us) == newest
    ensures forall u :: u in Known(newest, newest, us) <==> u in us && u in newest
    ensures forall r | r in Sent(newest, newest, us) :: r.Some?
    decreases |us|
  {
    if us != [] {
      UpToDateResolves(newest, us[1..]);
      var rest := Known(newest, newest, us[1..]);
      if us[0] in newest {
        assert ([us[0]] + rest)[1..] == rest;
      } else {
        assert [] + rest == rest;
      }
    }
  }

  // ---------------------------------------------------------------- when an old map does no harm

  /** The place of the first id without an entry in `m`; the length when there is none. */
  function FirstUnknown(m: map<Id, string>, us: seq<Id>): (n: nat)
    ensures n <= |us| && (n < |us| ==> us[n] !in m)
    ensures forall i | 0 <= i < n :: us[i] in m
  {
    if us == [] || us[0] !in m then 0 else 1 + FirstUnknown(m, us[1..])
  }

  /** Up to the first unknown id the old map decides what passes; from there on, and for all NodeIds, the new one. */
  lemma {:induction false} OldMapDecides(had: map<Id, string>, newest: map<Id, string>, us: seq<Id>)
    ensures var n := FirstUnknown(had, us);
      && Known(had, newest, us) == us[..n] + Known(newest, newest, us[n..])
      && MapAfter(had, newest, us) == if n == |us| then had else newest
    decreases |us|
  {
    var n := FirstUnknown(had, us);
    if us == [] {
    } else if us[0] !in had {
      UpToDateResolves(newest, us);
      assert us[..0] + Known(newest, newest, us) == Known(newest, newest, us) && us[0..] == us;
    } else {
      OldMapDecides(had, newest, us[1..]);
      assert us[1..][..n - 1] == us[1..n] && us[1..][n - 1..] == us[n..];
      SliceHead(us, 0, n);
      Associative([us[0]], us[1..n], Known(newest, newest, us[n..]));
    }
  }

  lemma {:induction false} KnownAppend(m: map<Id, string>, a: seq<Id>, b: seq<Id>)
    ensures Known(m, m, a + b) == Known(m, m, a) + Known(m, m, b)
    decreases |a|
  {
    if a == [] {
      assert a + b == b && [] + Known(m, m, b) == Known(m, m, b);
    } else {
      assert (a + b)[0] == a[0] && (a + b)[1..] == a[1..] + b;
      KnownAppend(m, a[1..], b);
      Associative(if a[0] in m then [a[0]] else [], Known(m, m, a[1..]), Known(m, m, b));
    }
  }

  /** The filter drops nothing exactly when everything has an entry. */
  lemma {:induction false} KnownKeepsAllIff(m: map<Id, string>, us: seq<Id>)
    ensures |Known(m, m, us)| <= |us|
    ensures |Known(m, m, us)| == |us| <==> forall u | u in us :: u in m
    ensures |Known(m, m, us)| == |us| ==> Known(m, m, us) == us
    decreases |us|
  {
    if us != [] {
      KnownKeepsAllIff(m, us[1..]);
      assert us == [us[0]] + us[1..];
    }
  }

  lemma {:induction false} ResolvedAt(m: map<Id, string>, us: seq<Id>)
    ensures |Resolved(m, us)| == |us|
    ensures forall i | 0 <= i < |us| :: Resolved(m, us)[i] == if us[i] in m then Some(m[us[i]]) else None
    decreases |us|
  {
    if us != [] {
      ResolvedAt(m, us[1..]);
    }
  }

  /** The old map does this batch no harm. */
  predicate HarmlessMap(had: map<Id, string>, newest: map<Id, string>, us: seq<Id>) {
    var n := FirstUnknown(had, us);
    && (forall u | u in us[..n] :: u in newest)
    && (n == |us| ==> forall u | u in us && u in had && u in newest :: had[u] == newest[u])
  }

  lemma SentAfterRebuild(had: map<Id, string>, newest: map<Id, string>, us: seq<Id>)
    requires FirstUnknown(had, us) < |us|
    ensures Sent(had, newest, us) == Sent(newest, newest, us) <==> HarmlessMap(had, newest, us)
  {
    var n := FirstUnknown(had, us);
    var front, rest := us[..n], Known(newest, newest, us[n..]);
    var kept := Known(newest, newest, front);
    OldMapDecides(had, newest, us);
    UpToDateResolves(newest, us);
    assert us == front + us[n..];
    KnownAppend(newest, front, us[n..]);
    KnownKeepsAllIff(newest, front);
    ResolvedAt(newest, front + rest);
    ResolvedAt(newest, kept + rest);
    assert |front + rest| == |kept + rest| <==> |front| == |kept|;
  }

  lemma SentWithoutRebuild(had: map<Id, string>, newest: map<Id, string>, us: seq<Id>)
    requires FirstUnknown(had, us) == |us|
    ensures Sent(had, newest, us) == Sent(newest, newest, us) <==> HarmlessMap(had, newest, us)
  {
    var kept := Known(newest, newest, us);
    OldMapDecides(had, newest, us);
    assert us[..|us|] == us && us[|us|..] == [] && us + [] == us;
    UpToDateResolves(newest, us);
    KnownKeepsAllIff(newest, us);
    ResolvedAt(had, us);
    ResolvedAt(newest, kept);
    if Resolved(had, us) == Resolved(newest, kept) {
      forall u | u in us ensures u in newest && had[u] == newest[u] {
        var i :| 0 <= i < |us| && us[i] == u;
        assert Resolved(had, us)[i] == Resolved(newest, kept)[i];
      }
    }
  }

  /**
   * Whatever map the bridge holds, a batch is sent as a new map would send it if and only
   * if every id before the first unknown one still has an entry and, when none is unknown,
   * every entry used is still the same.
   */
  lemma SentRightIff(had: map<Id, string>, newest: map<Id, string>, us: seq<Id>)
    ensures Sent(had, newest, us) == Sent(newest, newest, us) <==> HarmlessMap(had, newest, us)
  {
    if FirstUnknown(had, us) < |us| {
      SentAfterRebuild(had, newest, us);
    } else {
      SentWithoutRebuild(had, newest, us);
    }
  }

  /** Until an unknown id comes, the bridge keeps its map, however old. */
  lemma OldMapStays(had: map<Id, string>, newest: map<Id, string>, us: seq<Id>)
    ensures MapAfter(had, newest, us) == had <==> (forall u | u in us :: u in had) || had == newest
  {
    OldMapDecides(had, newest, us);
    var n := FirstUnknown(had, us);
    assert n < |us| ==> us[n] in us;
  }

  // ---------------------------------------------------------------- each row has its own NodeId

  /** What the query by names returns: some variable of these names, whenever there is one. */
  ghost predicate Answers(slots: seq<Slot>, found: map<Key, Id>) {
    && (forall a | 0 <= a < |slots| :: slots[a].key in found)
    && (forall key | key in found :: exists a :: 0 <= a < |slots| && slots[a].key == key && slots[a].id == found[key])
  }

  ghost predicate UniqueSlots(slots: seq<Slot>) {
    forall a, b | 0 <= a < b < |slots| :: slots[a].id != slots[b].id
  }

  ghost predicate UniqueKeys(slots: seq<Slot>) {
    forall a, b | 0 <= a < b < |slots| :: slots[a].key != slots[b].key
  }

  /** Every variable is looked up under its own NodeId. */
  ghost predicate RoutesRight(m: map<Id, string>, slots: seq<Slot>) {
    forall a | 0 <= a < |slots| :: slots[a].id in m && m[slots[a].id] == slots[a].nodeId
  }

  /** An entry is what was there, or the NodeId of a slot whose names lead to its id. */
  ghost predicate FromSlots(m: map<Id, string>, found: map<Key, Id>, slots: seq<Slot>, r: map<Id, string>) {
    && (forall id | id in r ::
         (id in m && r[id] == m[id])
         || (exists a :: 0 <= a < |slots| && slots[a].key in found && found[slots[a].key] == id
                         && r[id] == slots[a].nodeId))
    && (forall id | id in m :: id in r)
    && (forall a | 0 <= a < |slots| && slots[a].key in found :: found[slots[a].key] in r)
  }

  lemma FromMoreSlots(m: map<Id, string>, found: map<Key, Id>, first: Slot, rest: seq<Slot>, r: map<Id, string>)
    requires FromSlots(Record(m, found, first.key, first.nodeId), found, rest, r)
    ensures FromSlots(m, found, [first] + rest, r)
  {
    var slots := [first] + rest;
    assert slots[0] == first && forall a | 0 <= a < |rest| :: slots[a + 1] == rest[a];
    forall id | id in r && !(id in m && r[id] == m[id])
      ensures exists a :: 0 <= a < |slots| && slots[a].key in found && found[slots[a].key] == id
                          && r[id] == slots[a].nodeId
    {
      if a :| 0 <= a < |rest| && rest[a].key in found && found[rest[a].key] == id && r[id] == rest[a].nodeId {
        assert slots[a + 1] == rest[a];
      }
    }
  }

  lemma {:induction false} RecordsSlots(m: map<Id, string>, found: map<Key, Id>, slots: seq<Slot>)
    ensures FromSlots(m, found, slots, RecordAll(m, found, slots))
    decreases |slots|
  {
    if slots != [] {
      var m1 := Record(m, found, slots[0].key, slots[0].nodeId);
      RecordsSlots(m1, found, slots[1..]);
      FromMoreSlots(m, found, slots[0], slots[1..], RecordAll(m, found, slots));
      assert [slots[0]] + slots[1..] == slots;
    }
  }

  /** The query returns a slot's own id when no other slot has its names. */
  lemma OwnAnswer(slots: seq<Slot>, found: map<Key, Id>, a: nat)
    requires Answers(slots, found) && UniqueKeys(slots) && a < |slots|
    ensures found[slots[a].key] == slots[a].id
  {
  }

  /** A slot has an entry only if its own names lead to it. */
  lemma EntryMeansOwnAnswer(slots: seq<Slot>, found: map<Key, Id>, a: nat)
    requires Answers(slots, found) && UniqueSlots(slots) && a < |slots|
    requires slots[a].id in RecordAll(map[], found, slots)
    ensures found[slots[a].key] == slots[a].id
  {
    RecordsSlots(map[], found, slots);
    var b :| 0 <= b < |slots| && slots[b].key in found && found[slots[b].key] == slots[a].id;
    var c :| 0 <= c < |slots| && slots[c].key == slots[b].key && slots[c].id == found[slots[b].key];
    assert c == a;
  }

  lemma UniqueNamesRouteRight(slots: seq<Slot>, found: map<Key, Id>)
    requires Answers(slots, found) && UniqueSlots(slots) && UniqueKeys(slots)
    ensures RoutesRight(RecordAll(map[], found, slots), slots)
  {
    var m := RecordAll(map[], found, slots);
    RecordsSlots(map[], found, slots);
    forall a | 0 <= a < |slots| ensures slots[a].id in m && m[slots[a].id] == slots[a].nodeId {
      OwnAnswer(slots, found, a);
      var b :| 0 <= b < |slots| && slots[b].key in found && found[slots[b].key] == slots[a].id
               && m[slots[a].id] == slots[b].nodeId;
      OwnAnswer(slots, found, b);
      assert a == b;
    }
  }

  /**
   * Every variable is looked up under its own NodeId if and only if no two variables
   * have the same name in namespaces of the same name.
   */
  lemma RoutesRightIff(slots: seq<Slot>, found: map<Key, Id>)
    requires Answers(slots, found) && UniqueSlots(slots)
    ensures RoutesRight(RecordAll(map[], found, slots), slots) <==> UniqueKeys(slots)
  {
    if UniqueKeys(slots) {
      UniqueNamesRouteRight(slots, found);
    }
    if RoutesRight(RecordAll(map[], found, slots), slots) {
      forall a, b | 0 <= a < b < |slots| ensures slots[a].key != slots[b].key {
        EntryMeansOwnAnswer(slots, found, a);
        EntryMeansOwnAnswer(slots, found, b);
      }
    }
  }

  /** The UNIQUE constraints: on the names of namespaces, and on the names of variables within each. */
  predicate UniqueNames(rows: seq<NamespaceRow>) {
    && (forall i, j | 0 <= i < j < |rows| :: rows[i].name != rows[j].name)
    && forall i | 0 <= i < |rows| :: UniqueVariableNames(rows[i])
  }

  lemma {:induction false} SlotsInAt(row: NamespaceRow, i: nat, k: nat)
    requires ValidRows(row) && k <= |row.variables|
    ensures var slots := SlotsIn(row, i, k);
      && |slots| == |row.variables| - k
      && forall a | 0 <= a < |slots| :: slots[a].key == (row.variables[k + a].name, row.name)
    decreases |row.variables| - k
  {
    if k < |row.variables| {
      SlotsInAt(row, i, k + 1);
    }
  }

  lemma KeysApart(a: seq<Slot>, b: seq<Slot>)
    requires UniqueKeys(a) && UniqueKeys(b)
    requires forall i, j | 0 <= i < |a| && 0 <= j < |b| :: a[i].key.1 != b[j].key.1
    ensures UniqueKeys(a + b)
  {
  }

  lemma {:induction false} UniqueNamesUniqueKeys(rows: seq<NamespaceRow>, i: nat)
    requires AllValid(rows) && UniqueNames(rows) && i <= |rows|
    ensures UniqueKeys(Slots(rows, i))
    ensures forall a | 0 <= a < |Slots(rows, i)| ::
      exists j :: i <= j < |rows| && Slots(rows, i)[a].key.1 == rows[j].name
    decreases |rows| - i
  {
    if i < |rows| {
      var first, rest := SlotsIn(rows[i], i, 0), Slots(rows, i + 1);
      SlotsInAt(rows[i], i, 0);
      UniqueNamesUniqueKeys(rows, i + 1);
      assert UniqueVariableNames(rows[i]);
      KeysApart(first, rest);
      forall a | 0 <= a < |first + rest|
        ensures exists j :: i <= j < |rows| && (first + rest)[a].key.1 == rows[j].name
      {
        if a < |first| {
          assert first[a].key.1 == rows[i].name;
        } else {
          var j :| i + 1 <= j < |rows| && rest[a - |first|].key.1 == rows[j].name;
        }
      }
    }
  }

  /** So a map that was just built from the rows of the database has every variable under its own NodeId. */
  lemma NewMapRoutesRight(rows: seq<NamespaceRow>, found: map<Key, Id>)
    requires AllValid(rows) && UniqueNames(rows) && UniqueSlots(Slots(rows, 0)) && Answers(Slots(rows, 0), found)
    ensures RoutesRight(NodeIdMap(rows, found), Slots(rows, 0))
  {
    UniqueNamesUniqueKeys(rows, 0);
    RoutesRightIff(Slots(rows, 0), found);
  }

  // ---------------------------------------------------------------- and the runtime has the node

  /**
   * On any server the runtime parses every NodeId of a generated configuration, and the result is
   * the id that the builder uses if and only if the namespace is registered at the printed index.
   */
  lemma ParsedIdIsBuiltIff(s: Server, rows: seq<NamespaceRow>, i: nat, k: nat)
    requires Printable(rows) && OBJECTS_FOLDER in s.nodes && i < |rows| && k < |rows[i].variables|
    ensures var r := Build(s, JsonOf(rows));
      var parsed := NodeId.Parse(SlotOf(rows[i], i, k).nodeId);
      var node := NodeOf(r, rows[i], i, rows[i].variables[k]);
      && node in r.nodes && parsed.Some?
      && (Str(parsed.value.ns, parsed.value.identifier) == node <==> IndexOfUri(r.uris, rows[i].uri) == i + 2)
  {
    var v := rows[i].variables[k];
    VariableIdAt(rows[i], i + 2, i + 2, v);
    NamedIsBuiltIff(s, rows, i, v);
  }

  /** On a fresh server it always is, so the build leaves something under that id. */
  lemma ParsedIdIsBuilt(s: Server, rows: seq<NamespaceRow>, i: nat, k: nat)
    requires Fits(rows, s.uris) && OBJECTS_FOLDER in s.nodes && i < |rows| && k < |rows[i].variables|
    ensures var parsed := NodeId.Parse(SlotOf(rows[i], i, k).nodeId);
      && parsed == Some(NodeId.StringId(i + 2, Identifier(rows[i], rows[i].variables[k])))
      && Str(parsed.value.ns, parsed.value.identifier) in Build(s, JsonOf(rows)).nodes
  {
    FirstIndex(s, rows, i);
    VariableIdAt(rows[i], i + 2, i + 2, rows[i].variables[k]);
    ParsedIdIsBuiltIff(s, rows, i, k);
  }

  lemma {:induction false} SlotInRow(row: NamespaceRow, i: nat, k: nat, l: nat)
    requires ValidRows(row) && k <= l < |row.variables|
    ensures SlotOf(row, i, l) in SlotsIn(row, i, k)
    decreases l - k
  {
    if k < l {
      SlotInRow(row, i, k + 1, l);
    }
  }

  lemma {:induction false} SlotIn(rows: seq<NamespaceRow>, i: nat, j: nat, k: nat)
    requires AllValid(rows) && i <= j < |rows| && k < |rows[j].variables|
    ensures SlotOf(rows[j], j, k) in Slots(rows, i)
    decreases j - i
  {
    if i == j {
      SlotInRow(rows[j], j, 0, k);
    } else {
      SlotIn(rows, i + 1, j, k);
    }
  }

  /** The map sends the variable to a node, and that node was made for the variable. */
  ghost predicate SentToOwn(t: Server, rows: seq<NamespaceRow>, i: nat, k: nat, m: map<Id, string>)
    requires Printable(rows) && i < |rows| && k < |rows[i].variables|
  {
    var v := rows[i].variables[k];
    && v.id in m && NodeId.Parse(m[v.id]).Some?
    && Makes(Clear(t, JsonOf(rows)), rows, i, k)
    && var parsed := NodeId.Parse(m[v.id]).value;
       Str(parsed.ns, parsed.identifier) == NodeOf(ReloadWith(t, rows), rows[i], i, v)
  }

  /**
   * From the device to the node: with a map that was just built and a server that has just been reloaded, a
   * variable's values reach the node made for it if and only if its namespace is registered at the printed
   * index and no object and no earlier variable of the namespace has its id.
   */
  lemma SentToOwnIff(t: Server, rows: seq<NamespaceRow>, found: map<Key, Id>, i: nat, k: nat)
    requires Printable(rows) && UniqueUris(rows) && OBJECTS_FOLDER in t.nodes && KnownIndices(t)
    requires UniqueNames(rows) && UniqueSlots(Slots(rows, 0)) && Answers(Slots(rows, 0), found)
    requires i < |rows| && k < |rows[i].variables|
    ensures SentToOwn(t, rows, i, k, NodeIdMap(rows, found)) <==>
      IndexOfUri(ReloadWith(t, rows).uris, rows[i].uri) == i + 2 && Apart(rows[i], k)
  {
    var m, v := NodeIdMap(rows, found), rows[i].variables[k];
    OwnNodeId(rows, found, i, k);
    VariableIdAt(rows[i], i + 2, i + 2, v);
    ReloadReachesOwnIff(t, rows, i, k);
  }

  lemma OwnNodeId(rows: seq<NamespaceRow>, found: map<Key, Id>, i: nat, k: nat)
    requires AllValid(rows) && UniqueNames(rows) && UniqueSlots(Slots(rows, 0)) && Answers(Slots(rows, 0), found)
    requires i < |rows| && k < |rows[i].variables|
    ensures var m, v := NodeIdMap(rows, found), rows[i].variables[k];
      v.id in m && m[v.id] == NodeId.Print(NodeId.StringId(i + 2, Identifier(rows[i], v)))
  {
    NewMapRoutesRight(rows, found);
    SlotIn(rows, 0, i, k);
    var a :| 0 <= a < |Slots(rows, 0)| && Slots(rows, 0)[a] == SlotOf(rows[i], i, k);
  }

  /** With dot-free names, variables of different names or namespaces have different NodeIds. */
  lemma NodeIdsApart(rows: seq<NamespaceRow>, i: nat, k: nat, j: nat, l: nat)
    requires AllValid(rows) && i < |rows| && j < |rows| && |rows| + 1 <= NodeId.MAX_NAMESPACE
    requires k < |rows[i].variables| && l < |rows[j].variables|
    requires PlainRows(rows[i]) && (i == j ==> rows[i].variables[k].name != rows[j].variables[l].name)
    ensures SlotOf(rows[i], i, k).nodeId != SlotOf(rows[j], j, l).nodeId
  {
    var v, w := rows[i].variables[k], rows[j].variables[l];
    var a, b := NodeId.StringId(i + 2, Identifier(rows[i], v)), NodeId.StringId(j + 2, Identifier(rows[j], w));
    if NodeId.Print(a) == NodeId.Print(b) {
      NodeId.PrintInjective(a, b);
      VariableHome(rows[i], i + 2, v);
      VariableHome(rows[i], i + 2, w);
      IdsDistinct(rows[i], i + 2, Place(rows[i], v), v.name, Place(rows[i], w), w.name);
    }
  }
  // ---------------------------------------------------------------- a renamed variable

  /** Namespace N with one variable, of a changing name. */
  function NamedVariable(name: string): VariableRow {
    VariableRow("u", None, name, "Double")
  }

  function WithVariable(name: string): NamespaceRow {
    NamespaceRow("N", "urn:n", [], [NamedVariable(name)])
  }

  lemma MapOfOne(name: string)
    ensures AllValid([WithVariable(name)]) && Identifier(WithVariable(name), NamedVariable(name)) == "N." + name
    ensures NodeIdMap([WithVariable(name)], map[(name, "N") := "u"])
            == map["u" := NodeId.Print(NodeId.StringId(2, "N." + name))]
  {
    var row := WithVariable(name);
    assert Ranked([], Rank(map[], 0));
    var slot := SlotOf(row, 0, 0);
    assert SlotsIn(row, 0, 0) == [slot];
    assert Slots([row], 1) == [];
    assert Slots([row], 0) == [slot] + [];
    assert slot.key == (name, "N") && slot.id == "u" && slot.nodeId == NodeId.Print(NodeId.StringId(2, "N." + name));
    RecordOne(slot);
  }

  lemma RecordOne(slot: Slot)
    ensures RecordAll(map[], map[slot.key := slot.id], [slot] + []) == map[slot.id := slot.nodeId]
  {
    var found := map[slot.key := slot.id];
    assert ([slot] + [])[1..] == [];
    assert RecordAll(map[slot.id := slot.nodeId], found, []) == map[slot.id := slot.nodeId];
  }

  lemma SentOfOne(u: Id, a: string, b: string)
    ensures Sent(map[u := a], map[u := b], [u]) == [Some(a)] && MapAfter(map[u := a], map[u := b], [u]) == map[u := a]
  {
    var m, n := map[u := a], map[u := b];
    assert [u][1..] == [];
    assert MapAfter(m, n, []) == m && Known(m, n, []) == [] && Resolved(m, []) == [];
    assert Known(m, n, [u]) == [u];
    assert Resolved(m, [u]) == [Some(a)];
  }

  /**
   * Variable A is renamed to B and the runtime reloads. A bridge that has seen A still sends
   * the values of the variable to "N.A", which the new configuration does not have.
   */
  lemma RenameMisroutes(uris: seq<string>)
    requires |uris| == 3 && uris[2] == "urn:n" && "urn:n" !in uris[..2]
    ensures AllValid([WithVariable("A")]) && AllValid([WithVariable("B")])
    ensures var before := NodeIdMap([WithVariable("A")], map[("A", "N") := "u"]);
      var after := NodeIdMap([WithVariable("B")], map[("B", "N") := "u"]);
      && Sent(before, after, ["u"]) == [Some(NodeId.Print(NodeId.StringId(2, "N.A")))]
      && Sent(after, after, ["u"]) == [Some(NodeId.Print(NodeId.StringId(2, "N.B")))]
      && MapAfter(before, after, ["u"]) == before
    ensures Str(2, "N.B") in BuiltIds([WithVariable("B")], uris)
    ensures Str(2, "N.A") !in BuiltIds([WithVariable("B")], uris)
  {
    MapOfOne("A");
    MapOfOne("B");
    var a, b := NodeId.Print(NodeId.StringId(2, "N.A")), NodeId.Print(NodeId.StringId(2, "N.B"));
    assert "N." + "A" == "N.A" && "N." + "B" == "N.B";
    SentOfOne("u", a, b);
    SentOfOne("u", b, b);
    RenamedIds(uris);
  }

  lemma RenamedIds(uris: seq<string>)
    requires |uris| == 3 && uris[2] == "urn:n" && "urn:n" !in uris[..2]
    ensures AllValid([WithVariable("B")])
    ensures Str(2, "N.B") in BuiltIds([WithVariable("B")], uris)
    ensures Str(2, "N.A") !in BuiltIds([WithVariable("B")], uris)
  {
    MapOfOne("B");
    var rows := [WithVariable("B")];
    IndexOfUriIs(uris, "urn:n", 2);
    var sets := BuiltSets(rows, uris);
    NamespaceHasOne(rows[0], NamedVariable("B"));
    assert "N." + "B" == "N.B";
    assert sets[0] == BuiltAt(rows, 0, uris);
    InUnion(sets, 0, 0);
    if Str(2, "N.A") in UnionFrom(sets, 0) {
      UnionOf(sets, 0, Str(2, "N.A"));
    }
  }

  lemma NamespaceHasOne(row: NamespaceRow, v: VariableRow)
    requires ValidRows(row) && row.objectNodes == [] && row.variables == [v]
    ensures NamespaceIds(JsonOfNamespace(row, 0), 2) == {Str(2, row.name), Str(2, Identifier(row, v))}
  {
    var n := JsonOfNamespace(row, 0);
    VariableIsBuilt(row, 0, 2, v);
    VariableIdAt(row, 2, 2, v);
    assert n.objectNodes == [];
    forall id | id in VariableIds(n.nodes, 2) ensures id == Str(2, Identifier(row, v)) {
      VariableIdsAre(n.nodes, 2, id);
    }
    assert ObjectIds(n.objectNodes, 2) == {} && RootId(n, 2) == Str(2, row.name);
    assert VariableIds(n.nodes, 2) == {Str(2, Identifier(row, v))};
  }
}
