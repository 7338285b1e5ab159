/**
 * The ids of a generated namespace, where names hold no dots: an id stands for one name
 * at one place of the tree, so two things share an id exactly when they share both.
 */
module UnambiguousNames {
  import opened Options
  import opened Strings
  import opened ObjectForest
  import opened GeneratedConfig
  import opened AddressSpace
  import opened AddressSpaceProofs
  import opened ClearOrder
  import NodeId

  /** Dot-free names, and different ones for sibling objects. Variables may be named like anything. */
  ghost predicate PlainRows(row: NamespaceRow) {
    PlainNames(row.objectNodes) && forall v | v in row.variables :: DOT !in v.name
  }

  /** The object row a variable sits in, if there is one. */
  function Place(row: NamespaceRow, v: VariableRow): Option<Row> {
    if v.objectNode.None? then None else Find(row.objectNodes, v.objectNode.value)
  }

  // ---------------------------------------------------------------- places and their paths

  /** A place is an object row, or the namespace itself. */
  predicate IsPlace(row: NamespaceRow, p: Option<Row>) {
    p.Some? ==> p.value in row.objectNodes
  }

  ghost function PathOfPlace(row: NamespaceRow, p: Option<Row>): string
    requires ValidRows(row) && IsPlace(row, p)
  {
    match p
    case None => row.name
    case Some(x) => PathOf(row.objectNodes, row.name, RankOf(row.objectNodes), x)
  }

  /** The id of what has this name at this place. */
  ghost function IdAt(row: NamespaceRow, ns: nat, p: Option<Row>, name: string): ServerId
    requires ValidRows(row) && IsPlace(row, p)
  {
    Str(ns, PathOfPlace(row, p) + [DOT] + name)
  }

  /** The id of the place itself. */
  ghost function HomeId(row: NamespaceRow, ns: nat, p: Option<Row>): ServerId
    requires ValidRows(row) && IsPlace(row, p)
  {
    Str(ns, PathOfPlace(row, p))
  }

  lemma ObjectHome(row: NamespaceRow, ns: nat, x: Row)
    requires ValidRows(row) && x in row.objectNodes
    ensures IsPlace(row, ParentRow(row.objectNodes, x))
    ensures HomeId(row, ns, Some(x)) == IdAt(row, ns, ParentRow(row.objectNodes, x), x.name)
  {
  }

  lemma VariableHome(row: NamespaceRow, ns: nat, v: VariableRow)
    requires ValidRows(row) && ns <= NodeId.MAX_NAMESPACE
    ensures IsPlace(row, Place(row, v))
    ensures VariableId(JsonOfVariable(row, ns, v), ns) == IdAt(row, ns, Place(row, v), v.name)
    ensures ParentPath(row, v) == PathOfPlace(row, Place(row, v))
  {
    VariableIdsAgree(row, ns, v);
  }

  lemma PlacesDistinct(row: NamespaceRow, p: Option<Row>, q: Option<Row>)
    requires ValidRows(row) && PlainNames(row.objectNodes) && IsPlace(row, p) && IsPlace(row, q)
    requires PathOfPlace(row, p) == PathOfPlace(row, q)
    ensures p == q
  {
    var rows, k := row.objectNodes, RankOf(row.objectNodes);
    if p.Some? {
      PathIsLonger(rows, row.name, k, p.value);
    }
    if q.Some? {
      PathIsLonger(rows, row.name, k, q.value);
    }
    if p.Some? && q.Some? {
      PathsDistinct(rows, row.name, k, p.value, q.value);
    }
  }

  /** Ids agree exactly when place and name do. */
  lemma IdsDistinct(row: NamespaceRow, ns: nat, p: Option<Row>, a: string, q: Option<Row>, b: string)
    requires ValidRows(row) && PlainNames(row.objectNodes) && IsPlace(row, p) && IsPlace(row, q)
    requires DOT !in a && DOT !in b
    ensures IdAt(row, ns, p, a) == IdAt(row, ns, q, b) <==> p == q && a == b
  {
    if IdAt(row, ns, p, a) == IdAt(row, ns, q, b) {
      CutUnique(PathOfPlace(row, p), a, PathOfPlace(row, q), b, DOT);
      PlacesDistinct(row, p, q);
    }
  }

  /** What has a name at a place has the id of an object exactly when the object has that name and place. */
  lemma IdOfObject(row: NamespaceRow, ns: nat, p: Option<Row>, a: string, x: Row)
    requires ValidRows(row) && PlainNames(row.objectNodes) && IsPlace(row, p) && DOT !in a && x in row.objectNodes
    ensures IdAt(row, ns, p, a) == HomeId(row, ns, Some(x)) <==> ParentRow(row.objectNodes, x) == p && x.name == a
  {
    ObjectHome(row, ns, x);
    IdsDistinct(row, ns, p, a, ParentRow(row.objectNodes, x), x.name);
  }

  lemma IdIsNotRoot(row: NamespaceRow, ns: nat, p: Option<Row>, a: string)
    requires ValidRows(row) && IsPlace(row, p)
    ensures IdAt(row, ns, p, a) != HomeId(row, ns, None)
  {
    if p.Some? {
      PathIsLonger(row.objectNodes, row.name, RankOf(row.objectNodes), p.value);
    }
    assert |PathOfPlace(row, p) + [DOT] + a| > |row.name|;
  }

  // ---------------------------------------------------------------- objects

  lemma {:induction false} IdHasRow(rows: seq<Row>, root: string, k: Rank, rs: seq<Row>, path: string, ns: nat,
                                    least: nat)
      returns (x: Row)
    requires UniqueIds(rows) && Ranked(rows, k) && forall r | r in rs :: r in rows && k.of[r.id] >= least
    requires Str(ns, path) in ObjectIds(JsonOfTrees(Trees(rows, root, k, rs)), ns)
    ensures x in rows && PathOf(rows, root, k, x) == path
    ensures OccursIn(Trees(rows, root, k, rs), x.id) > 0
    decreases k.bound - least, |rs|
  {
    var ts := Trees(rows, root, k, rs);
    assert ts[1..] == Trees(rows, root, k, rs[1..]);
    if ts[0].path == path {
      x := rs[0];
    } else if Str(ns, path) in ObjectIds(JsonOfTrees(ts[0].children), ns) {
      FindRow(rows, rs[0]);
      ChildrenOf(rows, root, k, rs[0]);
      x := IdHasRow(rows, root, k, ChildRows(rows, rs[0].id), path, ns, k.of[rs[0].id] + 1);
    } else {
      x := IdHasRow(rows, root, k, rs[1..], path, ns, least);
    }
  }

  ghost predicate OnceEach(ts: seq<Tree>) {
    forall id: Id :: OccursIn(ts, id) <= 1
  }

  ghost predicate OnceBetween(ts: seq<Tree>, ts': seq<Tree>) {
    forall id: Id :: OccursIn(ts, id) + OccursIn(ts', id) <= 1
  }

  lemma OnceSplit(ts: seq<Tree>)
    requires ts != [] && OnceEach(ts)
    ensures OnceEach(ts[0].children) && OnceEach(ts[1..]) && OnceBetween(ts[0].children, ts[1..])
    ensures OccursIn(ts[0].children, ts[0].id) == 0 && OccursIn(ts[1..], ts[0].id) == 0
  {
    assert forall id: Id ::
      OccursIn(ts, id) == (if ts[0].id == id then 1 else 0) + OccursIn(ts[0].children, id) + OccursIn(ts[1..], id);
  }

  /** An object's id is its dotted path, so an id occurring twice is a row occurring twice. */
  lemma RowApart(rows: seq<Row>, root: string, k: Rank, own: Row, rs: seq<Row>, ns: nat, least: nat)
    requires UniqueIds(rows) && Ranked(rows, k) && PlainNames(rows) && own in rows
    requires forall r | r in rs :: r in rows && k.of[r.id] >= least
    requires OccursIn(Trees(rows, root, k, rs), own.id) == 0
    ensures Str(ns, PathOf(rows, root, k, own)) !in ObjectIds(JsonOfTrees(Trees(rows, root, k, rs)), ns)
  {
    var path := PathOf(rows, root, k, own);
    if Str(ns, path) in ObjectIds(JsonOfTrees(Trees(rows, root, k, rs)), ns) {
      var x := IdHasRow(rows, root, k, rs, path, ns, least);
      PathsDistinct(rows, root, k, x, own);
    }
  }

  lemma ListsApart(rows: seq<Row>, root: string, k: Rank, cs: seq<Row>, least: nat, rs: seq<Row>, least': nat, ns: nat)
    requires UniqueIds(rows) && Ranked(rows, k) && PlainNames(rows)
    requires forall r | r in cs :: r in rows && k.of[r.id] >= least
    requires forall r | r in rs :: r in rows && k.of[r.id] >= least'
    requires OnceBetween(Trees(rows, root, k, cs), Trees(rows, root, k, rs))
    ensures ObjectIds(JsonOfTrees(Trees(rows, root, k, cs)), ns) !! ObjectIds(JsonOfTrees(Trees(rows, root, k, rs)), ns)
  {
    var os, os' := JsonOfTrees(Trees(rows, root, k, cs)), JsonOfTrees(Trees(rows, root, k, rs));
    forall id | id in ObjectIds(os, ns) ensures id !in ObjectIds(os', ns) {
      ObjectIdsAreStrings(os, ns);
      var x := IdHasRow(rows, root, k, cs, id.s, ns, least);
      assert OccursIn(Trees(rows, root, k, rs), x.id) == 0;
      RowApart(rows, root, k, x, rs, ns, least');
    }
  }

  lemma {:induction false} NoRepeatsInTrees(rows: seq<Row>, root: string, k: Rank, rs: seq<Row>, ns: nat, least: nat)
    requires UniqueIds(rows) && Ranked(rows, k) && PlainNames(rows)
    requires forall r | r in rs :: r in rows && k.of[r.id] >= least
    requires OnceEach(Trees(rows, root, k, rs))
    ensures NoRepeats(JsonOfTrees(Trees(rows, root, k, rs)), ns)
    decreases k.bound - least, |rs|
  {
    if rs != [] {
      var first, ts := rs[0], Trees(rows, root, k, rs);
      var cs, rest := ChildRows(rows, first.id), rs[1..];
      FindRow(rows, first);
      ChildrenOf(rows, root, k, first);
      assert ts[1..] == Trees(rows, root, k, rest) && ts[0].children == Trees(rows, root, k, cs);
      OnceSplit(ts);
      NoRepeatsInTrees(rows, root, k, cs, ns, k.of[first.id] + 1);
      NoRepeatsInTrees(rows, root, k, rest, ns, least);
      RowApart(rows, root, k, first, cs, ns, k.of[first.id] + 1);
      RowApart(rows, root, k, first, rest, ns, least);
      ListsApart(rows, root, k, cs, k.of[first.id] + 1, rest, least, ns);
    }
  }

  lemma AllOnce(row: NamespaceRow)
    requires ValidRows(row)
    ensures OnceEach(ForestOf(row.objectNodes, row.name))
  {
    forall id: Id ensures OccursIn(ForestOf(row.objectNodes, row.name), id) <= 1 {
      EveryRowOnce(row.objectNodes, row.name, id);
    }
  }

  /** Every object id is that of an object row. */
  lemma ObjectIdHasRow(row: NamespaceRow, i: nat, id: ServerId) returns (x: Row)
    requires ValidRows(row) && id in ObjectIds(JsonOfNamespace(row, i).objectNodes, i + 2)
    ensures x in row.objectNodes && HomeId(row, i + 2, Some(x)) == id
  {
    var rows := row.objectNodes;
    ObjectIdsAreStrings(JsonOfNamespace(row, i).objectNodes, i + 2);
    x := IdHasRow(rows, row.name, RankOf(rows), RootRows(rows, rows), id.s, i + 2, 0);
  }

  /** Plain names give the objects of a namespace different ids. */
  lemma PlainObjectsAreDistinct(row: NamespaceRow, i: nat)
    requires ValidRows(row) && PlainNames(row.objectNodes)
    ensures DistinctObjects(JsonOfNamespace(row, i), i + 2)
  {
    var rows, n, ns := row.objectNodes, JsonOfNamespace(row, i), i + 2;
    AllOnce(row);
    NoRepeatsInTrees(rows, row.name, RankOf(rows), RootRows(rows, rows), ns, 0);
    if RootId(n, ns) in ObjectIds(n.objectNodes, ns) {
      var x := ObjectIdHasRow(row, i, RootId(n, ns));
      PathIsLonger(rows, row.name, RankOf(rows), x);
    }
  }

  // ---------------------------------------------------------------- variables

  lemma VariableIdsAre(vs: seq<JsonVariable>, ns: nat, id: ServerId)
    requires id in VariableIds(vs, ns)
    ensures exists k | 0 <= k < |vs| :: Creatable(vs[k]) && VariableId(vs[k], ns) == id
  {
    if !(Creatable(vs[0]) && VariableId(vs[0], ns) == id) {
      VariableIdsAre(vs[1..], ns, id);
      var k :| 0 <= k < |vs[1..]| && Creatable(vs[1..][k]) && VariableId(vs[1..][k], ns) == id;
      assert vs[1..][k] == vs[k + 1];
    }
  }

  lemma VariableIdIn(vs: seq<JsonVariable>, ns: nat, j: nat)
    requires j < |vs| && Creatable(vs[j])
    ensures VariableId(vs[j], ns) in VariableIds(vs, ns)
  {
    if j > 0 {
      VariableIdIn(vs[1..], ns, j - 1);
    }
  }

  /** Every variable id is that of a variable row. */
  lemma VariableIdHasRow(row: NamespaceRow, i: nat, id: ServerId) returns (j: nat)
    requires ValidRows(row) && i + 2 <= NodeId.MAX_NAMESPACE
    requires id in VariableIds(JsonOfNamespace(row, i).nodes, i + 2)
    ensures j < |row.variables|
    ensures IsPlace(row, Place(row, row.variables[j]))
    ensures IdAt(row, i + 2, Place(row, row.variables[j]), row.variables[j].name) == id
  {
    var n, ns := JsonOfNamespace(row, i), i + 2;
    VariableIdsAre(n.nodes, ns, id);
    var k: nat :| k < |n.nodes| && Creatable(n.nodes[k]) && VariableId(n.nodes[k], ns) == id;
    j := k;
    VariableHome(row, ns, row.variables[j]);
  }
}
