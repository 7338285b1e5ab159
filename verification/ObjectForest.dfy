/**
 * Parent-pointer rows and the nested tree they stand for: what both tree builders of
 * the control API must produce from a flat list of object nodes.
 */
module ObjectForest {
  import opened Options
  import opened Strings

  /** Primary keys are UUIDs, never the empty (falsy) string. */
  type Id = s: string | s != "" witness "0"

  datatype Row = Row(id: Id, ns: Id, parent: Option<Id>, name: string)

  datatype Tree = Tree(id: Id, name: string, path: string, children: seq<Tree>)

  const DOT := '.'

  // ---------------------------------------------------------------- rows

  predicate UniqueIds(rows: seq<Row>) {
    forall i, j | 0 <= i < j < |rows| :: rows[i].id != rows[j].id
  }

  /** `nodeMap.get(id)` of a map built from the rows. */
  function Find(rows: seq<Row>, id: Id): (r: Option<Row>)
    ensures r.Some? ==> r.value in rows && r.value.id == id
    ensures r.None? ==> forall x | x in rows :: x.id != id
  {
    if rows == [] then None
    else if rows[0].id == id then Some(rows[0])
    else Find(rows[1..], id)
  }

  predicate Has(rows: seq<Row>, id: Id) {
    Find(rows, id).Some?
  }

  /** The row's parent, unless it has none or the parent is not among the rows. */
  function ParentRow(rows: seq<Row>, r: Row): (p: Option<Row>) {
    if r.parent.None? then None else Find(rows, r.parent.value)
  }

  lemma FindRow(rows: seq<Row>, r: Row)
    requires UniqueIds(rows) && r in rows
    ensures Find(rows, r.id) == Some(r)
  {
  }

  function ChildRows(rows: seq<Row>, id: Id): (cs: seq<Row>)
    ensures forall c | c in cs :: c in rows && c.parent == Some(id)
  {
    if rows == [] then []
    else (if rows[0].parent == Some(id) then [rows[0]] else []) + ChildRows(rows[1..], id)
  }

  /** The rows among `rows` that no row of `all` is the parent of. */
  function RootRows(rows: seq<Row>, all: seq<Row>): (rs: seq<Row>)
    ensures forall r | r in rs :: r in rows && ParentRow(all, r).None?
  {
    if rows == [] then []
    else (if ParentRow(all, rows[0]).None? then [rows[0]] else []) + RootRows(rows[1..], all)
  }

  // ---------------------------------------------------------------- acyclic lists

  /** A rank that grows from parent to child shows that no row is its own ancestor. */
  datatype Rank = Rank(of: map<Id, nat>, bound: nat)

  ghost predicate Ranked(rows: seq<Row>, k: Rank) {
    && (forall r | r in rows :: r.id in k.of && k.of[r.id] < k.bound)
    && (forall r | r in rows && ParentRow(rows, r).Some? ::
         k.of[ParentRow(rows, r).value.id] < k.of[r.id])
  }

  ghost predicate Acyclic(rows: seq<Row>) {
    exists k :: Ranked(rows, k)
  }

  ghost function RankOf(rows: seq<Row>): (k: Rank)
    requires Acyclic(rows)
    ensures Ranked(rows, k)
  {
    var k :| Ranked(rows, k); k
  }

  // ---------------------------------------------------------------- paths and trees

  /** Namespace and ancestor names, dotted. */
  ghost function PathOf(rows: seq<Row>, root: string, k: Rank, r: Row): string
    requires Ranked(rows, k) && r in rows
    decreases k.of[r.id]
  {
    match ParentRow(rows, r)
    case None => root + [DOT] + r.name
    case Some(p) => PathOf(rows, root, k, p) + [DOT] + r.name
  }

  /** The path of an optional, possibly dangling, reference. */
  ghost function PathOfRef(rows: seq<Row>, root: string, k: Rank, ref: Option<Id>): string
    requires Ranked(rows, k)
  {
    if ref.None? || Find(rows, ref.value).None? then root
    else PathOf(rows, root, k, Find(rows, ref.value).value)
  }

  ghost function TreeAt(rows: seq<Row>, root: string, k: Rank, r: Row): Tree
    requires UniqueIds(rows) && Ranked(rows, k) && r in rows
    decreases k.bound - k.of[r.id]
  {
    var cs := ChildRows(rows, r.id);
    FindRow(rows, r);
    Tree(r.id, r.name, PathOf(rows, root, k, r),
         seq(|cs|, i requires 0 <= i < |cs| =>
           assert cs[i] in cs;
           TreeAt(rows, root, k, cs[i])))
  }

  ghost function Trees(rows: seq<Row>, root: string, k: Rank, rs: seq<Row>): (ts: seq<Tree>)
    requires UniqueIds(rows) && Ranked(rows, k) && forall r | r in rs :: r in rows
    ensures |ts| == |rs| && forall i | 0 <= i < |rs| :: ts[i] == TreeAt(rows, root, k, rs[i])
  {
    seq(|rs|, i requires 0 <= i < |rs| => TreeAt(rows, root, k, rs[i]))
  }

  /** The nested tree of a list of rows. */
  ghost function ForestOf(rows: seq<Row>, root: string): seq<Tree>
    requires UniqueIds(rows) && Acyclic(rows)
  {
    Trees(rows, root, RankOf(rows), RootRows(rows, rows))
  }

  lemma ChildrenOf(rows: seq<Row>, root: string, k: Rank, r: Row)
    requires UniqueIds(rows) && Ranked(rows, k) && r in rows
    ensures TreeAt(rows, root, k, r).children == Trees(rows, root, k, ChildRows(rows, r.id))
  {
  }

  // ---------------------------------------------------------------- every row exactly once

  function Occurs(t: Tree, id: Id): nat {
    (if t.id == id then 1 else 0) + OccursIn(t.children, id)
  }

  function OccursIn(ts: seq<Tree>, id: Id): nat {
    if ts == [] then 0 else Occurs(ts[0], id) + OccursIn(ts[1..], id)
  }

  function CountRows(rs: seq<Row>, id: Id): nat {
    if rs == [] then 0 else (if rs[0].id == id then 1 else 0) + CountRows(rs[1..], id)
  }

  lemma CountAppend(a: seq<Row>, b: seq<Row>, id: Id)
    ensures CountRows(a + b, id) == CountRows(a, id) + CountRows(b, id)
  {
    if a == [] {
      assert a + b == b;
    } else {
      assert (a + b)[1..] == a[1..] + b;
      CountAppend(a[1..], b, id);
    }
  }

  lemma SameIdSameRow(rows: seq<Row>, x: Row)
    requires UniqueIds(rows) && x in rows
    ensures forall r | r in rows && r.id == x.id :: r == x
  {
  }

  lemma CountAbsent(rows: seq<Row>, id: Id)
    requires forall r | r in rows :: r.id != id
    ensures CountRows(rows, id) == 0
  {
  }

  lemma CountOnce(rows: seq<Row>, x: Row)
    requires UniqueIds(rows) && x in rows
    ensures CountRows(rows, x.id) == 1
  {
    if rows[0] == x {
      CountAbsent(rows[1..], x.id);
    } else {
      SameIdSameRow(rows, x);
      CountOnce(rows[1..], x);
    }
  }

  lemma {:induction false} CountChildren(sub: seq<Row>, id: Id, x: Row)
    requires forall r | r in sub && r.id == x.id :: r == x
    ensures CountRows(ChildRows(sub, id), x.id) == if x.parent == Some(id) then CountRows(sub, x.id) else 0
  {
    if sub != [] {
      CountChildren(sub[1..], id, x);
      CountAppend(if sub[0].parent == Some(id) then [sub[0]] else [], ChildRows(sub[1..], id), x.id);
    }
  }

  lemma {:induction false} CountRoots(sub: seq<Row>, all: seq<Row>, x: Row)
    requires forall r | r in sub && r.id == x.id :: r == x
    ensures CountRows(RootRows(sub, all), x.id) == if ParentRow(all, x).None? then CountRows(sub, x.id) else 0
  {
    if sub != [] {
      CountRoots(sub[1..], all, x);
      CountAppend(if ParentRow(all, sub[0]).None? then [sub[0]] else [], RootRows(sub[1..], all), x.id);
    }
  }

  /** A child row occurs wherever its parent occurs, and besides only as the root of a tree. */
  lemma {:induction false} OccursUnderParent(rows: seq<Row>, root: string, k: Rank, r: Row, x: Row, p: Row)
    requires UniqueIds(rows) && Ranked(rows, k) && r in rows && x in rows
    requires ParentRow(rows, x) == Some(p)
    ensures Occurs(TreeAt(rows, root, k, r), x.id)
         == (if r.id == x.id then 1 else 0) + Occurs(TreeAt(rows, root, k, r), p.id)
    decreases k.bound - k.of[r.id], 0
  {
    var cs := ChildRows(rows, r.id);
    FindRow(rows, r);
    ChildrenOf(rows, root, k, r);
    OccursUnderParents(rows, root, k, cs, x, p, k.of[r.id] + 1);
    SameIdSameRow(rows, x);
    CountChildren(rows, r.id, x);
    CountOnce(rows, x);
    FindRow(rows, p);
  }

  lemma {:induction false} OccursUnderParents(rows: seq<Row>, root: string, k: Rank, rs: seq<Row>, x: Row, p: Row,
                                              least: nat)
    requires UniqueIds(rows) && Ranked(rows, k) && x in rows
    requires forall r | r in rs :: r in rows && k.of[r.id] >= least
    requires ParentRow(rows, x) == Some(p)
    ensures OccursIn(Trees(rows, root, k, rs), x.id)
         == CountRows(rs, x.id) + OccursIn(Trees(rows, root, k, rs), p.id)
    decreases k.bound - least, |rs|
  {
    if rs != [] {
      assert Trees(rows, root, k, rs)[1..] == Trees(rows, root, k, rs[1..]);
      OccursUnderParent(rows, root, k, rs[0], x, p);
      OccursUnderParents(rows, root, k, rs[1..], x, p, least);
    }
  }

  /** A row without a parent among the rows is nobody's child. */
  lemma {:induction false} RootOccursAlone(rows: seq<Row>, root: string, k: Rank, r: Row, id: Id)
    requires UniqueIds(rows) && Ranked(rows, k) && r in rows
    requires forall x | x in rows && x.id == id :: ParentRow(rows, x).None?
    ensures Occurs(TreeAt(rows, root, k, r), id) == if r.id == id then 1 else 0
    decreases k.bound - k.of[r.id], 0
  {
    var cs := ChildRows(rows, r.id);
    FindRow(rows, r);
    ChildrenOf(rows, root, k, r);
    RootsOccurAlone(rows, root, k, cs, id, k.of[r.id] + 1);
    CountAbsent(cs, id);
  }

  lemma {:induction false} RootsOccurAlone(rows: seq<Row>, root: string, k: Rank, rs: seq<Row>, id: Id, least: nat)
    requires UniqueIds(rows) && Ranked(rows, k)
    requires forall r | r in rs :: r in rows && k.of[r.id] >= least
    requires forall x | x in rows && x.id == id :: ParentRow(rows, x).None?
    ensures OccursIn(Trees(rows, root, k, rs), id) == CountRows(rs, id)
    decreases k.bound - least, |rs|
  {
    if rs != [] {
      assert Trees(rows, root, k, rs)[1..] == Trees(rows, root, k, rs[1..]);
      RootOccursAlone(rows, root, k, rs[0], id);
      RootsOccurAlone(rows, root, k, rs[1..], id, least);
    }
  }

  lemma {:induction false} RowOccursOnce(rows: seq<Row>, root: string, k: Rank, x: Row)
    requires UniqueIds(rows) && Ranked(rows, k) && x in rows
    ensures OccursIn(Trees(rows, root, k, RootRows(rows, rows)), x.id) == 1
    decreases k.of[x.id]
  {
    var rs := RootRows(rows, rows);
    SameIdSameRow(rows, x);
    CountRoots(rows, rows, x);
    CountOnce(rows, x);
    match ParentRow(rows, x) {
      case None => RootsOccurAlone(rows, root, k, rs, x.id, 0);
      case Some(p) =>
        OccursUnderParents(rows, root, k, rs, x, p, 0);
        RowOccursOnce(rows, root, k, p);
    }
  }

  /** The nested tree of an acyclic list holds every row exactly once, and nothing else. */
  lemma EveryRowOnce(rows: seq<Row>, root: string, id: Id)
    requires UniqueIds(rows) && Acyclic(rows)
    ensures OccursIn(ForestOf(rows, root), id) == if Has(rows, id) then 1 else 0
  {
    var k, rs := RankOf(rows), RootRows(rows, rows);
    match Find(rows, id) {
      case Some(x) => RowOccursOnce(rows, root, k, x);
      case None =>
        RootsOccurAlone(rows, root, k, rs, id, 0);
        CountAbsent(rs, id);
    }
  }

  // ---------------------------------------------------------------- dotted paths

  /** Every node's path is that of its tree parent, a dot and its own name. */
  predicate DottedUnder(path: string, t: Tree)
    decreases t
  {
    && t.path == path + [DOT] + t.name
    && forall i | 0 <= i < |t.children| :: DottedUnder(t.path, t.children[i])
  }

  lemma {:induction false} TreeIsDotted(rows: seq<Row>, root: string, k: Rank, r: Row)
    requires UniqueIds(rows) && Ranked(rows, k) && r in rows
    ensures DottedUnder(PathOfRef(rows, root, k, r.parent), TreeAt(rows, root, k, r))
    decreases k.bound - k.of[r.id]
  {
    var cs, t := ChildRows(rows, r.id), TreeAt(rows, root, k, r);
    FindRow(rows, r);
    ChildrenOf(rows, root, k, r);
    forall i | 0 <= i < |cs| ensures DottedUnder(t.path, t.children[i]) {
      assert cs[i] in cs;
      TreeIsDotted(rows, root, k, cs[i]);
    }
  }

  lemma ForestIsDotted(rows: seq<Row>, root: string)
    requires UniqueIds(rows) && Acyclic(rows)
    ensures forall t | t in ForestOf(rows, root) :: DottedUnder(root, t)
  {
    var k, rs := RankOf(rows), RootRows(rows, rows);
    forall i | 0 <= i < |rs| ensures DottedUnder(root, TreeAt(rows, root, k, rs[i])) {
      assert rs[i] in rs;
      TreeIsDotted(rows, root, k, rs[i]);
    }
  }

  // ---------------------------------------------------------------- paths of the tree

  predicate PathInTree(t: Tree, path: string) {
    t.path == path || PathInForest(t.children, path)
  }

  predicate PathInForest(ts: seq<Tree>, path: string) {
    exists i | 0 <= i < |ts| :: PathInTree(ts[i], path)
  }

  lemma PathInMore(ts: seq<Tree>, more: seq<Tree>, path: string)
    requires ts != [] && ts[1..] == more && PathInForest(more, path)
    ensures PathInForest(ts, path)
  {
    var i :| 0 <= i < |more| && PathInTree(more[i], path);
    assert more[i] == ts[i + 1];
  }

  lemma {:induction false} OccurrenceHasPath(rows: seq<Row>, root: string, k: Rank, r: Row, x: Row)
    requires UniqueIds(rows) && Ranked(rows, k) && r in rows && x in rows
    requires Occurs(TreeAt(rows, root, k, r), x.id) > 0
    ensures PathInTree(TreeAt(rows, root, k, r), PathOf(rows, root, k, x))
    decreases k.bound - k.of[r.id], 0
  {
    SameIdSameRow(rows, x);
    if r.id != x.id {
      FindRow(rows, r);
      ChildrenOf(rows, root, k, r);
      OccurrencesHavePath(rows, root, k, ChildRows(rows, r.id), x, k.of[r.id] + 1);
    }
  }

  lemma {:induction false} OccurrencesHavePath(rows: seq<Row>, root: string, k: Rank, rs: seq<Row>, x: Row, least: nat)
    requires UniqueIds(rows) && Ranked(rows, k) && x in rows
    requires forall r | r in rs :: r in rows && k.of[r.id] >= least
    requires OccursIn(Trees(rows, root, k, rs), x.id) > 0
    ensures PathInForest(Trees(rows, root, k, rs), PathOf(rows, root, k, x))
    decreases k.bound - least, |rs|
  {
    var ts, more := Trees(rows, root, k, rs), Trees(rows, root, k, rs[1..]);
    var path := PathOf(rows, root, k, x);
    assert ts[1..] == more;
    if Occurs(ts[0], x.id) > 0 {
      OccurrenceHasPath(rows, root, k, rs[0], x);
      assert PathInTree(ts[0], path);
    } else {
      OccurrencesHavePath(rows, root, k, rs[1..], x, least);
      PathInMore(ts, more, path);
    }
  }

  /** A reference resolves to the root path, or to the path of a node of the nested tree. */
  lemma RefPathInForest(rows: seq<Row>, root: string, ref: Option<Id>)
    requires UniqueIds(rows) && Acyclic(rows)
    ensures var path := PathOfRef(rows, root, RankOf(rows), ref);
      path == root || PathInForest(ForestOf(rows, root), path)
  {
    var k := RankOf(rows);
    if ref.Some? && Has(rows, ref.value) {
      var x := Find(rows, ref.value).value;
      RowOccursOnce(rows, root, k, x);
      OccurrencesHavePath(rows, root, k, RootRows(rows, rows), x, 0);
    }
  }

  // ---------------------------------------------------------------- distinct paths

  /** Siblings, in the tree, have different names, and no name holds a dot. */
  ghost predicate PlainNames(rows: seq<Row>) {
    && (forall r | r in rows :: DOT !in r.name)
    && (forall a, b | a in rows && b in rows && ParentRow(rows, a) == ParentRow(rows, b) && a != b :: a.name != b.name)
  }

  lemma PathIsLonger(rows: seq<Row>, root: string, k: Rank, r: Row)
    requires Ranked(rows, k) && r in rows
    ensures |PathOf(rows, root, k, r)| > |root|
    decreases k.of[r.id]
  {
    if ParentRow(rows, r).Some? {
      PathIsLonger(rows, root, k, ParentRow(rows, r).value);
    }
  }

  /** Then different rows have different paths. */
  lemma {:induction false} PathsDistinct(rows: seq<Row>, root: string, k: Rank, a: Row, b: Row)
    requires Ranked(rows, k) && PlainNames(rows) && a in rows && b in rows
    requires PathOf(rows, root, k, a) == PathOf(rows, root, k, b)
    ensures a == b
    decreases k.of[a.id]
  {
    var p, q := ParentRow(rows, a), ParentRow(rows, b);
    var u := if p.None? then root else PathOf(rows, root, k, p.value);
    var v := if q.None? then root else PathOf(rows, root, k, q.value);
    CutUnique(u, a.name, v, b.name, DOT);
    if p.Some? {
      PathIsLonger(rows, root, k, p.value);
    }
    if q.Some? {
      PathIsLonger(rows, root, k, q.value);
    }
    if p.Some? && q.Some? {
      PathsDistinct(rows, root, k, p.value, q.value);
    }
  }
  // ---------------------------------------------------------------- what paths and children are

  /** A path is the parent's path, or the namespace's name, with a dot and the row's own name. */
  lemma PathHasDots(rows: seq<Row>, root: string, k: Rank, r: Row)
    requires UniqueIds(rows) && Ranked(rows, k) && r in rows
    ensures PathOf(rows, root, k, r) == PathOfRef(rows, root, k, r.parent) + "." + r.name
    ensures PathOfRef(rows, root, k, Some(r.id)) == PathOf(rows, root, k, r)
    ensures PathOfRef(rows, root, k, None) == root
    ensures forall id: Id | (forall x | x in rows :: x.id != id) :: PathOfRef(rows, root, k, Some(id)) == root
  {
    FindRow(rows, r);
  }

  /** A row's node in the nested forest has its id, its name and its own path. */
  lemma TreeIsRow(rows: seq<Row>, root: string, k: Rank, r: Row)
    requires UniqueIds(rows) && Ranked(rows, k) && r in rows
    ensures var t := TreeAt(rows, root, k, r);
      && t.id == r.id && t.name == r.name && t.path == PathOfRef(rows, root, k, r.parent) + "." + r.name
      && t.children == Trees(rows, root, k, ChildRows(rows, r.id))
  {
    PathHasDots(rows, root, k, r);
    ChildrenOf(rows, root, k, r);
  }

  /** Children stand in the order of the rows: each row of the list adds itself behind those before it. */
  lemma {:induction false} ChildrenInOrder(a: seq<Row>, b: seq<Row>, r: Row, id: Id)
    ensures ChildRows(a + b, id) == ChildRows(a, id) + ChildRows(b, id)
    ensures ChildRows([r], id) == if r.parent == Some(id) then [r] else []
    decreases |a|
  {
    assert [r][1..] == [];
    if a == [] {
      assert a + b == b;
    } else {
      assert (a + b)[0] == a[0] && (a + b)[1..] == a[1..] + b;
      ChildrenInOrder(a[1..], b, r, id);
    }
  }

  lemma {:induction false} RootsInOrder(a: seq<Row>, b: seq<Row>, r: Row, all: seq<Row>)
    ensures RootRows(a + b, all) == RootRows(a, all) + RootRows(b, all)
    ensures RootRows([r], all) == if ParentRow(all, r).None? then [r] else []
    decreases |a|
  {
    assert [r][1..] == [];
    if a == [] {
      assert a + b == b;
    } else {
      assert (a + b)[0] == a[0] && (a + b)[1..] == a[1..] + b;
      RootsInOrder(a[1..], b, r, all);
    }
  }

  /** A row is a root exactly when it names no parent, or one that is not among the rows. */
  lemma RootsAre(rows: seq<Row>, r: Row)
    ensures ParentRow(rows, r).None? <==> r.parent.None? || forall x | x in rows :: x.id != r.parent.value
  {
  }
}
