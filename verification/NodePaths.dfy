/**
 * Object nodes named by slash-separated paths in CSV files: the export climbs from a row
 * to its root, the import descends from the roots to a row.
 */
module NodePaths {
  import opened Options
  import opened Sequences
  import opened Strings
  import opened ObjectForest

  const SLASH := '/'

  // ---------------------------------------------------------------- up

  /** The names on the way from the root to the row. */
  ghost function NamesTo(rows: seq<Row>, k: Rank, r: Row): (names: seq<string>)
    requires Ranked(rows, k) && r in rows
    ensures names != []
    decreases k.of[r.id]
  {
    match ParentRow(rows, r)
    case None => [r.name]
    case Some(p) => NamesTo(rows, k, p) + [r.name]
  }

  ghost function NamesToRef(rows: seq<Row>, k: Rank, ref: Option<Id>): seq<string>
    requires Ranked(rows, k)
  {
    if ref.None? || Find(rows, ref.value).None? then [] else NamesTo(rows, k, Find(rows, ref.value).value)
  }

  ghost function PathUp(rows: seq<Row>, id: Option<Id>): string
    requires Acyclic(rows)
  {
    Join(NamesToRef(rows, RankOf(rows), id), SLASH)
  }

  /** `getObjectNodePath`. */
  method GetObjectNodePath(rows: seq<Row>, objectNodeId: Option<Id>) returns (path: string)
    requires Acyclic(rows)
    ensures path == PathUp(rows, objectNodeId)
  {
    if objectNodeId.None? {
      return "";
    }
    ghost var k := RankOf(rows);
    var parts: seq<string> := [];
    var currentId := objectNodeId;
    while currentId.Some?
      invariant NamesToRef(rows, k, currentId) + parts == NamesToRef(rows, k, objectNodeId)
      decreases if currentId.Some? && Has(rows, currentId.value) then 1 + k.of[currentId.value] else 0, currentId.Some?
    {
      var node := Find(rows, currentId.value);
      if node.None? {
        break;
      }
      ghost var above := NamesToRef(rows, k, node.value.parent);
      assert NamesToRef(rows, k, currentId) == above + [node.value.name];
      assert (above + [node.value.name]) + parts == above + ([node.value.name] + parts);
      parts := [node.value.name] + parts;
      currentId := node.value.parent;
    }
    assert NamesToRef(rows, k, currentId) + parts == parts;
    return Join(parts, SLASH);
  }

  // ---------------------------------------------------------------- down

  /** `.map((p) => p.trim()).filter(Boolean)`. */
  function TrimmedNonEmpty(parts: seq<string>): seq<string> {
    if parts == [] then []
    else (if Trim(parts[0]) == "" then [] else [Trim(parts[0])]) + TrimmedNonEmpty(parts[1..])
  }

  /** The parts of a path, normalised. */
  function PathParts(path: string): seq<string> {
    if path == "" then [] else TrimmedNonEmpty(Split(path, SLASH))
  }

  /** `nsObjNodes.find((r) => r.name === part && r.parent_object_node_id === parentId)`. */
  function FindChild(rows: seq<Row>, ns: Id, name: string, parent: Option<Id>): (r: Option<Row>)
    ensures r.Some? ==> r.value in rows && r.value.ns == ns && r.value.name == name && r.value.parent == parent
    ensures r.None? ==> forall x | x in rows :: !(x.ns == ns && x.name == name && x.parent == parent)
  {
    if rows == [] then None
    else if rows[0].ns == ns && rows[0].name == name && rows[0].parent == parent then Some(rows[0])
    else FindChild(rows[1..], ns, name, parent)
  }

  /** Where the names lead from a given parent. */
  function Descend(rows: seq<Row>, ns: Id, parent: Option<Id>, parts: seq<string>): Option<Id>
    decreases |parts|
  {
    if parts == [] then parent
    else match FindChild(rows, ns, parts[0], parent)
         case None => None
         case Some(r) => Descend(rows, ns, Some(r.id), parts[1..])
  }

  /** `findObjectNodeByPath`. */
  method FindObjectNodeByPath(rows: seq<Row>, ns: Id, pathStr: string) returns (id: Option<Id>)
    ensures id == Descend(rows, ns, None, PathParts(pathStr))
  {
    if pathStr == "" {
      return None;
    }
    var parts := TrimmedNonEmpty(Split(pathStr, SLASH));
    if |parts| == 0 {
      return None;
    }
    var parentId: Option<Id> := None;
    for i := 0 to |parts|
      invariant Descend(rows, ns, parentId, parts[i..]) == Descend(rows, ns, None, parts)
    {
      assert parts[i..][0] == parts[i] && parts[i..][1..] == parts[i + 1..];
      var found := FindChild(rows, ns, parts[i], parentId);
      if found.None? {
        return None;
      }
      parentId := Some(found.value.id);
    }
    return parentId;
  }

  // ---------------------------------------------------------------- inverse

  /** A name that survives the path syntax. */
  predicate PathSafe(name: string) {
    name != "" && SLASH !in name && Trim(name) == name
  }

  /** The row and its ancestors are in one namespace, end at a real root and have safe names. */
  ghost predicate Reachable(rows: seq<Row>, k: Rank, ns: Id, r: Row)
    requires Ranked(rows, k) && r in rows
    decreases k.of[r.id]
  {
    && r.ns == ns && PathSafe(r.name)
    && (r.parent.Some? ==> ParentRow(rows, r).Some? && Reachable(rows, k, ns, ParentRow(rows, r).value))
  }

  /** Sibling names are unique within a namespace. */
  ghost predicate SiblingsNamed(rows: seq<Row>) {
    forall a, b | a in rows && b in rows && a.ns == b.ns && a.parent == b.parent && a.name == b.name :: a == b
  }

  lemma {:induction false} SafeParts(parts: seq<string>)
    requires forall p | p in parts :: PathSafe(p)
    ensures TrimmedNonEmpty(parts) == parts
  {
    if parts != [] {
      assert parts[0] in parts;
      SafeParts(parts[1..]);
    }
  }

  lemma JoinedPartsComeBack(parts: seq<string>)
    requires parts != [] && forall p | p in parts :: PathSafe(p)
    ensures PathParts(Join(parts, SLASH)) == parts
  {
    SplitJoin(parts, SLASH);
    SafeParts(parts);
    assert parts[0] in parts;
    assert Join(parts, SLASH) != "";
  }

  lemma {:induction false} DescendAppend(rows: seq<Row>, ns: Id, parent: Option<Id>, parts: seq<string>,
                                         more: seq<string>)
    requires parts != [] ==> Descend(rows, ns, parent, parts).Some?
    ensures Descend(rows, ns, parent, parts + more) == Descend(rows, ns, Descend(rows, ns, parent, parts), more)
    decreases |parts|
  {
    if parts == [] {
      assert parts + more == more;
    } else {
      assert (parts + more)[0] == parts[0] && (parts + more)[1..] == parts[1..] + more;
      DescendAppend(rows, ns, Some(FindChild(rows, ns, parts[0], parent).value.id), parts[1..], more);
    }
  }

  lemma {:induction false} DescendFindsRow(rows: seq<Row>, k: Rank, ns: Id, r: Row)
    requires UniqueIds(rows) && Ranked(rows, k) && SiblingsNamed(rows) && r in rows && Reachable(rows, k, ns, r)
    ensures Descend(rows, ns, None, NamesTo(rows, k, r)) == Some(r.id)
    ensures forall p | p in NamesTo(rows, k, r) :: PathSafe(p)
    decreases k.of[r.id]
  {
    assert FindChild(rows, ns, r.name, r.parent) == Some(r);
    assert Descend(rows, ns, r.parent, [r.name]) == Some(r.id) by {
      assert [r.name][1..] == [];
    }
    match ParentRow(rows, r) {
      case None =>
      case Some(p) =>
        DescendFindsRow(rows, k, ns, p);
        DescendAppend(rows, ns, None, NamesTo(rows, k, p), [r.name]);
    }
  }

  /** Importing an exported path finds the same object node. */
  lemma PathUpThenDown(rows: seq<Row>, ns: Id, r: Row)
    requires UniqueIds(rows) && Acyclic(rows) && SiblingsNamed(rows) && r in rows
    requires Reachable(rows, RankOf(rows), ns, r)
    ensures Descend(rows, ns, None, PathParts(PathUp(rows, Some(r.id)))) == Some(r.id)
  {
    FindRow(rows, r);
    DescendFindsRow(rows, RankOf(rows), ns, r);
    JoinedPartsComeBack(NamesTo(rows, RankOf(rows), r));
  }

  lemma {:induction false} DescentIsChain(rows: seq<Row>, k: Rank, ns: Id, start: Option<Id>, parts: seq<string>)
    requires UniqueIds(rows) && Ranked(rows, k) && (start.Some? ==> Has(rows, start.value))
    requires Descend(rows, ns, start, parts).Some?
    ensures var id := Descend(rows, ns, start, parts).value;
      Has(rows, id) && NamesToRef(rows, k, Some(id)) == NamesToRef(rows, k, start) + parts
    decreases |parts|
  {
    if parts == [] {
      assert NamesToRef(rows, k, start) + parts == NamesToRef(rows, k, start);
    } else {
      var r := FindChild(rows, ns, parts[0], start).value;
      FindRow(rows, r);
      DescentIsChain(rows, k, ns, Some(r.id), parts[1..]);
      assert NamesToRef(rows, k, Some(r.id)) == NamesToRef(rows, k, start) + [parts[0]];
      assert NamesToRef(rows, k, start) + parts == NamesToRef(rows, k, Some(r.id)) + parts[1..];
    }
  }

  /** Whatever object node a path finds, its exported path is that path, normalised. */
  lemma PathDownThenUp(rows: seq<Row>, ns: Id, path: string)
    requires UniqueIds(rows) && Acyclic(rows)
    requires Descend(rows, ns, None, PathParts(path)).Some?
    ensures PathUp(rows, Descend(rows, ns, None, PathParts(path))) == Join(PathParts(path), SLASH)
  {
    DescentIsChain(rows, RankOf(rows), ns, None, PathParts(path));
    assert [] + PathParts(path) == PathParts(path);
  }
  // ---------------------------------------------------------------- the path syntax

  /** Exported paths have slashes between the names, root first. */
  lemma ExportedWithSlashes(rows: seq<Row>, r: Row)
    requires UniqueIds(rows) && Acyclic(rows) && r in rows
    ensures PathUp(rows, Some(r.id)) ==
      (if ParentRow(rows, r).None? then "" else PathUp(rows, Some(ParentRow(rows, r).value.id)) + "/") + r.name
    ensures PathUp(rows, None) == ""
    ensures forall id: Id | (forall x | x in rows :: x.id != id) :: PathUp(rows, Some(id)) == ""
  {
    var k := RankOf(rows);
    FindRow(rows, r);
    if ParentRow(rows, r).Some? {
      var p := ParentRow(rows, r).value;
      FindRow(rows, p);
      JoinSnoc(NamesTo(rows, k, p), r.name);
    }
  }

  lemma {:induction false} JoinSnoc(names: seq<string>, name: string)
    requires names != []
    ensures Join(names + [name], SLASH) == Join(names, SLASH) + [SLASH] + name
    decreases |names|
  {
    var more := names + [name];
    if |names| == 1 {
      assert more[1..] == [name];
    } else {
      assert more[1..] == names[1..] + [name];
      JoinSnoc(names[1..], name);
    }
  }

  /** Blanks around the names of a path, and slashes with only blanks between them, make no difference. */
  lemma {:induction false} BlanksIgnored(parts: seq<string>, a: string, name: string, b: string, more: seq<string>)
    requires PathSafe(name) && Blank(a) && Blank(b)
    ensures TrimmedNonEmpty(parts + [a + name + b] + more) == TrimmedNonEmpty(parts) + [name] + TrimmedNonEmpty(more)
    ensures TrimmedNonEmpty(parts + [a + b] + more) == TrimmedNonEmpty(parts) + TrimmedNonEmpty(more)
    decreases |parts|
  {
    EndsVisible(name);
    TrimOfPadded(a, name, b);
    TrimsToNothing(a + b);
    PartsAppend(parts + [a + name + b], more);
    PartsAppend(parts + [a + b], more);
    PartsAppend(parts, [a + name + b]);
    PartsAppend(parts, [a + b]);
    assert [a + name + b][1..] == [] && [a + b][1..] == [];
    assert TrimmedNonEmpty(parts) + [] == TrimmedNonEmpty(parts);
  }

  lemma {:induction false} PartsAppend(a: seq<string>, b: seq<string>)
    ensures TrimmedNonEmpty(a + b) == TrimmedNonEmpty(a) + TrimmedNonEmpty(b)
    decreases |a|
  {
    if a == [] {
      assert a + b == b;
    } else {
      var head := if Trim(a[0]) == "" then [] else [Trim(a[0])];
      assert (a + b)[0] == a[0] && (a + b)[1..] == a[1..] + b;
      assert TrimmedNonEmpty(a) == head + TrimmedNonEmpty(a[1..]);
      assert TrimmedNonEmpty(a + b) == head + TrimmedNonEmpty(a[1..] + b);
      PartsAppend(a[1..], b);
      Associative(head, TrimmedNonEmpty(a[1..]), TrimmedNonEmpty(b));
    }
  }

  lemma EndsVisible(name: string)
    requires PathSafe(name)
    ensures !IsSpace(name[0]) && !IsSpace(name[|name| - 1])
  {
    var before, after := TrimCuts(name);
    assert Trim(name) == name;
  }

  /** The names of a path are what stands between its slashes. */
  lemma PartsBetweenSlashes(path: string)
    ensures exists parts ::
      && Join(parts, '/') == path && (forall p | p in parts :: '/' !in p)
      && PathParts(path) == TrimmedNonEmpty(parts)
  {
    JoinSplit(path, SLASH);
    var parts := Split(path, SLASH);
    if path == "" {
      assert parts == [""];
      TrimsToNothing("");
      assert [""][1..] == [];
    }
    assert Join(parts, '/') == path && PathParts(path) == TrimmedNonEmpty(parts);
  }
}
