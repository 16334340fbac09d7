/**
 * Moving a location under a new parent (app/models/location.rb:227-265):
 * `set_hierarchy_from_parent` gives one in-memory location the parent's path
 * as its hierarchy; `set_parent` rewrites the hierarchy of the location and
 * of every stored descendant and saves each of them; `remove_parent` is
 * `set_parent` with no parent.
 */
module Reparent {
  import opened Wrappers
  import opened PathCodec
  import opened AdminLevel
  import opened LocationNode
  import opened ViewQuery
  import opened Views
  import opened Saving
  import opened Forest

  /**
   * The hierarchy a new parent hands down, and the in-memory parent
   * afterwards. A non-root parent's own hierarchy list is the one appended
   * to, so that parent's hierarchy grows by its own placename as well; a
   * root's blank hierarchy is replaced by a fresh list and the root is left
   * alone.
   */
  datatype Attached = Attached(hierarchy: seq<string>, parent: Option<Node>)

  /** The new hierarchy of `set_parent` and `set_hierarchy_from_parent` (location.rb:229-233, 248-252). */
  function NewHierarchy(parent: Option<Node>): (r: Attached)
    ensures parent.None? ==> r == Attached([], None)
    ensures parent.Some? ==> r.hierarchy == Path(parent.value) && r.parent.Some?
    ensures parent.Some? ==> r.parent.value == parent.value.(hierarchy := r.parent.value.hierarchy)
    ensures parent.Some? ==> (r.parent == parent <==> IsTopLevel(parent.value))
    ensures parent.Some? && !IsTopLevel(parent.value) ==> r.parent.value.hierarchy == r.hierarchy
  {
    match parent
    case None => Attached([], None)
    case Some(p) =>
      var h := p.hierarchy + [p.placename];
      Attached(h, Some(if p.hierarchy == [] then p else p.(hierarchy := h)))
  }

  /** What `set_hierarchy_from_parent` leaves in memory: the location and the parent it was given. */
  datatype Adopted = Adopted(child: Node, parent: Option<Node>)

  /**
   * `set_hierarchy_from_parent` (location.rb:246-253): the location's
   * hierarchy becomes the parent's path, or blank without a parent; nothing
   * is saved.
   */
  function SetHierarchyFromParent(self: Node, parent: Option<Node>): (r: Adopted)
    ensures r.child == self.(hierarchy := r.child.hierarchy)
    ensures parent.None? ==> IsTopLevel(r.child) && r.parent == None
    ensures parent.Some? ==> r.child.hierarchy == Path(parent.value)
    ensures parent.Some? && IsTopLevel(parent.value) ==> r.parent == parent
    ensures parent.Some? && !IsTopLevel(parent.value) ==>
      r.parent == Some(parent.value.(hierarchy := r.child.hierarchy))
  {
    var a := NewHierarchy(parent);
    Adopted(self.(hierarchy := a.hierarchy), a.parent)
  }

  /**
   * With unique placenames, a location given a stored parent's path finds
   * that parent again through `parent`, and `calculate_admin_level` gives it
   * the level below the parent's.
   */
  lemma AdoptedFindsParent(nodes: map<Id, Node>, self: Node, pid: Id)
    requires pid in nodes && UniquePlacenames(nodes)
    ensures var c := SetHierarchyFromParent(self, Some(nodes[pid])).child;
      Parent(nodes, c) == Some(Row(pid, nodes[pid])) &&
      CalculateAdminLevel(nodes, c).adminLevel == Some(LevelBelow(nodes[pid].adminLevel))
  {
    var c := SetHierarchyFromParent(self, Some(nodes[pid])).child;
    assert Last(c.hierarchy) == nodes[pid].placename;
    ParentIsTheNamedLocation(nodes, c);
  }

  /**
   * `find_index(placename) || length`: the first position of `p` in the
   * hierarchy, or its length when `p` is not in it.
   */
  function IndexOf(h: seq<string>, p: string): (i: nat)
    ensures i <= |h|
    ensures i < |h| <==> p in h
    ensures i < |h| ==> h[i] == p
    ensures forall j | 0 <= j < i :: h[j] != p
  {
    if h == [] then 0
    else if h[0] == p then 0
    else 1 + IndexOf(h[1..], p)
  }

  /**
   * The hierarchy `set_parent` gives a node of the subtree of `p`
   * (location.rb:238-241): the new prefix, then the earlier hierarchy from the
   * first occurrence of `p` on, or nothing of it when `p` is not there.
   */
  function Rehome(prefix: seq<string>, before: seq<string>, p: string): (r: seq<string>)
    ensures prefix <= r && |r| - |prefix| <= |before|
    ensures r[|prefix|..] == before[|before| - (|r| - |prefix|)..]
    ensures p !in before[..|before| - (|r| - |prefix|)]
    ensures p in before <==> |r| > |prefix|
    ensures p in before ==> r[|prefix|] == p
  {
    var i := IndexOf(before, p);
    assert before[i..] == before[|before| - (|before| - i)..];
    prefix + before[i..]
  }

  /**
   * In a subtree whose root `p` does not occur in its own hierarchy, the root
   * takes exactly the new prefix, and every node `p`'s path leads keeps what
   * lay below `p` under the root's new path.
   */
  lemma RehomeFollowsRoot(prefix: seq<string>, rootHierarchy: seq<string>, p: string, below: seq<string>)
    requires p !in rootHierarchy
    ensures Rehome(prefix, rootHierarchy, p) == prefix
    ensures Rehome(prefix, rootHierarchy + [p] + below, p) == prefix + [p] + below
  {
    var before := rootHierarchy + [p] + below;
    var i := IndexOf(before, p);
    assert before[|rootHierarchy|] == p;
    assert forall j | 0 <= j < |rootHierarchy| :: before[j] == rootHierarchy[j];
    assert before[i..] == [p] + below;
  }

  /** The document a row of the subtree is saved as. */
  function Moved(row: Row, prefix: seq<string>, p: string): Node {
    row.doc.(hierarchy := Rehome(prefix, row.doc.hierarchy, p))
  }

  /** Rows that share an id carry the same document, as rows of one query do. */
  ghost predicate Snapshots(rows: seq<Row>) {
    forall j, k | 0 <= j < |rows| && 0 <= k < |rows| && rows[j].id == rows[k].id :: rows[j].doc == rows[k].doc
  }

  /** Whether a row from the `i`-th on has id `x`. */
  ghost predicate HasRow(rows: seq<Row>, i: nat, x: Id) {
    exists j | i <= j < |rows| :: rows[j].id == x
  }

  /**
   * Where a row of the loop ends up: a row whose re-rooted document validates
   * is stored with its new hierarchy and current name, keeping everything
   * else of the document but the level; one that fails validation left its
   * location as it was in `before`.
   */
  ghost predicate Placed(r: map<Id, Node>, before: map<Id, Node>, row: Row, prefix: seq<string>, p: string) {
    var m := Moved(row, prefix, p);
    row.id in r && row.id in before &&
    (Validates(m) ==> r[row.id] == m.(name := HierarchicalNameOf(m), adminLevel := r[row.id].adminLevel)) &&
    (!Validates(m) ==> r[row.id] == before[row.id])
  }

  /** Every row from the `i`-th on is placed. */
  ghost predicate PlacedFrom(r: map<Id, Node>, before: map<Id, Node>, rows: seq<Row>, prefix: seq<string>, p: string, i: nat) {
    forall j | i <= j < |rows| :: Placed(r, before, rows[j], prefix, p)
  }

  /**
   * Every row from the `i`-th on that was written took its level from its
   * parent as that stood in `before`, when the parent is not itself among
   * those rows.
   */
  ghost predicate LevelsFrom(r: map<Id, Node>, before: map<Id, Node>, rows: seq<Row>, prefix: seq<string>, p: string, i: nat) {
    forall j, q | i <= j < |rows| && q in before && !HasRow(rows, i, q) &&
      Validates(Moved(rows[j], prefix, p)) && LastIs(Moved(rows[j], prefix, p).hierarchy, before[q].placename) ::
      rows[j].id in r && r[rows[j].id].adminLevel == Some(LevelBelow(before[q].adminLevel))
  }

  /** Each row from the `i`-th on carries the placename stored under its id. */
  ghost predicate NamedAsStored(nodes: map<Id, Node>, rows: seq<Row>, i: nat) {
    forall j | i <= j < |rows| :: rows[j].id in nodes && rows[j].doc.placename == nodes[rows[j].id].placename
  }

  /**
   * The loop of `set_parent` over the `descendants` rows (location.rb:237-243),
   * from the `i`-th on: each row's document gets its re-rooted hierarchy and
   * is saved with `save`, which answers false and writes nothing when the
   * document fails validation. Every row lies below `p`, so no save is that
   * of a root and none cascades.
   */
  function RewriteRows(nodes: map<Id, Node>, rows: seq<Row>, prefix: seq<string>, p: string, i: nat): (r: map<Id, Node>)
    requires i <= |rows|
    requires forall j | i <= j < |rows| :: rows[j].id in nodes && p in rows[j].doc.hierarchy
    ensures r.Keys == nodes.Keys
    ensures forall x | x in nodes && !HasRow(rows, i, x) :: r[x] == nodes[x]
    ensures Snapshots(rows) && NamedAsStored(nodes, rows, i) ==> PlacedFrom(r, nodes, rows, prefix, p, i)
    ensures Snapshots(rows) && NamedAsStored(nodes, rows, i) && UniquePlacenames(nodes) ==>
      LevelsFrom(r, nodes, rows, prefix, p, i)
    decreases |rows| - i
  {
    if i == |rows| then nodes
    else
      var row := rows[i];
      var n1 := SaveBelow(nodes, row.id, Moved(row, prefix, p));
      var r := RewriteRows(n1, rows, prefix, p, i + 1);
      assert forall x | !HasRow(rows, i, x) :: !HasRow(rows, i + 1, x) && x != row.id;
      assert Snapshots(rows) && NamedAsStored(nodes, rows, i) ==>
        PlacedFrom(r, nodes, rows, prefix, p, i) &&
        (UniquePlacenames(nodes) ==> LevelsFrom(r, nodes, rows, prefix, p, i)) by {
        if Snapshots(rows) && NamedAsStored(nodes, rows, i) {
          RewriteStep(nodes, rows, prefix, p, i);
          PlacedStep(nodes, n1, r, rows, prefix, p, i);
          if UniquePlacenames(nodes) {
            LevelsStep(nodes, n1, r, rows, prefix, p, i);
          }
        }
      }
      r
  }

  /**
   * `save` of a non-root under a stored id: the `before_save` callbacks run
   * and the result is written when the location validates; nothing cascades.
   */
  function SaveBelow(nodes: map<Id, Node>, id: Id, n: Node): (r: map<Id, Node>)
    requires id in nodes
    ensures r.Keys == nodes.Keys
    ensures forall x | x in nodes && x != id :: r[x] == nodes[x]
    ensures !Validates(n) ==> r[id] == nodes[id]
    ensures Validates(n) ==> r[id] == n.(name := HierarchicalNameOf(n), adminLevel := r[id].adminLevel)
    ensures Validates(n) && UniquePlacenames(nodes) ==> forall q | q in nodes && LastIs(n.hierarchy, nodes[q].placename) ::
      r[id].adminLevel == Some(LevelBelow(nodes[q].adminLevel))
  {
    if !Validates(n) then nodes
    else
      var w := BeforeSave(nodes, n);
      assert SameShape(w, n);
      nodes[id := w]
  }

  /** For a non-root, `SaveBelow` is what `Save` does, and nothing raises. */
  lemma SaveBelowIsSave(nodes: map<Id, Node>, id: Id, n: Node)
    requires id in nodes && !IsTopLevel(n)
    ensures !Save(nodes, id, n).raised
    ensures Save(nodes, id, n).nodes == SaveBelow(nodes, id, n)
  {
  }

  /** Stores with the same ids and placenames agree on whether placenames are unique. */
  lemma PlacenamesKept(nodes: map<Id, Node>, m: map<Id, Node>)
    requires m.Keys == nodes.Keys && forall x | x in nodes :: m[x].placename == nodes[x].placename
    ensures UniquePlacenames(m) <==> UniquePlacenames(nodes)
  {
  }

  /** One save of the loop keeps every row named as stored and the placenames of the store. */
  lemma RewriteStep(nodes: map<Id, Node>, rows: seq<Row>, prefix: seq<string>, p: string, i: nat)
    requires i < |rows| && NamedAsStored(nodes, rows, i) && p in rows[i].doc.hierarchy
    ensures var n1 := SaveBelow(nodes, rows[i].id, Moved(rows[i], prefix, p));
      NamedAsStored(n1, rows, i + 1) && (UniquePlacenames(n1) <==> UniquePlacenames(nodes))
  {
    var n := Moved(rows[i], prefix, p);
    var n1 := SaveBelow(nodes, rows[i].id, n);
    assert n1[rows[i].id].placename == nodes[rows[i].id].placename;
    PlacenamesKept(nodes, n1);
  }

  /** What one save of the loop did to the row it saved. */
  ghost predicate SavedRow(nodes: map<Id, Node>, n1: map<Id, Node>, row: Row, prefix: seq<string>, p: string) {
    row.id in nodes && n1.Keys == nodes.Keys &&
    (forall x | x in nodes && x != row.id :: n1[x] == nodes[x]) &&
    Placed(n1, nodes, row, prefix, p)
  }

  /** Rows are placed after the loop from `i` on if they are after the save of row `i` and the loop from `i + 1` on. */
  lemma PlacedStep(nodes: map<Id, Node>, n1: map<Id, Node>, r: map<Id, Node>, rows: seq<Row>, prefix: seq<string>, p: string, i: nat)
    requires i < |rows| && Snapshots(rows)
    requires SavedRow(nodes, n1, rows[i], prefix, p)
    requires r.Keys == n1.Keys && forall x | x in n1 && !HasRow(rows, i + 1, x) :: r[x] == n1[x]
    requires PlacedFrom(r, n1, rows, prefix, p, i + 1)
    ensures PlacedFrom(r, nodes, rows, prefix, p, i)
  {
    forall j | i <= j < |rows|
      ensures Placed(r, nodes, rows[j], prefix, p)
    {
      var id := rows[j].id;
      if HasRow(rows, i + 1, id) {
        var k :| i + 1 <= k < |rows| && rows[k].id == id;
        assert rows[k].doc == rows[j].doc;
        assert Placed(r, n1, rows[k], prefix, p);
        if id == rows[i].id {
          assert rows[i].doc == rows[j].doc;
        }
      } else {
        assert j == i;
      }
    }
  }

  /** What one save of the loop did to the level of the row it saved. */
  ghost predicate LevelledRow(nodes: map<Id, Node>, n1: map<Id, Node>, row: Row, prefix: seq<string>, p: string) {
    var m := Moved(row, prefix, p);
    row.id in n1 &&
    (Validates(m) ==> forall q | q in nodes && LastIs(m.hierarchy, nodes[q].placename) ::
      n1[row.id].adminLevel == Some(LevelBelow(nodes[q].adminLevel)))
  }

  /** Levels are taken as `LevelsFrom` says after the loop from `i` on, given the save of row `i` and the loop from `i + 1` on. */
  lemma LevelsStep(nodes: map<Id, Node>, n1: map<Id, Node>, r: map<Id, Node>, rows: seq<Row>, prefix: seq<string>, p: string, i: nat)
    requires i < |rows| && Snapshots(rows)
    requires rows[i].id in nodes && n1.Keys == nodes.Keys && forall x | x in nodes && x != rows[i].id :: n1[x] == nodes[x]
    requires LevelledRow(nodes, n1, rows[i], prefix, p)
    requires r.Keys == n1.Keys && forall x | x in n1 && !HasRow(rows, i + 1, x) :: r[x] == n1[x]
    requires LevelsFrom(r, n1, rows, prefix, p, i + 1)
    ensures LevelsFrom(r, nodes, rows, prefix, p, i)
  {
    forall j, q | i <= j < |rows| && q in nodes && !HasRow(rows, i, q) &&
      Validates(Moved(rows[j], prefix, p)) && LastIs(Moved(rows[j], prefix, p).hierarchy, nodes[q].placename)
      ensures rows[j].id in r && r[rows[j].id].adminLevel == Some(LevelBelow(nodes[q].adminLevel))
    {
      var id := rows[j].id;
      assert q != rows[i].id && n1[q] == nodes[q];
      assert !HasRow(rows, i + 1, q);
      if HasRow(rows, i + 1, id) {
        var k :| i + 1 <= k < |rows| && rows[k].id == id;
        assert rows[k].doc == rows[j].doc;
      } else {
        assert j == i;
      }
    }
  }

  /** What `set_parent` leaves behind: the store, the in-memory parent, and whether a `save!` of the cascade raised. */
  datatype Reparented = Reparented(nodes: map<Id, Node>, parent: Option<Node>, raised: bool)

  /** The document `set_parent` saves for the location itself: the last entry of its subtree. */
  function Relocate(id: Id, self: Node, prefix: seq<string>): Node {
    Moved(Row(id, self), prefix, self.placename)
  }

  /**
   * `set_parent` (location.rb:227-244) on the in-memory location `self`
   * stored under `id`: the rows of `descendants` are fetched once, each is
   * re-rooted under the new parent's path and saved, and then the location
   * itself is re-rooted and saved; only that last save can be a root's, and
   * then it cascades.
   */
  function SetParent(nodes: map<Id, Node>, id: Id, self: Node, parent: Option<Node>): (r: Reparented)
    requires var m := Relocate(id, self, NewHierarchy(parent).hierarchy);
      IsTopLevel(m) && Validates(m) ==> Layered(Relocated(nodes, id, self, NewHierarchy(parent).hierarchy))
    ensures parent.Some? ==> !r.raised
    ensures r.raised ==> !AllNamed(Relocated(nodes, id, self, NewHierarchy(parent).hierarchy))
  {
    var a := NewHierarchy(parent);
    DescendantRows(nodes, self);
    var n1 := RewriteRows(nodes, Descendants(nodes, self), a.hierarchy, self.placename, 0);
    RewrittenShapes(nodes, id, self, a.hierarchy, Descendants(nodes, self));
    var s := Save(n1, id, Relocate(id, self, a.hierarchy));
    Reparented(s.nodes, a.parent, s.raised)
  }

  /**
   * The shapes `set_parent` is meant to leave: every stored location below
   * `p` that validates once re-rooted takes its re-rooted shape, the
   * location itself takes its re-rooted shape when it validates, and every
   * other location keeps its shape.
   */
  ghost function Relocated(nodes: map<Id, Node>, id: Id, self: Node, prefix: seq<string>): map<Id, Shape> {
    var rows := RelocatedRows(nodes, prefix, self.placename);
    var m := Relocate(id, self, prefix);
    if Validates(m) then rows[id := ShapeOf(m)] else rows
  }

  /** The shapes after the loop over the descendants alone. */
  ghost function RelocatedRows(nodes: map<Id, Node>, prefix: seq<string>, p: string): map<Id, Shape> {
    map x | x in nodes :: RelocatedShape(nodes[x], prefix, p)
  }

  /** The shape one stored location is meant to have after the loop. */
  function RelocatedShape(n: Node, prefix: seq<string>, p: string): Shape {
    var m := n.(hierarchy := Rehome(prefix, n.hierarchy, p));
    if p in n.hierarchy && Validates(m) then ShapeOf(m) else ShapeOf(n)
  }

  /**
   * After the loop over the rows of `descendants`, the store has the shapes
   * of `RelocatedRows`, and the store the location is then saved into has
   * the shapes of `Relocated`.
   */
  lemma RewrittenShapes(nodes: map<Id, Node>, id: Id, self: Node, prefix: seq<string>, rows: seq<Row>)
    requires rows == Descendants(nodes, self)
    requires forall j | 0 <= j < |rows| :: rows[j].id in nodes && self.placename in rows[j].doc.hierarchy
    ensures var n1 := RewriteRows(nodes, rows, prefix, self.placename, 0);
      Shapes(n1) == RelocatedRows(nodes, prefix, self.placename) &&
      var m := Relocate(id, self, prefix); Validates(m) ==> Shapes(n1[id := m]) == Relocated(nodes, id, self, prefix)
  {
    var n1 := RewriteRows(nodes, rows, prefix, self.placename, 0);
    DescendantRows(nodes, self);
    RowsShapes(nodes, rows, prefix, self.placename, n1);
    var m := Relocate(id, self, prefix);
    if Validates(m) {
      ShapesWrite(n1, id, m);
    }
  }

  /** Writing one location changes the shapes of the store only there. */
  lemma ShapesWrite(nodes: map<Id, Node>, id: Id, n: Node)
    ensures Shapes(nodes[id := n]) == Shapes(nodes)[id := ShapeOf(n)]
  {
  }

  /** The shapes a loop leaves that placed every row of a query below `p`. */
  lemma RowsShapes(nodes: map<Id, Node>, rows: seq<Row>, prefix: seq<string>, p: string, n1: map<Id, Node>)
    requires forall j | 0 <= j < |rows| :: rows[j].id in nodes && rows[j].doc == nodes[rows[j].id] && p in rows[j].doc.hierarchy
    requires forall x | x in nodes && p in nodes[x].hierarchy :: Row(x, nodes[x]) in rows
    requires n1.Keys == nodes.Keys && forall x | x in nodes && !HasRow(rows, 0, x) :: n1[x] == nodes[x]
    requires PlacedFrom(n1, nodes, rows, prefix, p, 0)
    ensures Shapes(n1) == RelocatedRows(nodes, prefix, p)
  {
    forall x | x in nodes
      ensures ShapeOf(n1[x]) == RelocatedShape(nodes[x], prefix, p)
    {
      RowShape(nodes, rows, prefix, p, n1, x);
    }
    ShapesAre(nodes, prefix, p, n1);
  }

  /** A store whose every location has the shape `RelocatedRows` gives it has those shapes. */
  lemma ShapesAre(nodes: map<Id, Node>, prefix: seq<string>, p: string, n1: map<Id, Node>)
    requires n1.Keys == nodes.Keys
    requires forall x | x in nodes :: ShapeOf(n1[x]) == RelocatedShape(nodes[x], prefix, p)
    ensures Shapes(n1) == RelocatedRows(nodes, prefix, p)
  {
    assert forall x | x in nodes :: Shapes(n1)[x] == RelocatedRows(nodes, prefix, p)[x];
  }

  /** `RowsShapes` at one location. */
  lemma RowShape(nodes: map<Id, Node>, rows: seq<Row>, prefix: seq<string>, p: string, n1: map<Id, Node>, x: Id)
    requires forall j | 0 <= j < |rows| :: rows[j].id in nodes && rows[j].doc == nodes[rows[j].id] && p in rows[j].doc.hierarchy
    requires forall x | x in nodes && p in nodes[x].hierarchy :: Row(x, nodes[x]) in rows
    requires n1.Keys == nodes.Keys && forall x | x in nodes && !HasRow(rows, 0, x) :: n1[x] == nodes[x]
    requires PlacedFrom(n1, nodes, rows, prefix, p, 0)
    requires x in nodes
    ensures ShapeOf(n1[x]) == RelocatedShape(nodes[x], prefix, p)
  {
    if p in nodes[x].hierarchy {
      var j :| 0 <= j < |rows| && rows[j] == Row(x, nodes[x]);
      assert Placed(n1, nodes, rows[j], prefix, p);
    } else {
      assert !HasRow(rows, 0, x);
    }
  }

  /** The rows of `descendants` are stored documents that lie below the location. */
  lemma DescendantRows(nodes: map<Id, Node>, self: Node)
    ensures var rows := Descendants(nodes, self);
      (forall j | 0 <= j < |rows| :: rows[j].id in nodes && rows[j].doc == nodes[rows[j].id] && self.placename in rows[j].doc.hierarchy) &&
      (forall x | x in nodes && self.placename in nodes[x].hierarchy :: Row(x, nodes[x]) in rows) &&
      Snapshots(rows) && NamedAsStored(nodes, rows, 0)
  {
    var rows := Descendants(nodes, self);
    forall j | 0 <= j < |rows|
      ensures rows[j].id in nodes && rows[j].doc == nodes[rows[j].id] && self.placename in rows[j].doc.hierarchy
    {
      assert rows[j] in rows;
    }
  }

  /**
   * `set_parent` with a non-root parent appends the parent's placename to
   * that parent's own in-memory hierarchy; a root parent, or no parent, is
   * left as it was.
   */
  lemma SetParentAliasesParent(nodes: map<Id, Node>, id: Id, self: Node, parent: Option<Node>)
    requires parent.Some?
    ensures var r := SetParent(nodes, id, self, parent);
      (!IsTopLevel(parent.value) ==> r.parent == Some(parent.value.(hierarchy := Path(parent.value)))) &&
      (IsTopLevel(parent.value) ==> r.parent == parent)
  {
  }

  /** `remove_parent` (location.rb:263-265): `set_parent` with no parent. */
  function RemoveParent(nodes: map<Id, Node>, id: Id, self: Node): (r: Reparented)
    requires var m := Relocate(id, self, []);
      IsTopLevel(m) && Validates(m) ==> Layered(Relocated(nodes, id, self, []))
    ensures r.parent == None
    ensures r.raised ==> IsTopLevel(Relocate(id, self, []))
  {
    SetParent(nodes, id, self, None)
  }

  /**
   * `set_parent` leaves the store with the shapes `Relocated` describes:
   * every descendant re-rooted under the new parent's path at the first
   * occurrence of the location's placename, the location itself given the new
   * path, and every other location's shape as it was.
   */
  lemma SetParentShapes(nodes: map<Id, Node>, id: Id, self: Node, parent: Option<Node>)
    requires var m := Relocate(id, self, NewHierarchy(parent).hierarchy);
      IsTopLevel(m) && Validates(m) ==> Layered(Relocated(nodes, id, self, NewHierarchy(parent).hierarchy))
    ensures Shapes(SetParent(nodes, id, self, parent).nodes) == Relocated(nodes, id, self, NewHierarchy(parent).hierarchy)
  {
    var prefix := NewHierarchy(parent).hierarchy;
    DescendantRows(nodes, self);
    RewrittenShapes(nodes, id, self, prefix, Descendants(nodes, self));
  }

  /**
   * When the location is stored and stays a non-root, `set_parent` is the
   * loop over the descendants followed by a plain save of the location.
   */
  lemma SetParentBelowRoot(nodes: map<Id, Node>, id: Id, self: Node, parent: Option<Node>, rows: seq<Row>)
    requires id in nodes && !IsTopLevel(Relocate(id, self, NewHierarchy(parent).hierarchy))
    requires rows == Descendants(nodes, self)
    requires forall j | 0 <= j < |rows| :: rows[j].id in nodes && self.placename in rows[j].doc.hierarchy
    ensures SetParent(nodes, id, self, parent).nodes ==
      SaveBelow(RewriteRows(nodes, rows, NewHierarchy(parent).hierarchy, self.placename, 0),
        id, Relocate(id, self, NewHierarchy(parent).hierarchy))
  {
    var prefix := NewHierarchy(parent).hierarchy;
    var n1 := RewriteRows(nodes, rows, prefix, self.placename, 0);
    SaveBelowIsSave(n1, id, Relocate(id, self, prefix));
  }

  /**
   * When the location stays a non-root, `set_parent` touches no stored
   * location other than the location itself and those whose hierarchy holds
   * its placename.
   */
  lemma SetParentFrame(nodes: map<Id, Node>, id: Id, self: Node, parent: Option<Node>)
    requires id in nodes && !IsTopLevel(Relocate(id, self, NewHierarchy(parent).hierarchy))
    ensures forall x | x in nodes && x != id && self.placename !in nodes[x].hierarchy ::
      x in SetParent(nodes, id, self, parent).nodes && SetParent(nodes, id, self, parent).nodes[x] == nodes[x]
  {
    var prefix := NewHierarchy(parent).hierarchy;
    var rows := Descendants(nodes, self);
    DescendantRows(nodes, self);
    SetParentBelowRoot(nodes, id, self, parent, rows);
    var n1 := RewriteRows(nodes, rows, prefix, self.placename, 0);
    FrameOfBoth(nodes, n1, SaveBelow(n1, id, Relocate(id, self, prefix)), rows, id, self.placename);
  }

  /** The rows found and the save of `self` touch nothing outside the subtree. */
  lemma FrameOfBoth(nodes: map<Id, Node>, n1: map<Id, Node>, r: map<Id, Node>, rows: seq<Row>, id: Id, p: string)
    requires forall j | 0 <= j < |rows| :: rows[j].id in nodes && rows[j].doc == nodes[rows[j].id] && p in rows[j].doc.hierarchy
    requires n1.Keys == nodes.Keys && r.Keys == n1.Keys
    requires forall x | x in nodes && !HasRow(rows, 0, x) :: n1[x] == nodes[x]
    requires forall x | x in n1 && x != id :: r[x] == n1[x]
    ensures forall x | x in nodes && x != id && p !in nodes[x].hierarchy :: x in r && r[x] == nodes[x]
  {
  }

  /**
   * After `set_parent` to a parent stored under `pid` that does not lie below
   * the location, the location sits directly under that parent: its
   * hierarchy is the parent's path, its stored name is current, the parent
   * is as it was, and its level is the clamped successor of the parent's.
   */
  lemma SetParentPlacesSelf(nodes: map<Id, Node>, id: Id, self: Node, p: Node, pid: Id)
    requires id in nodes && nodes[id].placename == self.placename && !IsBlank(self.placename)
    requires self.placename !in self.hierarchy
    requires pid in nodes && pid != id && nodes[pid].placename == p.placename
    requires self.placename !in nodes[pid].hierarchy
    requires UniquePlacenames(nodes)
    ensures var r := SetParent(nodes, id, self, Some(p)).nodes;
      id in r && r[id].hierarchy == Path(p) && r[id].placename == self.placename &&
      pid in r && r[pid] == nodes[pid] &&
      r[id].adminLevel == Some(LevelBelow(nodes[pid].adminLevel)) &&
      Settled(r, id)
  {
    var rows := Descendants(nodes, self);
    DescendantRows(nodes, self);
    SetParentBelowRoot(nodes, id, self, Some(p), rows);
    SelfAfterRows(nodes, id, self, p, pid, rows);
  }

  /** `SetParentPlacesSelf` for any rows that hold exactly the stored locations below the location. */
  lemma SelfAfterRows(nodes: map<Id, Node>, id: Id, self: Node, p: Node, pid: Id, rows: seq<Row>)
    requires id in nodes && nodes[id].placename == self.placename && !IsBlank(self.placename)
    requires self.placename !in self.hierarchy
    requires pid in nodes && pid != id && nodes[pid].placename == p.placename
    requires self.placename !in nodes[pid].hierarchy
    requires UniquePlacenames(nodes)
    requires forall j | 0 <= j < |rows| :: rows[j].id in nodes && rows[j].doc == nodes[rows[j].id] && self.placename in rows[j].doc.hierarchy
    requires forall x | x in nodes && self.placename in nodes[x].hierarchy :: Row(x, nodes[x]) in rows
    requires Snapshots(rows) && NamedAsStored(nodes, rows, 0)
    ensures var r := SaveBelow(RewriteRows(nodes, rows, Path(p), self.placename, 0), id, Relocate(id, self, Path(p)));
      id in r && r[id].hierarchy == Path(p) && r[id].placename == self.placename &&
      pid in r && r[pid] == nodes[pid] &&
      r[id].adminLevel == Some(LevelBelow(nodes[pid].adminLevel)) &&
      Settled(r, id)
  {
    var prefix := Path(p);
    var m := Relocate(id, self, prefix);
    assert m.hierarchy == prefix;
    var n1 := RewriteRows(nodes, rows, prefix, self.placename, 0);
    RowsShapes(nodes, rows, prefix, self.placename, n1);
    FrameOfBoth(nodes, n1, n1, rows, id, self.placename);
    PlacenamesOfRows(nodes, n1, prefix, self.placename);
    SelfSettles(n1, SaveBelow(n1, id, m), id, pid, m);
  }

  /** The loop over the rows keeps every placename, so placenames stay unique. */
  lemma PlacenamesOfRows(nodes: map<Id, Node>, n1: map<Id, Node>, prefix: seq<string>, p: string)
    requires Shapes(n1) == RelocatedRows(nodes, prefix, p)
    ensures n1.Keys == nodes.Keys
    ensures forall x | x in nodes :: n1[x].placename == nodes[x].placename
    ensures UniquePlacenames(nodes) ==> UniquePlacenames(n1)
  {
    assert forall x | x in nodes :: Shapes(n1)[x].placename == nodes[x].placename;
    assert n1.Keys == Shapes(n1).Keys;
  }

  /** The saved location is settled once its level came from the one location its hierarchy names last. */
  lemma SelfSettles(n1: map<Id, Node>, r: map<Id, Node>, id: Id, pid: Id, m: Node)
    requires id in n1 && pid in n1 && pid != id && UniquePlacenames(n1)
    requires r.Keys == n1.Keys && forall x | x in n1 && x != id :: r[x] == n1[x]
    requires Validates(m) && n1[id].placename == m.placename && LastIs(m.hierarchy, n1[pid].placename)
    requires r[id] == m.(name := HierarchicalNameOf(m), adminLevel := r[id].adminLevel)
    requires forall q | q in n1 && LastIs(m.hierarchy, n1[q].placename) ::
      r[id].adminLevel == Some(LevelBelow(n1[q].adminLevel))
    ensures Settled(r, id)
  {
    forall q | q in r && LastIs(r[id].hierarchy, r[q].placename)
      ensures r[id].adminLevel == Some(LevelBelow(r[q].adminLevel))
    {
    }
  }

  /**
   * `set_parent` saves the rows of `descendants` before the location itself,
   * so a direct child of the location derives its level from the level the
   * location had before the move, while the location then takes the level
   * below its new parent; the child is left unsettled whenever those differ.
   */
  lemma SetParentLeavesChildStale(nodes: map<Id, Node>, id: Id, self: Node, p: Node, pid: Id, c: Id)
    requires id in nodes && nodes[id].placename == self.placename && !IsBlank(self.placename)
    requires self.placename !in self.hierarchy && self.placename !in nodes[id].hierarchy
    requires pid in nodes && pid != id && nodes[pid].placename == p.placename
    requires self.placename !in nodes[pid].hierarchy
    requires UniquePlacenames(nodes)
    requires c in nodes && LastIs(nodes[c].hierarchy, self.placename) && !IsBlank(nodes[c].placename)
    ensures var r := SetParent(nodes, id, self, Some(p)).nodes;
      c in r && id in r && LastIs(r[c].hierarchy, r[id].placename) &&
      r[c].adminLevel == Some(LevelBelow(nodes[id].adminLevel)) &&
      r[id].adminLevel == Some(LevelBelow(nodes[pid].adminLevel))
    ensures LevelBelow(nodes[id].adminLevel) != LevelBelow(Some(LevelBelow(nodes[pid].adminLevel))) ==>
      !Settled(SetParent(nodes, id, self, Some(p)).nodes, c)
  {
    var rows := Descendants(nodes, self);
    DescendantRows(nodes, self);
    SetParentBelowRoot(nodes, id, self, Some(p), rows);
    SetParentPlacesSelf(nodes, id, self, p, pid);
    ChildAfterRows(nodes, id, self, p, rows, c);
  }

  /** The direct child `c` after the loop over `rows` and the save of the location. */
  lemma ChildAfterRows(nodes: map<Id, Node>, id: Id, self: Node, p: Node, rows: seq<Row>, c: Id)
    requires id in nodes && nodes[id].placename == self.placename && !IsBlank(self.placename)
    requires self.placename !in nodes[id].hierarchy
    requires UniquePlacenames(nodes)
    requires forall j | 0 <= j < |rows| :: rows[j].id in nodes && rows[j].doc == nodes[rows[j].id] && self.placename in rows[j].doc.hierarchy
    requires forall x | x in nodes && self.placename in nodes[x].hierarchy :: Row(x, nodes[x]) in rows
    requires Snapshots(rows) && NamedAsStored(nodes, rows, 0)
    requires c in nodes && LastIs(nodes[c].hierarchy, self.placename) && !IsBlank(nodes[c].placename)
    ensures var r := SaveBelow(RewriteRows(nodes, rows, Path(p), self.placename, 0), id, Relocate(id, self, Path(p)));
      c in r && LastIs(r[c].hierarchy, self.placename) &&
      r[c].adminLevel == Some(LevelBelow(nodes[id].adminLevel))
  {
    var prefix := Path(p);
    var n1 := RewriteRows(nodes, rows, prefix, self.placename, 0);
    var j :| 0 <= j < |rows| && rows[j] == Row(c, nodes[c]);
    RehomeKeepsLast(prefix, nodes[c].hierarchy, self.placename);
    NotARow(nodes, rows, self.placename, id);
    ChildLevel(nodes, n1, rows, prefix, self.placename, j, id);
  }

  /** A re-rooted hierarchy that held `p` still ends where it ended. */
  lemma RehomeKeepsLast(prefix: seq<string>, before: seq<string>, p: string)
    requires p in before
    ensures Rehome(prefix, before, p) != [] && Last(Rehome(prefix, before, p)) == Last(before)
  {
    var r := Rehome(prefix, before, p);
    var k := |r| - |prefix|;
    assert r[|r| - 1] == r[|prefix|..][k - 1];
  }

  /** A stored location whose hierarchy lacks `p` is not among rows below `p`. */
  lemma NotARow(nodes: map<Id, Node>, rows: seq<Row>, p: string, x: Id)
    requires forall j | 0 <= j < |rows| :: rows[j].id in nodes && rows[j].doc == nodes[rows[j].id] && p in rows[j].doc.hierarchy
    requires x in nodes && p !in nodes[x].hierarchy
    ensures !HasRow(rows, 0, x)
  {
  }

  /** The level the loop gave the `j`-th row, whose parent `q` is not among the rows. */
  lemma ChildLevel(nodes: map<Id, Node>, n1: map<Id, Node>, rows: seq<Row>, prefix: seq<string>, p: string, j: nat, q: Id)
    requires LevelsFrom(n1, nodes, rows, prefix, p, 0) && PlacedFrom(n1, nodes, rows, prefix, p, 0)
    requires j < |rows| && q in nodes && !HasRow(rows, 0, q)
    requires Validates(Moved(rows[j], prefix, p)) && LastIs(Moved(rows[j], prefix, p).hierarchy, nodes[q].placename)
    ensures rows[j].id in n1 && n1[rows[j].id].hierarchy == Moved(rows[j], prefix, p).hierarchy
    ensures n1[rows[j].id].adminLevel == Some(LevelBelow(nodes[q].adminLevel))
  {
    assert Placed(n1, nodes, rows[j], prefix, p);
  }

  /** A store with two roots, A at level 0 and B at level 2, and S under A with its child C. */
  function StaleExample(): map<Id, Node> {
    map[0 := Node("A", Some("country"), [], "A", Some(0), false),
        1 := Node("B", Some("country"), [], "B", Some(2), false),
        2 := Node("S", Some("province"), ["A"], "A::S", Some(1), false),
        3 := Node("C", Some("district"), ["A", "S"], "A::S::C", Some(2), false)]
  }

  /** What moving S under B in the example depends on. */
  lemma StaleExampleFacts(nodes: map<Id, Node>)
    requires nodes == StaleExample()
    ensures 1 in nodes && 2 in nodes && 3 in nodes
    ensures nodes[2].placename == "S" && !IsBlank("S") && "S" !in nodes[2].hierarchy
    ensures nodes[1].placename == "B" && "S" !in nodes[1].hierarchy
    ensures UniquePlacenames(nodes)
    ensures LastIs(nodes[3].hierarchy, "S") && !IsBlank(nodes[3].placename)
    ensures LevelBelow(nodes[1].adminLevel) == 3 && LevelBelow(nodes[2].adminLevel) == 2
    ensures LevelBelow(Some(LevelBelow(nodes[1].adminLevel))) == 4
  {
    assert nodes[3].placename == "C" && !IsSpace("S"[0]) && !IsSpace("C"[0]);
    assert LevelBelow(Some(1)) == 2 && LevelBelow(Some(2)) == 3 && LevelBelow(Some(3)) == 4;
  }

  /**
   * Moving S under B gives S level 3 while C keeps level 2, the level below
   * S's old level, so C is left unsettled.
   */
  lemma SetParentStaleExample(nodes: map<Id, Node>)
    requires nodes == StaleExample()
    ensures var r := SetParent(nodes, 2, nodes[2], Some(nodes[1])).nodes;
      2 in r && 3 in r && r[2].adminLevel == Some(3) && r[3].adminLevel == Some(2) && !Settled(r, 3)
  {
    StaleExampleFacts(nodes);
    SetParentLeavesChildStale(nodes, 2, nodes[2], nodes[1], 1, 3);
  }

  /**
   * `set_parent` followed by `update_descendants_admin_level` from the saved
   * location: the levels below the location are derived again from its new
   * level, as the `after_save` cascade does when the location becomes a root.
   */
  function SetParentAndRelevel(nodes: map<Id, Node>, id: Id, self: Node, parent: Option<Node>): (r: Reparented)
    requires Layered(Relocated(nodes, id, self, NewHierarchy(parent).hierarchy))
    ensures Shapes(r.nodes) == Relocated(nodes, id, self, NewHierarchy(parent).hierarchy)
    ensures r.parent == NewHierarchy(parent).parent
    ensures r.raised ==> !AllNamed(Relocated(nodes, id, self, NewHierarchy(parent).hierarchy))
  {
    var s := SetParent(nodes, id, self, parent);
    SetParentShapes(nodes, id, self, parent);
    if s.raised || id !in s.nodes then s
    else
      var out := UpdateDescendantsAdminLevel(s.nodes, id, s.nodes[id]);
      Reparented(out.nodes, s.parent, out.raised)
  }

  /**
   * In a store that is well formed once the subtree is moved, the corrected
   * `set_parent` raises nothing, settles every non-root of the moved
   * subtree, and leaves every location outside it as `set_parent` left it.
   */
  lemma RelevelSettles(nodes: map<Id, Node>, id: Id, self: Node, parent: Option<Node>)
    requires Validates(Relocate(id, self, NewHierarchy(parent).hierarchy))
    requires WellFormed(Relocated(nodes, id, self, NewHierarchy(parent).hierarchy))
    ensures var shapes := Relocated(nodes, id, self, NewHierarchy(parent).hierarchy);
      var r := SetParentAndRelevel(nodes, id, self, parent);
      !r.raised &&
      (forall x | Under(shapes, x, Path(Relocate(id, self, NewHierarchy(parent).hierarchy))) && shapes[x].hierarchy != [] ::
        Settled(r.nodes, x))
  {
    var prefix := NewHierarchy(parent).hierarchy;
    var shapes := Relocated(nodes, id, self, prefix);
    var m := Relocate(id, self, prefix);
    var s := SetParent(nodes, id, self, parent);
    SetParentShapes(nodes, id, self, parent);
    assert id in shapes && shapes[id] == ShapeOf(m);
    assert id in s.nodes && SameShape(s.nodes[id], m) by {
      assert Shapes(s.nodes)[id] == ShapeOf(m);
    }
    CascadeSettles(s.nodes, id, s.nodes[id]);
    forall x | Under(shapes, x, Path(m)) && shapes[x].hierarchy != []
      ensures x in s.nodes && s.nodes[x].hierarchy != []
    {
      assert Shapes(s.nodes)[x] == shapes[x];
    }
  }

  /**
   * `remove_parent` of a location that validates as a root, in a store that
   * is well formed once the subtree is moved: the location is saved as a
   * root with its own level, and the `after_save` cascade settles every
   * location below it.
   */
  lemma RemoveParentSettles(nodes: map<Id, Node>, id: Id, self: Node)
    requires self.placename !in self.hierarchy && Validates(self.(hierarchy := []))
    requires WellFormed(Relocated(nodes, id, self, []))
    ensures var r := RemoveParent(nodes, id, self);
      !r.raised && r.parent == None && id in r.nodes &&
      r.nodes[id] == self.(hierarchy := [], name := self.placename) &&
      (forall x | Under(Relocated(nodes, id, self, []), x, [self.placename]) && x != id :: Settled(r.nodes, x))
    ensures var r := RemoveParent(nodes, id, self);
      forall x | x in nodes && x != id && self.placename !in nodes[x].hierarchy :: x in r.nodes && r.nodes[x] == nodes[x]
  {
    var m := Relocate(id, self, []);
    assert m == self.(hierarchy := []);
    var n1 := RemoveParentSaves(nodes, id, self);
    SaveRootSettles(n1, id, m);
    assert HierarchicalNameOf(m) == self.placename;
    RemoveParentFrame(nodes, id, self);
  }

  /** `remove_parent` leaves every location outside the moved subtree as it was, the cascade included. */
  lemma RemoveParentFrame(nodes: map<Id, Node>, id: Id, self: Node)
    requires self.placename !in self.hierarchy && Validates(self.(hierarchy := []))
    requires WellFormed(Relocated(nodes, id, self, []))
    ensures var r := RemoveParent(nodes, id, self);
      forall x | x in nodes && x != id && self.placename !in nodes[x].hierarchy :: x in r.nodes && r.nodes[x] == nodes[x]
  {
    var m := Relocate(id, self, []);
    assert m == self.(hierarchy := []);
    var n1 := RemoveParentSaves(nodes, id, self);
    RootSaveFrame(nodes, n1, id, m);
  }

  /** Saving the root `m` into `n1` leaves alone what the loop left alone outside `m`'s subtree. */
  lemma RootSaveFrame(nodes: map<Id, Node>, n1: map<Id, Node>, id: Id, m: Node)
    requires IsTopLevel(m) && Validates(m) && WellFormed(Shapes(n1[id := m]))
    requires forall x | x in nodes && m.placename !in nodes[x].hierarchy :: x in n1 && n1[x] == nodes[x]
    ensures forall x | x in nodes && x != id && m.placename !in nodes[x].hierarchy ::
      x in Save(n1, id, m).nodes && Save(n1, id, m).nodes[x] == nodes[x]
  {
    SaveRootSettles(n1, id, m);
    ShapesWrite(n1, id, m);
    FrameThroughRootSave(nodes, n1, Save(n1, id, m).nodes, Shapes(n1[id := m]), id, m.placename, Path(m));
  }

  /**
   * A location the loop left alone and the root save's cascade leaves alone,
   * because it does not lie below the new root, keeps its stored document.
   */
  lemma FrameThroughRootSave(nodes: map<Id, Node>, n1: map<Id, Node>, r: map<Id, Node>, shapes: map<Id, Shape>, id: Id, p: string, top: seq<string>)
    requires Unique(shapes) && id in shapes && shapes[id].placename == p && top == [p]
    requires forall x | x in nodes && p !in nodes[x].hierarchy :: x in n1 && n1[x] == nodes[x]
    requires forall x | x in n1 && x != id :: x in shapes && shapes[x] == ShapeOf(n1[x])
    requires forall x | x in n1 && !Under(shapes, x, top) :: x in r && r[x] == n1[x]
    ensures forall x | x in nodes && x != id && p !in nodes[x].hierarchy :: x in r && r[x] == nodes[x]
  {
    forall x | x in nodes && x != id && p !in nodes[x].hierarchy
      ensures x in r && r[x] == nodes[x]
    {
      OutsideTheRoot(shapes, id, x, p);
    }
  }

  /**
   * In a store with unique placenames where `id` is the root named `p`, a
   * location other than `id` without `p` in its hierarchy is not below `[p]`.
   */
  lemma OutsideTheRoot(shapes: map<Id, Shape>, id: Id, x: Id, p: string)
    requires Unique(shapes) && id in shapes && x in shapes && x != id
    requires shapes[id].placename == p && p !in shapes[x].hierarchy
    ensures !Under(shapes, x, [p])
  {
    var path := ShapePath(shapes[x]);
    if shapes[x].hierarchy == [] {
      assert path[0] == shapes[x].placename != p;
    } else {
      assert path[0] == shapes[x].hierarchy[0] && shapes[x].hierarchy[0] in shapes[x].hierarchy;
    }
  }

  /**
   * `remove_parent` of a location that validates as a root is the save, as
   * a root, of the location into the store `n1` the loop over the rows left;
   * the loop touches no location without the placename in its hierarchy.
   */
  lemma RemoveParentSaves(nodes: map<Id, Node>, id: Id, self: Node) returns (n1: map<Id, Node>)
    requires Validates(Relocate(id, self, [])) && Layered(Relocated(nodes, id, self, []))
    ensures Shapes(n1[id := Relocate(id, self, [])]) == Relocated(nodes, id, self, [])
    ensures RemoveParent(nodes, id, self) ==
      Reparented(Save(n1, id, Relocate(id, self, [])).nodes, None, Save(n1, id, Relocate(id, self, [])).raised)
    ensures forall x | x in nodes && self.placename !in nodes[x].hierarchy :: x in n1 && n1[x] == nodes[x]
  {
    var rows := Descendants(nodes, self);
    DescendantRows(nodes, self);
    n1 := RewriteRows(nodes, rows, [], self.placename, 0);
    RewrittenShapes(nodes, id, self, [], rows);
    RowsFrame(nodes, n1, rows, self.placename);
  }

  /** A location without `p` in its hierarchy has no row, so the loop leaves it as it was. */
  lemma RowsFrame(nodes: map<Id, Node>, n1: map<Id, Node>, rows: seq<Row>, p: string)
    requires forall j | 0 <= j < |rows| :: rows[j].id in nodes && rows[j].doc == nodes[rows[j].id] && p in rows[j].doc.hierarchy
    requires n1.Keys == nodes.Keys && forall x | x in nodes && !HasRow(rows, 0, x) :: n1[x] == nodes[x]
    ensures forall x | x in nodes && p !in nodes[x].hierarchy :: x in n1 && n1[x] == nodes[x]
  {
  }

  /** One row of the loop: the row is saved, and the loop goes on from the next row. */
  lemma RewriteRowsStep(nodes: map<Id, Node>, rows: seq<Row>, prefix: seq<string>, p: string, i: nat)
    requires i < |rows| && RowsIn(rows, nodes.Keys, p)
    ensures var n1 := SaveBelow(nodes, rows[i].id, Moved(rows[i], prefix, p));
      n1.Keys == nodes.Keys && RewriteRows(nodes, rows, prefix, p, i) == RewriteRows(n1, rows, prefix, p, i + 1)
  {
  }

  /**
   * `set_parent` is the loop over the rows of `descendants`, leaving `n1`,
   * followed by the save of the location into `n1`.
   */
  lemma SetParentIsSave(nodes: map<Id, Node>, id: Id, self: Node, parent: Option<Node>, rows: seq<Row>, n1: map<Id, Node>)
    requires var m := Relocate(id, self, NewHierarchy(parent).hierarchy);
      IsTopLevel(m) && Validates(m) ==> Layered(Relocated(nodes, id, self, NewHierarchy(parent).hierarchy))
    requires rows == Descendants(nodes, self) && RowsIn(rows, nodes.Keys, self.placename)
    requires n1 == RewriteRows(nodes, rows, NewHierarchy(parent).hierarchy, self.placename, 0)
    ensures var m := Relocate(id, self, NewHierarchy(parent).hierarchy);
      (IsTopLevel(m) && Validates(m) ==> Layered(Shapes(n1[id := m]))) &&
      SetParent(nodes, id, self, parent) ==
        Reparented(Save(n1, id, m).nodes, NewHierarchy(parent).parent, Save(n1, id, m).raised)
  {
    RewrittenShapes(nodes, id, self, NewHierarchy(parent).hierarchy, rows);
  }

  /** Every row is stored among `keys` and lies below `p`. */
  ghost predicate RowsIn(rows: seq<Row>, keys: set<Id>, p: string) {
    forall j | 0 <= j < |rows| :: rows[j].id in keys && p in rows[j].doc.hierarchy
  }

  /** The rows of `descendants` are stored and lie below the location. */
  lemma SubtreeRows(nodes: map<Id, Node>, self: Node)
    ensures RowsIn(Descendants(nodes, self), nodes.Keys, self.placename)
  {
    DescendantRows(nodes, self);
  }
}
