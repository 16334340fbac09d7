/**
 * Saving a location (app/models/location.rb:61-62, 70-77, 183-189, 289-297):
 * the presence validations, the `before_save` callbacks that store the
 * hierarchical name and derive the admin level of a non-root, and the
 * `after_save` cascade that re-derives the levels below a root.
 */
module Saving {
  import opened Wrappers
  import opened PathCodec
  import opened AdminLevel
  import opened LocationNode
  import opened ViewQuery
  import opened Views

  /**
   * `calculate_admin_level` (location.rb:183-189): when the location has a
   * parent, its level becomes the clamped successor of the parent's level;
   * otherwise it is left alone. Nothing else about the location changes.
   */
  function CalculateAdminLevel(nodes: map<Id, Node>, n: Node): (r: Node)
    ensures r == n.(adminLevel := r.adminLevel)
    ensures IsTopLevel(n) ==> r == n
    ensures !IsTopLevel(n) && (forall x | x in nodes :: nodes[x].placename != Last(n.hierarchy)) ==> r == n
    ensures UniquePlacenames(nodes) ==> forall p | p in nodes && LastIs(n.hierarchy, nodes[p].placename) ::
      r.adminLevel == Some(LevelBelow(nodes[p].adminLevel))
  {
    if IsTopLevel(n) then n
    else
      ParentIsTheNamedLocation(nodes, n);
      var parent := Parent(nodes, n);
      if parent.Some? then n.(adminLevel := Some(LevelBelow(parent.value.doc.adminLevel))) else n
  }

  /**
   * The two `before_save` callbacks (location.rb:70-76), in order: the stored
   * name becomes the hierarchical name, then a non-root's level is derived.
   */
  function BeforeSave(nodes: map<Id, Node>, n: Node): (r: Node)
    ensures SameShape(r, n)
    ensures r.name == HierarchicalNameOf(n)
    ensures IsTopLevel(n) ==> r.adminLevel == n.adminLevel
    ensures !IsTopLevel(n) ==> r.adminLevel == CalculateAdminLevel(nodes, n).adminLevel
  {
    var named := n.(name := HierarchicalNameOf(n));
    if IsTopLevel(named) then named else CalculateAdminLevel(nodes, named)
  }

  /** The fields saving and the level cascade never change. */
  datatype Shape = Shape(placename: string, hierarchy: seq<string>, locationType: Option<string>, disabled: bool)

  function ShapeOf(n: Node): Shape {
    Shape(n.placename, n.hierarchy, n.locationType, n.disabled)
  }

  predicate SameShape(a: Node, b: Node) {
    ShapeOf(a) == ShapeOf(b)
  }

  /** The shape of every stored location. */
  function Shapes(nodes: map<Id, Node>): map<Id, Shape> {
    map x | x in nodes :: ShapeOf(nodes[x])
  }

  /** Writing a location of the same shape leaves the shapes of the store as they were. */
  lemma WriteKeepsShapes(nodes: map<Id, Node>, id: Id, n: Node)
    requires id in nodes && SameShape(nodes[id], n)
    ensures Shapes(nodes[id := n]) == Shapes(nodes)
  {
    assert forall x | x in nodes :: Shapes(nodes[id := n])[x] == Shapes(nodes)[x];
  }

  /** Every stored placename is present, so `save!` of a non-root never fails validation. */
  ghost predicate AllNamed(shapes: map<Id, Shape>) {
    forall x | x in shapes :: !IsBlank(shapes[x].placename)
  }

  /**
   * A child's hierarchy is longer than that of every location whose
   * placename it ends in. This suffices for following `direct_descendants`
   * never to come back to where it started; it is not necessary, since a
   * store where a placename repeats at different depths may fail it and
   * still end.
   */
  ghost predicate Layered(shapes: map<Id, Shape>) {
    forall x, c | x in shapes && c in shapes && LastIs(shapes[c].hierarchy, shapes[x].placename) ::
      |shapes[x].hierarchy| < |shapes[c].hierarchy|
  }

  /** The stored locations deeper than `depth`: the cascade's termination measure. */
  ghost function Deeper(shapes: map<Id, Shape>, depth: nat): set<Id> {
    set x | x in shapes && |shapes[x].hierarchy| > depth
  }

  /** Descending to a deeper location leaves fewer locations deeper still. */
  lemma DeeperShrinks(shapes: map<Id, Shape>, depth: nat, x: Id)
    requires x in shapes && |shapes[x].hierarchy| > depth
    ensures Deeper(shapes, |shapes[x].hierarchy|) < Deeper(shapes, depth)
  {
    assert x in Deeper(shapes, depth);
  }

  /** In a layered store, the direct descendants of a stored location lie deeper than it. */
  lemma KidsAreDeeper(nodes: map<Id, Node>, id: Id, self: Node)
    requires id in nodes && SameShape(nodes[id], self) && Layered(Shapes(nodes))
    ensures forall j | 0 <= j < |DirectDescendants(nodes, self)| ::
      ChildOf(Shapes(nodes), DirectDescendants(nodes, self)[j], |self.hierarchy|)
  {
    var kids := DirectDescendants(nodes, self);
    var shapes := Shapes(nodes);
    forall j | 0 <= j < |kids|
      ensures ChildOf(shapes, kids[j], |self.hierarchy|)
    {
      var k := kids[j];
      assert k in kids;
      assert shapes[k.id] == ShapeOf(k.doc) && shapes[id] == ShapeOf(self);
      LayeredChild(shapes, id, k);
    }
  }

  /** A row whose location's parent is `id` lies deeper than `id` in a layered store. */
  lemma LayeredChild(shapes: map<Id, Shape>, id: Id, k: Row)
    requires Layered(shapes) && id in shapes && k.id in shapes && shapes[k.id] == ShapeOf(k.doc)
    requires LastIs(k.doc.hierarchy, shapes[id].placename)
    ensures ChildOf(shapes, k, |shapes[id].hierarchy|)
  {
  }

  /** A row copied from the store, for a location deeper than `depth`. */
  ghost predicate ChildOf(shapes: map<Id, Shape>, k: Row, depth: nat) {
    k.id in shapes && shapes[k.id] == ShapeOf(k.doc) && |k.doc.hierarchy| > depth
  }

  /**
   * The first step of `update_descendants_admin_level`: a non-root re-derives
   * its level and is saved, which runs the `before_save` callbacks again; a
   * root is left as it is.
   */
  function Recalculate(nodes: map<Id, Node>, id: Id, self: Node): (r: map<Id, Node>)
    requires id in nodes && SameShape(nodes[id], self)
    ensures Shapes(r) == Shapes(nodes)
    ensures IsTopLevel(self) ==> r == nodes
    ensures id in r && r == nodes[id := r[id]]
    ensures !IsTopLevel(self) ==> r[id].name == HierarchicalNameOf(r[id])
    ensures !IsTopLevel(self) && UniquePlacenames(nodes) ==>
      forall p | p in nodes && LastIs(self.hierarchy, nodes[p].placename) ::
        r[id].adminLevel == Some(LevelBelow(nodes[p].adminLevel))
  {
    if IsTopLevel(self) then nodes
    else
      var written := BeforeSave(nodes, CalculateAdminLevel(nodes, self));
      WriteKeepsShapes(nodes, id, written);
      nodes[id := written]
  }

  /** A stored location with a blank placename breaks `AllNamed`. */
  lemma BlankIsUnnamed(nodes: map<Id, Node>, id: Id, self: Node)
    requires id in nodes && SameShape(nodes[id], self) && IsBlank(self.placename)
    ensures !AllNamed(Shapes(nodes))
  {
    assert Shapes(nodes)[id].placename == self.placename;
  }

  /** What a cascade leaves behind: the store, and whether a `save!` raised. */
  datatype Outcome = Outcome(nodes: map<Id, Node>, raised: bool)

  /**
   * `update_descendants_admin_level` (location.rb:289-297) run on the
   * in-memory location `self` stored under `id`: a non-root re-derives its
   * level and is saved with `save!`, then every direct descendant found at
   * that moment is processed in turn, each from the copy the query returned.
   * A failing `save!` raises and stops the whole cascade.
   */
  function UpdateDescendantsAdminLevel(nodes: map<Id, Node>, id: Id, self: Node): (r: Outcome)
    requires id in nodes && SameShape(nodes[id], self) && Layered(Shapes(nodes))
    ensures Shapes(r.nodes) == Shapes(nodes)
    ensures r.raised ==> !AllNamed(Shapes(nodes))
    decreases Deeper(Shapes(nodes), |self.hierarchy|), 1
  {
    if !IsTopLevel(self) && !Validates(CalculateAdminLevel(nodes, self)) then
      BlankIsUnnamed(nodes, id, self);
      Outcome(nodes, true)
    else
      var n1 := Recalculate(nodes, id, self);
      KidsAreDeeper(n1, id, self);
      UpdateChildren(n1, |self.hierarchy|, DirectDescendants(n1, self), 0)
  }

  /** The loop over the direct descendants, from the `i`-th on. */
  function UpdateChildren(nodes: map<Id, Node>, depth: nat, kids: seq<Row>, i: nat): (r: Outcome)
    requires i <= |kids| && Layered(Shapes(nodes))
    requires forall j | 0 <= j < |kids| :: ChildOf(Shapes(nodes), kids[j], depth)
    ensures Shapes(r.nodes) == Shapes(nodes)
    ensures r.raised ==> !AllNamed(Shapes(nodes))
    decreases Deeper(Shapes(nodes), depth), 0, |kids| - i
  {
    if i == |kids| then Outcome(nodes, false)
    else
      var k := kids[i];
      assert ChildOf(Shapes(nodes), k, depth);
      DeeperShrinks(Shapes(nodes), depth, k.id);
      var out := UpdateDescendantsAdminLevel(nodes, k.id, k.doc);
      if out.raised then out
      else UpdateChildren(out.nodes, depth, kids, i + 1)
  }

  /** What a `save` reports, and the store afterwards. */
  datatype Saved = Saved(ok: bool, nodes: map<Id, Node>, raised: bool)

  /**
   * `save` of the in-memory location `n` under `id` (location.rb:61-62,
   * 70-77): a location that fails validation is not written and `save`
   * answers false; otherwise the `before_save` callbacks run, the result is
   * written, and a root then cascades its level to its descendants.
   */
  function Save(nodes: map<Id, Node>, id: Id, n: Node): (r: Saved)
    requires IsTopLevel(n) && Validates(n) ==> Layered(Shapes(nodes[id := n]))
    ensures !Validates(n) ==> r == Saved(false, nodes, false)
    ensures Validates(n) ==> r.ok && Shapes(r.nodes) == Shapes(nodes[id := n])
    ensures Validates(n) && !IsTopLevel(n) ==> r.nodes == nodes[id := BeforeSave(nodes, n)] && !r.raised
    ensures r.raised ==> !AllNamed(Shapes(nodes[id := n]))
  {
    if !Validates(n) then Saved(false, nodes, false)
    else
      var written := BeforeSave(nodes, n);
      var n1 := nodes[id := written];
      WriteKeepsShapes(nodes[id := n], id, written);
      assert nodes[id := n][id := written] == n1;
      if IsTopLevel(n) then
        var out := UpdateDescendantsAdminLevel(n1, id, written);
        Saved(true, out.nodes, out.raised)
      else
        Saved(true, n1, false)
  }

  /**
   * The cascade from `self` either raises at once, leaving the store as it
   * was, or re-derives the level of `self` and goes on with its direct
   * descendants.
   */
  lemma CascadeUnfolds(nodes: map<Id, Node>, id: Id, self: Node)
    requires id in nodes && SameShape(nodes[id], self) && Layered(Shapes(nodes))
    ensures !IsTopLevel(self) && !Validates(CalculateAdminLevel(nodes, self)) ==>
      UpdateDescendantsAdminLevel(nodes, id, self) == Outcome(nodes, true)
    ensures IsTopLevel(self) || Validates(CalculateAdminLevel(nodes, self)) ==>
      var n1 := Recalculate(nodes, id, self);
      var kids := DirectDescendants(n1, self);
      Layered(Shapes(n1)) && (forall j | 0 <= j < |kids| :: ChildOf(Shapes(n1), kids[j], |self.hierarchy|)) &&
      UpdateDescendantsAdminLevel(nodes, id, self) == UpdateChildren(n1, |self.hierarchy|, kids, 0)
  {
    KidsAreDeeper(Recalculate(nodes, id, self), id, self);
  }

  /** One direct descendant of the loop: its cascade runs, and the loop stops if it raised. */
  lemma ChildrenStep(nodes: map<Id, Node>, depth: nat, kids: seq<Row>, i: nat)
    requires i < |kids| && Layered(Shapes(nodes))
    requires forall j | 0 <= j < |kids| :: ChildOf(Shapes(nodes), kids[j], depth)
    ensures kids[i].id in nodes && SameShape(nodes[kids[i].id], kids[i].doc)
    ensures var out := UpdateDescendantsAdminLevel(nodes, kids[i].id, kids[i].doc);
      Shapes(out.nodes) == Shapes(nodes) &&
      UpdateChildren(nodes, depth, kids, i) == (if out.raised then out else UpdateChildren(out.nodes, depth, kids, i + 1))
  {
    assert ChildOf(Shapes(nodes), kids[i], depth);
    assert Shapes(nodes)[kids[i].id] == ShapeOf(nodes[kids[i].id]);
  }
}
