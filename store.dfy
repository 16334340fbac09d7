/**
 * The location store as the application changes it: one `save` at a time.
 * Each method does what the Ruby code does step by step, and is proved to
 * leave the store the pure model in `Saving` and `Reparent` describes.
 */
module Store {
  import opened Wrappers
  import opened LocationNode
  import opened ViewQuery
  import opened Views
  import Saving
  import Reparent

  class LocationStore {
    /** The stored documents, by id. */
    var nodes: map<Id, Node>

    constructor(initial: map<Id, Node>)
      ensures nodes == initial
    {
      nodes := initial;
    }

    /**
     * `save` (location.rb:61-62, 70-77): validation, then the two
     * `before_save` callbacks, then the write, then for a root the
     * `after_save` cascade.
     */
    method Save(id: Id, n: Node) returns (ok: bool, raised: bool)
      modifies this
      requires IsTopLevel(n) && Validates(n) ==> Saving.Layered(Saving.Shapes(nodes[id := n]))
      ensures var r := Saving.Save(old(nodes), id, n);
        nodes == r.nodes && ok == r.ok && raised == r.raised
    {
      if !Validates(n) {
        return false, false;
      }
      var written := n.(name := HierarchicalNameOf(n));
      if !IsTopLevel(written) {
        written := Saving.CalculateAdminLevel(nodes, written);
      }
      nodes := nodes[id := written];
      ok, raised := true, false;
      if IsTopLevel(n) {
        Saving.WriteKeepsShapes(old(nodes)[id := n], id, written);
        assert old(nodes)[id := n][id := written] == nodes;
        raised := UpdateDescendantsAdminLevel(id, written);
      }
    }

    /**
     * `update_descendants_admin_level` (location.rb:289-297): a non-root
     * re-derives its level and is saved with `save!`, which raises when the
     * location does not validate; then each direct descendant found at that
     * moment is processed in turn.
     */
    method UpdateDescendantsAdminLevel(id: Id, self: Node) returns (raised: bool)
      modifies this
      requires id in nodes && Saving.SameShape(nodes[id], self) && Saving.Layered(Saving.Shapes(nodes))
      ensures var out := Saving.UpdateDescendantsAdminLevel(old(nodes), id, self);
        nodes == out.nodes && raised == out.raised
      decreases Saving.Deeper(Saving.Shapes(nodes), |self.hierarchy|), 1
    {
      Saving.CascadeUnfolds(nodes, id, self);
      if !IsTopLevel(self) {
        var levelled := Saving.CalculateAdminLevel(nodes, self);
        if !Validates(levelled) {
          return true;
        }
        nodes := nodes[id := Saving.BeforeSave(nodes, levelled)];
      }
      raised := UpdateChildren(|self.hierarchy|, DirectDescendants(nodes, self));
    }

    /** The loop of `update_descendants_admin_level` over the direct descendants `kids`. */
    method UpdateChildren(depth: nat, kids: seq<Row>) returns (raised: bool)
      modifies this
      requires Saving.Layered(Saving.Shapes(nodes))
      requires forall j | 0 <= j < |kids| :: Saving.ChildOf(Saving.Shapes(nodes), kids[j], depth)
      ensures var out := Saving.UpdateChildren(old(nodes), depth, kids, 0);
        nodes == out.nodes && raised == out.raised
      decreases Saving.Deeper(Saving.Shapes(nodes), depth), 0
    {
      ghost var shapes := Saving.Shapes(nodes);
      ghost var whole := Saving.UpdateChildren(nodes, depth, kids, 0);
      var i := 0;
      raised := false;
      while i < |kids| && !raised
        invariant i <= |kids|
        invariant Saving.Shapes(nodes) == shapes
        invariant raised ==> whole == Saving.Outcome(nodes, true)
        invariant !raised ==> whole == Saving.UpdateChildren(nodes, depth, kids, i)
      {
        Saving.ChildrenStep(nodes, depth, kids, i);
        Saving.DeeperShrinks(shapes, depth, kids[i].id);
        raised := UpdateDescendantsAdminLevel(kids[i].id, kids[i].doc);
        i := i + 1;
      }
    }

    /**
     * `set_parent` (location.rb:227-244): the rows of `descendants` are
     * fetched once; each is given its re-rooted hierarchy and saved, and then
     * the location itself is. Answers the in-memory parent afterwards and
     * whether a `save!` of the final cascade raised.
     */
    method SetParent(id: Id, self: Node, parent: Option<Node>) returns (parentAfter: Option<Node>, raised: bool)
      modifies this
      requires var m := Reparent.Relocate(id, self, Reparent.NewHierarchy(parent).hierarchy);
        IsTopLevel(m) && Validates(m) ==> Saving.Layered(Reparent.Relocated(nodes, id, self, Reparent.NewHierarchy(parent).hierarchy))
      ensures var r := Reparent.SetParent(old(nodes), id, self, parent);
        nodes == r.nodes && parentAfter == r.parent && raised == r.raised
    {
      var attached := Reparent.NewHierarchy(parent);
      var prefix := attached.hierarchy;
      var subtree := Descendants(nodes, self);
      Reparent.SubtreeRows(nodes, self);
      MoveRows(subtree, prefix, self.placename);
      Reparent.SetParentIsSave(old(nodes), id, self, parent, subtree, nodes);
      var _, failed := Save(id, Reparent.Relocate(id, self, prefix));
      parentAfter, raised := attached.parent, failed;
    }

    /**
     * The loop of `set_parent` over the rows of `descendants`
     * (location.rb:237-243): each row's document is given its re-rooted
     * hierarchy and saved.
     */
    method MoveRows(rows: seq<Row>, prefix: seq<string>, p: string)
      modifies this
      requires Reparent.RowsIn(rows, nodes.Keys, p)
      ensures nodes == Reparent.RewriteRows(old(nodes), rows, prefix, p, 0)
    {
      ghost var moved := Reparent.RewriteRows(nodes, rows, prefix, p, 0);
      var i := 0;
      while i < |rows|
        invariant i <= |rows| && Reparent.RowsIn(rows, nodes.Keys, p)
        invariant moved == Reparent.RewriteRows(nodes, rows, prefix, p, i)
      {
        Reparent.RewriteRowsStep(nodes, rows, prefix, p, i);
        SaveBelow(rows[i].id, Reparent.Moved(rows[i], prefix, p));
        i := i + 1;
      }
    }

    /** A `save` of a stored location that is not a root: no cascade follows, so nothing raises. */
    method SaveBelow(id: Id, n: Node)
      modifies this
      requires id in nodes && !IsTopLevel(n)
      ensures nodes == Reparent.SaveBelow(old(nodes), id, n)
    {
      Reparent.SaveBelowIsSave(nodes, id, n);
      var _, _ := Save(id, n);
    }

    /** `remove_parent` (location.rb:263-265): `set_parent(nil)`. */
    method RemoveParent(id: Id, self: Node) returns (raised: bool)
      modifies this
      requires var m := Reparent.Relocate(id, self, []);
        IsTopLevel(m) && Validates(m) ==> Saving.Layered(Reparent.Relocated(nodes, id, self, []))
      ensures var r := Reparent.RemoveParent(old(nodes), id, self);
        nodes == r.nodes && raised == r.raised
    {
      var _, failed := SetParent(id, self, None);
      raised := failed;
    }
  }
}
