/**
 * The level cascade on a well-formed forest (app/models/location.rb:289-297):
 * when every hierarchy names stored ancestors and placenames are unique,
 * `update_descendants_admin_level` run from a location leaves every location
 * below it with its current name and the level its parent dictates, touches
 * nothing else, and running it again changes nothing.
 */
module Forest {
  import opened Wrappers
  import opened PathCodec
  import opened AdminLevel
  import opened LocationNode
  import opened ViewQuery
  import opened Views
  import opened Saving

  /** The placenames from the root down to a location of this shape. */
  function ShapePath(s: Shape): seq<string> {
    s.hierarchy + [s.placename]
  }

  /** A location ending in `p`'s placename has `p`'s path as its hierarchy. */
  ghost predicate Linked(shapes: map<Id, Shape>) {
    forall p, c | p in shapes && c in shapes && LastIs(shapes[c].hierarchy, shapes[p].placename) ::
      shapes[c].hierarchy == ShapePath(shapes[p])
  }

  /** No two locations share a placename. */
  ghost predicate Unique(shapes: map<Id, Shape>) {
    forall x, y | x in shapes && y in shapes && shapes[x].placename == shapes[y].placename :: x == y
  }

  /** Every non-root's parent is stored. */
  ghost predicate Rooted(shapes: map<Id, Shape>) {
    forall c | c in shapes && shapes[c].hierarchy != [] ::
      exists p | p in shapes :: shapes[p].placename == Last(shapes[c].hierarchy)
  }

  /**
   * A store that forms a forest in which every placename is present and
   * unique. `Layered` follows from `Linked`; it is listed so that the cascade
   * may be applied to such a store.
   */
  ghost predicate WellFormed(shapes: map<Id, Shape>) {
    Linked(shapes) && Unique(shapes) && Rooted(shapes) && AllNamed(shapes) && Layered(shapes)
  }

  /**
   * A location is settled when its stored name is current and its level is
   * the clamped successor of its parent's.
   */
  ghost predicate Settled(nodes: map<Id, Node>, x: Id) {
    x in nodes && nodes[x].name == HierarchicalNameOf(nodes[x]) &&
    forall p | p in nodes && LastIs(nodes[x].hierarchy, nodes[p].placename) ::
      nodes[x].adminLevel == Some(LevelBelow(nodes[p].adminLevel))
  }

  /** Whether `x` is stored at or below the location whose path is `top`. */
  ghost predicate Under(shapes: map<Id, Shape>, x: Id, top: seq<string>) {
    x in shapes && top <= ShapePath(shapes[x])
  }

  /** Whether `x` is stored at or below one of the rows from the `i`-th on. */
  ghost predicate UnderAnyKid(shapes: map<Id, Shape>, x: Id, kids: seq<Row>, i: nat) {
    exists j | i <= j < |kids| :: Under(shapes, x, Path(kids[j].doc))
  }

  /** Unique placenames of the store are unique placenames of its shapes. */
  lemma UniqueShapes(nodes: map<Id, Node>)
    ensures Unique(Shapes(nodes)) <==> UniquePlacenames(nodes)
  {
    var shapes := Shapes(nodes);
    assert forall x | x in nodes :: shapes[x].placename == nodes[x].placename;
  }

  /** The path of a stored location is fixed by the shapes of the store. */
  lemma PathsFollowShapes(a: map<Id, Node>, b: map<Id, Node>)
    requires Shapes(a) == Shapes(b)
    ensures forall x :: x in a <==> x in b
    ensures forall x | x in a :: SameShape(a[x], b[x]) && Path(a[x]) == Path(b[x])
  {
    forall x
      ensures x in a <==> x in b
    {
      assert x in a <==> x in Shapes(a);
      assert x in b <==> x in Shapes(b);
    }
    forall x | x in a
      ensures SameShape(a[x], b[x]) && Path(a[x]) == Path(b[x])
    {
      assert Shapes(a)[x] == Shapes(b)[x];
    }
  }

  /**
   * A settled location stays settled in a store of the same shapes that
   * agrees with the old one on the location and on its parents.
   */
  lemma SettledStays(a: map<Id, Node>, b: map<Id, Node>, x: Id)
    requires Shapes(a) == Shapes(b) && Settled(a, x) && x in b && a[x] == b[x]
    requires forall p | p in a && LastIs(a[x].hierarchy, a[p].placename) :: p in b && a[p] == b[p]
    ensures Settled(b, x)
  {
    PathsFollowShapes(a, b);
  }

  /** Two leading parts of one sequence with the same length are the same. */
  lemma SamePrefix(u: seq<string>, v: seq<string>, s: seq<string>)
    requires u <= s && v <= s && |u| == |v|
    ensures u == v
  {
    assert u == s[..|u|] && v == s[..|v|];
  }

  /** A sequence that does not lead with `a` does not lead with anything `a` leads. */
  lemma NotBelow(a: seq<string>, b: seq<string>, c: seq<string>)
    requires a <= b && !(a <= c)
    ensures !(b <= c)
  {
    assert a == b[..|a|];
  }

  /** Leading parts of leading parts lead. */
  lemma PrefixTrans(a: seq<string>, b: seq<string>, c: seq<string>)
    requires a <= b && b <= c
    ensures a <= c
  {
    assert a == b[..|a|];
  }

  /** Of two different sequences of one length, at most one leads another sequence. */
  lemma DistinctPrefix(u: seq<string>, v: seq<string>, s: seq<string>)
    requires u <= s && |u| == |v| && u != v
    ensures !(v <= s)
  {
    assert u == s[..|u|];
  }

  /**
   * In a well-formed store, every leading part of a location's path is the
   * path of a stored location: its ancestors are all there.
   */
  lemma {:induction false} AncestorAt(nodes: map<Id, Node>, x: Id, len: nat)
    requires WellFormed(Shapes(nodes)) && x in nodes && 1 <= len <= |Path(nodes[x])|
    ensures exists a | a in nodes :: Path(nodes[a]) == Path(nodes[x])[..len]
    decreases |nodes[x].hierarchy|
  {
    var shapes := Shapes(nodes);
    if len == |Path(nodes[x])| {
      assert Path(nodes[x])[..len] == Path(nodes[x]);
    } else {
      var h := nodes[x].hierarchy;
      assert shapes[x].hierarchy == h != [];
      var p :| p in shapes && shapes[p].placename == Last(h);
      assert LastIs(shapes[x].hierarchy, shapes[p].placename);
      assert h == Path(nodes[p]);
      AncestorAt(nodes, p, len);
      var a :| a in nodes && Path(nodes[a]) == Path(nodes[p])[..len];
      assert Path(nodes[x])[..len] == h[..len];
    }
  }

  /**
   * The direct descendants of a stored location in a well-formed store: rows
   * copied from the store, in increasing id order, each with the location's
   * path as its hierarchy; every location with that hierarchy is among them.
   */
  lemma KidsOf(nodes: map<Id, Node>, id: Id, self: Node)
    requires WellFormed(Shapes(nodes)) && id in nodes && SameShape(nodes[id], self)
    ensures forall j | 0 <= j < |DirectDescendants(nodes, self)| ::
      ChildOf(Shapes(nodes), DirectDescendants(nodes, self)[j], |self.hierarchy|) &&
      DirectDescendants(nodes, self)[j].doc == nodes[DirectDescendants(nodes, self)[j].id] &&
      DirectDescendants(nodes, self)[j].doc.hierarchy == Path(self)
    ensures forall j, k | 0 <= j < k < |DirectDescendants(nodes, self)| ::
      DirectDescendants(nodes, self)[j].id < DirectDescendants(nodes, self)[k].id
    ensures forall c | c in nodes && nodes[c].hierarchy == Path(self) ::
      Row(c, nodes[c]) in DirectDescendants(nodes, self)
  {
    var kids := DirectDescendants(nodes, self);
    forall j | 0 <= j < |kids|
      ensures ChildOf(Shapes(nodes), kids[j], |self.hierarchy|) &&
        kids[j].doc == nodes[kids[j].id] && kids[j].doc.hierarchy == Path(self)
    {
      assert kids[j] in kids;
      KidRow(nodes, id, self, kids[j]);
    }
    forall c | c in nodes && nodes[c].hierarchy == Path(self)
      ensures Row(c, nodes[c]) in kids
    {
      assert LastIs(nodes[c].hierarchy, self.placename);
    }
  }

  /** A stored row whose hierarchy ends in a stored location's placename is one of its children. */
  lemma KidRow(nodes: map<Id, Node>, id: Id, self: Node, k: Row)
    requires WellFormed(Shapes(nodes)) && id in nodes && SameShape(nodes[id], self)
    requires k.id in nodes && k.doc == nodes[k.id] && LastIs(k.doc.hierarchy, self.placename)
    ensures ChildOf(Shapes(nodes), k, |self.hierarchy|) && k.doc.hierarchy == Path(self)
  {
    var shapes := Shapes(nodes);
    assert LastIs(shapes[k.id].hierarchy, shapes[id].placename);
  }

  /** After its own `save!`, a non-root of a well-formed store is settled. */
  lemma RecalculatedIsSettled(nodes: map<Id, Node>, id: Id, self: Node)
    requires WellFormed(Shapes(nodes)) && id in nodes && SameShape(nodes[id], self) && !IsTopLevel(self)
    ensures Settled(Recalculate(nodes, id, self), id)
    ensures forall p | p in nodes && LastIs(self.hierarchy, nodes[p].placename) :: p != id
  {
    var shapes := Shapes(nodes);
    UniqueShapes(nodes);
    forall p | p in nodes && LastIs(self.hierarchy, nodes[p].placename)
      ensures p != id
    {
      assert LastIs(shapes[id].hierarchy, shapes[p].placename);
    }
    var n1 := Recalculate(nodes, id, self);
    forall p | p in n1 && LastIs(n1[id].hierarchy, n1[p].placename)
      ensures n1[id].adminLevel == Some(LevelBelow(n1[p].adminLevel))
    {
      assert Shapes(n1)[id] == shapes[id];
      assert p != id && n1[p] == nodes[p];
    }
  }

  /**
   * `update_descendants_admin_level` from a location of a well-formed store
   * settles every non-root at or below it and touches nothing else.
   */
  lemma {:induction false} CascadeSettles(nodes: map<Id, Node>, id: Id, self: Node)
    requires WellFormed(Shapes(nodes)) && id in nodes && SameShape(nodes[id], self)
    ensures !UpdateDescendantsAdminLevel(nodes, id, self).raised
    ensures forall x | x in nodes && !Under(Shapes(nodes), x, Path(self)) ::
      x in UpdateDescendantsAdminLevel(nodes, id, self).nodes &&
      UpdateDescendantsAdminLevel(nodes, id, self).nodes[x] == nodes[x]
    ensures forall x | Under(Shapes(nodes), x, Path(self)) && nodes[x].hierarchy != [] ::
      Settled(UpdateDescendantsAdminLevel(nodes, id, self).nodes, x)
    decreases Deeper(Shapes(nodes), |self.hierarchy|), 1
  {
    var shapes := Shapes(nodes);
    var r := UpdateDescendantsAdminLevel(nodes, id, self);
    assert !IsBlank(shapes[id].placename);
    var n1 := Recalculate(nodes, id, self);
    var kids := DirectDescendants(n1, self);
    KidsOf(n1, id, self);
    assert r == UpdateChildren(n1, |self.hierarchy|, kids, 0);
    ChildrenSettle(n1, Path(self), |self.hierarchy|, kids, 0);
    FrameFromChildren(nodes, id, self, r.nodes);
    SettledFromChildren(nodes, id, self, r.nodes);
  }

  /** A location outside the subtree of `self` lies outside the subtrees of its children, and its own step leaves it alone. */
  lemma OutsideStaysOutside(nodes: map<Id, Node>, id: Id, self: Node, x: Id)
    requires WellFormed(Shapes(nodes)) && id in nodes && SameShape(nodes[id], self)
    requires x in nodes && !Under(Shapes(nodes), x, Path(self))
    ensures !UnderAnyKid(Shapes(Recalculate(nodes, id, self)), x, DirectDescendants(Recalculate(nodes, id, self), self), 0)
    ensures x in Recalculate(nodes, id, self) && Recalculate(nodes, id, self)[x] == nodes[x]
  {
    OutsideStep(nodes, Recalculate(nodes, id, self), id, self, x);
  }

  /** `OutsideStaysOutside` for any store that differs from `nodes` at most in the level and name of `id`. */
  lemma OutsideStep(nodes: map<Id, Node>, n1: map<Id, Node>, id: Id, self: Node, x: Id)
    requires WellFormed(Shapes(nodes)) && id in nodes && SameShape(nodes[id], self)
    requires Shapes(n1) == Shapes(nodes) && id in n1 && n1 == nodes[id := n1[id]]
    requires x in nodes && !Under(Shapes(nodes), x, Path(self))
    ensures !UnderAnyKid(Shapes(n1), x, DirectDescendants(n1, self), 0)
    ensures x in n1 && n1[x] == nodes[x]
  {
    assert x != id by {
      assert Path(nodes[id]) == Path(self);
    }
    assert Shapes(n1)[x] == Shapes(nodes)[x];
    assert SameShape(n1[id], self) by {
      assert Shapes(n1)[id] == Shapes(nodes)[id];
    }
    KidsOf(n1, id, self);
    OutsideKids(Shapes(n1), x, DirectDescendants(n1, self), Path(self));
  }

  /** A location not below `top` is below none of a list of children of `top`. */
  lemma OutsideKids(shapes: map<Id, Shape>, x: Id, kids: seq<Row>, top: seq<string>)
    requires x in shapes && !(top <= ShapePath(shapes[x]))
    requires forall j | 0 <= j < |kids| :: kids[j].doc.hierarchy == top
    ensures !UnderAnyKid(shapes, x, kids, 0)
  {
    forall j | 0 <= j < |kids|
      ensures !Under(shapes, x, Path(kids[j].doc))
    {
      NotBelow(top, Path(kids[j].doc), ShapePath(shapes[x]));
    }
  }

  /** The frame of one cascade step, given the frame of the loop over the children. */
  lemma FrameFromChildren(nodes: map<Id, Node>, id: Id, self: Node, r: map<Id, Node>)
    requires WellFormed(Shapes(nodes)) && id in nodes && SameShape(nodes[id], self)
    requires forall x | x in Recalculate(nodes, id, self) &&
      !UnderAnyKid(Shapes(Recalculate(nodes, id, self)), x, DirectDescendants(Recalculate(nodes, id, self), self), 0) ::
      x in r && r[x] == Recalculate(nodes, id, self)[x]
    ensures forall x | x in nodes && !Under(Shapes(nodes), x, Path(self)) :: x in r && r[x] == nodes[x]
  {
    forall x | x in nodes && !Under(Shapes(nodes), x, Path(self))
      ensures x in r && r[x] == nodes[x]
    {
      OutsideStaysOutside(nodes, id, self, x);
    }
  }

  /** A location other than `self` at or below it lies strictly deeper. */
  lemma StrictlyBelow(nodes: map<Id, Node>, id: Id, self: Node, x: Id)
    requires WellFormed(Shapes(nodes)) && id in nodes && SameShape(nodes[id], self)
    requires Under(Shapes(nodes), x, Path(self)) && x != id
    ensures |Path(nodes[x])| > |Path(self)|
  {
    var shapes := Shapes(nodes);
    assert shapes[x].placename != shapes[id].placename;
    assert Path(nodes[x])[|Path(nodes[x])| - 1] == nodes[x].placename;
    assert Path(self)[|Path(self)| - 1] == self.placename;
    assert Path(nodes[x]) != Path(self);
  }

  /** A location strictly below `self` has an ancestor, or is itself, a child of `self`. */
  lemma ChildAbove(nodes: map<Id, Node>, self: Node, x: Id) returns (a: Id)
    requires WellFormed(Shapes(nodes))
    requires Under(Shapes(nodes), x, Path(self)) && |Path(nodes[x])| > |Path(self)|
    ensures a in nodes && nodes[a].hierarchy == Path(self) && Path(nodes[a]) <= Path(nodes[x])
  {
    AncestorAt(nodes, x, |Path(self)| + 1);
    a :| a in nodes && Path(nodes[a]) == Path(nodes[x])[..|Path(self)| + 1];
    assert nodes[a].hierarchy == Path(self) by {
      assert Path(nodes[a])[..|Path(self)|] == Path(self);
    }
  }

  /** Every location strictly below `self` lies at or below one of its direct descendants. */
  lemma BelowIsUnderKid(nodes: map<Id, Node>, id: Id, self: Node, x: Id)
    requires WellFormed(Shapes(nodes)) && id in nodes && SameShape(nodes[id], self)
    requires Under(Shapes(nodes), x, Path(self)) && |Path(nodes[x])| > |Path(self)|
    ensures UnderAnyKid(Shapes(Recalculate(nodes, id, self)), x, DirectDescendants(Recalculate(nodes, id, self), self), 0)
  {
    var a := ChildAbove(nodes, self, x);
    var n1 := Recalculate(nodes, id, self);
    var kids := DirectDescendants(n1, self);
    KidsOf(n1, id, self);
    PathsFollowShapes(nodes, n1);
    assert Row(a, n1[a]) in kids;
    var j :| 0 <= j < |kids| && kids[j] == Row(a, n1[a]);
    assert Under(Shapes(n1), x, Path(kids[j].doc));
  }

  /** The parents of `self` lie no deeper than it. */
  lemma ParentIsShallower(nodes: map<Id, Node>, id: Id, self: Node, p: Id)
    requires WellFormed(Shapes(nodes)) && id in nodes && SameShape(nodes[id], self)
    requires p in nodes && (p == id || LastIs(self.hierarchy, nodes[p].placename))
    ensures |Path(nodes[p])| <= |Path(self)|
  {
    var shapes := Shapes(nodes);
    if p != id {
      assert LastIs(shapes[id].hierarchy, shapes[p].placename);
    }
  }

  /** A location no deeper than `self` lies outside the subtrees of its direct descendants. */
  lemma ShallowOutsideKids(nodes: map<Id, Node>, id: Id, self: Node, p: Id)
    requires WellFormed(Shapes(nodes)) && id in nodes && SameShape(nodes[id], self)
    requires p in nodes && |Path(nodes[p])| <= |Path(self)|
    ensures !UnderAnyKid(Shapes(Recalculate(nodes, id, self)), p, DirectDescendants(Recalculate(nodes, id, self), self), 0)
  {
    var n1 := Recalculate(nodes, id, self);
    var kids := DirectDescendants(n1, self);
    KidsOf(n1, id, self);
    assert |ShapePath(Shapes(n1)[p])| <= |Path(self)| by {
      assert Shapes(n1)[p] == Shapes(nodes)[p];
    }
    TooShallow(Shapes(n1), p, kids, |Path(self)|);
  }

  /** A location shallower than every child's path lies in none of their subtrees. */
  lemma TooShallow(shapes: map<Id, Shape>, p: Id, kids: seq<Row>, len: nat)
    requires p in shapes && |ShapePath(shapes[p])| <= len
    requires forall j | 0 <= j < |kids| :: |kids[j].doc.hierarchy| == len
    ensures !UnderAnyKid(shapes, p, kids, 0)
  {
    forall j | 0 <= j < |kids|
      ensures !Under(shapes, p, Path(kids[j].doc))
    {
      assert |Path(kids[j].doc)| == len + 1;
    }
  }

  /** What one cascade step settles, given what the loop over the children settles. */
  lemma SettledFromChildren(nodes: map<Id, Node>, id: Id, self: Node, r: map<Id, Node>)
    requires WellFormed(Shapes(nodes)) && id in nodes && SameShape(nodes[id], self)
    requires Shapes(r) == Shapes(nodes)
    requires forall x | x in Recalculate(nodes, id, self) &&
      !UnderAnyKid(Shapes(Recalculate(nodes, id, self)), x, DirectDescendants(Recalculate(nodes, id, self), self), 0) ::
      x in r && r[x] == Recalculate(nodes, id, self)[x]
    requires forall x | UnderAnyKid(Shapes(Recalculate(nodes, id, self)), x, DirectDescendants(Recalculate(nodes, id, self), self), 0) ::
      Settled(r, x)
    ensures forall x | Under(Shapes(nodes), x, Path(self)) && nodes[x].hierarchy != [] :: Settled(r, x)
  {
    var n1 := Recalculate(nodes, id, self);
    forall x | Under(Shapes(nodes), x, Path(self)) && nodes[x].hierarchy != []
      ensures Settled(r, x)
    {
      if x == id {
        RecalculatedIsSettled(nodes, id, self);
        PathsFollowShapes(nodes, n1);
        forall p | p in n1 && (p == id || LastIs(n1[id].hierarchy, n1[p].placename))
          ensures p in r && r[p] == n1[p]
        {
          ParentIsShallower(nodes, id, self, p);
          ShallowOutsideKids(nodes, id, self, p);
        }
        SettledStays(n1, r, id);
      } else {
        StrictlyBelow(nodes, id, self, x);
        BelowIsUnderKid(nodes, id, self, x);
      }
    }
  }

  /** The loop over the direct descendants settles the subtree of every child from the `i`-th on. */
  lemma {:induction false} ChildrenSettle(nodes: map<Id, Node>, top: seq<string>, depth: nat, kids: seq<Row>, i: nat)
    requires WellFormed(Shapes(nodes)) && i <= |kids| && |top| == depth + 1
    requires forall j | 0 <= j < |kids| :: ChildOf(Shapes(nodes), kids[j], depth) && kids[j].doc.hierarchy == top
    requires forall j, k | 0 <= j < k < |kids| :: kids[j].id < kids[k].id
    ensures !UpdateChildren(nodes, depth, kids, i).raised
    ensures forall x | x in nodes && !UnderAnyKid(Shapes(nodes), x, kids, i) ::
      x in UpdateChildren(nodes, depth, kids, i).nodes &&
      UpdateChildren(nodes, depth, kids, i).nodes[x] == nodes[x]
    ensures forall x | UnderAnyKid(Shapes(nodes), x, kids, i) :: Settled(UpdateChildren(nodes, depth, kids, i).nodes, x)
    decreases Deeper(Shapes(nodes), depth), 0, |kids| - i
  {
    if i < |kids| {
      var k := kids[i];
      assert ChildOf(Shapes(nodes), k, depth);
      DeeperShrinks(Shapes(nodes), depth, k.id);
      var out := UpdateDescendantsAdminLevel(nodes, k.id, k.doc);
      CascadeSettles(nodes, k.id, k.doc);
      PathsFollowShapes(nodes, out.nodes);
      ChildrenSettle(out.nodes, top, depth, kids, i + 1);
      var r := UpdateChildren(nodes, depth, kids, i);
      assert r == UpdateChildren(out.nodes, depth, kids, i + 1);
      forall x | x in nodes && !UnderAnyKid(Shapes(nodes), x, kids, i)
        ensures x in r.nodes && r.nodes[x] == nodes[x]
      {
        OutsideKidsFrom(Shapes(nodes), x, kids, i);
      }
      forall x | UnderAnyKid(Shapes(nodes), x, kids, i)
        ensures Settled(r.nodes, x)
      {
        InsideKidsFrom(Shapes(nodes), x, kids, i);
        if Under(Shapes(nodes), x, Path(k.doc)) {
          SettledStep(nodes, out.nodes, r.nodes, top, depth, kids, i, x);
        }
      }
    }
  }

  /** Inside the subtrees of the children from the `i`-th on is inside the `i`-th or one after it. */
  lemma InsideKidsFrom(shapes: map<Id, Shape>, x: Id, kids: seq<Row>, i: nat)
    requires i < |kids| && UnderAnyKid(shapes, x, kids, i)
    ensures Under(shapes, x, Path(kids[i].doc)) || UnderAnyKid(shapes, x, kids, i + 1)
  {
  }

  /** Outside the subtrees of the children from the `i`-th on is outside the `i`-th and those after it. */
  lemma OutsideKidsFrom(shapes: map<Id, Shape>, x: Id, kids: seq<Row>, i: nat)
    requires i < |kids| && !UnderAnyKid(shapes, x, kids, i)
    ensures !Under(shapes, x, Path(kids[i].doc)) && !UnderAnyKid(shapes, x, kids, i + 1)
  {
  }

  /**
   * A location in the subtree of the `i`-th child, settled after that
   * child's cascade, stays settled through the cascades of the later
   * children, which leave it and its parent alone.
   */
  lemma SettledStep(nodes: map<Id, Node>, mid: map<Id, Node>, last: map<Id, Node>,
                    top: seq<string>, depth: nat, kids: seq<Row>, i: nat, x: Id)
    requires WellFormed(Shapes(nodes)) && i < |kids| && |top| == depth + 1
    requires forall j | 0 <= j < |kids| :: ChildOf(Shapes(nodes), kids[j], depth) && kids[j].doc.hierarchy == top
    requires forall j, k | 0 <= j < k < |kids| :: kids[j].id < kids[k].id
    requires Shapes(mid) == Shapes(nodes) && Shapes(last) == Shapes(nodes)
    requires Under(Shapes(nodes), x, Path(kids[i].doc)) && Settled(mid, x)
    requires forall y | y in mid && !UnderAnyKid(Shapes(nodes), y, kids, i + 1) :: y in last && last[y] == mid[y]
    ensures Settled(last, x)
  {
    PathsFollowShapes(nodes, mid);
    Disjoint(nodes, top, depth, kids, i, x);
    forall p | p in mid && LastIs(mid[x].hierarchy, mid[p].placename)
      ensures p in last && last[p] == mid[p]
    {
      ParentUnder(nodes, x, p, top, depth, kids, i);
    }
    SettledStays(mid, last, x);
  }

  /** The subtrees of two different children lie apart. */
  lemma Disjoint(nodes: map<Id, Node>, top: seq<string>, depth: nat, kids: seq<Row>, i: nat, x: Id)
    requires WellFormed(Shapes(nodes)) && i < |kids| && |top| == depth + 1
    requires forall j | 0 <= j < |kids| :: ChildOf(Shapes(nodes), kids[j], depth) && kids[j].doc.hierarchy == top
    requires forall j, k | 0 <= j < k < |kids| :: kids[j].id < kids[k].id
    requires Under(Shapes(nodes), x, Path(kids[i].doc))
    ensures forall j | i < j < |kids| :: !Under(Shapes(nodes), x, Path(kids[j].doc))
  {
    var shapes := Shapes(nodes);
    forall j | i < j < |kids|
      ensures !Under(Shapes(nodes), x, Path(kids[j].doc))
    {
      assert ChildOf(shapes, kids[i], depth) && ChildOf(shapes, kids[j], depth);
      assert kids[i].id < kids[j].id;
      assert shapes[kids[i].id].placename != shapes[kids[j].id].placename;
      assert Path(kids[i].doc)[depth + 1] != Path(kids[j].doc)[depth + 1];
      DistinctPrefix(Path(kids[i].doc), Path(kids[j].doc), Path(nodes[x]));
    }
  }

  /** The parent of a location in a child's subtree is that child or lies in its subtree too. */
  lemma ParentUnder(nodes: map<Id, Node>, x: Id, p: Id, top: seq<string>, depth: nat, kids: seq<Row>, i: nat)
    requires WellFormed(Shapes(nodes)) && i < |kids| && |top| == depth + 1
    requires forall j | 0 <= j < |kids| :: ChildOf(Shapes(nodes), kids[j], depth) && kids[j].doc.hierarchy == top
    requires forall j, k | 0 <= j < k < |kids| :: kids[j].id < kids[k].id
    requires Under(Shapes(nodes), x, Path(kids[i].doc))
    requires p in nodes && LastIs(nodes[x].hierarchy, nodes[p].placename)
    ensures forall j | i < j < |kids| :: !Under(Shapes(nodes), p, Path(kids[j].doc))
  {
    var shapes := Shapes(nodes);
    assert LastIs(shapes[x].hierarchy, shapes[p].placename);
    assert ShapePath(shapes[x]) == ShapePath(shapes[p]) + [shapes[x].placename];
    var kp := Path(kids[i].doc);
    if |ShapePath(shapes[x])| == |kp| {
      TooShallow(shapes, p, kids, |top|);
    } else {
      PrefixOfInit(kp, ShapePath(shapes[p]), shapes[x].placename);
      Disjoint(nodes, top, depth, kids, i, p);
    }
  }

  /** A sequence leading `b + [c]` that is shorter than it leads `b`. */
  lemma PrefixOfInit(a: seq<string>, b: seq<string>, c: string)
    requires a <= b + [c] && |a| <= |b|
    ensures a <= b
  {
    assert a == (b + [c])[..|a|] == b[..|a|];
  }

  /**
   * When `self` is the stored copy (or a root) and everything at or below it
   * is settled, the cascade from it writes back exactly what is stored.
   */
  lemma {:induction false} CascadeUnchanged(nodes: map<Id, Node>, id: Id, self: Node)
    requires WellFormed(Shapes(nodes)) && id in nodes && SameShape(nodes[id], self)
    requires !IsTopLevel(self) ==> self == nodes[id]
    requires forall x | Under(Shapes(nodes), x, Path(self)) && nodes[x].hierarchy != [] :: Settled(nodes, x)
    ensures UpdateDescendantsAdminLevel(nodes, id, self) == Outcome(nodes, false)
    decreases Deeper(Shapes(nodes), |self.hierarchy|), 1
  {
    if !IsTopLevel(self) {
      assert Under(Shapes(nodes), id, Path(self));
    }
    SelfUnchanged(nodes, id, self);
    var kids := DirectDescendants(nodes, self);
    KidsOf(nodes, id, self);
    assert Recalculate(nodes, id, self) == nodes;
    assert UpdateDescendantsAdminLevel(nodes, id, self) == UpdateChildren(nodes, |self.hierarchy|, kids, 0);
    KidsSettled(nodes, id, self);
    ChildrenUnchanged(nodes, Path(self), |self.hierarchy|, kids, 0);
  }

  /** The first step of the cascade writes back a settled non-root, or a root, unchanged. */
  lemma SelfUnchanged(nodes: map<Id, Node>, id: Id, self: Node)
    requires WellFormed(Shapes(nodes)) && id in nodes && SameShape(nodes[id], self)
    requires !IsTopLevel(self) ==> self == nodes[id] && Settled(nodes, id)
    ensures !IsTopLevel(self) ==> Validates(CalculateAdminLevel(nodes, self))
    ensures Recalculate(nodes, id, self) == nodes
  {
    if !IsTopLevel(self) {
      assert !IsBlank(Shapes(nodes)[id].placename);
      SettledLevelKept(nodes, id);
      SettledWrittenBack(nodes, id);
    }
  }

  /** The write of a settled non-root's first step puts back what is stored. */
  lemma SettledWrittenBack(nodes: map<Id, Node>, id: Id)
    requires id in nodes && !IsTopLevel(nodes[id])
    requires CalculateAdminLevel(nodes, nodes[id]) == nodes[id] && nodes[id].name == HierarchicalNameOf(nodes[id])
    ensures Recalculate(nodes, id, nodes[id]) == nodes
  {
    var self := nodes[id];
    SavedBackUnchanged(nodes, self);
    assert Recalculate(nodes, id, self)[id] == self;
    RewriteSame(nodes, id);
  }

  /** Writing back the stored copy leaves the store as it is. */
  lemma RewriteSame(nodes: map<Id, Node>, id: Id)
    requires id in nodes
    ensures nodes[id := nodes[id]] == nodes
  {
  }

  /** Whatever is below a child of `self` is a non-root below `self`, hence settled when all of those are. */
  lemma KidsSettled(nodes: map<Id, Node>, id: Id, self: Node)
    requires WellFormed(Shapes(nodes)) && id in nodes && SameShape(nodes[id], self)
    requires forall x | Under(Shapes(nodes), x, Path(self)) && nodes[x].hierarchy != [] :: Settled(nodes, x)
    ensures forall x | UnderAnyKid(Shapes(nodes), x, DirectDescendants(nodes, self), 0) :: Settled(nodes, x)
  {
    var shapes := Shapes(nodes);
    var kids := DirectDescendants(nodes, self);
    KidsOf(nodes, id, self);
    forall x | UnderAnyKid(shapes, x, kids, 0)
      ensures Settled(nodes, x)
    {
      var j :| 0 <= j < |kids| && Under(shapes, x, Path(kids[j].doc));
      BelowAChild(shapes, self, kids[j].doc, x);
    }
  }

  /** A location at or below a child of `self` is a non-root below `self`. */
  lemma BelowAChild(shapes: map<Id, Shape>, self: Node, kid: Node, x: Id)
    requires kid.hierarchy == Path(self) && Under(shapes, x, Path(kid))
    ensures Under(shapes, x, Path(self)) && shapes[x].hierarchy != []
  {
    PrefixTrans(Path(self), Path(kid), ShapePath(shapes[x]));
    assert |ShapePath(shapes[x])| >= |Path(kid)| > 1;
  }

  /** A settled non-root keeps its level when it re-derives it. */
  lemma SettledLevelKept(nodes: map<Id, Node>, id: Id)
    requires WellFormed(Shapes(nodes)) && id in nodes && !IsTopLevel(nodes[id])
    requires Settled(nodes, id)
    ensures CalculateAdminLevel(nodes, nodes[id]) == nodes[id]
  {
    var shapes := Shapes(nodes);
    UniqueShapes(nodes);
    assert shapes[id].hierarchy != [];
    var p :| p in shapes && shapes[p].placename == Last(shapes[id].hierarchy);
    assert LastIs(nodes[id].hierarchy, nodes[p].placename);
  }

  /** A location whose name is current and whose level is already derived is saved back unchanged. */
  lemma SavedBackUnchanged(nodes: map<Id, Node>, self: Node)
    requires !IsTopLevel(self) && CalculateAdminLevel(nodes, self) == self
    requires self.name == HierarchicalNameOf(self)
    ensures BeforeSave(nodes, self) == self
  {
  }

  /** The loop over settled, current children writes back exactly what is stored. */
  lemma {:induction false} ChildrenUnchanged(nodes: map<Id, Node>, top: seq<string>, depth: nat, kids: seq<Row>, i: nat)
    requires WellFormed(Shapes(nodes)) && i <= |kids| && |top| == depth + 1
    requires forall j | 0 <= j < |kids| :: ChildOf(Shapes(nodes), kids[j], depth) && kids[j].doc.hierarchy == top
    requires forall j | 0 <= j < |kids| :: kids[j].id in nodes && kids[j].doc == nodes[kids[j].id]
    requires forall x | UnderAnyKid(Shapes(nodes), x, kids, i) :: Settled(nodes, x)
    ensures UpdateChildren(nodes, depth, kids, i) == Outcome(nodes, false)
    decreases Deeper(Shapes(nodes), depth), 0, |kids| - i
  {
    if i < |kids| {
      var k := kids[i];
      assert ChildOf(Shapes(nodes), k, depth);
      DeeperShrinks(Shapes(nodes), depth, k.id);
      forall x | Under(Shapes(nodes), x, Path(k.doc)) && nodes[x].hierarchy != []
        ensures Settled(nodes, x)
      {
        assert UnderAnyKid(Shapes(nodes), x, kids, i);
      }
      CascadeUnchanged(nodes, k.id, k.doc);
      forall x | UnderAnyKid(Shapes(nodes), x, kids, i + 1)
        ensures Settled(nodes, x)
      {
        var j :| i + 1 <= j < |kids| && Under(Shapes(nodes), x, Path(kids[j].doc));
        assert UnderAnyKid(Shapes(nodes), x, kids, i);
      }
      ChildrenUnchanged(nodes, top, depth, kids, i + 1);
    }
  }

  /**
   * Running the cascade from a root a second time changes nothing: the first
   * run already settled every location below it.
   */
  lemma CascadeIdempotent(nodes: map<Id, Node>, id: Id, self: Node)
    requires WellFormed(Shapes(nodes)) && id in nodes && SameShape(nodes[id], self) && IsTopLevel(self)
    ensures var r := UpdateDescendantsAdminLevel(nodes, id, self);
      id in r.nodes && SameShape(r.nodes[id], self) && Layered(Shapes(r.nodes)) &&
      UpdateDescendantsAdminLevel(r.nodes, id, self) == r
  {
    var r := UpdateDescendantsAdminLevel(nodes, id, self);
    CascadeSettles(nodes, id, self);
    PathsFollowShapes(nodes, r.nodes);
    CascadeUnchanged(r.nodes, id, self);
  }

  /** The cascade from a root leaves the root as it is. */
  lemma RootStays(nodes: map<Id, Node>, id: Id, self: Node)
    requires WellFormed(Shapes(nodes)) && id in nodes && SameShape(nodes[id], self) && IsTopLevel(self)
    ensures id in UpdateDescendantsAdminLevel(nodes, id, self).nodes
    ensures UpdateDescendantsAdminLevel(nodes, id, self).nodes[id] == nodes[id]
  {
    var shapes := Shapes(nodes);
    var kids := DirectDescendants(nodes, self);
    KidsOf(nodes, id, self);
    assert UpdateDescendantsAdminLevel(nodes, id, self) == UpdateChildren(nodes, 0, kids, 0);
    ChildrenSettle(nodes, Path(self), 0, kids, 0);
    forall j | 0 <= j < |kids|
      ensures !Under(shapes, id, Path(kids[j].doc))
    {
      assert |Path(kids[j].doc)| == 2 > |ShapePath(shapes[id])|;
    }
  }

  /**
   * The cascade from a stored root: the root stays, every location strictly
   * below it is settled, and nothing outside its subtree changes.
   */
  lemma CascadeFromRoot(nodes: map<Id, Node>, id: Id, self: Node)
    requires WellFormed(Shapes(nodes)) && id in nodes && nodes[id] == self && IsTopLevel(self)
    ensures var r := UpdateDescendantsAdminLevel(nodes, id, self);
      !r.raised && id in r.nodes && r.nodes[id] == self &&
      (forall x | Under(Shapes(nodes), x, Path(self)) && x != id :: Settled(r.nodes, x)) &&
      (forall x | x in nodes && !Under(Shapes(nodes), x, Path(self)) :: x in r.nodes && r.nodes[x] == nodes[x])
  {
    CascadeSettles(nodes, id, self);
    RootStays(nodes, id, self);
    forall x | Under(Shapes(nodes), x, Path(self)) && x != id
      ensures nodes[x].hierarchy != []
    {
      StrictlyBelow(nodes, id, self, x);
    }
  }

  /** Saving a valid root writes it with its current name and then runs the cascade from it. */
  lemma SaveRootIsCascade(nodes: map<Id, Node>, id: Id, n: Node)
    requires IsTopLevel(n) && Validates(n) && Layered(Shapes(nodes[id := n]))
    ensures var n1 := nodes[id := n.(name := HierarchicalNameOf(n))];
      Shapes(n1) == Shapes(nodes[id := n]) &&
      Save(nodes, id, n) == Saved(true, UpdateDescendantsAdminLevel(n1, id, n1[id]).nodes,
                                  UpdateDescendantsAdminLevel(n1, id, n1[id]).raised)
  {
    var written := BeforeSave(nodes, n);
    WriteKeepsShapes(nodes[id := n], id, written);
    assert nodes[id := n][id := written] == nodes[id := written];
  }

  /**
   * Saving a valid root of a well-formed store: the root is written with its
   * own level and current name, every location below it is then settled, and
   * no other location changes.
   */
  lemma SaveRootSettles(nodes: map<Id, Node>, id: Id, n: Node)
    requires IsTopLevel(n) && Validates(n) && WellFormed(Shapes(nodes[id := n]))
    ensures var r := Save(nodes, id, n);
      r.ok && !r.raised && id in r.nodes && r.nodes[id] == n.(name := HierarchicalNameOf(n)) &&
      (forall x | Under(Shapes(nodes[id := n]), x, Path(n)) && x != id :: Settled(r.nodes, x)) &&
      (forall x | x in nodes && !Under(Shapes(nodes[id := n]), x, Path(n)) :: x in r.nodes && r.nodes[x] == nodes[x])
  {
    var n1 := nodes[id := n.(name := HierarchicalNameOf(n))];
    SaveRootIsCascade(nodes, id, n);
    CascadeFromRoot(n1, id, n1[id]);
    assert Path(n1[id]) == Path(n);
    WriteFrame(nodes, id, n1[id], Save(nodes, id, n).nodes, Shapes(n1), Path(n));
  }

  /** A frame around a subtree that holds after writing its top holds before the write too. */
  lemma WriteFrame(nodes: map<Id, Node>, id: Id, w: Node, r: map<Id, Node>, shapes: map<Id, Shape>, top: seq<string>)
    requires Under(shapes, id, top)
    requires forall x | x in nodes[id := w] && !Under(shapes, x, top) :: x in r && r[x] == nodes[id := w][x]
    ensures forall x | x in nodes && !Under(shapes, x, top) :: x in r && r[x] == nodes[x]
  {
  }

  /**
   * In a well-formed store where every location below the root `root` is
   * settled, a location d steps below the root has the level the rule gives
   * after d steps from the root's level.
   */
  lemma {:induction false} SettledDepth(nodes: map<Id, Node>, root: Id, x: Id)
    requires WellFormed(Shapes(nodes)) && root in nodes && IsTopLevel(nodes[root])
    requires Under(Shapes(nodes), x, Path(nodes[root]))
    requires forall y | Under(Shapes(nodes), y, Path(nodes[root])) && y != root :: Settled(nodes, y)
    ensures nodes[x].adminLevel == LevelAtDepth(nodes[root].adminLevel, |nodes[x].hierarchy|)
    decreases |nodes[x].hierarchy|
  {
    var shapes := Shapes(nodes);
    assert shapes[x] == ShapeOf(nodes[x]) && shapes[root] == ShapeOf(nodes[root]);
    if nodes[x].hierarchy == [] {
      assert Path(nodes[x])[0] == Path(nodes[root])[0];
    } else {
      var p :| p in shapes && shapes[p].placename == Last(shapes[x].hierarchy);
      assert shapes[p] == ShapeOf(nodes[p]);
      assert nodes[x].hierarchy == Path(nodes[p]);
      assert Path(nodes[x]) == Path(nodes[p]) + [nodes[x].placename];
      assert Path(nodes[root]) <= Path(nodes[p]);
      SettledDepth(nodes, root, p);
      assert Settled(nodes, x) by {
        if x == root {
          assert false;
        }
      }
      assert LastIs(nodes[x].hierarchy, nodes[p].placename);
    }
  }

  /**
   * After the cascade from a stored root at a valid level L, a location d
   * steps below it is at level L+d while that is at most 5, and at the
   * out-of-range sentinel beyond.
   */
  lemma {:induction false} CascadeLevels(nodes: map<Id, Node>, id: Id, self: Node, level: int) returns (r: map<Id, Node>)
    requires WellFormed(Shapes(nodes)) && id in nodes && nodes[id] == self && IsTopLevel(self)
    requires self.adminLevel == Some(level) && level in AdminLevels
    ensures r == UpdateDescendantsAdminLevel(nodes, id, self).nodes
    ensures forall x | Under(Shapes(nodes), x, Path(self)) ::
      x in r && r[x].adminLevel == if level + |nodes[x].hierarchy| <= 5 then Some(level + |nodes[x].hierarchy|) else Some(OutOfRange)
  {
    r := SettledBelowRoot(nodes, id, self);
    LevelsAfterCascade(nodes, r, id, self, level);
  }

  /**
   * The part of `CascadeFromRoot` the levels need, for the store `r` the
   * cascade leaves: the shapes and the root stay, the subtree is settled.
   */
  lemma {:induction false} SettledBelowRoot(nodes: map<Id, Node>, id: Id, self: Node) returns (r: map<Id, Node>)
    requires WellFormed(Shapes(nodes)) && id in nodes && nodes[id] == self && IsTopLevel(self)
    ensures r == UpdateDescendantsAdminLevel(nodes, id, self).nodes
    ensures SettledBelow(nodes, r, id, self)
  {
    r := UpdateDescendantsAdminLevel(nodes, id, self).nodes;
    CascadeFromRoot(nodes, id, self);
  }

  /** Whether `r` has the shapes of `nodes`, keeps `self` under `id` and is settled strictly below it. */
  ghost predicate SettledBelow(nodes: map<Id, Node>, r: map<Id, Node>, id: Id, self: Node) {
    Shapes(r) == Shapes(nodes) && id in r && r[id] == self &&
    forall x | Under(Shapes(nodes), x, Path(self)) && x != id :: Settled(r, x)
  }

  /** The levels of `CascadeLevels`, for any store `r` of the same shapes settled below the root. */
  lemma {:induction false} LevelsAfterCascade(nodes: map<Id, Node>, r: map<Id, Node>, id: Id, self: Node, level: int)
    requires WellFormed(Shapes(nodes)) && IsTopLevel(self) && self.adminLevel == Some(level) && level in AdminLevels
    requires SettledBelow(nodes, r, id, self)
    ensures forall x | Under(Shapes(nodes), x, Path(self)) ::
      x in r && r[x].adminLevel == if level + |nodes[x].hierarchy| <= 5 then Some(level + |nodes[x].hierarchy|) else Some(OutOfRange)
  {
    LevelsBelowRoot(r, id, level);
    PathsFollowShapes(nodes, r);
    LevelsCarryOver(nodes, r, Shapes(r), Path(self), level);
  }

  /** Levels stated by depth below `top` carry over to a store of the same shapes. */
  lemma LevelsCarryOver(nodes: map<Id, Node>, r: map<Id, Node>, shapes: map<Id, Shape>, top: seq<string>, level: int)
    requires shapes == Shapes(r) && shapes == Shapes(nodes)
    requires forall x :: x in nodes <==> x in r
    requires forall x | x in nodes :: SameShape(nodes[x], r[x])
    requires forall x | Under(shapes, x, top) ::
      r[x].adminLevel == if level + |r[x].hierarchy| <= 5 then Some(level + |r[x].hierarchy|) else Some(OutOfRange)
    ensures forall x | Under(shapes, x, top) ::
      x in r && r[x].adminLevel == if level + |nodes[x].hierarchy| <= 5 then Some(level + |nodes[x].hierarchy|) else Some(OutOfRange)
  {
    forall x | Under(shapes, x, top)
      ensures x in r && r[x].adminLevel == if level + |nodes[x].hierarchy| <= 5 then Some(level + |nodes[x].hierarchy|) else Some(OutOfRange)
    {
      assert x in nodes;
      assert ShapeOf(nodes[x]) == ShapeOf(r[x]);
    }
  }

  /** Below a root at a valid level whose subtree is settled, each level is given by the depth. */
  lemma LevelsBelowRoot(r: map<Id, Node>, id: Id, level: int)
    requires WellFormed(Shapes(r)) && id in r && IsTopLevel(r[id])
    requires r[id].adminLevel == Some(level) && level in AdminLevels
    requires forall y | Under(Shapes(r), y, Path(r[id])) && y != id :: Settled(r, y)
    ensures forall x | Under(Shapes(r), x, Path(r[id])) ::
      r[x].adminLevel == if level + |r[x].hierarchy| <= 5 then Some(level + |r[x].hierarchy|) else Some(OutOfRange)
  {
    forall x | Under(Shapes(r), x, Path(r[id]))
      ensures r[x].adminLevel == if level + |r[x].hierarchy| <= 5 then Some(level + |r[x].hierarchy|) else Some(OutOfRange)
    {
      SettledDepth(r, id, x);
      LevelsAlongChain(level, |r[x].hierarchy|);
    }
  }
}
