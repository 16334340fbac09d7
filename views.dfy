/**
 * The views of the location design document (app/models/location.rb:23-58)
 * and the read helpers built on them (location.rb:102-171, 191-225, 255-261),
 * as pure functions over the stored documents.
 */
module Views {
  import opened Wrappers
  import opened PathCodec
  import opened LocationNode
  import opened ViewQuery

  /**
   * The `by_ancestor` view (location.rb:24-31), queried with `key`: a document
   * emits one row under every entry of its hierarchy, so it is found under each
   * of its ancestors' placenames.
   */
  function ByAncestor(nodes: map<Id, Node>, key: string): (r: seq<Row>)
    ensures forall row | row in r :: row.id in nodes && row.doc == nodes[row.id] && key in row.doc.hierarchy
    ensures forall x | x in nodes && key in nodes[x].hierarchy :: Row(x, nodes[x]) in r
    ensures forall i, j | 0 <= i < j < |r| :: r[i].id <= r[j].id
  {
    var r := Query(nodes, AncestorView(key));
    forall row | row in r
      ensures key in row.doc.hierarchy
    {
      EmitsWhen(AncestorView(key), row.doc);
    }
    forall x | x in nodes && key in nodes[x].hierarchy
      ensures Row(x, nodes[x]) in r
    {
      EmitsWhen(AncestorView(key), nodes[x]);
    }
    r
  }

  /** `by_ancestor` returns a location once per occurrence of the key in its hierarchy. */
  lemma ByAncestorCount(nodes: map<Id, Node>, key: string, x: Id)
    requires x in nodes
    ensures multiset(ByAncestor(nodes, key))[Row(x, nodes[x])] == Count(nodes[x].hierarchy, key)
  {
    QueryCount(nodes, AncestorView(key), x);
  }

  /**
   * The `by_parent` view (location.rb:33-39), queried with `key`: a document
   * emits one row under the last entry of its hierarchy only. A root emits
   * under an undefined key, which no placename query matches.
   */
  function ByParent(nodes: map<Id, Node>, key: string): (r: seq<Row>)
    ensures forall row | row in r :: row.id in nodes && row.doc == nodes[row.id] && LastIs(row.doc.hierarchy, key)
    ensures forall x | x in nodes && LastIs(nodes[x].hierarchy, key) :: Row(x, nodes[x]) in r
    ensures forall i, j | 0 <= i < j < |r| :: r[i].id < r[j].id
  {
    var r := Query(nodes, ParentView(key));
    forall row | row in r
      ensures LastIs(row.doc.hierarchy, key)
    {
      EmitsWhen(ParentView(key), row.doc);
    }
    forall x | x in nodes && LastIs(nodes[x].hierarchy, key)
      ensures Row(x, nodes[x]) in r
    {
      EmitsWhen(ParentView(key), nodes[x]);
    }
    r
  }

  /** The `by_type_enabled` view (location.rb:41-46): documents of that type that are not disabled. */
  function ByTypeEnabled(nodes: map<Id, Node>, locationType: string): (r: seq<Row>)
    ensures forall row | row in r :: row.id in nodes && row.doc == nodes[row.id] && EnabledOfType(row.doc, locationType)
    ensures forall x | x in nodes && EnabledOfType(nodes[x], locationType) :: Row(x, nodes[x]) in r
    ensures forall i, j | 0 <= i < j < |r| :: r[i].id < r[j].id
  {
    var r := Query(nodes, TypeEnabledView(locationType));
    forall row | row in r
      ensures EnabledOfType(row.doc, locationType)
    {
      EmitsWhen(TypeEnabledView(locationType), row.doc);
    }
    forall x | x in nodes && EnabledOfType(nodes[x], locationType)
      ensures Row(x, nodes[x]) in r
    {
      EmitsWhen(TypeEnabledView(locationType), nodes[x]);
    }
    r
  }

  /** The `by_admin_level_enabled` view (location.rb:48-53): documents at that level that are not disabled. */
  function ByAdminLevelEnabled(nodes: map<Id, Node>, level: int): (r: seq<Row>)
    ensures forall row | row in r :: row.id in nodes && row.doc == nodes[row.id] && EnabledAtLevel(row.doc, level)
    ensures forall x | x in nodes && EnabledAtLevel(nodes[x], level) :: Row(x, nodes[x]) in r
    ensures forall i, j | 0 <= i < j < |r| :: r[i].id < r[j].id
  {
    var r := Query(nodes, LevelEnabledView(level));
    forall row | row in r
      ensures EnabledAtLevel(row.doc, level)
    {
      EmitsWhen(LevelEnabledView(level), row.doc);
    }
    forall x | x in nodes && EnabledAtLevel(nodes[x], level)
      ensures Row(x, nodes[x]) in r
    {
      EmitsWhen(LevelEnabledView(level), nodes[x]);
    }
    r
  }

  /** The `by_placename` property view (location.rb:56), queried with one key. */
  function ByPlacename(nodes: map<Id, Node>, placename: string): (r: seq<Row>)
    ensures forall row | row in r :: row.id in nodes && row.doc == nodes[row.id] && row.doc.placename == placename
    ensures forall x | x in nodes && nodes[x].placename == placename :: Row(x, nodes[x]) in r
    ensures forall i, j | 0 <= i < j < |r| :: r[i].id < r[j].id
  {
    var r := Query(nodes, PlacenameView(placename));
    forall row | row in r
      ensures row.doc.placename == placename
    {
      EmitsWhen(PlacenameView(placename), row.doc);
    }
    forall x | x in nodes && nodes[x].placename == placename
      ensures Row(x, nodes[x]) in r
    {
      EmitsWhen(PlacenameView(placename), nodes[x]);
    }
    r
  }

  /** The `by_name` view of the stored name, queried with one key. */
  function ByName(nodes: map<Id, Node>, name: string): (r: seq<Row>)
    ensures forall row | row in r :: row.id in nodes && row.doc == nodes[row.id] && row.doc.name == name
    ensures forall x | x in nodes && nodes[x].name == name :: Row(x, nodes[x]) in r
    ensures forall i, j | 0 <= i < j < |r| :: r[i].id < r[j].id
  {
    var r := Query(nodes, NameView(name));
    forall row | row in r
      ensures row.doc.name == name
    {
      EmitsWhen(NameView(name), row.doc);
    }
    forall x | x in nodes && nodes[x].name == name
      ensures Row(x, nodes[x]) in r
    {
      EmitsWhen(NameView(name), nodes[x]);
    }
    r
  }

  /** The key a row is found under in a `keys:` query: its stored name, or its placename. */
  function RowKey(row: Row, byName: bool): string {
    if byName then row.doc.name else row.doc.placename
  }

  /** Whether `x` is listed as a key no later than some listing of `y`. */
  ghost predicate KeyPair(keys: seq<string>, x: string, y: string) {
    exists ki, kj | 0 <= ki <= kj < |keys| :: keys[ki] == x && keys[kj] == y
  }

  /**
   * The rows of a `keys:` query come key by key: a row never comes after a
   * row whose key is listed only later.
   */
  ghost predicate InKeyOrder(r: seq<Row>, keys: seq<string>, byName: bool) {
    forall i, j | 0 <= i < j < |r| :: KeyPair(keys, RowKey(r[i], byName), RowKey(r[j], byName))
  }

  /** Two listed keys in order form a key pair. */
  lemma PairAt(keys: seq<string>, ki: nat, kj: nat)
    requires ki <= kj < |keys|
    ensures KeyPair(keys, keys[ki], keys[kj])
  {
  }

  /** A key pair among the later keys is a key pair of all of them. */
  lemma ShiftPair(keys: seq<string>, x: string, y: string)
    requires keys != [] && KeyPair(keys[1..], x, y)
    ensures KeyPair(keys, x, y)
  {
    var ki, kj :| 0 <= ki <= kj < |keys[1..]| && keys[1..][ki] == x && keys[1..][kj] == y;
    PairAt(keys, ki + 1, kj + 1);
  }

  /** No key is listed twice. */
  predicate Distinct(keys: seq<string>) {
    forall a, b | 0 <= a < b < |keys| :: keys[a] != keys[b]
  }

  /** With distinct keys, the rows under one key come in increasing id order. */
  ghost predicate IdOrderWithinKey(r: seq<Row>, byName: bool) {
    forall i, j | 0 <= i < j < |r| && RowKey(r[i], byName) == RowKey(r[j], byName) :: r[i].id < r[j].id
  }

  /** Putting the rows of the first key before those of the later keys keeps the key order. */
  lemma KeyOrderConcat(a: seq<Row>, b: seq<Row>, keys: seq<string>, byName: bool)
    requires keys != []
    requires forall row | row in a :: RowKey(row, byName) == keys[0]
    requires forall row | row in b :: RowKey(row, byName) in keys[1..]
    requires InKeyOrder(b, keys[1..], byName)
    ensures InKeyOrder(a + b, keys, byName)
  {
    var r := a + b;
    forall i, j | 0 <= i < j < |r|
      ensures KeyPair(keys, RowKey(r[i], byName), RowKey(r[j], byName))
    {
      if j < |a| {
        assert r[i] == a[i] && r[j] == a[j] && a[i] in a && a[j] in a;
        PairAt(keys, 0, 0);
      } else if i < |a| {
        assert r[i] == a[i] && a[i] in a && r[j] == b[j - |a|] && b[j - |a|] in b;
        var m :| 0 <= m < |keys[1..]| && keys[1..][m] == RowKey(r[j], byName);
        PairAt(keys, 0, m + 1);
      } else {
        assert r[i] == b[i - |a|] && r[j] == b[j - |a|];
        ShiftPair(keys, RowKey(r[i], byName), RowKey(r[j], byName));
      }
    }
  }

  /** With distinct keys, a key listed after the first is not the first. */
  lemma LaterKeyIsNotFirst(keys: seq<string>, x: string)
    requires keys != [] && Distinct(keys) && x in keys[1..]
    ensures x != keys[0]
  {
    var m :| 0 <= m < |keys[1..]| && keys[1..][m] == x;
    assert keys[m + 1] == x;
  }

  /** Putting the id-ordered rows of the first key before those of the other keys keeps ids in order within a key. */
  lemma IdOrderConcat(a: seq<Row>, b: seq<Row>, keys: seq<string>, byName: bool)
    requires keys != [] && Distinct(keys)
    requires forall i, j | 0 <= i < j < |a| :: a[i].id < a[j].id
    requires forall row | row in a :: RowKey(row, byName) == keys[0]
    requires forall row | row in b :: RowKey(row, byName) in keys[1..]
    requires IdOrderWithinKey(b, byName)
    ensures IdOrderWithinKey(a + b, byName)
  {
    var r := a + b;
    forall row | row in b
      ensures RowKey(row, byName) != keys[0]
    {
      LaterKeyIsNotFirst(keys, RowKey(row, byName));
    }
    forall i, j | 0 <= i < j < |r| && RowKey(r[i], byName) == RowKey(r[j], byName)
      ensures r[i].id < r[j].id
    {
      if j < |a| {
        assert r[i] == a[i] && r[j] == a[j];
      } else if |a| <= i {
        assert r[i] == b[i - |a|] && r[j] == b[j - |a|];
      } else {
        assert false;
      }
    }
  }

  /** The rows of the first key followed by the rows of the later keys, in key order and by id within a key. */
  lemma KeysConcat(a: seq<Row>, b: seq<Row>, keys: seq<string>, byName: bool)
    requires keys != []
    requires forall i, j | 0 <= i < j < |a| :: a[i].id < a[j].id
    requires forall row | row in a :: RowKey(row, byName) == keys[0]
    requires forall row | row in b :: RowKey(row, byName) in keys[1..]
    requires InKeyOrder(b, keys[1..], byName)
    requires Distinct(keys[1..]) ==> IdOrderWithinKey(b, byName)
    ensures InKeyOrder(a + b, keys, byName)
    ensures Distinct(keys) ==> IdOrderWithinKey(a + b, byName)
  {
    KeyOrderConcat(a, b, keys, byName);
    if Distinct(keys) {
      assert Distinct(keys[1..]);
      IdOrderConcat(a, b, keys, byName);
    }
  }

  /** `by_placename(keys: placenames)` (location.rb:128-130): the rows of each key in turn. */
  function ByPlacenames(nodes: map<Id, Node>, placenames: seq<string>): (r: seq<Row>)
    ensures forall row | row in r :: row.id in nodes && row.doc == nodes[row.id] && row.doc.placename in placenames
    ensures forall x | x in nodes && nodes[x].placename in placenames :: Row(x, nodes[x]) in r
    ensures InKeyOrder(r, placenames, false)
    ensures Distinct(placenames) ==> IdOrderWithinKey(r, false)
  {
    if placenames == [] then []
    else
      assert forall p | p in placenames && p != placenames[0] :: p in placenames[1..];
      var first := ByPlacename(nodes, placenames[0]);
      var rest := ByPlacenames(nodes, placenames[1..]);
      KeysConcat(first, rest, placenames, false);
      first + rest
  }

  /** `find_by_names` (location.rb:167-170): `by_name(keys: names)`, the rows of each key in turn. */
  function ByNames(nodes: map<Id, Node>, names: seq<string>): (r: seq<Row>)
    ensures forall row | row in r :: row.id in nodes && row.doc == nodes[row.id] && row.doc.name in names
    ensures forall x | x in nodes && nodes[x].name in names :: Row(x, nodes[x]) in r
    ensures InKeyOrder(r, names, true)
    ensures Distinct(names) ==> IdOrderWithinKey(r, true)
  {
    if names == [] then []
    else
      assert forall p | p in names && p != names[0] :: p in names[1..];
      var first := ByName(nodes, names[0]);
      var rest := ByNames(nodes, names[1..]);
      KeysConcat(first, rest, names, true);
      first + rest
  }

  /** In rows ordered by id, the first row has the least id of all. */
  lemma FirstIsLeast(rows: seq<Row>)
    requires rows != []
    requires forall i, j | 0 <= i < j < |rows| :: rows[i].id < rows[j].id
    ensures forall row | row in rows :: rows[0].id <= row.id
  {
  }

  /**
   * `get_by_location` (location.rb:121-125): the first location with that
   * placename, which is the one with the least id; nothing when none has it.
   */
  function GetByLocation(nodes: map<Id, Node>, placename: string): (r: Option<Row>)
    ensures r.None? ==> forall x | x in nodes :: nodes[x].placename != placename
    ensures r.Some? ==> r.value.id in nodes && r.value.doc == nodes[r.value.id] && r.value.doc.placename == placename
    ensures r.Some? ==> forall x | x in nodes && nodes[x].placename == placename :: r.value.id <= x
  {
    var rows := ByPlacename(nodes, placename);
    if rows == [] then None
    else
      FirstIsLeast(rows);
      assert rows[0] in rows;
      assert forall x | x in nodes && nodes[x].placename == placename :: Row(x, nodes[x]) in rows;
      Some(rows[0])
  }

  /**
   * `parent` (location.rb:255-261): for a non-root, the location found by the
   * last entry of its hierarchy; nothing for a root.
   */
  function Parent(nodes: map<Id, Node>, n: Node): Option<Row> {
    if n.hierarchy != [] then GetByLocation(nodes, Last(n.hierarchy)) else None
  }

  /** `descendants` (location.rb:191-194): every row of `by_ancestor` under the location's placename. */
  function Descendants(nodes: map<Id, Node>, n: Node): seq<Row> {
    ByAncestor(nodes, n.placename)
  }

  /** `direct_descendants` (location.rb:196-199): every row of `by_parent` under the location's placename. */
  function DirectDescendants(nodes: map<Id, Node>, n: Node): seq<Row> {
    ByParent(nodes, n.placename)
  }

  /** `ancestors` (location.rb:214-216): the locations whose stored names are the ancestor names. */
  function Ancestors(nodes: map<Id, Node>, n: Node): seq<Row> {
    ByNames(nodes, AncestorNamesOf(n.hierarchy))
  }

  /** No two stored locations share a placename: the assumption the lookups by placename make. */
  ghost predicate UniquePlacenames(nodes: map<Id, Node>) {
    forall x, y | x in nodes && y in nodes && nodes[x].placename == nodes[y].placename :: x == y
  }

  /**
   * The parent of a non-root is a stored location named by the last entry of
   * its hierarchy; there is none exactly when no stored location has that
   * placename; with unique placenames it is that one location.
   */
  lemma ParentIsTheNamedLocation(nodes: map<Id, Node>, n: Node)
    requires n.hierarchy != []
    ensures Parent(nodes, n).Some? ==> Parent(nodes, n).value.doc.placename == Last(n.hierarchy)
    ensures Parent(nodes, n).None? <==> forall x | x in nodes :: nodes[x].placename != Last(n.hierarchy)
    ensures UniquePlacenames(nodes) ==>
      forall p | p in nodes && nodes[p].placename == Last(n.hierarchy) :: Parent(nodes, n) == Some(Row(p, nodes[p]))
  {
  }

  /** Every direct descendant is also a descendant: the last entry of a hierarchy is one of its entries. */
  lemma DirectDescendantsAreDescendants(nodes: map<Id, Node>, n: Node)
    ensures forall row | row in DirectDescendants(nodes, n) :: row in Descendants(nodes, n)
  {
    forall row | row in DirectDescendants(nodes, n)
      ensures row in Descendants(nodes, n)
    {
      assert n.placename in row.doc.hierarchy;
      assert row == Row(row.id, nodes[row.id]);
    }
  }

  /**
   * Disabling a location takes it out of the enabled type and level views but
   * leaves it, and every other location, where it was in the hierarchy views.
   */
  lemma DisablingKeepsHierarchyViews(nodes: map<Id, Node>, x: Id, key: string, locationType: string, level: int)
    requires x in nodes
    ensures forall y | y in nodes ::
      (Row(y, nodes[y]) in ByParent(nodes, key) <==>
       Row(y, nodes[x := nodes[x].(disabled := true)][y]) in ByParent(nodes[x := nodes[x].(disabled := true)], key))
    ensures forall y | y in nodes ::
      (Row(y, nodes[y]) in ByAncestor(nodes, key) <==>
       Row(y, nodes[x := nodes[x].(disabled := true)][y]) in ByAncestor(nodes[x := nodes[x].(disabled := true)], key))
    ensures forall row | row in ByTypeEnabled(nodes[x := nodes[x].(disabled := true)], locationType) :: row.id != x
    ensures forall row | row in ByAdminLevelEnabled(nodes[x := nodes[x].(disabled := true)], level) :: row.id != x
  {
    var after := nodes[x := nodes[x].(disabled := true)];
    forall y | y in nodes
      ensures Row(y, nodes[y]) in ByParent(nodes, key) <==> Row(y, after[y]) in ByParent(after, key)
      ensures Row(y, nodes[y]) in ByAncestor(nodes, key) <==> Row(y, after[y]) in ByAncestor(after, key)
    {
      assert after[y].hierarchy == nodes[y].hierarchy;
    }
  }

  /** Index of the first row whose document has the given type, or the length when none has. */
  function FirstOfType(rows: seq<Row>, locationType: string): (k: nat)
    ensures k <= |rows|
    ensures k < |rows| ==> rows[k].doc.locationType == Some(locationType)
    ensures forall j | 0 <= j < k :: rows[j].doc.locationType != Some(locationType)
  {
    if rows == [] then 0
    else if rows[0].doc.locationType == Some(locationType) then 0
    else 1 + FirstOfType(rows[1..], locationType)
  }

  /**
   * `ancestor_by_type` (location.rb:218-225): the location itself when its type
   * matches, else the first ancestor of that type in root-first order, else
   * nothing.
   */
  function AncestorByType(nodes: map<Id, Node>, self: Node, locationType: string): (r: Option<Node>)
    ensures self.locationType == Some(locationType) ==> r == Some(self)
    ensures self.locationType != Some(locationType) && r.Some? ==>
      r.value.locationType == Some(locationType) &&
      exists k | 0 <= k < |Ancestors(nodes, self)| :: Ancestors(nodes, self)[k].doc == r.value &&
        forall j | 0 <= j < k :: Ancestors(nodes, self)[j].doc.locationType != Some(locationType)
    ensures self.locationType != Some(locationType) && r.None? ==>
      forall row | row in Ancestors(nodes, self) :: row.doc.locationType != Some(locationType)
  {
    if self.locationType == Some(locationType) then Some(self)
    else
      var response := Ancestors(nodes, self);
      var k := FirstOfType(response, locationType);
      if k < |response| then Some(response[k].doc) else None
  }

  /** Every stored location carries its hierarchical name, as saving makes it. */
  ghost predicate NamesCurrent(nodes: map<Id, Node>) {
    forall x | x in nodes :: nodes[x].name == HierarchicalNameOf(nodes[x])
  }

  /** Every stored placename and hierarchy entry is present and colon-free. */
  ghost predicate PlainPaths(nodes: map<Id, Node>) {
    forall x | x in nodes ::
      !IsBlank(nodes[x].placename) && NoColon(nodes[x].placename) && AllNoColon(nodes[x].hierarchy)
  }

  /**
   * When every stored name is current and all paths are plain, the ancestors
   * of a location are exactly the stored locations whose path (hierarchy plus
   * placename) is a leading part of the location's hierarchy.
   */
  lemma AncestorsAreLeadingPaths(nodes: map<Id, Node>, n: Node)
    requires NamesCurrent(nodes) && PlainPaths(nodes)
    requires AllNoColon(n.hierarchy) && forall k | 0 <= k < |n.hierarchy| :: !IsBlank(n.hierarchy[k])
    ensures forall row | row in Ancestors(nodes, n) ::
      exists j | 0 < j <= |n.hierarchy| :: row.doc.hierarchy + [row.doc.placename] == n.hierarchy[..j]
    ensures forall x, j | x in nodes && 0 < j <= |n.hierarchy| && nodes[x].hierarchy + [nodes[x].placename] == n.hierarchy[..j] ::
      Row(x, nodes[x]) in Ancestors(nodes, n)
  {
    var names := AncestorNamesOf(n.hierarchy);
    AncestorNamesChain(n.hierarchy);
    forall row | row in Ancestors(nodes, n)
      ensures exists j | 0 < j <= |n.hierarchy| :: row.doc.hierarchy + [row.doc.placename] == n.hierarchy[..j]
    {
      var i :| 0 <= i < |names| && names[i] == row.doc.name;
      RoundTrip(row.doc.hierarchy, row.doc.placename);
      AncestorNamesDecode(n.hierarchy, i);
      assert row.doc.hierarchy + [row.doc.placename] == n.hierarchy[..i + 1];
    }
    forall x, j | x in nodes && 0 < j <= |n.hierarchy| && nodes[x].hierarchy + [nodes[x].placename] == n.hierarchy[..j]
      ensures Row(x, nodes[x]) in Ancestors(nodes, n)
    {
      var i := j - 1;
      var d := nodes[x];
      assert n.hierarchy[..i] == d.hierarchy && n.hierarchy[i] == d.placename by {
        assert n.hierarchy[..i + 1][..i] == n.hierarchy[..i];
        assert (d.hierarchy + [d.placename])[..i] == d.hierarchy;
        assert n.hierarchy[..i + 1][i] == n.hierarchy[i];
      }
      assert names[i] == d.name;
    }
  }

  /** An ancestor row found under the name at position k of the ancestor names lies k steps below the root. */
  lemma RowDepth(nodes: map<Id, Node>, h: seq<string>, row: Row, k: nat)
    requires NamesCurrent(nodes) && PlainPaths(nodes)
    requires AllNoColon(h) && forall m | 0 <= m < |h| :: !IsBlank(h[m])
    requires row.id in nodes && row.doc == nodes[row.id]
    requires k < |h| && AncestorNamesOf(h)[k] == row.doc.name
    ensures |row.doc.hierarchy| == k
  {
    RoundTrip(row.doc.hierarchy, row.doc.placename);
    AncestorNamesDecode(h, k);
    assert row.doc.hierarchy + [row.doc.placename] == h[..k + 1];
  }

  /**
   * `ancestors` (location.rb:214-216) comes root first: with current names
   * and plain paths, a later ancestor row is never shallower than an earlier
   * one.
   */
  lemma AncestorsRootFirst(nodes: map<Id, Node>, n: Node)
    requires NamesCurrent(nodes) && PlainPaths(nodes)
    requires AllNoColon(n.hierarchy) && forall k | 0 <= k < |n.hierarchy| :: !IsBlank(n.hierarchy[k])
    ensures forall i, j | 0 <= i < j < |Ancestors(nodes, n)| ::
      |Ancestors(nodes, n)[i].doc.hierarchy| <= |Ancestors(nodes, n)[j].doc.hierarchy|
  {
    var names := AncestorNamesOf(n.hierarchy);
    var rows := Ancestors(nodes, n);
    AncestorNamesChain(n.hierarchy);
    forall i, j | 0 <= i < j < |rows|
      ensures |rows[i].doc.hierarchy| <= |rows[j].doc.hierarchy|
    {
      assert KeyPair(names, RowKey(rows[i], true), RowKey(rows[j], true));
      var ki, kj :| 0 <= ki <= kj < |names| && names[ki] == rows[i].doc.name && names[kj] == rows[j].doc.name;
      assert rows[i] in rows && rows[j] in rows;
      RowDepth(nodes, n.hierarchy, rows[i], ki);
      RowDepth(nodes, n.hierarchy, rows[j], kj);
    }
  }

  /**
   * `ancestor_by_type` (location.rb:218-225) answers the shallowest ancestor
   * of the type: no ancestor of that type lies above the one it returns.
   */
  lemma AncestorByTypeShallowest(nodes: map<Id, Node>, self: Node, locationType: string)
    requires NamesCurrent(nodes) && PlainPaths(nodes)
    requires AllNoColon(self.hierarchy) && forall k | 0 <= k < |self.hierarchy| :: !IsBlank(self.hierarchy[k])
    requires self.locationType != Some(locationType) && AncestorByType(nodes, self, locationType).Some?
    ensures forall row | row in Ancestors(nodes, self) && row.doc.locationType == Some(locationType) ::
      |AncestorByType(nodes, self, locationType).value.hierarchy| <= |row.doc.hierarchy|
  {
    var rows := Ancestors(nodes, self);
    AncestorsRootFirst(nodes, self);
    FirstOfTypeShallowest(rows, locationType);
  }

  /** In rows ordered by depth, the first row of a type is no deeper than any row of that type. */
  lemma FirstOfTypeShallowest(rows: seq<Row>, locationType: string)
    requires forall i, j | 0 <= i < j < |rows| :: |rows[i].doc.hierarchy| <= |rows[j].doc.hierarchy|
    requires FirstOfType(rows, locationType) < |rows|
    ensures forall row | row in rows && row.doc.locationType == Some(locationType) ::
      |rows[FirstOfType(rows, locationType)].doc.hierarchy| <= |row.doc.hierarchy|
  {
    var k := FirstOfType(rows, locationType);
    forall row | row in rows && row.doc.locationType == Some(locationType)
      ensures |rows[k].doc.hierarchy| <= |row.doc.hierarchy|
    {
      var j :| 0 <= j < |rows| && rows[j] == row;
      assert k <= j;
    }
  }
}
