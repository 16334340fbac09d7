/**
 * How a CouchDB view of the location design document (app/models/location.rb:23-58)
 * answers a query with one key: the map function of the view emits each
 * document some number of times under that key, and the rows come back in
 * document-id order, each carrying the document as stored.
 */
module ViewQuery {
  import opened Wrappers
  import opened LocationNode

  /** A view row: the id of the emitting document and the document itself. */
  datatype Row = Row(id: Id, doc: Node)

  /** Whether `m` is the least id of `s`. */
  predicate IsLeast(m: Id, s: set<Id>) {
    m in s && forall x | x in s :: m <= x
  }

  /** Every non-empty set of ids has a least element. */
  lemma {:induction false} HasLeast(s: set<Id>)
    requires s != {}
    ensures exists m :: IsLeast(m, s)
  {
    var y :| y in s;
    var rest := s - {y};
    if rest == {} {
      assert forall x | x in s :: x in rest || x == y;
      assert IsLeast(y, s);
    } else {
      HasLeast(rest);
      var m :| IsLeast(m, rest);
      var least := if y < m then y else m;
      forall x | x in s
        ensures least <= x
      {
        if x != y {
          assert x in rest;
        }
      }
      assert IsLeast(least, s);
    }
  }

  /** The least id of a non-empty set. */
  function LeastId(s: set<Id>): (m: Id)
    requires s != {}
    ensures m in s && forall x | x in s :: m <= x
  {
    HasLeast(s);
    var m :| IsLeast(m, s); m
  }

  /** The ids of a set in ascending order: the order CouchDB gives rows that share a key. */
  function SortedIds(s: set<Id>): (r: seq<Id>)
    ensures |r| == |s|
    ensures forall x :: x in r <==> x in s
    ensures forall i, j | 0 <= i < j < |r| :: r[i] < r[j]
    decreases s
  {
    if s == {} then []
    else
      var m := LeastId(s);
      [m] + SortedIds(s - {m})
  }

  /** `k` copies of `x`. */
  function Repeat<T>(x: T, k: nat): (r: seq<T>)
    ensures |r| == k && forall i | 0 <= i < k :: r[i] == x
  {
    if k == 0 then [] else [x] + Repeat(x, k - 1)
  }

  /** How many times `x` occurs in `s`. */
  function Count(s: seq<string>, x: string): (c: nat)
    ensures c > 0 <==> x in s
  {
    if s == [] then 0
    else (if s[0] == x then 1 else 0) + Count(s[1..], x)
  }

  /** Whether the last entry of a hierarchy is `key`; a root has no last entry. */
  predicate LastIs(hierarchy: seq<string>, key: string) {
    hierarchy != [] && Last(hierarchy) == key
  }

  /** Whether a document is shown by the enabled views under that type. */
  predicate EnabledOfType(n: Node, locationType: string) {
    n.locationType == Some(locationType) && !n.disabled
  }

  /** Whether a document is shown by the enabled views under that level. */
  predicate EnabledAtLevel(n: Node, level: int) {
    n.adminLevel == Some(level) && !n.disabled
  }

  /**
   * A view of the design document together with the key it is queried
   * with. Each view's map function emits a document under some keys; a
   * query with one key returns the rows emitted under that key.
   */
  datatype View =
    | AncestorView(ancestor: string)
    | ParentView(parent: string)
    | TypeEnabledView(locationType: string)
    | LevelEnabledView(level: int)
    | PlacenameView(placename: string)
    | NameView(name: string)

  /** How many rows the map function of `v` emits for `n` under `v`'s key. */
  function Emits(v: View, n: Node): nat {
    match v
    case AncestorView(key) => Count(n.hierarchy, key)
    case ParentView(key) => if LastIs(n.hierarchy, key) then 1 else 0
    case TypeEnabledView(t) => if EnabledOfType(n, t) then 1 else 0
    case LevelEnabledView(l) => if EnabledAtLevel(n, l) then 1 else 0
    case PlacenameView(p) => if n.placename == p then 1 else 0
    case NameView(name) => if n.name == name then 1 else 0
  }

  /** Which documents each view emits under its key. */
  lemma EmitsWhen(v: View, n: Node)
    ensures v.AncestorView? ==> (Emits(v, n) > 0 <==> v.ancestor in n.hierarchy)
    ensures v.ParentView? ==> (Emits(v, n) > 0 <==> LastIs(n.hierarchy, v.parent))
    ensures v.TypeEnabledView? ==> (Emits(v, n) > 0 <==> EnabledOfType(n, v.locationType))
    ensures v.LevelEnabledView? ==> (Emits(v, n) > 0 <==> EnabledAtLevel(n, v.level))
    ensures v.PlacenameView? ==> (Emits(v, n) > 0 <==> n.placename == v.placename)
    ensures v.NameView? ==> (Emits(v, n) > 0 <==> n.name == v.name)
  {
  }

  /** Every view but `by_ancestor` emits a document at most once under a key. */
  predicate Single(v: View) {
    !v.AncestorView?
  }

  lemma EmitsAtMostOnce(v: View, n: Node)
    requires Single(v)
    ensures Emits(v, n) <= 1
  {
  }

  /**
   * The rows of view `v` queried with its key, visiting the documents in the
   * order `ids`: each document contributes as many rows as it emits.
   */
  function ViewRows(nodes: map<Id, Node>, ids: seq<Id>, v: View): (r: seq<Row>)
    requires forall x | x in ids :: x in nodes
    ensures forall row | row in r :: row.id in ids && row.doc == nodes[row.id] && Emits(v, row.doc) > 0
    ensures forall x | x in ids && Emits(v, nodes[x]) > 0 :: Row(x, nodes[x]) in r
  {
    if ids == [] then []
    else
      var first := Repeat(Row(ids[0], nodes[ids[0]]), Emits(v, nodes[ids[0]]));
      var rest := ViewRows(nodes, ids[1..], v);
      assert forall x | x in ids && x != ids[0] :: x in ids[1..];
      assert Emits(v, nodes[ids[0]]) > 0 ==> first[0] == Row(ids[0], nodes[ids[0]]);
      first + rest
  }

  /** Row ids never decrease. */
  predicate Ordered(rows: seq<Row>) {
    forall i, j | 0 <= i < j < |rows| :: rows[i].id <= rows[j].id
  }

  /** Row ids increase: no document appears twice. */
  predicate StrictlyOrdered(rows: seq<Row>) {
    forall i, j | 0 <= i < j < |rows| :: rows[i].id < rows[j].id
  }

  /** Ordered rows followed by ordered rows with larger ids are ordered. */
  lemma ConcatOrdered(a: seq<Row>, b: seq<Row>, bound: Id)
    requires Ordered(a) && Ordered(b)
    requires forall i | 0 <= i < |a| :: a[i].id <= bound
    requires forall i | 0 <= i < |b| :: bound < b[i].id
    ensures Ordered(a + b)
    ensures StrictlyOrdered(a) && StrictlyOrdered(b) ==> StrictlyOrdered(a + b)
  {
    var r := a + b;
    forall i, j | 0 <= i < j < |r|
      ensures r[i].id <= r[j].id
      ensures StrictlyOrdered(a) && StrictlyOrdered(b) ==> r[i].id < r[j].id
    {
      if j < |a| {
        assert r[i] == a[i] && r[j] == a[j];
      } else if i < |a| {
        assert r[i] == a[i] && r[j] == b[j - |a|];
      } else {
        assert r[i] == b[i - |a|] && r[j] == b[j - |a|];
      }
    }
  }

  /** The rows of the documents after the first have larger ids than the first. */
  lemma LaterRowsAbove(nodes: map<Id, Node>, ids: seq<Id>, v: View)
    requires ids != [] && forall x | x in ids :: x in nodes
    requires forall i, j | 0 <= i < j < |ids| :: ids[i] < ids[j]
    ensures forall i | 0 <= i < |ViewRows(nodes, ids[1..], v)| :: ids[0] < ViewRows(nodes, ids[1..], v)[i].id
  {
    var rest := ViewRows(nodes, ids[1..], v);
    forall i | 0 <= i < |rest|
      ensures ids[0] < rest[i].id
    {
      assert rest[i] in rest;
      var k :| 0 <= k < |ids[1..]| && ids[1..][k] == rest[i].id;
      assert ids[k + 1] == rest[i].id;
    }
  }

  /** Rows follow the order of the ids they come from; with at most one row per document they are distinct. */
  lemma {:induction false} ViewRowsOrdered(nodes: map<Id, Node>, ids: seq<Id>, v: View)
    requires forall x | x in ids :: x in nodes
    requires forall i, j | 0 <= i < j < |ids| :: ids[i] < ids[j]
    ensures Ordered(ViewRows(nodes, ids, v))
    ensures Single(v) ==> StrictlyOrdered(ViewRows(nodes, ids, v))
  {
    if ids != [] {
      ViewRowsOrdered(nodes, ids[1..], v);
      var first := Repeat(Row(ids[0], nodes[ids[0]]), Emits(v, nodes[ids[0]]));
      var rest := ViewRows(nodes, ids[1..], v);
      assert ViewRows(nodes, ids, v) == first + rest;
      LaterRowsAbove(nodes, ids, v);
      if Single(v) {
        EmitsAtMostOnce(v, nodes[ids[0]]);
      }
      ConcatOrdered(first, rest, ids[0]);
    }
  }

  /** `k` copies of `x` hold `x` exactly `k` times and nothing else. */
  lemma {:induction false} RepeatCount<T>(x: T, k: nat, y: T)
    ensures multiset(Repeat(x, k))[y] == if y == x then k else 0
  {
    if k > 0 {
      RepeatCount(x, k - 1, y);
      assert multiset(Repeat(x, k)) == multiset([x]) + multiset(Repeat(x, k - 1));
    }
  }

  /** In increasing ids, every id after the first is larger than it. */
  lemma LaterIdsAbove(ids: seq<Id>)
    requires ids != [] && forall i, j | 0 <= i < j < |ids| :: ids[i] < ids[j]
    ensures forall y | y in ids[1..] :: ids[0] < y
  {
    forall y | y in ids[1..]
      ensures ids[0] < y
    {
      var k :| 0 <= k < |ids[1..]| && ids[1..][k] == y;
      assert ids[k + 1] == y;
    }
  }

  /** A document visited once contributes exactly as many rows as it emits. */
  lemma {:induction false} ViewRowsCount(nodes: map<Id, Node>, ids: seq<Id>, v: View, x: Id)
    requires forall y | y in ids :: y in nodes
    requires forall i, j | 0 <= i < j < |ids| :: ids[i] < ids[j]
    requires x in nodes
    ensures multiset(ViewRows(nodes, ids, v))[Row(x, nodes[x])] == if x in ids then Emits(v, nodes[x]) else 0
  {
    if ids != [] {
      var first := Repeat(Row(ids[0], nodes[ids[0]]), Emits(v, nodes[ids[0]]));
      var rest := ViewRows(nodes, ids[1..], v);
      assert ViewRows(nodes, ids, v) == first + rest;
      assert ids == [ids[0]] + ids[1..];
      LaterIdsAbove(ids);
      ViewRowsCount(nodes, ids[1..], v, x);
      RepeatCount(Row(ids[0], nodes[ids[0]]), Emits(v, nodes[ids[0]]), Row(x, nodes[x]));
    }
  }

  /** Rows of a view over the whole store, in document-id order. */
  function Query(nodes: map<Id, Node>, v: View): (r: seq<Row>)
    ensures forall row | row in r :: row.id in nodes && row.doc == nodes[row.id] && Emits(v, row.doc) > 0
    ensures forall x | x in nodes && Emits(v, nodes[x]) > 0 :: Row(x, nodes[x]) in r
    ensures forall i, j | 0 <= i < j < |r| :: r[i].id <= r[j].id
    ensures Single(v) ==> forall i, j | 0 <= i < j < |r| :: r[i].id < r[j].id
  {
    ViewRowsOrdered(nodes, SortedIds(nodes.Keys), v);
    ViewRows(nodes, SortedIds(nodes.Keys), v)
  }

  /** A query returns each stored document exactly as many times as it emits under the key. */
  lemma QueryCount(nodes: map<Id, Node>, v: View, x: Id)
    requires x in nodes
    ensures multiset(Query(nodes, v))[Row(x, nodes[x])] == Emits(v, nodes[x])
  {
    ViewRowsCount(nodes, SortedIds(nodes.Keys), v, x);
  }
}
