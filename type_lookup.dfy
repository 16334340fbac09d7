/**
 * `Location.find_types_in_hierarchy` (app/models/location.rb:138-147): the
 * locations named by the placenames of a hierarchical name, searched for the
 * first of several location types.
 */
module TypeLookup {
  import opened Wrappers
  import opened PathCodec
  import opened LocationNode
  import opened ViewQuery
  import opened Views

  /** `rows.select { |loc| loc.type == t }`: the rows of type `t`, in their order. */
  function OfType(rows: seq<Row>, t: string): (r: seq<Row>)
    ensures |r| <= |rows|
  {
    if rows == [] then []
    else (if rows[0].doc.locationType == Some(t) then [rows[0]] else []) + OfType(rows[1..], t)
  }

  /** The selection holds exactly the rows of type `t`. */
  lemma {:induction false} OfTypeMembers(rows: seq<Row>, t: string)
    ensures forall row | row in OfType(rows, t) :: row in rows && row.doc.locationType == Some(t)
    ensures forall row | row in rows && row.doc.locationType == Some(t) :: row in OfType(rows, t)
    decreases |rows|
  {
    if rows != [] {
      OfTypeMembers(rows[1..], t);
      assert rows == [rows[0]] + rows[1..];
    }
  }

  /** Ruby's `Array#last`: the last element, or `nil` for an empty array. */
  function LastOf(rows: seq<Row>): (r: Option<Row>)
    ensures r.None? <==> rows == []
    ensures r.Some? ==> r.value in rows
  {
    if rows == [] then None else Some(rows[|rows| - 1])
  }

  /**
   * The last row of a selection by type is a row of that type after which no
   * row of that type follows.
   */
  lemma {:induction false} LastOfTypeIsLastMatch(rows: seq<Row>, t: string)
    requires OfType(rows, t) != []
    ensures exists k | 0 <= k < |rows| ::
      LastOf(OfType(rows, t)) == Some(rows[k]) && rows[k].doc.locationType == Some(t) &&
      forall j | k < j < |rows| :: rows[j].doc.locationType != Some(t)
    decreases |rows|
  {
    var tail := OfType(rows[1..], t);
    if tail == [] {
      OfTypeMembers(rows[1..], t);
      assert rows[0].doc.locationType == Some(t) && OfType(rows, t) == [rows[0]];
      forall j | 0 < j < |rows|
        ensures rows[j].doc.locationType != Some(t)
      {
        assert rows[1..][j - 1] == rows[j];
      }
      assert LastOf(OfType(rows, t)) == Some(rows[0]);
    } else {
      LastOfTypeIsLastMatch(rows[1..], t);
      var k :| 0 <= k < |rows[1..]| &&
        LastOf(tail) == Some(rows[1..][k]) && rows[1..][k].doc.locationType == Some(t) &&
        forall j | k < j < |rows[1..]| :: rows[1..][j].doc.locationType != Some(t);
      assert LastOf(OfType(rows, t)) == LastOf(tail);
      forall j | k + 1 < j < |rows|
        ensures rows[j].doc.locationType != Some(t)
      {
        assert rows[1..][j - 1] == rows[j];
      }
    }
  }

  /** Rows none of which has type `t` select nothing. */
  lemma {:induction false} NoneOfType(rows: seq<Row>, t: string)
    requires forall x | x in rows :: x.doc.locationType != Some(t)
    ensures OfType(rows, t) == []
    decreases |rows|
  {
    if rows != [] {
      assert rows[0] in rows;
      assert forall x | x in rows[1..] :: x in rows;
      NoneOfType(rows[1..], t);
    }
  }

  /** Ruby truthiness of an Array: every array, the empty one included, is true. */
  predicate Truthy(a: seq<Row>) {
    true
  }

  /**
   * What `find_types_in_hierarchy` answers as written: `break if result`
   * always breaks after the first type, so only that type is consulted and
   * the answer is the last location of that type, or `nil`.
   */
  function TypesAsWritten(locations: seq<Row>, types: seq<string>): (r: Option<Row>)
    ensures r.None? <==> types == [] || forall row | row in locations :: row.doc.locationType != Some(types[0])
    ensures r.Some? ==> r.value in locations && r.value.doc.locationType == Some(types[0])
  {
    if types == [] then None
    else
      var selected := OfType(locations, types[0]);
      OfTypeMembers(locations, types[0]);
      assert selected == [] <==> forall row | row in locations :: row.doc.locationType != Some(types[0]) by {
        if selected != [] {
          assert selected[0] in selected;
        }
      }
      LastOf(selected)
  }

  /**
   * The answer as written is the location of the first type whose placename
   * is listed latest: `by_placename(keys:)` returns its rows key by key, and
   * `.last` takes the last row of the type.
   */
  lemma TypesAsWrittenTakesLatestKey(nodes: map<Id, Node>, placenames: seq<string>, types: seq<string>)
    requires types != [] && TypesAsWritten(ByPlacenames(nodes, placenames), types).Some?
    ensures forall row | row in ByPlacenames(nodes, placenames) && row.doc.locationType == Some(types[0]) ::
      KeyPair(placenames, row.doc.placename, TypesAsWritten(ByPlacenames(nodes, placenames), types).value.doc.placename)
  {
    var rows := ByPlacenames(nodes, placenames);
    assert TypesAsWritten(rows, types) == LastOf(OfType(rows, types[0]));
    LastOfTypeTakesLatestKey(rows, placenames, types[0]);
  }

  /** In rows that come key by key, the last row of a type has the latest key of all rows of that type. */
  lemma LastOfTypeTakesLatestKey(rows: seq<Row>, keys: seq<string>, t: string)
    requires InKeyOrder(rows, keys, false) && forall row | row in rows :: row.doc.placename in keys
    requires OfType(rows, t) != []
    ensures forall row | row in rows && row.doc.locationType == Some(t) ::
      KeyPair(keys, row.doc.placename, LastOf(OfType(rows, t)).value.doc.placename)
  {
    LastOfTypeIsLastMatch(rows, t);
    var k :| 0 <= k < |rows| && LastOf(OfType(rows, t)) == Some(rows[k]) && rows[k].doc.locationType == Some(t) &&
      forall j | k < j < |rows| :: rows[j].doc.locationType != Some(t);
    forall row | row in rows && row.doc.locationType == Some(t)
      ensures KeyPair(keys, row.doc.placename, rows[k].doc.placename)
    {
      var j :| 0 <= j < |rows| && rows[j] == row;
      assert j <= k;
      if j == k {
        var m :| 0 <= m < |keys| && keys[m] == row.doc.placename;
        PairAt(keys, m, m);
      } else {
        assert KeyPair(keys, RowKey(rows[j], false), RowKey(rows[k], false));
      }
    }
  }

  /**
   * `find_types_in_hierarchy` (location.rb:138-147) as written: the
   * locations whose placenames the name lists, then one selection per type
   * until `result` is truthy, then the last location of that selection.
   */
  method FindTypesInHierarchy(nodes: map<Id, Node>, name: string, types: seq<string>) returns (r: Option<Row>)
    ensures r == TypesAsWritten(ByPlacenames(nodes, PlacenamesFromName(name)), types)
  {
    var placenames := PlacenamesFromName(name);
    var locations := ByPlacenames(nodes, placenames);
    var result: seq<Row> := [];
    var i := 0;
    var stop := false;
    while i < |types| && !stop
      invariant i <= |types|
      invariant stop <==> i > 0
      invariant i == 0 ==> result == []
      invariant i > 0 ==> i == 1 && result == OfType(locations, types[0])
    {
      result := OfType(locations, types[i]);
      stop := Truthy(result);
      i := i + 1;
    }
    r := LastOf(result);
  }

  /** Index of the first type some location has, or the number of types when none has any. */
  function FirstPresent(locations: seq<Row>, types: seq<string>): (k: nat)
    ensures k <= |types|
    ensures k < |types| ==> OfType(locations, types[k]) != []
    ensures forall j | 0 <= j < k :: OfType(locations, types[j]) == []
    decreases |types|
  {
    if types == [] then 0
    else if OfType(locations, types[0]) != [] then 0
    else
      var k := FirstPresent(locations, types[1..]);
      NoneBeforeShift(locations, types, k);
      1 + k
  }

  /**
   * Moving from the later types to all of them shifts the first present type
   * by one: none before k+1 is present, and the type at k+1, if any, is.
   */
  lemma NoneBeforeShift(locations: seq<Row>, types: seq<string>, k: nat)
    requires types != [] && k < |types| && OfType(locations, types[0]) == []
    requires forall j | 0 <= j < k :: OfType(locations, types[1..][j]) == []
    requires k < |types[1..]| ==> OfType(locations, types[1..][k]) != []
    ensures forall j | 0 <= j < k + 1 :: OfType(locations, types[j]) == []
    ensures k + 1 < |types| ==> OfType(locations, types[k + 1]) != []
  {
    forall j | 0 < j < k + 1
      ensures OfType(locations, types[j]) == []
    {
      assert types[j] == types[1..][j - 1];
    }
    if k + 1 < |types| {
      assert types[k + 1] == types[1..][k];
    }
  }

  /**
   * What `find_types_in_hierarchy` is documented to answer: the last
   * location of the first type that any location has, or `nil` when none
   * has any of the types.
   */
  function FirstMatching(locations: seq<Row>, types: seq<string>): (r: Option<Row>)
    ensures r.None? <==> forall k | 0 <= k < |types| :: OfType(locations, types[k]) == []
    ensures r.Some? ==>
      r.value in locations && FirstPresent(locations, types) < |types| &&
      r.value.doc.locationType == Some(types[FirstPresent(locations, types)])
  {
    var k := FirstPresent(locations, types);
    if k < |types| then
      OfTypeMembers(locations, types[k]);
      LastOf(OfType(locations, types[k]))
    else None
  }

  /**
   * `find_types_in_hierarchy` with the loop stopping at the first selection
   * that is present, as its comment describes.
   */
  method FindFirstMatchingType(nodes: map<Id, Node>, name: string, types: seq<string>) returns (r: Option<Row>)
    ensures r == FirstMatching(ByPlacenames(nodes, PlacenamesFromName(name)), types)
  {
    var placenames := PlacenamesFromName(name);
    var locations := ByPlacenames(nodes, placenames);
    var result: seq<Row> := [];
    var i := 0;
    var stop := false;
    while i < |types| && !stop
      invariant i <= |types|
      invariant stop ==> LastOf(result) == FirstMatching(locations, types)
      invariant !stop ==> result == [] && FirstMatching(locations, types[i..]) == FirstMatching(locations, types)
    {
      result := OfType(locations, types[i]);
      FirstMatchingFrom(locations, types, i);
      stop := result != [];
      i := i + 1;
    }
    r := LastOf(result);
  }

  /** The search from the `i`-th type stops there when that type has a location, and goes on otherwise. */
  lemma FirstMatchingFrom(locations: seq<Row>, types: seq<string>, i: nat)
    requires i < |types|
    ensures OfType(locations, types[i]) != [] ==> FirstMatching(locations, types[i..]) == LastOf(OfType(locations, types[i]))
    ensures OfType(locations, types[i]) == [] ==> FirstMatching(locations, types[i..]) == FirstMatching(locations, types[i + 1..])
  {
    assert types[i..][0] == types[i] && types[i..][1..] == types[i + 1..];
    if OfType(locations, types[i]) == [] {
      var k := FirstPresent(locations, types[i + 1..]);
      assert k < |types[i + 1..]| ==> types[i..][k + 1] == types[i + 1..][k];
    }
  }

  /** Where the first type has a location, the code as written and the documented answer agree. */
  lemma AgreeOnFirstType(locations: seq<Row>, types: seq<string>)
    requires types != [] && OfType(locations, types[0]) != []
    ensures TypesAsWritten(locations, types) == FirstMatching(locations, types)
  {
  }

  /** The country "Country1", a root at level 0. */
  const Country1: Node := Node("Country1", Some("country"), [], "Country1", Some(0), false)

  /** The name "Country1" lists the one placename "Country1". */
  lemma Country1Placenames()
    ensures PlacenamesFromName("Country1") == ["Country1"]
  {
    assert NoColon("Country1");
    FieldsOfPlain("Country1");
    assert !IsSpace("Country1"[0]);
  }

  /**
   * Looking up "Country1" for the types ["district", "country"] in a store
   * holding only that country: as written the answer is `nil`, because the
   * empty selection of districts stops the loop; the documented answer is
   * the country.
   */
  lemma FindTypesExample(nodes: map<Id, Node>)
    requires nodes == map[0 := Country1]
    ensures var locations := ByPlacenames(nodes, PlacenamesFromName("Country1"));
      TypesAsWritten(locations, ["district", "country"]) == None &&
      FirstMatching(locations, ["district", "country"]) == Some(Row(0, Country1))
  {
    Country1Placenames();
    var locations := ByPlacenames(nodes, ["Country1"]);
    assert Row(0, Country1) in locations;
    OnlyOneKind(locations, Row(0, Country1), "district", "country");
  }

  /** Locations that are all one country hold no district, so the loop as written stops empty-handed. */
  lemma OnlyOneKind(locations: seq<Row>, row: Row, first: string, second: string)
    requires row in locations && forall x | x in locations :: x == row
    requires row.doc.locationType == Some(second) && first != second
    ensures TypesAsWritten(locations, [first, second]) == None
    ensures FirstMatching(locations, [first, second]) == Some(row)
  {
    NoneOfType(locations, first);
    var seconds := OfType(locations, second);
    OfTypeMembers(locations, second);
    assert row in seconds;
    FirstMatchingFrom(locations, [first, second], 0);
    FirstMatchingFrom(locations, [first, second], 1);
    assert [first, second][1..] == [second];
  }
}
