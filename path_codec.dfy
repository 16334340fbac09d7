/**
 * The path codec of a location: the `::`-joined hierarchical name built from
 * the root-first list of ancestor placenames plus the location's own
 * placename, the Ruby `String#split('::')` that takes such a name apart
 * again, and the list of ancestor names (app/models/location.rb:111-118,
 * 175-181, 201-212).
 */
module PathCodec {

  /** The separator between placenames in a hierarchical name. */
  const Separator: string := "::"

  /** Ruby's `[[:space:]]` class on a Unicode string: the characters `String#blank?` skips. */
  predicate IsSpace(c: char) {
    || c == ' ' || c == '\t' || c == '\n' || c == '\U{B}' || c == '\U{C}' || c == '\r'
    || c == '\U{85}' || c == '\U{A0}' || c == '\U{1680}'
    || ('\U{2000}' <= c <= '\U{200A}')
    || c == '\U{2028}' || c == '\U{2029}' || c == '\U{202F}' || c == '\U{205F}' || c == '\U{3000}'
  }

  /** `String#blank?` (and the negation of `present?`): empty or white space only. `nil` is "". */
  predicate IsBlank(s: string) {
    forall i | 0 <= i < |s| :: IsSpace(s[i])
  }

  /** No `:` anywhere, so the string cannot interfere with the separator. */
  predicate NoColon(s: string) {
    forall i | 0 <= i < |s| :: s[i] != ':'
  }

  /** Every component is colon-free. */
  predicate AllNoColon(parts: seq<string>) {
    forall i | 0 <= i < |parts| :: NoColon(parts[i])
  }

  /** `Array#join('::')`: the parts with the separator between neighbours. */
  function Join(parts: seq<string>): string {
    if |parts| == 0 then ""
    else if |parts| == 1 then parts[0]
    else parts[0] + Separator + Join(parts[1..])
  }

  /** Appending a part to a non-empty list appends the separator and the part to its join. */
  lemma {:induction false} JoinSnoc(parts: seq<string>, x: string)
    requires |parts| >= 1
    ensures Join(parts + [x]) == Join(parts) + Separator + x
  {
    if |parts| == 1 {
      assert parts + [x] == [parts[0], x];
      assert ([parts[0], x])[1..] == [x];
    } else {
      assert (parts + [x])[1..] == parts[1..] + [x];
      JoinSnoc(parts[1..], x);
    }
  }

  /**
   * `hierarchical_name` (location.rb:175-181): `hierarchy + [placename]` joined
   * when the hierarchy is present, `[placename]` joined otherwise. The result is
   * the name of the parent path, the separator and the placename; a root's name
   * is its placename.
   */
  function HierarchicalName(hierarchy: seq<string>, placename: string): (r: string)
    ensures hierarchy == [] ==> r == placename
    ensures hierarchy != [] ==> r == Join(hierarchy) + Separator + placename
  {
    if hierarchy != [] then
      JoinSnoc(hierarchy, placename);
      Join(hierarchy + [placename])
    else
      Join([placename])
  }

  /**
   * The raw fields of `s` cut at each `::`, scanning left to right without
   * overlap (so ":::" is one separator followed by ":"), before Ruby drops
   * trailing empty fields. There is always at least one field.
   */
  function Fields(s: string): (r: seq<string>)
    ensures |r| >= 1
    decreases |s|
  {
    if |s| >= 2 && s[0] == ':' && s[1] == ':' then
      [""] + Fields(s[2..])
    else if |s| == 0 then
      [""]
    else
      var rest := Fields(s[1..]);
      [[s[0]] + rest[0]] + rest[1..]
  }

  /** Joining the raw fields gives back the string: no character is lost or invented. */
  lemma {:induction false} JoinFields(s: string)
    ensures Join(Fields(s)) == s
    decreases |s|
  {
    if |s| >= 2 && s[0] == ':' && s[1] == ':' {
      JoinFields(s[2..]);
      JoinFieldsAfterSeparator(s);
    } else if |s| > 0 {
      JoinFields(s[1..]);
      JoinFieldsAfterChar(s);
    }
  }

  /** The step of `JoinFields` for a string that starts with the separator. */
  lemma JoinFieldsAfterSeparator(s: string)
    requires |s| >= 2 && s[0] == ':' && s[1] == ':'
    requires Join(Fields(s[2..])) == s[2..]
    ensures Join(Fields(s)) == s
  {
    var f := Fields(s[2..]);
    assert Fields(s) == [""] + f;
    assert ([""] + f)[1..] == f;
    assert s == "" + Separator + s[2..];
  }

  /** The step of `JoinFields` for a string that starts with another character. */
  lemma JoinFieldsAfterChar(s: string)
    requires |s| > 0 && !(|s| >= 2 && s[0] == ':' && s[1] == ':')
    requires Join(Fields(s[1..])) == s[1..]
    ensures Join(Fields(s)) == s
  {
    var rest := Fields(s[1..]);
    assert Fields(s) == [[s[0]] + rest[0]] + rest[1..];
    JoinConsChar(s[0], rest);
    assert s == [s[0]] + s[1..];
  }

  /** Putting a character in front of the first part puts it in front of the join. */
  lemma JoinConsChar(c: char, parts: seq<string>)
    requires |parts| >= 1
    ensures Join([[c] + parts[0]] + parts[1..]) == [c] + Join(parts)
  {
    var r := [[c] + parts[0]] + parts[1..];
    if |parts| > 1 {
      var tail := Join(parts[1..]);
      assert r[1..] == parts[1..];
      assert Join(r) == ([c] + parts[0]) + Separator + tail;
      ConcatAssoc([c], parts[0], Separator);
      ConcatAssoc([c], parts[0] + Separator, tail);
    }
  }

  lemma ConcatAssoc(a: string, b: string, c: string)
    ensures (a + b) + c == a + (b + c)
  {
  }

  /** Removes empty fields from the end, as `String#split` does without a limit. */
  function DropTrailingEmpty(fields: seq<string>): (r: seq<string>)
    ensures r <= fields
    ensures r != [] ==> r[|r| - 1] != ""
    ensures forall i | |r| <= i < |fields| :: fields[i] == ""
  {
    if fields != [] && fields[|fields| - 1] == "" then
      DropTrailingEmpty(fields[..|fields| - 1])
    else
      fields
  }

  /** Ruby's `s.split('::')`. */
  function Split(s: string): seq<string> {
    DropTrailingEmpty(Fields(s))
  }

  /** `Location.placenames_from_name` (location.rb:111-114): `[]` for a blank name, else the split. */
  function PlacenamesFromName(name: string): seq<string> {
    if IsBlank(name) then [] else Split(name)
  }

  /** `Location.placename_from_name` (location.rb:116-118): the last placename, or "" when there is none. */
  function PlacenameFromName(name: string): string {
    var placenames := PlacenamesFromName(name);
    if placenames == [] then "" else placenames[|placenames| - 1]
  }

  /** A colon-free string is a single field. */
  lemma {:induction false} FieldsOfPlain(p: string)
    requires NoColon(p)
    ensures Fields(p) == [p]
    decreases |p|
  {
    if |p| > 0 {
      FieldsOfPlain(p[1..]);
      assert [p[0]] + p[1..] == p;
    }
  }

  /** A colon-free string followed by the separator is split off as the first field. */
  lemma {:induction false} FieldsAfterPlain(p: string, t: string)
    requires NoColon(p)
    ensures Fields(p + Separator + t) == [p] + Fields(t)
    decreases |p|
  {
    var s := p + Separator + t;
    if |p| == 0 {
      assert s[2..] == t;
    } else {
      assert s[1..] == p[1..] + Separator + t;
      FieldsAfterPlain(p[1..], t);
      assert [p[0]] + p[1..] == p;
    }
  }

  /** Splitting the join of colon-free parts gives the parts back, empty ones included. */
  lemma {:induction false} FieldsOfJoin(parts: seq<string>)
    requires |parts| >= 1 && AllNoColon(parts)
    ensures Fields(Join(parts)) == parts
  {
    if |parts| == 1 {
      FieldsOfPlain(parts[0]);
    } else {
      FieldsOfJoin(parts[1..]);
      FieldsAfterPlain(parts[0], Join(parts[1..]));
      assert [parts[0]] + parts[1..] == parts;
    }
  }

  /** A name with a separator in it is not blank. */
  lemma NameWithSeparatorIsNotBlank(front: string, back: string)
    ensures !IsBlank(front + Separator + back)
  {
    assert (front + Separator + back)[|front|] == ':';
  }

  /**
   * Round trip of the codec: when the placename passes the presence validation
   * (location.rb:61) and no component holds a `:`, decoding the hierarchical
   * name gives back `hierarchy + [placename]` and its last placename.
   */
  lemma RoundTrip(hierarchy: seq<string>, placename: string)
    requires !IsBlank(placename)
    requires AllNoColon(hierarchy) && NoColon(placename)
    ensures PlacenamesFromName(HierarchicalName(hierarchy, placename)) == hierarchy + [placename]
    ensures PlacenameFromName(HierarchicalName(hierarchy, placename)) == placename
  {
    var parts := hierarchy + [placename];
    var name := HierarchicalName(hierarchy, placename);
    HierarchicalNameIsJoin(hierarchy, placename);
    assert name == Join(parts);
    if hierarchy != [] {
      NameWithSeparatorIsNotBlank(Join(hierarchy), placename);
    }
    assert placename != "";
    FieldsOfJoin(parts);
  }

  /** The hierarchical name is the join of the whole path. */
  lemma HierarchicalNameIsJoin(hierarchy: seq<string>, placename: string)
    ensures HierarchicalName(hierarchy, placename) == Join(hierarchy + [placename])
  {
    if hierarchy != [] {
      JoinSnoc(hierarchy, placename);
    } else {
      assert hierarchy + [placename] == [placename];
    }
  }

  /** A blank name decodes to no placenames and to the empty placename. */
  lemma BlankNameDecodesToNothing(name: string)
    requires IsBlank(name)
    ensures PlacenamesFromName(name) == [] && PlacenameFromName(name) == ""
  {
  }

  /**
   * What `ancestor_names` computes (location.rb:201-212): for each position i of
   * the hierarchy, the join of its first i + 1 entries.
   */
  function AncestorNamesOf(hierarchy: seq<string>): seq<string> {
    seq(|hierarchy|, i requires 0 <= i < |hierarchy| => Join(hierarchy[..i + 1]))
  }

  /**
   * `ancestor_names` (location.rb:201-212): fills the list position by
   * position, the first entry being the root's placename and each later one
   * the previous entry, `::` and the next placename.
   */
  method AncestorNames(hierarchy: seq<string>) returns (ancestorList: seq<string>)
    ensures ancestorList == AncestorNamesOf(hierarchy)
  {
    ancestorList := [];
    for index := 0 to |hierarchy|
      invariant |ancestorList| == index
      invariant forall k | 0 <= k < index :: ancestorList[k] == Join(hierarchy[..k + 1])
    {
      if index == 0 {
        ancestorList := ancestorList + [hierarchy[index]];
      } else {
        assert hierarchy[..index + 1] == hierarchy[..index] + [hierarchy[index]];
        JoinSnoc(hierarchy[..index], hierarchy[index]);
        ancestorList := ancestorList + [ancestorList[index - 1] + Separator + hierarchy[index]];
      }
    }
  }

  /**
   * The ancestor names have the hierarchy's length; the first is the root's
   * placename, each one extends the one before by `::` and the next placename,
   * and entry i is the hierarchical name of the ancestor at depth i (whose own
   * hierarchy is the first i entries).
   */
  lemma AncestorNamesChain(hierarchy: seq<string>)
    ensures |AncestorNamesOf(hierarchy)| == |hierarchy|
    ensures hierarchy != [] ==> AncestorNamesOf(hierarchy)[0] == hierarchy[0]
    ensures forall i | 0 <= i < |hierarchy| - 1 ::
      AncestorNamesOf(hierarchy)[i + 1] == AncestorNamesOf(hierarchy)[i] + Separator + hierarchy[i + 1]
    ensures forall i | 0 <= i < |hierarchy| ::
      AncestorNamesOf(hierarchy)[i] == HierarchicalName(hierarchy[..i], hierarchy[i])
  {
    var names := AncestorNamesOf(hierarchy);
    forall i | 0 <= i < |hierarchy| - 1
      ensures names[i + 1] == names[i] + Separator + hierarchy[i + 1]
    {
      assert hierarchy[..i + 2] == hierarchy[..i + 1] + [hierarchy[i + 1]];
      JoinSnoc(hierarchy[..i + 1], hierarchy[i + 1]);
    }
    forall i | 0 <= i < |hierarchy|
      ensures names[i] == HierarchicalName(hierarchy[..i], hierarchy[i])
    {
      assert hierarchy[..i + 1] == hierarchy[..i] + [hierarchy[i]];
      HierarchicalNameIsJoin(hierarchy[..i], hierarchy[i]);
    }
  }

  /**
   * Each ancestor name decodes to the path of that ancestor, when the
   * placenames in the hierarchy are present and colon-free.
   */
  lemma AncestorNamesDecode(hierarchy: seq<string>, i: nat)
    requires i < |hierarchy|
    requires AllNoColon(hierarchy)
    requires forall k | 0 <= k < |hierarchy| :: !IsBlank(hierarchy[k])
    ensures PlacenamesFromName(AncestorNamesOf(hierarchy)[i]) == hierarchy[..i + 1]
  {
    AncestorNamesChain(hierarchy);
    assert hierarchy[..i + 1] == hierarchy[..i] + [hierarchy[i]];
    RoundTrip(hierarchy[..i], hierarchy[i]);
  }
}
